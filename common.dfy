/**
 * Shared vocabulary of the journal model: optional values, results with the
 * exception kinds the journal can raise, and the integer ranges of the .NET
 * types it uses (`long` and the tick count of a `DateTimeOffset`).
 */
module Common {

  datatype Option<+T> = None | Some(value: T)

  /** The exceptions raised by the modelled code, one constructor per cause. */
  datatype Error =
    | InvalidFilename      // ArgumentException from JournalFile.Parse
    | NumberOverflow       // OverflowException from long.Parse
    | NumberFormat         // FormatException from long.Parse
    | TicksOutOfRange      // ArgumentOutOfRangeException from new DateTimeOffset(ticks, ...)
    | FileNotFound         // FileNotFoundException from File.Open(..., FileMode.Open)
    | SeekBeforeBegin      // IOException from Stream.Seek to a negative position
    | MalformedRecord      // a line that is not in the record writer's format

  datatype Result<+T> = Ok(value: T) | Err(error: Error)

  /** long.MinValue and long.MaxValue */
  const MinLong: int := -0x8000_0000_0000_0000
  const MaxLong: int := 0x7FFF_FFFF_FFFF_FFFF

  /** DateTimeOffset.MinValue.UtcTicks and DateTimeOffset.MaxValue.UtcTicks */
  const MinTicks: int := 0
  const MaxTicks: int := 3155378975999999999

  /** The UTC tick count of a valid `DateTimeOffset`; every timestamp is one of these. */
  type Ticks = t: int | MinTicks <= t <= MaxTicks

  /** The platform's `Environment.NewLine`. */
  predicate IsNewLine(nl: seq<char>) {
    nl == "\n" || nl == "\r\n"
  }

  /** C#'s `string.IsNullOrEmpty` on a nullable string. */
  predicate IsNullOrEmpty(s: Option<string>) {
    s.None? || s.value == ""
  }

  // Sequence identities, proved once so that callers do not redo them in larger contexts

  lemma DropCons<T>(x: T, t: seq<T>)
    ensures ([x] + t)[1..] == t
  {
  }

  lemma HeadTail<T>(s: seq<T>)
    requires |s| > 0
    ensures [s[0]] + s[1..] == s
  {
  }

  lemma ConcatHead<T>(a: seq<T>, b: seq<T>)
    requires |a| > 0
    ensures (a + b)[0] == a[0] && (a + b)[1..] == a[1..] + b
  {
  }

  lemma ConcatEmpty<T>(a: seq<T>)
    ensures [] + a == a && a + [] == a
  {
  }

  lemma Assoc<T>(a: seq<T>, b: seq<T>, c: seq<T>)
    ensures (a + b) + c == a + (b + c)
  {
  }

  lemma DropSnoc<T>(s: seq<T>, x: T)
    ensures (s + [x])[..|s|] == s && (s + [x])[|s|] == x
  {
  }

  lemma InitLast<T>(s: seq<T>)
    requires s != []
    ensures s[..|s| - 1] + [s[|s| - 1]] == s
  {
  }

  lemma SuffixCons<T>(s: seq<T>, i: int)
    requires 0 <= i < |s|
    ensures s[i..][0] == s[i] && s[i..][1..] == s[i + 1..]
  {
  }
}
