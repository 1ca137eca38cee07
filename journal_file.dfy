/**
 * The descriptor of one journal file (`JournalFile`): a sequence number and
 * the timestamp of the file's first record, encoded into and decoded from the
 * file's name "SSSSSSSS.TTTTTTTTTTTTTTTTTTT.journal".
 */
module JournalFiles {
  import opened Common
  import opened Decimal

  /** A descriptor; the timestamp is held as its UTC ticks (the source parses it back with offset zero). */
  datatype JournalFile = JournalFile(sequenceNumber: nat, firstTimestamp: Ticks)

  const SequenceWidth: nat := 8
  const TicksWidth: nat := 19
  /** Length of a name the pattern accepts, without the optional final '\n'. */
  const NameLength: nat := 36

  /** A sequence number that fits the 8-digit field. */
  predicate InRange(f: JournalFile) {
    f.sequenceNumber < 100000000
  }

  /** `Filename`: "{0:00000000}.{1:0000000000000000000}.journal". */
  function Filename(f: JournalFile): string {
    Padded(f.sequenceNumber, SequenceWidth) + "." + Padded(f.firstTimestamp, TicksWidth) + ".journal"
  }

  /** The constructor call `new JournalFile(FileSequenceNumber + 1, firstTimestamp)`. */
  function Successor(f: JournalFile, firstTimestamp: Ticks): (g: JournalFile)
    ensures g.sequenceNumber == f.sequenceNumber + 1
    ensures g.firstTimestamp == firstTimestamp
  {
    JournalFile(f.sequenceNumber + 1, firstTimestamp)
  }

  /**
   * The zero of each block of ten decimal digits (Unicode category Nd) in
   * the Basic Multilingual Plane other than the ASCII one, as of Unicode 7.
   * A .NET string is a sequence of UTF-16 code units, so digits outside this
   * plane never match a single `\d`.
   */
  const OtherDigitZeros: seq<int> := [
    0x0660, 0x06F0, 0x07C0, 0x0966, 0x09E6, 0x0A66, 0x0AE6, 0x0B66, 0x0BE6, 0x0C66,
    0x0CE6, 0x0D66, 0x0DE6, 0x0E50, 0x0ED0, 0x0F20, 0x1040, 0x1090, 0x17E0, 0x1810,
    0x1946, 0x19D0, 0x1A80, 0x1A90, 0x1B50, 0x1BB0, 0x1C40, 0x1C50, 0xA620, 0xA8D0,
    0xA900, 0xA9D0, 0xA9F0, 0xAA50, 0xABF0, 0xFF10]

  predicate InDigitBlock(c: char, zeros: seq<int>) {
    zeros != [] && (zeros[0] <= c as int <= zeros[0] + 9 || InDigitBlock(c, zeros[1..]))
  }

  /** What `\d` matches without `RegexOptions.ECMAScript`: any decimal digit, not only '0'..'9'. */
  predicate IsRegexDigit(c: char) {
    IsDigit(c) || InDigitBlock(c, OtherDigitZeros)
  }

  predicate AllRegexDigits(s: string) {
    forall i :: 0 <= i < |s| ==> IsRegexDigit(s[i])
  }

  /**
   * What an unescaped '.' matches: one UTF-16 code unit other than '\n'. A
   * character outside the Basic Multilingual Plane is two code units (a
   * surrogate pair), so '.' takes only its first half.
   */
  predicate IsDotChar(c: char) {
    c != '\n' && c as int < 0x10000
  }

  /**
   * The regular expression `^(\d{8}).(\d{19}).journal$` as the .NET engine
   * matches it: `\d` is any decimal digit, each unescaped '.' matches one
   * character as `IsDotChar` says, and '$' also matches just before a final '\n'.
   */
  predicate MatchesPattern(name: string) {
    && (|name| == NameLength || (|name| == NameLength + 1 && name[NameLength] == '\n'))
    && AllRegexDigits(name[..8]) && IsDotChar(name[8])
    && AllRegexDigits(name[9..28]) && IsDotChar(name[28])
    && name[29..36] == "journal"
  }

  /** `TrimNumber`: strip leading zeros, then `long.Parse`, with "" read as 0. */
  function TrimNumber(number: string): (r: Result<int>)
    requires AllDigits(number)
    ensures r == if Value(number) <= MaxLong then Ok(Value(number)) else Err(NumberOverflow)
  {
    var trimmed := TrimLeadingZeros(number);
    ValueOfTrimmed(number);
    if trimmed == [] then Ok(0) else LongParse(trimmed)
  }

  /** `long.Parse` on a non-empty string of ASCII digits. */
  function LongParse(digits: string): Result<int>
    requires AllDigits(digits) && digits != []
  {
    if Value(digits) <= MaxLong then Ok(Value(digits)) else Err(NumberOverflow)
  }

  /**
   * `Parse`: match the pattern, then read both fields; the ticks become a
   * `DateTimeOffset`. `TrimStart('0')` leaves any digit other than '0'..'9'
   * in place, and `long.Parse` rejects it.
   */
  function Parse(name: string): (r: Result<JournalFile>)
    ensures !MatchesPattern(name) ==> r == Err(InvalidFilename)
    ensures MatchesPattern(name) && !(AllDigits(name[..8]) && AllDigits(name[9..28])) ==> r == Err(NumberFormat)
    ensures MatchesPattern(name) && AllDigits(name[..8]) && AllDigits(name[9..28]) ==>
      r == (if Value(name[9..28]) > MaxLong then Err(NumberOverflow)
            else if Value(name[9..28]) > MaxTicks then Err(TicksOutOfRange)
            else Ok(JournalFile(Value(name[..8]), Value(name[9..28]))))
  {
    if !MatchesPattern(name) then Err(InvalidFilename)
    else if !AllDigits(name[..8]) then Err(NumberFormat)
    else
      PowersUsed();
      ValueBound(name[..8]);
      match TrimNumber(name[..8])
      case Err(e) => Err(e)
      case Ok(sequenceNumber) =>
        if !AllDigits(name[9..28]) then Err(NumberFormat)
        else
          match TrimNumber(name[9..28])
          case Err(e) => Err(e)
          case Ok(ticks) =>
            if ticks > MaxTicks then Err(TicksOutOfRange)
            else Ok(JournalFile(sequenceNumber, ticks))
  }

  // ---------------------------------------------------------------------------
  // Lemmas
  // ---------------------------------------------------------------------------

  lemma PowersUsed()
    ensures Pow10(SequenceWidth) == 100000000
    ensures Pow10(TicksWidth) == 10000000000000000000
    ensures MaxTicks < Pow10(TicksWidth)
  {
  }

  /** The two fixed-width fields of a name with arbitrary separator characters. */
  function NameOf(f: JournalFile, sep1: char, sep2: char): string {
    Padded(f.sequenceNumber, SequenceWidth) + [sep1] + Padded(f.firstTimestamp, TicksWidth) + [sep2] + "journal"
  }

  lemma FilenameIsNameOf(f: JournalFile)
    ensures Filename(f) == NameOf(f, '.', '.')
  {
  }

  /** Where the fields of an in-range name sit. */
  lemma NameOfLayout(f: JournalFile, sep1: char, sep2: char)
    requires InRange(f)
    ensures |NameOf(f, sep1, sep2)| == NameLength
    ensures NameOf(f, sep1, sep2)[..8] == Padded(f.sequenceNumber, SequenceWidth)
    ensures NameOf(f, sep1, sep2)[8] == sep1
    ensures NameOf(f, sep1, sep2)[9..28] == Padded(f.firstTimestamp, TicksWidth)
    ensures NameOf(f, sep1, sep2)[28] == sep2
    ensures NameOf(f, sep1, sep2)[29..36] == "journal"
  {
    PowersUsed();
    PaddedRoundTrip(f.sequenceNumber, SequenceWidth);
    PaddedRoundTrip(f.firstTimestamp, TicksWidth);
  }

  /**
   * Round trip: any in-range descriptor is recovered from its name, whatever
   * characters other than '\n' stand in the two separator positions, and with
   * or without a final '\n'.
   */
  lemma ParseNameOf(f: JournalFile, sep1: char, sep2: char, trailer: string)
    requires InRange(f) && IsDotChar(sep1) && IsDotChar(sep2)
    requires trailer == "" || trailer == "\n"
    ensures Parse(NameOf(f, sep1, sep2) + trailer) == Ok(f)
  {
    var name := NameOf(f, sep1, sep2);
    var full := name + trailer;
    NameOfLayout(f, sep1, sep2);
    PowersUsed();
    PaddedRoundTrip(f.sequenceNumber, SequenceWidth);
    PaddedRoundTrip(f.firstTimestamp, TicksWidth);
    assert full[..8] == name[..8];
    assert full[9..28] == name[9..28];
    assert full[29..36] == name[29..36];
    DigitsMatch(full[..8]);
    DigitsMatch(full[9..28]);
    assert MatchesPattern(full);
  }

  /**
   * A separator outside the Basic Multilingual Plane is two UTF-16 code units:
   * '.' takes the first, `\d` meets the second, and the name is rejected.
   */
  lemma ParseRejectsWideSeparator(f: JournalFile, sep1: char, sep2: char)
    requires InRange(f) && (!IsDotChar(sep1) || !IsDotChar(sep2))
    ensures Parse(NameOf(f, sep1, sep2)) == Err(InvalidFilename)
    ensures Parse(NameOf(f, sep1, sep2) + "\n") == Err(InvalidFilename)
  {
    NameOfLayout(f, sep1, sep2);
    var name := NameOf(f, sep1, sep2);
    assert (name + "\n")[8] == name[8] && (name + "\n")[28] == name[28];
  }

  lemma DigitsMatch(s: string)
    requires AllDigits(s)
    ensures AllRegexDigits(s)
  {
  }

  /** A name that matches only because a field holds another script's digit, here an Arabic-Indic zero. */
  lemma ParseRejectsOtherDigits(f: JournalFile)
    requires InRange(f)
    ensures var name := Filename(f);
            var other := name[..7] + [0x0660 as char] + name[8..];
            MatchesPattern(other) && Parse(other) == Err(NumberFormat)
  {
    var name := Filename(f);
    var d := 0x0660 as char;
    ParseFilename(f);
    assert InDigitBlock(d, OtherDigitZeros);
    ReplaceDigit(name, d);
  }

  /** Replacing the last digit of the sequence field by another digit keeps the match. */
  lemma ReplaceDigit(name: string, d: char)
    requires MatchesPattern(name) && IsRegexDigit(d)
    ensures var other := name[..7] + [d] + name[8..];
            MatchesPattern(other) && (!IsDigit(d) ==> !AllDigits(other[..8]))
  {
    var other := name[..7] + [d] + name[8..];
    assert |other| == |name| && other[7] == d;
    assert other[..8] == name[..8][..7] + [d];
    assert other[8..] == name[8..];
    assert other[9..28] == other[8..][1..20] == name[8..][1..20] == name[9..28];
    assert other[29..36] == other[8..][21..28] == name[8..][21..28] == name[29..36];
    RegexDigitsSnoc(name[..8][..7], d);
  }

  lemma RegexDigitsSnoc(s: string, c: char)
    requires AllRegexDigits(s) && IsRegexDigit(c)
    ensures AllRegexDigits(s + [c])
  {
  }

  /** `Parse(Filename(f))` gives back `f` whenever the sequence number fits 8 digits. */
  lemma ParseFilename(f: JournalFile)
    requires InRange(f)
    ensures Parse(Filename(f)) == Ok(f)
  {
    FilenameIsNameOf(f);
    ParseNameOf(f, '.', '.', "");
    assert Filename(f) + "" == Filename(f);
  }

  /** A sequence number of nine or more digits produces a name that `Parse` rejects. */
  lemma {:induction false} ParseRejectsWideSequence(f: JournalFile)
    requires !InRange(f)
    ensures Parse(Filename(f)) == Err(InvalidFilename)
  {
    PowersUsed();
    var p := Padded(f.sequenceNumber, SequenceWidth);
    assert |p| >= 9 by {
      ValueOfDigits(f.sequenceNumber);
      ValueBound(Digits(f.sequenceNumber));
      if |Digits(f.sequenceNumber)| <= 8 {
        Pow10Monotone(|Digits(f.sequenceNumber)|, 8);
      }
    }
    var name := Filename(f);
    assert name[|name| - 1] == 'l';
  }

  lemma {:induction false} Pow10Monotone(i: nat, j: nat)
    requires i <= j
    ensures Pow10(i) <= Pow10(j)
  {
    if i < j {
      Pow10Monotone(i, j - 1);
    }
  }

  /**
   * Names sort like their descriptors: for in-range sequence numbers, ordinal
   * order of the names is the lexicographic order of (sequence number, ticks).
   */
  lemma FilenameOrder(a: JournalFile, b: JournalFile)
    requires InRange(a) && InRange(b)
    ensures OrdinalLess(Filename(a), Filename(b)) <==>
      a.sequenceNumber < b.sequenceNumber
      || (a.sequenceNumber == b.sequenceNumber && a.firstTimestamp < b.firstTimestamp)
  {
    PowersUsed();
    var sa, sb := Padded(a.sequenceNumber, SequenceWidth), Padded(b.sequenceNumber, SequenceWidth);
    var ta, tb := Padded(a.firstTimestamp, TicksWidth), Padded(b.firstTimestamp, TicksWidth);
    PaddedRoundTrip(a.sequenceNumber, SequenceWidth);
    PaddedRoundTrip(b.sequenceNumber, SequenceWidth);
    PaddedRoundTrip(a.firstTimestamp, TicksWidth);
    PaddedRoundTrip(b.firstTimestamp, TicksWidth);
    var tail := ".journal";
    assert Filename(a) == sa + (['.'] + (ta + tail));
    assert Filename(b) == sb + (['.'] + (tb + tail));
    OrdinalLessConcat(sa, ['.'] + (ta + tail), sb, ['.'] + (tb + tail));
    OrdinalLessConcat(['.'], ta + tail, ['.'], tb + tail);
    OrdinalLessIrreflexive(['.']);
    OrdinalLessConcat(ta, tail, tb, tail);
    OrdinalLessIrreflexive(tail);
    OrdinalLessIsNumericLess(sa, sb);
    OrdinalLessIsNumericLess(ta, tb);
    if sa == sb {
      assert a.sequenceNumber == b.sequenceNumber;
    }
    if a.sequenceNumber == b.sequenceNumber {
      assert sa == sb;
    }
    if ta == tb {
      assert a.firstTimestamp == b.firstTimestamp;
    }
  }

  /** The name of a successor sorts after the name of its predecessor. */
  lemma SuccessorSortsAfter(f: JournalFile, t: Ticks)
    requires InRange(Successor(f, t))
    ensures OrdinalLess(Filename(f), Filename(Successor(f, t)))
  {
    FilenameOrder(f, Successor(f, t));
  }

  /** Distinct in-range descriptors have distinct names. */
  lemma FilenameInjective(a: JournalFile, b: JournalFile)
    requires InRange(a) && InRange(b)
    requires Filename(a) == Filename(b)
    ensures a == b
  {
    ParseFilename(a);
    ParseFilename(b);
  }
}
