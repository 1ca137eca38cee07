/**
 * `JournalReader.ReadLatestTimestamp`: find the last line of a file by
 * scanning backwards from the end for a newline, then read the "t" value of
 * that line.
 */
module LatestTimestamp {
  import opened Common
  import opened Payloads
  import opened RecordCodec

  /** The newline occupies `content[p .. p + |nl|]`. */
  predicate NewLineAt(content: string, nl: string, p: int) {
    0 <= p && p + |nl| <= |content| && content[p..p + |nl|] == nl
  }

  /**
   * Where the backward scan settles. It tests the positions |content|-|nl|-1,
   * |content|-|nl|-2, ... down to 1 for a newline (so the trailing newline of
   * the last record is never tested), and stops at 0 without testing it. The
   * last line starts just after the newline found, or at 0.
   */
  predicate IsLastLineStart(content: string, nl: string, q: int) {
    && |content| > |nl|
    && (|| (q == 0 && forall p :: 1 <= p < |content| - |nl| ==> !NewLineAt(content, nl, p))
        || (&& |nl| < q <= |content| - 1
            && NewLineAt(content, nl, q - |nl|)
            && forall p :: q - |nl| < p < |content| - |nl| ==> !NewLineAt(content, nl, p)))
  }

  /** The scan from position `p` downwards, all positions above `p` already tested. */
  function LastLineStartFrom(content: string, nl: string, p: nat): (q: nat)
    requires |content| > |nl| && p < |content| - |nl|
    requires forall i :: p < i < |content| - |nl| ==> !NewLineAt(content, nl, i)
    ensures IsLastLineStart(content, nl, q)
  {
    if p == 0 then 0
    else if NewLineAt(content, nl, p) then p + |nl|
    else LastLineStartFrom(content, nl, p - 1)
  }

  function LastLineStart(content: string, nl: string): (q: nat)
    requires |content| > |nl|
    ensures IsLastLineStart(content, nl, q)
  {
    LastLineStartFrom(content, nl, |content| - |nl| - 1)
  }

  /**
   * The latest timestamp of a file: a file no longer than the newline makes
   * the first seek land before the beginning; an empty last line gives
   * `DateTimeOffset.MinValue`; otherwise the line's ticks, which must form a
   * valid `DateTimeOffset`.
   */
  function LatestTimestampOf(content: string, nl: string): Result<Ticks> {
    if |content| <= |nl| then Err(SeekBeforeBegin)
    else
      var lastLine := content[LastLineStart(content, nl)..];
      if lastLine == [] then Ok(MinTicks)
      else
        var head := DecodeTicks(lastLine);
        if head.Err? then Err(head.error)
        else if head.value.0 < MinTicks || head.value.0 > MaxTicks then Err(TicksOutOfRange)
        else Ok(head.value.0)
  }

  /** `ReadLatestTimestamp` on a stream over `content`; the seeks become positions. */
  method ReadLatestTimestamp(content: string, nl: string) returns (r: Result<Ticks>)
    requires IsNewLine(nl)
    ensures r == LatestTimestampOf(content, nl)
    ensures |content| <= |nl| <==> r == Err(SeekBeforeBegin)
  {
    var length := |content|;
    var charSize := |nl|;
    var offset := charSize;
    var position := 0;
    while true
      invariant charSize <= offset
      invariant offset > charSize ==> offset < length
      invariant forall p :: length - offset <= p < length - charSize ==> !NewLineAt(content, nl, p)
      decreases length + 2 - offset
    {
      offset := offset + 1;
      position := length - offset;
      if position < 0 {
        return Err(SeekBeforeBegin);
      }
      if position == 0 {
        break;
      }
      if content[position..position + charSize] == nl {
        position := position + charSize;
        break;
      }
    }
    assert IsLastLineStart(content, nl, position);
    LastLineStartUnique(content, nl, position, LastLineStart(content, nl));
    // The scan never settles at the end of the file (`LastLineNotEmpty`), so
    // the `IsNullOrEmpty(lastLine)` test that follows in the source never fires.
    var lastLine := content[position..];
    var head := DecodeTicks(lastLine);
    if head.Err? {
      return Err(head.error);
    }
    var utcTicks := head.value.0;
    if utcTicks < MinTicks || utcTicks > MaxTicks {
      return Err(TicksOutOfRange);
    }
    return Ok(utcTicks);
  }

  // ---------------------------------------------------------------------------
  // Lemmas
  // ---------------------------------------------------------------------------

  /** The scan has exactly one place to settle. */
  lemma LastLineStartUnique(content: string, nl: string, q1: int, q2: int)
    requires IsLastLineStart(content, nl, q1) && IsLastLineStart(content, nl, q2)
    ensures q1 == q2
  {
  }

  /** The last line starts past the last position the scan can test, so it is never empty. */
  lemma LastLineNotEmpty(content: string, nl: string)
    requires |content| > |nl|
    ensures LastLineStart(content, nl) < |content|
  {
  }

  /** A newline cannot start at a character that is not a line break. */
  lemma NoNewLineAtLineChar(content: string, nl: string, p: int)
    requires IsNewLine(nl) && 0 <= p < |content| && !IsLineBreak(content[p])
    ensures !NewLineAt(content, nl, p)
  {
    if p + |nl| <= |content| {
      assert content[p..p + |nl|][0] == content[p];
    }
  }

  /**
   * A text whose last line `t` follows `prefix`, which is empty or ends with a
   * newline: the scan settles at the start of `t`.
   */
  lemma LastLineAfter(prefix: string, t: string, nl: string)
    requires IsNewLine(nl) && NoLineBreak(t) && t != []
    requires prefix == [] || (|prefix| > |nl| && prefix[|prefix| - |nl|..] == nl)
    ensures |prefix + t + nl| > |nl|
    ensures LastLineStart(prefix + t + nl, nl) == |prefix|
  {
    var content := prefix + t + nl;
    var q := |prefix|;
    forall p | q <= p < |content| - |nl|
      ensures !NewLineAt(content, nl, p)
    {
      assert content[p] == t[p - q];
      NoNewLineAtLineChar(content, nl, p);
    }
    if prefix != [] {
      assert content[q - |nl|..q] == prefix[q - |nl|..];
      assert NewLineAt(content, nl, q - |nl|);
      if nl == "\r\n" {
        assert content[q - 1..q + 1][0] == content[q - 1] == '\n';
      }
    }
    assert IsLastLineStart(content, nl, q);
    LastLineStartUnique(content, nl, q, LastLineStart(content, nl));
  }

  lemma FileTextSplitLast(rs: seq<Record>, nl: string)
    requires rs != []
    ensures FileText(rs, nl) == FileText(rs[..|rs| - 1], nl) + RecordText(rs[|rs| - 1]) + nl
  {
    assert rs == rs[..|rs| - 1] + [rs[|rs| - 1]];
    FileTextSnoc(rs[..|rs| - 1], rs[|rs| - 1], nl);
  }

  lemma EndsWithNewLine(x: string, nl: string)
    requires x != []
    ensures |x + nl| > |nl|
    ensures (x + nl)[|x + nl| - |nl|..] == nl
  {
  }

  lemma FileTextEndsWithNewLine(rs: seq<Record>, nl: string)
    requires rs != []
    ensures |FileText(rs, nl)| > |nl|
    ensures FileText(rs, nl)[|FileText(rs, nl)| - |nl|..] == nl
  {
    FileTextSplitLast(rs, nl);
    RecordTextStart(rs[|rs| - 1]);
    EndsWithNewLine(FileText(rs[..|rs| - 1], nl) + RecordText(rs[|rs| - 1]), nl);
  }

  /**
   * In a file written record by record, the scan settles at the start of the
   * last record's line.
   */
  lemma LastLineOfFileText(rs: seq<Record>, nl: string)
    requires rs != [] && IsNewLine(nl)
    ensures |FileText(rs, nl)| > |nl|
    ensures LastLineStart(FileText(rs, nl), nl) == |FileText(rs[..|rs| - 1], nl)|
  {
    var n := |rs|;
    FileTextSplitLast(rs, nl);
    RecordNoLineBreak(rs[n - 1]);
    RecordTextStart(rs[n - 1]);
    if n > 1 {
      FileTextEndsWithNewLine(rs[..n - 1], nl);
    }
    LastLineAfter(FileText(rs[..n - 1], nl), RecordText(rs[n - 1]), nl);
  }

  /** The last line of a text ending with `t + nl`, as the reader sees it. */
  lemma LatestOfLastLine(content: string, nl: string, q: nat, t: Ticks, rest: string)
    requires |content| > |nl| && q == LastLineStart(content, nl)
    requires content[q..] == TicksKey + Decimal.Digits(t) + rest
    requires rest != [] && rest[0] == ','
    ensures LatestTimestampOf(content, nl) == Ok(t)
  {
    DecodeTicksOfText(t, rest);
  }

  /** The text after all records but the last is the last record's line. */
  lemma FileTextLastLine(rs: seq<Record>, nl: string)
    requires rs != []
    ensures |FileText(rs[..|rs| - 1], nl)| <= |FileText(rs, nl)|
    ensures FileText(rs, nl)[|FileText(rs[..|rs| - 1], nl)|..] == Line(rs[|rs| - 1], nl)
  {
    var n := |rs|;
    assert rs == rs[..n - 1] + [rs[n - 1]];
    FileTextSnoc(rs[..n - 1], rs[n - 1], nl);
  }

  /**
   * The latest timestamp of a non-empty file written by `Write` is the
   * timestamp of its last record.
   */
  lemma LatestOfFileText(rs: seq<Record>, nl: string)
    requires rs != [] && IsNewLine(nl)
    ensures LatestTimestampOf(FileText(rs, nl), nl) == Ok(rs[|rs| - 1].timestamp)
  {
    var n := |rs|;
    var r := rs[n - 1];
    LastLineOfFileText(rs, nl);
    FileTextLastLine(rs, nl);
    RecordTextSplit(r, nl);
    var rest := ContentsKey + PayloadsText(r.payloads) + "}" + nl;
    LatestOfLastLine(FileText(rs, nl), nl, |FileText(rs[..n - 1], nl)|, r.timestamp, rest);
  }
}
