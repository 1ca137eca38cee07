/**
 * The record format of a journal file and the record-level reader and writer
 * (`JournalPersistor.JournalWriter.Write` and `JournalPersistor.JournalReader.Read`).
 * A record is one line `{"t":<UtcTicks>,"c":[<payload>,...]}` followed by the
 * platform newline; a file is the concatenation of its records' lines.
 */
module RecordCodec {
  import opened Common
  import opened Decimal
  import opened Payloads

  /** One batch: the timestamp shared by its journalables and their targets in array order. */
  datatype Record = Record(timestamp: Ticks, payloads: seq<Payload>)

  const TicksKey: string := "{\"t\":"
  const ContentsKey: string := ",\"c\":["

  /** What the JSON writer produces for a record, before `WriteLine`. */
  function RecordText(r: Record): string {
    TicksKey + Digits(r.timestamp) + ContentsKey + PayloadsText(r.payloads) + "}"
  }

  /** The characters `Write` appends to the stream for one record. */
  function Line(r: Record, nl: string): string {
    RecordText(r) + nl
  }

  /** The content of a file holding the records `rs`, oldest first. */
  function FileText(rs: seq<Record>, nl: string): string {
    if rs == [] then [] else Line(rs[0], nl) + FileText(rs[1..], nl)
  }

  function RecordTexts(rs: seq<Record>): seq<string> {
    if rs == [] then [] else [RecordText(rs[0])] + RecordTexts(rs[1..])
  }

  // ---------------------------------------------------------------------------
  // Decoding one line
  // ---------------------------------------------------------------------------

  /**
   * Whether the JSON reader accepts the text after a number's last digit:
   * it ends the number at white space, ',', '}', ']', ')', '/' or the end of
   * the line, and throws on anything else ("5x", "5.0" read as a double that
   * the cast to `long` refuses, "5e3").
   */
  predicate EndsNumber(rest: string) {
    rest == [] || rest[0] in {' ', '\t', '\r', '\n', ',', '}', ']', ')', '/'}
  }

  /**
   * The first three JSON tokens of a line: the start of the object, the name
   * "t" and its integer value, which the reader casts to `long`. Returns the
   * value and the text after it.
   */
  function DecodeTicks(line: string): (r: Result<(int, string)>)
    ensures r.Ok? ==> MinLong <= r.value.0 <= MaxLong
    ensures r.Ok? ==> EndsNumber(r.value.1)
    ensures r.Err? ==> r.error == MalformedRecord
  {
    var s := ParseLiteral(TicksKey, line);
    if s.None? then Err(MalformedRecord) else
    var n := ParseInt(s.value);
    if n.None? then Err(MalformedRecord)
    else if n.value.0 < MinLong || n.value.0 > MaxLong then Err(MalformedRecord)
    else if !EndsNumber(n.value.1) then Err(MalformedRecord)
    else Ok(n.value)
  }

  /** The name "c" and the array after it, deserialised as `object[]`; the rest of the line is not read. */
  function DecodeContents(s: string): (r: Result<seq<Payload>>)
    ensures r.Err? ==> r.error == MalformedRecord
  {
    var s1 := ParseLiteral(ContentsKey, s);
    if s1.None? then Err(MalformedRecord) else
    var ps := ParsePayloads(s1.value);
    if ps.None? then Err(MalformedRecord) else Ok(ps.value.0)
  }

  /** The type argument of `Read<TTarget>`: `object`, or one payload type. */
  datatype TargetType = AllObjects | Tagged(typeId: nat)

  predicate IsOfType(p: Payload, target: TargetType) {
    target.AllObjects? || p.typeId == target.typeId
  }

  /** `objects.OfType<TTarget>()`: the payloads of the target type, in order. */
  function OfType(ps: seq<Payload>, target: TargetType): (r: seq<Payload>)
    ensures |r| <= |ps|
    ensures forall i :: 0 <= i < |r| ==> IsOfType(r[i], target)
    ensures forall p :: p in r <==> p in ps && IsOfType(p, target)
  {
    if ps == [] then []
    else (if IsOfType(ps[0], target) then [ps[0]] else []) + OfType(ps[1..], target)
  }

  /** The filter keeps every payload of the target type as often as it occurs, and no other. */
  lemma {:induction false} OfTypeCount(ps: seq<Payload>, target: TargetType, p: Payload)
    ensures multiset(OfType(ps, target))[p] == if IsOfType(p, target) then multiset(ps)[p] else 0
  {
    if ps != [] {
      assert ps == [ps[0]] + ps[1..];
      OfTypeCount(ps[1..], target, p);
    }
  }

  /** The filter keeps order: filtering a concatenation concatenates the filtered parts. */
  lemma {:induction false} OfTypeConcat(a: seq<Payload>, b: seq<Payload>, target: TargetType)
    ensures OfType(a + b, target) == OfType(a, target) + OfType(b, target)
  {
    if a == [] {
      assert a + b == b;
    } else {
      var h := if IsOfType(a[0], target) then [a[0]] else [];
      assert (a + b)[0] == a[0] && (a + b)[1..] == a[1..] + b;
      OfTypeCons(a + b, target);
      OfTypeConcat(a[1..], b, target);
      Assoc(h, OfType(a[1..], target), OfType(b, target));
    }
  }

  lemma OfTypeCons(ps: seq<Payload>, target: TargetType)
    requires ps != []
    ensures OfType(ps, target) == (if IsOfType(ps[0], target) then [ps[0]] else []) + OfType(ps[1..], target)
  {
  }

  /** One payload is kept exactly when it is of the target type. */
  lemma OfTypeSingle(p: Payload, target: TargetType)
    ensures OfType([p], target) == if IsOfType(p, target) then [p] else []
  {
    assert [p][1..] == [];
  }

  // ---------------------------------------------------------------------------
  // Splitting a file into lines, as `StreamReader.ReadLine` does
  // ---------------------------------------------------------------------------

  predicate IsLineBreak(c: char) {
    c == '\r' || c == '\n'
  }

  /** The length of the first line of `s`: up to the first '\r' or '\n'. */
  function LineLength(s: string): (k: nat)
    ensures k <= |s|
    ensures forall i :: 0 <= i < k ==> !IsLineBreak(s[i])
    ensures k < |s| ==> IsLineBreak(s[k])
  {
    if s == [] || IsLineBreak(s[0]) then 0 else 1 + LineLength(s[1..])
  }

  /**
   * The lines `ReadLine` returns until `EndOfStream`: a line ends at "\r",
   * "\n" or "\r\n", and a final line break does not start another line.
   */
  function SplitLines(s: string): seq<string>
    decreases |s|
  {
    if s == [] then []
    else
      var k := LineLength(s);
      if k == |s| then [s]
      else
        var skip := if s[k] == '\r' && k + 1 < |s| && s[k + 1] == '\n' then 2 else 1;
        [s[..k]] + SplitLines(s[k + skip..])
  }

  // ---------------------------------------------------------------------------
  // Reading a file
  // ---------------------------------------------------------------------------

  /** What a read produced: the items yielded, and the exception that ended it, if any. */
  datatype ReadOutcome = ReadOutcome(items: seq<Payload>, error: Option<Error>)

  function Prepend(items: seq<Payload>, o: ReadOutcome): ReadOutcome {
    ReadOutcome(items + o.items, o.error)
  }

  lemma PrependTwice(a: seq<Payload>, b: seq<Payload>, o: ReadOutcome)
    ensures Prepend(a, Prepend(b, o)) == Prepend(a + b, o)
  {
    Assoc(a, b, o.items);
  }

  /**
   * The loop of `JournalReader.Read` over the lines of one file: empty lines
   * are skipped, a record before `first` is skipped, the first record after
   * `last` ends the read, and every other record yields its payloads of the
   * target type. A line that cannot be decoded ends the read with an error.
   */
  function ReadLines(lines: seq<string>, first: int, last: int, target: TargetType): ReadOutcome {
    if lines == [] then ReadOutcome([], None)
    else if lines[0] == "" then ReadLines(lines[1..], first, last, target)
    else
      var head := DecodeTicks(lines[0]);
      if head.Err? then ReadOutcome([], Some(head.error))
      else if head.value.0 < first then ReadLines(lines[1..], first, last, target)
      else if head.value.0 > last then ReadOutcome([], None)
      else
        var ps := DecodeContents(head.value.1);
        if ps.Err? then ReadOutcome([], Some(ps.error))
        else Prepend(OfType(ps.value, target), ReadLines(lines[1..], first, last, target))
  }

  /** `JournalReader.Read` on a file's content, run to the end as `AddRange` does. */
  method Read(content: string, first: int, last: int, target: TargetType) returns (o: ReadOutcome)
    ensures o == ReadLines(SplitLines(content), first, last, target)
  {
    var lines := SplitLines(content);
    var items: seq<Payload> := [];
    var i := 0;
    while i < |lines|
      invariant 0 <= i <= |lines|
      invariant ReadLines(lines, first, last, target) == Prepend(items, ReadLines(lines[i..], first, last, target))
    {
      SuffixCons(lines, i);
      var line := lines[i];
      i := i + 1;
      if line == "" {
        continue;
      }
      var head := DecodeTicks(line);
      if head.Err? {
        return ReadOutcome(items, Some(head.error));
      }
      var (utcTicks, rest) := head.value;
      if utcTicks < first {
        continue;
      }
      if utcTicks > last {
        break;
      }
      var objects := DecodeContents(rest);
      if objects.Err? {
        return ReadOutcome(items, Some(objects.error));
      }
      PrependTwice(items, OfType(objects.value, target), ReadLines(lines[i..], first, last, target));
      items := items + OfType(objects.value, target);
    }
    if i == |lines| {
      assert lines[i..] == [];
    }
    o := ReadOutcome(items, None);
  }

  // ---------------------------------------------------------------------------
  // Reference definitions over records
  // ---------------------------------------------------------------------------

  /** The payloads a read of the records `rs` yields. */
  function RecordsRead(rs: seq<Record>, first: int, last: int, target: TargetType): seq<Payload> {
    if rs == [] then []
    else if rs[0].timestamp < first then RecordsRead(rs[1..], first, last, target)
    else if rs[0].timestamp > last then []
    else OfType(rs[0].payloads, target) + RecordsRead(rs[1..], first, last, target)
  }

  predicate NonDecreasing(rs: seq<Record>) {
    forall i, j :: 0 <= i < j < |rs| ==> rs[i].timestamp <= rs[j].timestamp
  }

  /** The records whose timestamp lies in [first, last], in order. */
  function RecordsInRange(rs: seq<Record>, first: int, last: int): (r: seq<Record>)
    ensures forall x :: x in r <==> x in rs && first <= x.timestamp <= last
  {
    if rs == [] then []
    else (if first <= rs[0].timestamp <= last then [rs[0]] else []) + RecordsInRange(rs[1..], first, last)
  }

  /** The payloads of the target type over all of `rs`, record by record. */
  function Collect(rs: seq<Record>, target: TargetType): seq<Payload> {
    if rs == [] then [] else OfType(rs[0].payloads, target) + Collect(rs[1..], target)
  }

  // ---------------------------------------------------------------------------
  // Lemmas
  // ---------------------------------------------------------------------------

  lemma {:induction false} FileTextSnoc(rs: seq<Record>, r: Record, nl: string)
    ensures FileText(rs + [r], nl) == FileText(rs, nl) + Line(r, nl)
  {
    if rs == [] {
      assert rs + [r] == [r];
    } else {
      assert (rs + [r])[1..] == rs[1..] + [r];
      FileTextSnoc(rs[1..], r, nl);
    }
  }

  lemma RecordTextStart(r: Record)
    ensures |RecordText(r)| > 0 && RecordText(r)[0] == '{'
  {
  }

  /** A record's line: the ticks, then the text that starts with ','. */
  lemma RecordTextSplit(r: Record, nl: string)
    ensures Line(r, nl) == TicksKey + Digits(r.timestamp) + (ContentsKey + PayloadsText(r.payloads) + "}" + nl)
    ensures (ContentsKey + PayloadsText(r.payloads) + "}" + nl)[0] == ','
  {
  }

  lemma RecordNoLineBreak(r: Record)
    ensures NoLineBreak(RecordText(r))
  {
    DigitsNoLineBreak(r.timestamp);
    PayloadsNoLineBreak(r.payloads);
    var a := TicksKey + Digits(r.timestamp);
    NoLineBreakConcat(TicksKey, Digits(r.timestamp));
    NoLineBreakConcat(a, ContentsKey);
    NoLineBreakConcat(a + ContentsKey, PayloadsText(r.payloads));
    NoLineBreakConcat(a + ContentsKey + PayloadsText(r.payloads), "}");
  }

  lemma {:induction false} LineLengthOf(t: string, rest: string)
    requires NoLineBreak(t)
    requires rest != [] && IsLineBreak(rest[0])
    ensures LineLength(t + rest) == |t|
  {
    if t != [] {
      assert (t + rest)[1..] == t[1..] + rest;
      LineLengthOf(t[1..], rest);
    } else {
      assert t + rest == rest;
    }
  }

  /** A line without line breaks followed by a newline is read back as one line. */
  lemma SplitLinesOfLine(t: string, nl: string, rest: string)
    requires NoLineBreak(t) && IsNewLine(nl)
    ensures SplitLines(t + nl + rest) == [t] + SplitLines(rest)
  {
    var s := t + nl + rest;
    assert s == t + (nl + rest);
    LineLengthOf(t, nl + rest);
    assert s[..|t|] == t;
    assert s[|t|] == nl[0];
    if nl == "\r\n" {
      assert s[|t| + 1] == '\n';
      assert s[|t| + 2..] == rest;
    } else {
      assert s[|t| + 1..] == rest;
    }
  }

  /** The lines of a file are the texts of its records. */
  lemma {:induction false} SplitFileText(rs: seq<Record>, nl: string)
    requires IsNewLine(nl)
    ensures SplitLines(FileText(rs, nl)) == RecordTexts(rs)
  {
    if rs != [] {
      RecordNoLineBreak(rs[0]);
      SplitLinesOfLine(RecordText(rs[0]), nl, FileText(rs[1..], nl));
      SplitFileText(rs[1..], nl);
    }
  }

  /** The ticks of a record are read back, followed by the rest of its text. */
  lemma DecodeTicksOfText(t: Ticks, rest: string)
    requires EndsNumber(rest)
    ensures DecodeTicks(TicksKey + Digits(t) + rest) == Ok((t, rest))
  {
    assert TicksKey + Digits(t) + rest == TicksKey + (Digits(t) + rest);
    ParseLiteralOf(TicksKey, Digits(t) + rest);
    assert IntText(t) == Digits(t);
    ParseIntOfText(t, rest);
  }

  /** A ticks value followed by a character that cannot end a JSON number, as in `{"t":5x`, is malformed. */
  lemma DecodeTicksRejectsJunk(t: Ticks, rest: string)
    requires rest != [] && !IsDigit(rest[0]) && !EndsNumber(rest)
    ensures DecodeTicks(TicksKey + Digits(t) + rest) == Err(MalformedRecord)
  {
    assert TicksKey + Digits(t) + rest == TicksKey + (Digits(t) + rest);
    ParseLiteralOf(TicksKey, Digits(t) + rest);
    assert IntText(t) == Digits(t);
    ParseIntOfText(t, rest);
  }

  lemma DecodeContentsOfText(ps: seq<Payload>, rest: string)
    ensures DecodeContents(ContentsKey + PayloadsText(ps) + rest) == Ok(ps)
  {
    assert ContentsKey + PayloadsText(ps) + rest == ContentsKey + (PayloadsText(ps) + rest);
    ParseLiteralOf(ContentsKey, PayloadsText(ps) + rest);
    ParsePayloadsOfText(ps, rest);
  }

  /** Both halves of a record's text decode to what was written. */
  lemma DecodeRecordText(r: Record)
    ensures DecodeTicks(RecordText(r)) == Ok((r.timestamp, ContentsKey + PayloadsText(r.payloads) + "}"))
    ensures DecodeContents(ContentsKey + PayloadsText(r.payloads) + "}") == Ok(r.payloads)
  {
    var rest := ContentsKey + PayloadsText(r.payloads) + "}";
    assert RecordText(r) == TicksKey + Digits(r.timestamp) + rest;
    assert rest[0] == ',';
    DecodeTicksOfText(r.timestamp, rest);
    DecodeContentsOfText(r.payloads, "}");
  }

  lemma {:induction false} ReadRecordTexts(rs: seq<Record>, first: int, last: int, target: TargetType)
    ensures ReadLines(RecordTexts(rs), first, last, target) == ReadOutcome(RecordsRead(rs, first, last, target), None)
  {
    if rs != [] {
      var lines := RecordTexts(rs);
      assert lines[0] == RecordText(rs[0]) && lines[1..] == RecordTexts(rs[1..]);
      assert lines[0] != "" by {
        assert RecordText(rs[0])[0] == '{';
      }
      DecodeRecordText(rs[0]);
      ReadRecordTexts(rs[1..], first, last, target);
    }
  }

  /**
   * Reading a file written by `Write` never fails and yields, in file order,
   * the payloads of the target type of every record read before the first
   * record after `last`, skipping the records before `first`.
   */
  lemma ReadFileText(rs: seq<Record>, nl: string, first: int, last: int, target: TargetType)
    requires IsNewLine(nl)
    ensures ReadLines(SplitLines(FileText(rs, nl)), first, last, target)
            == ReadOutcome(RecordsRead(rs, first, last, target), None)
  {
    SplitFileText(rs, nl);
    ReadRecordTexts(rs, first, last, target);
  }

  lemma {:induction false} NoneInRangeAfter(rs: seq<Record>, first: int, last: int)
    requires forall i :: 0 <= i < |rs| ==> rs[i].timestamp > last
    ensures RecordsInRange(rs, first, last) == []
  {
    if rs != [] {
      NoneInRangeAfter(rs[1..], first, last);
    }
  }

  lemma NonDecreasingTail(rs: seq<Record>)
    requires rs != [] && NonDecreasing(rs)
    ensures NonDecreasing(rs[1..])
    ensures forall i :: 0 <= i < |rs[1..]| ==> rs[0].timestamp <= rs[1..][i].timestamp
  {
    forall i, j | 0 <= i < j < |rs[1..]| ensures rs[1..][i].timestamp <= rs[1..][j].timestamp {
      assert rs[1..][i] == rs[i + 1] && rs[1..][j] == rs[j + 1];
    }
    forall i | 0 <= i < |rs[1..]| ensures rs[0].timestamp <= rs[1..][i].timestamp {
      assert rs[1..][i] == rs[i + 1];
    }
  }

  /**
   * For records in timestamp order (as a single writer appends them), the
   * early stop loses nothing: a read yields exactly the payloads of the target
   * type of the records in [first, last].
   */
  lemma {:induction false} SortedRead(rs: seq<Record>, first: int, last: int, target: TargetType)
    requires NonDecreasing(rs)
    ensures RecordsRead(rs, first, last, target) == Collect(RecordsInRange(rs, first, last), target)
  {
    if rs != [] {
      NonDecreasingTail(rs);
      var tail := rs[1..];
      if rs[0].timestamp < first {
        SortedRead(tail, first, last, target);
        assert RecordsInRange(rs, first, last) == [] + RecordsInRange(tail, first, last);
        assert [] + RecordsInRange(tail, first, last) == RecordsInRange(tail, first, last);
      } else if rs[0].timestamp > last {
        NoneInRangeAfter(tail, first, last);
      } else {
        SortedRead(tail, first, last, target);
        var inTail := RecordsInRange(tail, first, last);
        assert RecordsInRange(rs, first, last) == [rs[0]] + inTail;
        assert ([rs[0]] + inTail)[0] == rs[0];
        assert ([rs[0]] + inTail)[1..] == inTail;
      }
    }
  }

  lemma {:induction false} CollectConcat(a: seq<Record>, b: seq<Record>, target: TargetType)
    ensures Collect(a + b, target) == Collect(a, target) + Collect(b, target)
  {
    if a == [] {
      ConcatEmpty(b);
      ConcatEmpty(Collect(b, target));
    } else {
      ConcatHead(a, b);
      CollectConcat(a[1..], b, target);
      Assoc(OfType(a[0].payloads, target), Collect(a[1..], target), Collect(b, target));
    }
  }

  /** With bounds that admit every timestamp, a read yields every payload of the target type. */
  lemma {:induction false} ReadAllRecords(rs: seq<Record>, target: TargetType)
    ensures RecordsRead(rs, MinTicks, MaxTicks, target) == Collect(rs, target)
  {
    if rs != [] {
      ReadAllRecords(rs[1..], target);
    }
  }
}
