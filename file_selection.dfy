/**
 * The two-level range read shared by `JournalPersistor.ReadAsync` and
 * `Journal.Replay`: choose files from the index, then read the records of
 * each chosen file in index order.
 */
module FileSelection {
  import opened Common
  import opened JournalFiles
  import opened Payloads
  import opened RecordCodec
  import opened FileIndex

  /** C#'s lifted `t > bound`: false when the bound is null. */
  predicate After(t: Ticks, bound: Option<Ticks>) {
    bound.Some? && t > bound.value
  }

  /** `bound ?? otherwise` */
  function OrElse(bound: Option<Ticks>, otherwise: Ticks): Ticks {
    if bound.Some? then bound.value else otherwise
  }

  /**
   * The rule that skips file i. `AsWritten` is the code's test, "file i+1
   * starts after firstTimestamp"; `Corrected` skips file i only when file i+1
   * starts before firstTimestamp, so that file i cannot hold a record at or
   * after it.
   */
  datatype SkipRule = AsWritten | Corrected

  predicate Skips(rule: SkipRule, files: seq<JournalFile>, i: nat, first: Option<Ticks>) {
    && i + 1 < |files|
    && match rule
       case AsWritten => After(files[i + 1].firstTimestamp, first)
       case Corrected => first.Some? && files[i + 1].firstTimestamp < first.value
  }

  /** The files the loop over the index reads, from index `i` on: stop at the first file after `last`, skip as `rule` says. */
  function SelectFrom(files: seq<JournalFile>, i: nat, first: Option<Ticks>, last: Option<Ticks>, rule: SkipRule): seq<JournalFile>
    requires i <= |files|
    decreases |files| - i
  {
    if i == |files| then []
    else if After(files[i].firstTimestamp, last) then []
    else if Skips(rule, files, i, first) then SelectFrom(files, i + 1, first, last, rule)
    else [files[i]] + SelectFrom(files, i + 1, first, last, rule)
  }

  function SelectFiles(files: seq<JournalFile>, first: Option<Ticks>, last: Option<Ticks>, rule: SkipRule): seq<JournalFile> {
    SelectFrom(files, 0, first, last, rule)
  }

  /**
   * Opening and reading the chosen files one after another: a missing file
   * (`File.Open` with `FileMode.Open`) or a malformed line ends the read with
   * the items yielded so far.
   */
  function ReadFiles(fs: FileSystem, selected: seq<JournalFile>, lo: int, hi: int, target: TargetType): ReadOutcome {
    if selected == [] then ReadOutcome([], None)
    else
      var o := FileRead(fs, selected[0], lo, hi, target);
      if o.error.Some? then o else Prepend(o.items, ReadFiles(fs, selected[1..], lo, hi, target))
  }

  /** Opening and reading one file of the index. */
  function FileRead(fs: FileSystem, f: JournalFile, lo: int, hi: int, target: TargetType): ReadOutcome {
    var name := Filename(f);
    if name !in fs then ReadOutcome([], Some(FileNotFound)) else ReadLines(SplitLines(fs[name]), lo, hi, target)
  }

  /** The loop stops at the end of the index and at the first file that starts after `last`. */
  lemma SelectEnds(files: seq<JournalFile>, i: nat, first: Option<Ticks>, last: Option<Ticks>, rule: SkipRule)
    requires i == |files| || (i < |files| && After(files[i].firstTimestamp, last))
    ensures SelectFrom(files, i, first, last, rule) == []
  {
  }

  /** A skipped file contributes nothing: the choice goes on from the next file. */
  lemma SelectSkipped(files: seq<JournalFile>, i: nat, first: Option<Ticks>, last: Option<Ticks>, rule: SkipRule)
    requires i < |files| && !After(files[i].firstTimestamp, last) && Skips(rule, files, i, first)
    ensures SelectFrom(files, i, first, last, rule) == SelectFrom(files, i + 1, first, last, rule)
  {
  }

  /**
   * A file the loop over the index reads, with `done` yielded so far: the
   * read ends with this file's exception, or goes on from the next file
   * with this file's items yielded too.
   */
  lemma ReadStep(fs: FileSystem, files: seq<JournalFile>, i: nat, first: Option<Ticks>, last: Option<Ticks>,
                 lo: int, hi: int, target: TargetType, done: seq<Payload>, all: ReadOutcome)
    requires i < |files| && !After(files[i].firstTimestamp, last) && !Skips(AsWritten, files, i, first)
    requires all == Prepend(done, ReadFiles(fs, SelectFrom(files, i, first, last, AsWritten), lo, hi, target))
    ensures var o := FileRead(fs, files[i], lo, hi, target);
            && (o.error.Some? ==> all == ReadOutcome(done + o.items, o.error))
            && (o.error.None? ==>
                  all == Prepend(done + o.items, ReadFiles(fs, SelectFrom(files, i + 1, first, last, AsWritten), lo, hi, target)))
  {
    var rest := SelectFrom(files, i + 1, first, last, AsWritten);
    assert SelectFrom(files, i, first, last, AsWritten) == [files[i]] + rest;
    DropCons(files[i], rest);
    var o := FileRead(fs, files[i], lo, hi, target);
    if o.error.None? {
      PrependTwice(done, o.items, ReadFiles(fs, rest, lo, hi, target));
    }
  }

  // ---------------------------------------------------------------------------
  // Journals as the writer leaves them
  // ---------------------------------------------------------------------------

  function Flatten(contents: seq<seq<Record>>): seq<Record> {
    if contents == [] then [] else contents[0] + Flatten(contents[1..])
  }

  /**
   * `fs` holds the files of the index, file i holding the records
   * `contents[i]` in timestamp order; a file starts no later than its first
   * record, and its records are no later than the start of the next file.
   */
  ghost predicate WellFormed(fs: FileSystem, files: seq<JournalFile>, contents: seq<seq<Record>>, nl: string) {
    && |files| == |contents|
    && StoredAs(fs, files, contents, nl)
    && RecordsFit(files, contents)
  }

  /** Each file of the index exists and holds the lines of its records. */
  ghost predicate StoredAs(fs: FileSystem, files: seq<JournalFile>, contents: seq<seq<Record>>, nl: string)
    requires |files| == |contents|
  {
    forall i :: 0 <= i < |files| ==> Filename(files[i]) in fs && fs[Filename(files[i])] == FileText(contents[i], nl)
  }

  /** Records in order, each within the time span of its file; files in order of their start. */
  ghost predicate RecordsFit(files: seq<JournalFile>, contents: seq<seq<Record>>)
    requires |files| == |contents|
  {
    && (forall i :: 0 <= i < |files| ==> NonDecreasing(contents[i]))
    && (forall i, k :: 0 <= i < |files| && 0 <= k < |contents[i]| ==>
          files[i].firstTimestamp <= contents[i][k].timestamp)
    && (forall i, k :: 0 <= i < |files| - 1 && 0 <= k < |contents[i]| ==>
          contents[i][k].timestamp <= files[i + 1].firstTimestamp)
    && (forall i, j :: 0 <= i < j < |files| ==> files[i].firstTimestamp <= files[j].firstTimestamp)
  }

  // ---------------------------------------------------------------------------
  // Lemmas
  // ---------------------------------------------------------------------------

  /** Without a lower bound no file is skipped, and without an upper bound the loop never stops early. */
  lemma {:induction false} SelectUnbounded(files: seq<JournalFile>, i: nat, rule: SkipRule)
    requires i <= |files|
    ensures SelectFrom(files, i, None, None, rule) == files[i..]
    decreases |files| - i
  {
    if i < |files| {
      SelectUnbounded(files, i + 1, rule);
      assert files[i..] == [files[i]] + files[i + 1..];
    }
  }

  /** The last file is never skipped: it is read unless some file starts after `last`. */
  lemma {:induction false} SelectKeepsLast(files: seq<JournalFile>, i: nat, first: Option<Ticks>, last: Option<Ticks>, rule: SkipRule)
    requires i < |files|
    requires forall j :: i <= j < |files| ==> !After(files[j].firstTimestamp, last)
    ensures SelectFrom(files, i, first, last, rule) != []
    ensures SelectFrom(files, i, first, last, rule)[|SelectFrom(files, i, first, last, rule)| - 1] == files[|files| - 1]
    decreases |files| - i
  {
    if i + 1 < |files| {
      SelectKeepsLast(files, i + 1, first, last, rule);
    }
  }

  lemma {:induction false} InRangeConcat(a: seq<Record>, b: seq<Record>, lo: int, hi: int)
    ensures RecordsInRange(a + b, lo, hi) == RecordsInRange(a, lo, hi) + RecordsInRange(b, lo, hi)
  {
    if a == [] {
      assert a + b == b;
    } else {
      assert (a + b)[1..] == a[1..] + b;
      InRangeConcat(a[1..], b, lo, hi);
    }
  }

  lemma EmptyInRange(rs: seq<Record>, lo: int, hi: int)
    requires forall x :: x in rs ==> x.timestamp < lo || x.timestamp > hi
    ensures RecordsInRange(rs, lo, hi) == []
  {
    if RecordsInRange(rs, lo, hi) != [] {
      assert RecordsInRange(rs, lo, hi)[0] in RecordsInRange(rs, lo, hi);
    }
  }

  lemma {:induction false} FlattenMember(contents: seq<seq<Record>>, x: Record)
    requires x in Flatten(contents)
    ensures exists j, k :: 0 <= j < |contents| && 0 <= k < |contents[j]| && contents[j][k] == x
  {
    if x in contents[0] {
      var k :| 0 <= k < |contents[0]| && contents[0][k] == x;
      assert contents[0][k] == x;
    } else {
      FlattenMember(contents[1..], x);
      var j, k :| 0 <= j < |contents[1..]| && 0 <= k < |contents[1..][j]| && contents[1..][j][k] == x;
      assert contents[j + 1][k] == x;
    }
  }

  /** No record of the files from `i` on is earlier than the start of file `i`. */
  lemma FlattenFrom(fs: FileSystem, files: seq<JournalFile>, contents: seq<seq<Record>>, nl: string, i: nat)
    requires WellFormed(fs, files, contents, nl) && i < |files|
    ensures forall x :: x in Flatten(contents[i..]) ==> files[i].firstTimestamp <= x.timestamp
  {
    forall x | x in Flatten(contents[i..]) ensures files[i].firstTimestamp <= x.timestamp {
      FlattenMember(contents[i..], x);
      var j, k :| 0 <= j < |contents[i..]| && 0 <= k < |contents[i..][j]| && contents[i..][j][k] == x;
      assert contents[i + j][k] == x;
    }
  }

  /** The read of one file of a well-formed journal: every in-range record's payloads. */
  lemma ReadOneFile(fs: FileSystem, files: seq<JournalFile>, contents: seq<seq<Record>>, nl: string, i: nat,
                    lo: int, hi: int, target: TargetType)
    requires WellFormed(fs, files, contents, nl) && IsNewLine(nl) && i < |files|
    ensures Filename(files[i]) in fs
    ensures ReadLines(SplitLines(fs[Filename(files[i])]), lo, hi, target)
            == ReadOutcome(Collect(RecordsInRange(contents[i], lo, hi), target), None)
  {
    ReadFileText(contents[i], nl, lo, hi, target);
    SortedRead(contents[i], lo, hi, target);
  }

  /** What `ReadFrom` states about index `i`: the read from there on yields the in-range records of the remaining files. */
  ghost predicate ReadsRest(fs: FileSystem, files: seq<JournalFile>, contents: seq<seq<Record>>, i: nat,
                            first: Option<Ticks>, last: Option<Ticks>, rule: SkipRule, target: TargetType)
    requires i <= |files| && i <= |contents|
  {
    ReadFiles(fs, SelectFrom(files, i, first, last, rule), OrElse(first, MinTicks), OrElse(last, MaxTicks), target)
    == ReadOutcome(Collect(RecordsInRange(Flatten(contents[i..]), OrElse(first, MinTicks), OrElse(last, MaxTicks)), target), None)
  }

  lemma FlattenCons(contents: seq<seq<Record>>, i: nat)
    requires i < |contents|
    ensures Flatten(contents[i..]) == contents[i] + Flatten(contents[i + 1..])
  {
    assert contents[i..][1..] == contents[i + 1..];
  }

  /** A file starting after `last` ends the loop: no remaining record is in range. */
  lemma ReadStopStep(fs: FileSystem, files: seq<JournalFile>, contents: seq<seq<Record>>, nl: string, i: nat,
                     first: Option<Ticks>, last: Option<Ticks>, rule: SkipRule, target: TargetType)
    requires WellFormed(fs, files, contents, nl) && i < |files|
    requires After(files[i].firstTimestamp, last)
    ensures ReadsRest(fs, files, contents, i, first, last, rule, target)
  {
    FlattenFrom(fs, files, contents, nl, i);
    EmptyInRange(Flatten(contents[i..]), OrElse(first, MinTicks), OrElse(last, MaxTicks));
  }

  /** Every record of file `i` is earlier than the start of file `i + 1`. */
  lemma SkippedFileEarly(fs: FileSystem, files: seq<JournalFile>, contents: seq<seq<Record>>, nl: string, i: nat, lo: int)
    requires WellFormed(fs, files, contents, nl) && i + 1 < |files|
    requires files[i + 1].firstTimestamp < lo
    ensures forall x :: x in contents[i] ==> x.timestamp < lo
  {
    forall x | x in contents[i] ensures x.timestamp < lo {
      var k :| 0 <= k < |contents[i]| && contents[i][k] == x;
    }
  }

  /** A file skipped by the corrected rule holds nothing in range. */
  lemma ReadSkipStep(fs: FileSystem, files: seq<JournalFile>, contents: seq<seq<Record>>, i: nat,
                     first: Option<Ticks>, last: Option<Ticks>, rule: SkipRule, target: TargetType)
    requires i < |files| && i < |contents|
    requires !After(files[i].firstTimestamp, last) && Skips(rule, files, i, first)
    requires forall x :: x in contents[i] ==> x.timestamp < OrElse(first, MinTicks)
    requires ReadsRest(fs, files, contents, i + 1, first, last, rule, target)
    ensures ReadsRest(fs, files, contents, i, first, last, rule, target)
  {
    var lo, hi := OrElse(first, MinTicks), OrElse(last, MaxTicks);
    assert SelectFrom(files, i, first, last, rule) == SelectFrom(files, i + 1, first, last, rule);
    EmptyInRange(contents[i], lo, hi);
    FlattenCons(contents, i);
    InRangeConcat(contents[i], Flatten(contents[i + 1..]), lo, hi);
    assert RecordsInRange(Flatten(contents[i..]), lo, hi) == RecordsInRange(Flatten(contents[i + 1..]), lo, hi);
  }

  /** A file that is read contributes its in-range records ahead of the rest. */
  lemma ReadFileStep(fs: FileSystem, files: seq<JournalFile>, contents: seq<seq<Record>>, nl: string, i: nat,
                     first: Option<Ticks>, last: Option<Ticks>, rule: SkipRule, target: TargetType)
    requires WellFormed(fs, files, contents, nl) && IsNewLine(nl) && i < |files|
    requires !After(files[i].firstTimestamp, last) && !Skips(rule, files, i, first)
    requires ReadsRest(fs, files, contents, i + 1, first, last, rule, target)
    ensures ReadsRest(fs, files, contents, i, first, last, rule, target)
  {
    var lo, hi := OrElse(first, MinTicks), OrElse(last, MaxTicks);
    var selected := SelectFrom(files, i, first, last, rule);
    assert selected == [files[i]] + SelectFrom(files, i + 1, first, last, rule);
    assert selected[1..] == SelectFrom(files, i + 1, first, last, rule);
    ReadOneFile(fs, files, contents, nl, i, lo, hi, target);
    FlattenCons(contents, i);
    InRangeConcat(contents[i], Flatten(contents[i + 1..]), lo, hi);
    CollectConcat(RecordsInRange(contents[i], lo, hi), RecordsInRange(Flatten(contents[i + 1..]), lo, hi), target);
  }

  /**
   * From index `i` on, a selection whose skips never drop a record at or
   * after `lo` reads exactly the in-range records of the remaining files.
   */
  lemma {:induction false} ReadFrom(fs: FileSystem, files: seq<JournalFile>, contents: seq<seq<Record>>, nl: string, i: nat,
                                    first: Option<Ticks>, last: Option<Ticks>, rule: SkipRule, target: TargetType)
    requires WellFormed(fs, files, contents, nl) && IsNewLine(nl) && i <= |files|
    requires rule == Corrected || first.None?
    ensures ReadsRest(fs, files, contents, i, first, last, rule, target)
    decreases |files| - i
  {
    if i == |files| {
      assert contents[i..] == [];
    } else if After(files[i].firstTimestamp, last) {
      ReadStopStep(fs, files, contents, nl, i, first, last, rule, target);
    } else {
      ReadFrom(fs, files, contents, nl, i + 1, first, last, rule, target);
      if Skips(rule, files, i, first) {
        SkippedFileEarly(fs, files, contents, nl, i, OrElse(first, MinTicks));
        ReadSkipStep(fs, files, contents, i, first, last, rule, target);
      } else {
        ReadFileStep(fs, files, contents, nl, i, first, last, rule, target);
      }
    }
  }

  /**
   * With the corrected skip rule, a range read of a well-formed journal
   * yields the payloads of the target type of every record in
   * [first, last], in order, and never fails.
   */
  lemma CorrectedReadsEveryRecord(fs: FileSystem, files: seq<JournalFile>, contents: seq<seq<Record>>, nl: string,
                                  first: Ticks, last: Ticks, target: TargetType)
    requires WellFormed(fs, files, contents, nl) && IsNewLine(nl)
    ensures ReadFiles(fs, SelectFiles(files, Some(first), Some(last), Corrected), first, last, target)
            == ReadOutcome(Collect(RecordsInRange(Flatten(contents), first, last), target), None)
  {
    ReadFrom(fs, files, contents, nl, 0, Some(first), Some(last), Corrected, target);
    assert contents[0..] == contents;
  }

  /**
   * Without a lower bound the code as written skips nothing, so a replay
   * yields every record up to `last` (every record when `last` is null too).
   */
  lemma AsWrittenReadsAllWithoutFirst(fs: FileSystem, files: seq<JournalFile>, contents: seq<seq<Record>>, nl: string,
                                      last: Option<Ticks>, target: TargetType)
    requires WellFormed(fs, files, contents, nl) && IsNewLine(nl)
    ensures ReadFiles(fs, SelectFiles(files, None, last, AsWritten), MinTicks, OrElse(last, MaxTicks), target)
            == ReadOutcome(Collect(RecordsInRange(Flatten(contents), MinTicks, OrElse(last, MaxTicks)), target), None)
  {
    ReadFrom(fs, files, contents, nl, 0, None, last, AsWritten, target);
    assert contents[0..] == contents;
  }

  /**
   * The code's rule on a two-file journal: file 1 holds a record at
   * `MinValue`, file 2 a record at tick 100. A read of the full range
   * (`firstTimestamp` = `MinValue`, as a full replay passes it) skips file 1
   * because file 2 starts after `MinValue`, and yields only the second
   * record's payload, although both records are in range.
   */
  lemma AsWrittenMissesFirstFile(p: Payload, q: Payload, nl: string)
    requires IsNewLine(nl)
    ensures var files := [JournalFile(1, MinTicks), JournalFile(2, 100)];
            var contents := [[Record(MinTicks, [p])], [Record(100, [q])]];
            var fs := map[Filename(files[0]) := FileText(contents[0], nl), Filename(files[1]) := FileText(contents[1], nl)];
            && WellFormed(fs, files, contents, nl)
            && Collect(RecordsInRange(Flatten(contents), MinTicks, MaxTicks), AllObjects) == [p, q]
            && SelectFiles(files, Some(MinTicks), Some(MaxTicks), AsWritten) == [files[1]]
            && ReadFiles(fs, SelectFiles(files, Some(MinTicks), Some(MaxTicks), AsWritten), MinTicks, MaxTicks, AllObjects)
               == ReadOutcome([q], None)
  {
    var files := [JournalFile(1, MinTicks), JournalFile(2, 100)];
    var contents := [[Record(MinTicks, [p])], [Record(100, [q])]];
    var n0, n1 := Filename(files[0]), Filename(files[1]);
    assert n0 != n1 by {
      if n0 == n1 {
        FilenameInjective(files[0], files[1]);
      }
    }
    TwoFileJournal(files, contents, n0, n1, nl);
    TwoFileContents(p, q);
    TwoFileSelect(files);
    ReadFileText(contents[1], nl, MinTicks, MaxTicks, AllObjects);
    TwoFileRead(map[n0 := FileText(contents[0], nl), n1 := FileText(contents[1], nl)], files[1], n1, FileText(contents[1], nl), q);
  }

  lemma TwoFileJournal(files: seq<JournalFile>, contents: seq<seq<Record>>, n0: string, n1: string, nl: string)
    requires |files| == 2 && |contents| == 2
    requires n0 == Filename(files[0]) && n1 == Filename(files[1]) && n0 != n1
    requires files[0].firstTimestamp <= files[1].firstTimestamp
    requires |contents[0]| == 1 && |contents[1]| == 1
    requires files[0].firstTimestamp <= contents[0][0].timestamp <= files[1].firstTimestamp
    requires files[1].firstTimestamp <= contents[1][0].timestamp
    ensures WellFormed(map[n0 := FileText(contents[0], nl), n1 := FileText(contents[1], nl)], files, contents, nl)
  {
    TwoFileStored(files, contents, n0, n1, nl);
    TwoFileFits(files, contents);
  }

  lemma TwoFileFits(files: seq<JournalFile>, contents: seq<seq<Record>>)
    requires |files| == 2 && |contents| == 2
    requires files[0].firstTimestamp <= files[1].firstTimestamp
    requires |contents[0]| == 1 && |contents[1]| == 1
    requires files[0].firstTimestamp <= contents[0][0].timestamp <= files[1].firstTimestamp
    requires files[1].firstTimestamp <= contents[1][0].timestamp
    ensures RecordsFit(files, contents)
  {
  }

  lemma TwoFileStored(files: seq<JournalFile>, contents: seq<seq<Record>>, n0: string, n1: string, nl: string)
    requires |files| == 2 && |contents| == 2
    requires n0 == Filename(files[0]) && n1 == Filename(files[1]) && n0 != n1
    ensures StoredAs(map[n0 := FileText(contents[0], nl), n1 := FileText(contents[1], nl)], files, contents, nl)
  {
    var fs := map[n0 := FileText(contents[0], nl), n1 := FileText(contents[1], nl)];
    forall i | 0 <= i < |files|
      ensures Filename(files[i]) in fs && fs[Filename(files[i])] == FileText(contents[i], nl)
    {
      if i == 0 { assert Filename(files[i]) == n0; } else { assert Filename(files[i]) == n1; }
    }
  }

  lemma TwoFileSelect(files: seq<JournalFile>)
    requires files == [JournalFile(1, MinTicks), JournalFile(2, 100)]
    ensures SelectFiles(files, Some(MinTicks), Some(MaxTicks), AsWritten) == [files[1]]
  {
    assert SelectFrom(files, 2, Some(MinTicks), Some(MaxTicks), AsWritten) == [];
    assert SelectFrom(files, 1, Some(MinTicks), Some(MaxTicks), AsWritten) == [files[1]];
    assert Skips(AsWritten, files, 0, Some(MinTicks));
  }

  lemma TwoFileContents(p: Payload, q: Payload)
    ensures Collect(RecordsInRange(Flatten([[Record(MinTicks, [p])], [Record(100, [q])]]), MinTicks, MaxTicks), AllObjects) == [p, q]
  {
    var r0, r1 := Record(MinTicks, [p]), Record(100, [q]);
    var contents := [[r0], [r1]];
    assert contents[1..] == [[r1]];
    assert contents[1..][1..] == [];
    assert Flatten(contents[1..]) == [r1] + [];
    assert Flatten(contents) == [r0] + [r1];
    assert [r0] + [r1] == [r0, r1];
    var both := [r0, r1];
    assert both[1..] == [r1];
    assert RecordsInRange([r1], MinTicks, MaxTicks) == [r1] + RecordsInRange([], MinTicks, MaxTicks);
    assert RecordsInRange(both, MinTicks, MaxTicks) == [r0] + RecordsInRange([r1], MinTicks, MaxTicks);
    assert Collect(both, AllObjects) == [p] + Collect([r1], AllObjects);
    assert Collect([r1], AllObjects) == [q] + Collect([], AllObjects);
  }

  lemma TwoFileRead(fs: FileSystem, f: JournalFile, name: string, content: string, q: Payload)
    requires name == Filename(f) && name in fs && fs[name] == content
    requires ReadLines(SplitLines(content), MinTicks, MaxTicks, AllObjects) == ReadOutcome(OfType([q], AllObjects), None)
    ensures ReadFiles(fs, [f], MinTicks, MaxTicks, AllObjects) == ReadOutcome([q], None)
  {
    assert [f][1..] == [];
  }
}
