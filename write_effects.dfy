/**
 * What one write of a rotating writer means for the readers: the journal
 * holds exactly one more record, at its end; the latest timestamp, read
 * back from the last file, is the one just written; and, when the clock has
 * not stepped back, a range read that covers it yields its payloads after
 * those of every earlier record in range. When it has, a read can lose
 * records.
 */
module WriteEffects {
  import opened Common
  import opened JournalFiles
  import opened Payloads
  import opened RecordCodec
  import opened FileIndex
  import opened FileSelection
  import opened Storage
  import opened Rotation
  import opened LatestTimestamp

  lemma {:induction false} FlattenSnoc(contents: seq<seq<Record>>, c: seq<Record>)
    ensures Flatten(contents + [c]) == Flatten(contents) + c
  {
    if contents == [] {
      assert [] + [c] == [c];
      assert Flatten([c]) == c + Flatten([]);
    } else {
      assert (contents + [c])[1..] == contents[1..] + [c];
      FlattenSnoc(contents[1..], c);
    }
  }

  /** Appending to the last file adds the record at the end of the journal. */
  lemma FlattenAppended(contents: seq<seq<Record>>, r: Record)
    requires contents != []
    ensures Flatten(AppendedContents(contents, r)) == Flatten(contents) + [r]
  {
    var n := |contents| - 1;
    FlattenSnoc(contents[..n], contents[n] + [r]);
    FlattenSnoc(contents[..n], contents[n]);
    assert contents[..n] + [contents[n]] == contents;
  }

  /** Opening and rotating add only empty files, which hold no records. */
  lemma FlattenRotated(contents: seq<seq<Record>>, rotate: bool)
    ensures Flatten(RotatedContents(contents, rotate)) == Flatten(contents)
  {
    if rotate {
      FlattenSnoc(contents, []);
    }
  }

  /**
   * A write adds its record, and nothing else, after every record so far;
   * the last file ends with it.
   */
  lemma WriteAppendsRecord(fs: FileSystem, files: seq<JournalFile>, stream: Option<string>, contents: seq<seq<Record>>,
                           maxSize: int, r: Record)
    requires stream.Some? ==> files != [] && stream.value in fs
    requires |files| == |contents|
    ensures var c := ContentsAfterWrite(fs, files, stream, contents, maxSize, r);
            && Flatten(c) == Flatten(contents) + [r]
            && c != [] && c[|c| - 1] != [] && c[|c| - 1][|c[|c| - 1]| - 1] == r
  {
    var atOpen := if stream.None? then OpenedContents(files, contents) else contents;
    var (fs1, _, name1) := if stream.None? then Opened(fs, files, None) else (fs, files, stream.value);
    var rotated := RotatedContents(atOpen, |fs1[name1]| >= maxSize);
    if files == [] {
      assert contents == [];
    }
    assert atOpen != [] && Flatten(atOpen) == Flatten(contents);
    FlattenRotated(atOpen, |fs1[name1]| >= maxSize);
    FlattenAppended(rotated, r);
  }

  /**
   * After a write, `ReadLatestTimestampAsync`, which reads the last line of
   * the last file of the index, yields the timestamp just written, whether
   * or not it is later than the records so far.
   */
  lemma WriteThenLatest(fs: FileSystem, files: seq<JournalFile>, stream: Option<string>, contents: seq<seq<Record>>,
                        nl: string, maxSize: int, ts: Ticks, payloads: seq<Payload>)
    requires IsNewLine(nl)
    requires Layout(fs, files, contents, nl)
    requires stream.Some? ==> files != [] && stream.value == Filename(files[|files| - 1])
    requires files != [] ==> InRange(Successor(files[|files| - 1], ts))
    ensures stream.Some? ==> stream.value in fs
    ensures var (fs', files', _) := WriteToIndex(fs, files, stream, maxSize, ts, payloads, nl);
            LatestIn(fs', Ok(files'), nl) == Ok(ts)
  {
    var fs', files', _ := WriteKeepsInvariant(fs, files, stream, contents, nl, maxSize, ts, payloads);
    var r := Record(ts, payloads);
    WriteAppendsRecord(fs, files, stream, contents, maxSize, r);
    LatestOfLastFile(fs', files', ContentsAfterWrite(fs, files, stream, contents, maxSize, r), nl);
  }

  /** The latest timestamp of an index is read from the text of its last file. */
  lemma LatestInLastFile(fs: FileSystem, files: seq<JournalFile>, nl: string, text: string)
    requires files != [] && Filename(files[|files| - 1]) in fs && fs[Filename(files[|files| - 1])] == text
    ensures LatestIn(fs, Ok(files), nl) == LatestTimestampOf(text, nl)
  {
  }

  /** The latest timestamp of a journal whose last file holds records is that of the last record of that file. */
  lemma LatestOfLastFile(fs: FileSystem, files: seq<JournalFile>, contents: seq<seq<Record>>, nl: string)
    requires IsNewLine(nl) && |files| == |contents| && StoredAs(fs, files, contents, nl)
    requires contents != [] && contents[|contents| - 1] != []
    ensures var c := contents[|contents| - 1];
            LatestIn(fs, Ok(files), nl) == Ok(c[|c| - 1].timestamp)
  {
    var last := |files| - 1;
    assert Filename(files[last]) in fs && fs[Filename(files[last])] == FileText(contents[last], nl);
    LatestInLastFile(fs, files, nl, FileText(contents[last], nl));
    LatestOfFileText(contents[last], nl);
  }

  /**
   * After a write, a range read with the corrected skip rule yields the
   * payloads of every earlier record in range followed by those of the new
   * record when it is in range.
   */
  lemma WriteThenRead(fs: FileSystem, files: seq<JournalFile>, stream: Option<string>, contents: seq<seq<Record>>,
                      nl: string, maxSize: int, ts: Ticks, payloads: seq<Payload>,
                      first: Ticks, last: Ticks, target: TargetType)
    requires IsNewLine(nl)
    requires JournalInvariant(fs, files, contents, nl) && NotBefore(files, contents, ts)
    requires stream.Some? ==> files != [] && stream.value == Filename(files[|files| - 1])
    requires files != [] ==> InRange(Successor(files[|files| - 1], ts))
    ensures stream.Some? ==> stream.value in fs
    ensures var (fs', files', _) := WriteToIndex(fs, files, stream, maxSize, ts, payloads, nl);
            ReadFiles(fs', SelectFiles(files', Some(first), Some(last), Corrected), first, last, target)
            == ReadOutcome(Collect(RecordsInRange(Flatten(contents), first, last), target)
                           + (if first <= ts <= last then OfType(payloads, target) else []), None)
  {
    var fs', files', _ := WriteKeepsInvariant(fs, files, stream, contents, nl, maxSize, ts, payloads);
    var r := Record(ts, payloads);
    WriteAppendsRecord(fs, files, stream, contents, maxSize, r);
    var c := ContentsAfterWrite(fs, files, stream, contents, maxSize, r);
    CorrectedReadsEveryRecord(fs', files', c, nl, first, last, target);
    CollectSnoc(Flatten(contents), r, first, last, target);
  }

  /** The payloads in range of records followed by one more record. */
  lemma CollectSnoc(rs: seq<Record>, r: Record, first: Ticks, last: Ticks, target: TargetType)
    ensures Collect(RecordsInRange(rs + [r], first, last), target)
         == Collect(RecordsInRange(rs, first, last), target) + (if first <= r.timestamp <= last then OfType(r.payloads, target) else [])
  {
    InRangeConcat(rs, [r], first, last);
    CollectConcat(RecordsInRange(rs, first, last), RecordsInRange([r], first, last), target);
    assert [r][1..] == [];
    if first <= r.timestamp <= last {
      assert RecordsInRange([r], first, last) == [r];
      assert Collect([r], target) == OfType(r.payloads, target) + Collect([], target);
    } else {
      assert RecordsInRange([r], first, last) == [];
    }
  }

  /**
   * A write of a rotating writer whose index value is `files` and whose
   * directory holds `contents` never fails, keeps the layout with the record
   * added, leaves the stream on the last file of the index, and makes the
   * latest timestamp the one just written; it keeps the whole invariant when
   * its timestamp is no earlier than the records and files so far.
   */
  lemma WriteStepKeepsJournal(s: WriterState, listing: seq<string>, files: seq<JournalFile>, contents: seq<seq<Record>>,
                              maxSize: int, ts: Ticks, payloads: seq<Payload>, nl: string)
    returns (fs': FileSystem, files': seq<JournalFile>, name': string)
    requires IsNewLine(nl) && StreamOpen(s)
    requires if s.stream.None? then Forced(s.index, listing) == Ok(files) else s.index == Built(files)
    requires Layout(s.fs, files, contents, nl)
    requires s.stream.Some? ==> s.stream.value == Filename(files[|files| - 1])
    requires files != [] ==> InRange(Successor(files[|files| - 1], ts))
    ensures WriteStep(s, listing, maxSize, ts, payloads, nl) == (WriterState(fs', Built(files'), Some(name')), None)
    ensures Layout(fs', files', ContentsAfterWrite(s.fs, files, s.stream, contents, maxSize, Record(ts, payloads)), nl)
    ensures JournalInvariant(s.fs, files, contents, nl) && NotBefore(files, contents, ts) ==>
              JournalInvariant(fs', files', ContentsAfterWrite(s.fs, files, s.stream, contents, maxSize, Record(ts, payloads)), nl)
    ensures files <= files' && name' == Filename(files'[|files'| - 1])
    ensures LatestIn(fs', Ok(files'), nl) == Ok(ts)
  {
    var fs0, files0, name0 := WriteStepOk(s, listing, files, maxSize, ts, payloads, nl);
    fs', files', name' := WriteKeepsInvariant(s.fs, files, s.stream, contents, nl, maxSize, ts, payloads);
    WriteThenLatest(s.fs, files, s.stream, contents, nl, maxSize, ts, payloads);
  }

  /** With the index value at hand, a write is `WriteToIndex` and cannot fail. */
  lemma WriteStepOk(s: WriterState, listing: seq<string>, files: seq<JournalFile>,
                    maxSize: int, ts: Ticks, payloads: seq<Payload>, nl: string)
    returns (fs': FileSystem, files': seq<JournalFile>, name': string)
    requires StreamOpen(s)
    requires if s.stream.None? then Forced(s.index, listing) == Ok(files) else s.index == Built(files)
    ensures (fs', files', name') == WriteToIndex(s.fs, files, s.stream, maxSize, ts, payloads, nl)
    ensures WriteStep(s, listing, maxSize, ts, payloads, nl) == (WriterState(fs', Built(files'), Some(name')), None)
  {
    fs', files', name' := WriteToIndex(s.fs, files, s.stream, maxSize, ts, payloads, nl).0,
                          WriteToIndex(s.fs, files, s.stream, maxSize, ts, payloads, nl).1,
                          WriteToIndex(s.fs, files, s.stream, maxSize, ts, payloads, nl).2;
  }

  // ---------------------------------------------------------------------------
  // A clock that steps back
  // ---------------------------------------------------------------------------

  /**
   * The write lemmas above keep the journal's time order only for a write
   * whose timestamp is no earlier than the journal's records, and
   * `WriteThenRead` requires it; a wall clock does not promise it. Without
   * it a read loses records: a file starts at tick 40 and holds a record at tick
   * 100; a write stamped 50 appends after it; a read of [40, 60] then stops
   * at the record at 100 and yields nothing, although the record at 50 is in
   * range. Both skip rules read the file, so the loss is the early stop
   * inside the file.
   */
  lemma BackwardClockLosesRecord(f: JournalFile, p: Payload, q: Payload, nl: string) returns (fs: FileSystem, fs': FileSystem)
    requires IsNewLine(nl) && InRange(f) && f.firstTimestamp == 40
    ensures fs == map[Filename(f) := FileText([Record(100, [p])], nl)]
    ensures JournalInvariant(fs, [f], [[Record(100, [p])]], nl) && !NotBefore([f], [[Record(100, [p])]], 50)
    ensures WriteToIndex(fs, [f], Some(Filename(f)), |fs[Filename(f)]| + 1, 50, [q], nl) == (fs', [f], Filename(f))
    ensures fs'[Filename(f)] == FileText([Record(100, [p]), Record(50, [q])], nl)
    ensures Collect(RecordsInRange([Record(100, [p]), Record(50, [q])], 40, 60), AllObjects) == [q]
    ensures ReadFiles(fs', SelectFiles([f], Some(40), Some(60), AsWritten), 40, 60, AllObjects) == ReadOutcome([], None)
    ensures ReadFiles(fs', SelectFiles([f], Some(40), Some(60), Corrected), 40, 60, AllObjects) == ReadOutcome([], None)
  {
    var r0, r1 := Record(100, [p]), Record(50, [q]);
    fs := BackwardJournal(f, r0, nl);
    fs' := BackwardWrite(fs, f, r0, r1, nl);
    BackwardPairInRange(r0, r1);
    BackwardRead(fs', f, r0, r1, nl);
  }

  /** The journal before the write: one file, starting at 40, holding one record at 100. */
  lemma BackwardJournal(f: JournalFile, r0: Record, nl: string) returns (fs: FileSystem)
    requires InRange(f) && f.firstTimestamp == 40 && r0.timestamp == 100
    ensures fs == map[Filename(f) := FileText([r0], nl)]
    ensures JournalInvariant(fs, [f], [[r0]], nl) && !NotBefore([f], [[r0]], 50)
  {
    fs := map[Filename(f) := FileText([r0], nl)];
    OneFileJournal(fs, f, r0, nl);
    assert [[r0]][0][0].timestamp > 50;
  }

  /** Both skip rules read the one file, and the read of it stops at the record at 100. */
  lemma BackwardRead(fs: FileSystem, f: JournalFile, r0: Record, r1: Record, nl: string)
    requires IsNewLine(nl) && f.firstTimestamp == 40
    requires Filename(f) in fs && fs[Filename(f)] == FileText([r0, r1], nl)
    requires RecordsRead([r0, r1], 40, 60, AllObjects) == []
    ensures ReadFiles(fs, SelectFiles([f], Some(40), Some(60), AsWritten), 40, 60, AllObjects) == ReadOutcome([], None)
    ensures ReadFiles(fs, SelectFiles([f], Some(40), Some(60), Corrected), 40, 60, AllObjects) == ReadOutcome([], None)
  {
    OneFileSelected(f, AsWritten);
    OneFileSelected(f, Corrected);
    ReadFileText([r0, r1], nl, 40, 60, AllObjects);
    OneFileRead(fs, f, 40, 60, AllObjects);
  }

  /** A write to the open stream of a file under the size limit appends its line to that file. */
  lemma BackwardWrite(fs: FileSystem, f: JournalFile, r0: Record, r1: Record, nl: string) returns (fs': FileSystem)
    requires fs == map[Filename(f) := FileText([r0], nl)]
    ensures fs' == fs[Filename(f) := FileText([r0, r1], nl)]
    ensures WriteToIndex(fs, [f], Some(Filename(f)), |fs[Filename(f)]| + 1, r1.timestamp, r1.payloads, nl) == (fs', [f], Filename(f))
  {
    var name := Filename(f);
    fs' := fs[name := fs[name] + Line(r1, nl)];
    FileTextSnoc([r0], r1, nl);
    assert [r0] + [r1] == [r0, r1];
  }

  /** A directory holding one indexed file with one record keeps the invariant. */
  lemma OneFileJournal(fs: FileSystem, f: JournalFile, r: Record, nl: string)
    requires InRange(f) && f.firstTimestamp <= r.timestamp
    requires fs == map[Filename(f) := FileText([r], nl)]
    ensures JournalInvariant(fs, [f], [[r]], nl)
  {
    assert Filename([f][0]) in Names([f]);
  }

  /** A one-file index whose file starts within the range is read whole. */
  lemma OneFileSelected(f: JournalFile, rule: SkipRule)
    requires f.firstTimestamp <= 60
    ensures SelectFiles([f], Some(40), Some(60), rule) == [f]
  {
    assert SelectFrom([f], 1, Some(40), Some(60), rule) == [];
  }

  lemma OneFileRead(fs: FileSystem, f: JournalFile, lo: int, hi: int, target: TargetType)
    requires Filename(f) in fs && ReadLines(SplitLines(fs[Filename(f)]), lo, hi, target).error.None?
    ensures ReadFiles(fs, [f], lo, hi, target) == Prepend(ReadLines(SplitLines(fs[Filename(f)]), lo, hi, target).items, ReadOutcome([], None))
  {
    assert [f][1..] == [];
  }

  /** Of a record at 100 followed by one at 50, the range [40, 60] holds only the second. */
  lemma BackwardPairInRange(r0: Record, r1: Record)
    requires r0.timestamp == 100 && r1.timestamp == 50
    ensures RecordsRead([r0, r1], 40, 60, AllObjects) == []
    ensures Collect(RecordsInRange([r0, r1], 40, 60), AllObjects) == OfType(r1.payloads, AllObjects)
  {
    assert [r0, r1][1..] == [r1];
    assert [r1][1..] == [];
    assert RecordsInRange([r1], 40, 60) == [r1] + RecordsInRange([], 40, 60);
    assert RecordsInRange([r0, r1], 40, 60) == [] + RecordsInRange([r1], 40, 60);
    assert Collect([r1], AllObjects) == OfType(r1.payloads, AllObjects) + Collect([], AllObjects);
  }
}
