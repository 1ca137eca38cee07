/**
 * What a rotating writer keeps true of the journal directory. Whatever the
 * write's timestamp: the files of the index hold the records written so
 * far, sequence numbers strictly increase, and every journal file in the
 * directory is in the index. When the timestamp is no earlier than what is
 * stored: the records are also in time order, each within its file's span.
 * One write appends exactly its record, and the index only ever grows at
 * its end.
 */
module Rotation {
  import opened Common
  import opened JournalFiles
  import opened Payloads
  import opened RecordCodec
  import opened FileIndex
  import opened FileSelection
  import opened Storage
  import Decimal

  /** The names of the files of the index. */
  function Names(files: seq<JournalFile>): set<string> {
    set i | 0 <= i < |files| :: Filename(files[i])
  }

  /** Sequence numbers fit the name and strictly increase along the index. */
  predicate SequencesIncrease(files: seq<JournalFile>) {
    && (forall i :: 0 <= i < |files| ==> InRange(files[i]))
    && (forall i, j :: 0 <= i < j < |files| ==> files[i].sequenceNumber < files[j].sequenceNumber)
  }

  /** Every journal file of the directory belongs to the index. */
  ghost predicate OnlyIndexed(fs: FileSystem, files: seq<JournalFile>) {
    forall name :: name in fs && HasJournalExtension(name) ==> name in Names(files)
  }

  ghost predicate JournalInvariant(fs: FileSystem, files: seq<JournalFile>, contents: seq<seq<Record>>, nl: string) {
    && WellFormed(fs, files, contents, nl)
    && SequencesIncrease(files)
    && OnlyIndexed(fs, files)
  }

  /** No record written so far, and no file started so far, is later than `ts`. */
  ghost predicate NotBefore(files: seq<JournalFile>, contents: seq<seq<Record>>, ts: Ticks) {
    && (forall i, k :: 0 <= i < |contents| && 0 <= k < |contents[i]| ==> contents[i][k].timestamp <= ts)
    && (forall i :: 0 <= i < |files| ==> files[i].firstTimestamp <= ts)
  }

  /**
   * The part of the invariant that a write keeps whatever its timestamp: the
   * files of the index hold their records, sequence numbers increase, and
   * only indexed journal files exist. `JournalInvariant` is this together
   * with `RecordsFit`.
   */
  ghost predicate Layout(fs: FileSystem, files: seq<JournalFile>, contents: seq<seq<Record>>, nl: string) {
    && |files| == |contents|
    && StoredAs(fs, files, contents, nl)
    && SequencesIncrease(files)
    && OnlyIndexed(fs, files)
  }

  /** Records and files in time order, none of them later than `ts`. */
  ghost predicate InOrderUpTo(files: seq<JournalFile>, contents: seq<seq<Record>>, ts: Ticks) {
    && |files| == |contents|
    && RecordsFit(files, contents)
    && NotBefore(files, contents, ts)
  }

  // ---------------------------------------------------------------------------
  // The records per file after each step of a write
  // ---------------------------------------------------------------------------

  /** Opening on an empty index adds file 1, still empty. */
  function OpenedContents(files: seq<JournalFile>, contents: seq<seq<Record>>): seq<seq<Record>> {
    if files == [] then contents + [[]] else contents
  }

  /** A rotation adds an empty file. */
  function RotatedContents(contents: seq<seq<Record>>, rotate: bool): seq<seq<Record>> {
    if rotate then contents + [[]] else contents
  }

  /** The record goes to the end of the last file. */
  function AppendedContents(contents: seq<seq<Record>>, r: Record): seq<seq<Record>>
    requires contents != []
  {
    contents[..|contents| - 1] + [contents[|contents| - 1] + [r]]
  }

  /** The records per file after `WriteToIndex`, for a directory that holds `contents`. */
  function ContentsAfterWrite(fs: FileSystem, files: seq<JournalFile>, stream: Option<string>, contents: seq<seq<Record>>,
                              maxSize: int, r: Record): seq<seq<Record>>
    requires stream.Some? ==> files != [] && stream.value in fs
    requires |files| == |contents|
  {
    var atOpen := if stream.None? then OpenedContents(files, contents) else contents;
    var (fs1, _, name1) := if stream.None? then Opened(fs, files, None) else (fs, files, stream.value);
    AppendedContents(RotatedContents(atOpen, |fs1[name1]| >= maxSize), r)
  }

  // ---------------------------------------------------------------------------
  // Facts about names
  // ---------------------------------------------------------------------------

  lemma FilenameExtension(f: JournalFile)
    ensures HasJournalExtension(Filename(f))
  {
    var p := Decimal.Padded(f.sequenceNumber, SequenceWidth) + "." + Decimal.Padded(f.firstTimestamp, TicksWidth);
    assert Filename(f) == p + Extension;
    assert (p + Extension)[|p + Extension| - |Extension|..] == Extension;
  }

  /** Distinct files of the index have distinct names. */
  lemma NamesDistinct(files: seq<JournalFile>, i: int, j: int)
    requires SequencesIncrease(files) && 0 <= i < |files| && 0 <= j < |files| && i != j
    ensures Filename(files[i]) != Filename(files[j])
  {
    if Filename(files[i]) == Filename(files[j]) {
      FilenameInjective(files[i], files[j]);
    }
  }

  /** A file whose sequence number exceeds every indexed one is not in the directory yet. */
  lemma FreshName(fs: FileSystem, files: seq<JournalFile>, f: JournalFile)
    requires SequencesIncrease(files) && OnlyIndexed(fs, files) && InRange(f)
    requires forall i :: 0 <= i < |files| ==> files[i].sequenceNumber < f.sequenceNumber
    ensures Filename(f) !in fs
    ensures Filename(f) !in Names(files)
  {
    FilenameExtension(f);
    if Filename(f) in Names(files) {
      var i :| 0 <= i < |files| && Filename(files[i]) == Filename(f);
      FilenameInjective(files[i], f);
    }
  }

  // ---------------------------------------------------------------------------
  // Storage under updates
  // ---------------------------------------------------------------------------

  lemma StoredInit(fs: FileSystem, files: seq<JournalFile>, contents: seq<seq<Record>>, nl: string)
    requires |files| == |contents| && files != [] && StoredAs(fs, files, contents, nl)
    ensures StoredAs(fs, files[..|files| - 1], contents[..|contents| - 1], nl)
  {
    var n := |files| - 1;
    forall i | 0 <= i < n
      ensures Filename(files[..n][i]) in fs && fs[Filename(files[..n][i])] == FileText(contents[..n][i], nl)
    {
      assert files[..n][i] == files[i] && contents[..n][i] == contents[i];
    }
  }

  /** Writing a file none of the index names leaves the stored files as they were and stores one more. */
  lemma StoredSnoc(fs: FileSystem, files: seq<JournalFile>, contents: seq<seq<Record>>, nl: string, f: JournalFile, c: seq<Record>)
    requires |files| == |contents| && StoredAs(fs, files, contents, nl)
    requires forall i :: 0 <= i < |files| ==> Filename(files[i]) != Filename(f)
    ensures StoredAs(fs[Filename(f) := FileText(c, nl)], files + [f], contents + [c], nl)
  {
    var fs' := fs[Filename(f) := FileText(c, nl)];
    var files', contents' := files + [f], contents + [c];
    forall i | 0 <= i < |files'|
      ensures Filename(files'[i]) in fs' && fs'[Filename(files'[i])] == FileText(contents'[i], nl)
    {
      if i < |files| {
        assert files'[i] == files[i] && contents'[i] == contents[i];
      }
    }
  }

  lemma NamesSnoc(files: seq<JournalFile>, f: JournalFile)
    ensures Names(files + [f]) == Names(files) + {Filename(f)}
  {
    var t := files + [f];
    forall name | name in Names(t) ensures name in Names(files) + {Filename(f)} {
      var i :| 0 <= i < |t| && Filename(t[i]) == name;
      if i < |files| {
        assert t[i] == files[i];
      }
    }
    forall name | name in Names(files) ensures name in Names(t) {
      var i :| 0 <= i < |files| && Filename(files[i]) == name;
      assert t[i] == files[i];
    }
    assert Filename(t[|files|]) == Filename(f);
  }

  // ---------------------------------------------------------------------------
  // Record placement under updates
  // ---------------------------------------------------------------------------

  /** A file added after every record written so far breaks none of the spans. */
  lemma FitsWithNewFile(files: seq<JournalFile>, contents: seq<seq<Record>>, f: JournalFile)
    requires |files| == |contents| && RecordsFit(files, contents)
    requires NotBefore(files, contents, f.firstTimestamp)
    ensures RecordsFit(files + [f], contents + [[]])
  {
    var files', contents' := files + [f], contents + [[]];
    assert forall i :: 0 <= i < |files| ==> files'[i] == files[i] && contents'[i] == contents[i];
  }

  /** A record later than everything in the last file, and no earlier than its start, fits at its end. */
  lemma FitsWithRecord(files: seq<JournalFile>, contents: seq<seq<Record>>, r: Record)
    requires |files| == |contents| && files != [] && RecordsFit(files, contents)
    requires NotBefore(files, contents, r.timestamp)
    ensures RecordsFit(files, AppendedContents(contents, r))
  {
    var n := |files| - 1;
    var c := AppendedContents(contents, r);
    assert forall i :: 0 <= i < n ==> c[i] == contents[i];
    assert c[n] == contents[n] + [r];
    assert forall k :: 0 <= k < |contents[n]| ==> c[n][k] == contents[n][k];
  }

  lemma NotBeforeSnoc(files: seq<JournalFile>, contents: seq<seq<Record>>, f: JournalFile, ts: Ticks)
    requires NotBefore(files, contents, ts) && f.firstTimestamp <= ts
    ensures NotBefore(files + [f], contents + [[]], ts)
  {
    var files', contents' := files + [f], contents + [[]];
    assert forall i :: 0 <= i < |files| ==> files'[i] == files[i];
    assert forall i :: 0 <= i < |contents| ==> contents'[i] == contents[i];
  }

  // ---------------------------------------------------------------------------
  // The three steps of a write
  // ---------------------------------------------------------------------------

  /** Appending a file with a higher sequence number keeps the sequence numbers increasing. */
  lemma SequencesSnoc(files: seq<JournalFile>, f: JournalFile)
    requires SequencesIncrease(files) && InRange(f)
    requires forall i :: 0 <= i < |files| ==> files[i].sequenceNumber < f.sequenceNumber
    ensures SequencesIncrease(files + [f])
  {
    var t := files + [f];
    assert forall i :: 0 <= i < |files| ==> t[i] == files[i];
  }

  /** A directory that gains the file of a new index entry still holds only indexed journal files. */
  lemma OnlyIndexedSnoc(fs: FileSystem, files: seq<JournalFile>, f: JournalFile, text: string)
    requires OnlyIndexed(fs, files)
    ensures OnlyIndexed(fs[Filename(f) := text], files + [f])
  {
    NamesSnoc(files, f);
  }

  /** Rewriting a file that is already there adds no journal file. */
  lemma OnlyIndexedUpdate(fs: FileSystem, files: seq<JournalFile>, name: string, text: string)
    requires OnlyIndexed(fs, files) && name in fs
    ensures OnlyIndexed(fs[name := text], files)
  {
  }

  /** The stored files after the new, empty file of a new index entry is created. */
  lemma StoredNewFile(fs: FileSystem, files: seq<JournalFile>, contents: seq<seq<Record>>, nl: string, f: JournalFile)
    requires |files| == |contents| && StoredAs(fs, files, contents, nl)
    requires Filename(f) !in Names(files)
    ensures StoredAs(fs[Filename(f) := FileText([], nl)], files + [f], contents + [[]], nl)
  {
    forall i | 0 <= i < |files| ensures Filename(files[i]) != Filename(f) {
      assert Filename(files[i]) in Names(files);
    }
    StoredSnoc(fs, files, contents, nl, f, []);
  }

  /** The stored files after the line of `r` is appended to the last file. */
  lemma StoredAppend(fs: FileSystem, files: seq<JournalFile>, contents: seq<seq<Record>>, nl: string, r: Record)
    requires |files| == |contents| && files != [] && StoredAs(fs, files, contents, nl) && SequencesIncrease(files)
    ensures Filename(files[|files| - 1]) in fs
    ensures StoredAs(fs[Filename(files[|files| - 1]) := fs[Filename(files[|files| - 1])] + Line(r, nl)],
                     files, AppendedContents(contents, r), nl)
  {
    var n := |files| - 1;
    var name := Filename(files[n]);
    StoredInit(fs, files, contents, nl);
    forall i | 0 <= i < n ensures Filename(files[..n][i]) != name {
      NamesDistinct(files, i, n);
    }
    FileTextSnoc(contents[n], r, nl);
    StoredSnoc(fs, files[..n], contents[..n], nl, files[n], contents[n] + [r]);
    InitLast(files);
  }

  /**
   * A new, empty file at the end of the index (the successor of the last
   * one, or file 1) keeps the layout; it keeps the time order too when it
   * starts no earlier than every record and file so far.
   */
  lemma AddEmptyFile(fs: FileSystem, files: seq<JournalFile>, contents: seq<seq<Record>>, nl: string, f: JournalFile)
    requires Layout(fs, files, contents, nl) && InRange(f)
    requires forall i :: 0 <= i < |files| ==> files[i].sequenceNumber < f.sequenceNumber
    ensures Filename(f) !in fs
    ensures Layout(fs[Filename(f) := FileText([], nl)], files + [f], contents + [[]], nl)
    ensures InOrderUpTo(files, contents, f.firstTimestamp) ==> InOrderUpTo(files + [f], contents + [[]], f.firstTimestamp)
  {
    FreshName(fs, files, f);
    StoredNewFile(fs, files, contents, nl, f);
    SequencesSnoc(files, f);
    OnlyIndexedSnoc(fs, files, f, FileText([], nl));
    if InOrderUpTo(files, contents, f.firstTimestamp) {
      FitsWithNewFile(files, contents, f);
      NotBeforeSnoc(files, contents, f, f.firstTimestamp);
    }
  }

  /**
   * Appending the record's line to the last file keeps the layout; it keeps
   * the time order when the record is no earlier than every record and file
   * so far.
   */
  lemma AppendRecord(fs: FileSystem, files: seq<JournalFile>, contents: seq<seq<Record>>, nl: string, name: string, r: Record)
    requires Layout(fs, files, contents, nl) && files != [] && name == Filename(files[|files| - 1])
    ensures name in fs
    ensures Layout(fs[name := fs[name] + Line(r, nl)], files, AppendedContents(contents, r), nl)
    ensures InOrderUpTo(files, contents, r.timestamp) ==> RecordsFit(files, AppendedContents(contents, r))
  {
    StoredAppend(fs, files, contents, nl, r);
    OnlyIndexedUpdate(fs, files, name, fs[name] + Line(r, nl));
    if InOrderUpTo(files, contents, r.timestamp) {
      FitsWithRecord(files, contents, r);
    }
  }

  /**
   * Opening without a cutoff: an empty index gets file 1 starting at
   * `MinValue`; otherwise the last file is reopened and nothing changes.
   */
  lemma OpenKeeps(fs: FileSystem, files: seq<JournalFile>, contents: seq<seq<Record>>, nl: string, ts: Ticks)
    returns (fs1: FileSystem, files1: seq<JournalFile>, name1: string)
    requires Layout(fs, files, contents, nl)
    ensures Opened(fs, files, None) == (fs1, files1, name1)
    ensures Layout(fs1, files1, OpenedContents(files, contents), nl)
    ensures InOrderUpTo(files, contents, ts) ==> InOrderUpTo(files1, OpenedContents(files, contents), ts)
    ensures files <= files1 && files1 != [] && name1 == Filename(files1[|files1| - 1])
    ensures files1 == if files == [] then [JournalFile(1, MinTicks)] else files
  {
    if files == [] {
      fs1, files1, name1 := OpenFirstFile(fs, contents, nl, ts, JournalFile(1, MinTicks));
    } else {
      assert Provision(files, None) == (files, files[|files| - 1]);
      assert Filename(files[|files| - 1]) in fs;
      fs1, files1, name1 := fs, files, Filename(files[|files| - 1]);
    }
  }

  /** Opening on an empty index creates file 1, empty and starting at `MinValue`. */
  lemma OpenedFirst(fs: FileSystem, f: JournalFile)
    requires f == JournalFile(1, MinTicks) && Filename(f) !in fs
    ensures Opened(fs, [], None) == (fs[Filename(f) := ""], [f], Filename(f))
  {
  }

  /** The first file of an empty journal: file 1 holding no records, in order whatever `ts` is. */
  lemma OpenFirstFile(fs: FileSystem, contents: seq<seq<Record>>, nl: string, ts: Ticks, f: JournalFile)
    returns (fs1: FileSystem, files1: seq<JournalFile>, name1: string)
    requires f == JournalFile(1, MinTicks)
    requires Layout(fs, [], contents, nl)
    ensures Opened(fs, [], None) == (fs1, files1, name1)
    ensures files1 == [f] && name1 == Filename(f)
    ensures Layout(fs1, files1, contents + [[]], nl)
    ensures InOrderUpTo(files1, contents + [[]], ts)
  {
    assert contents == [];
    assert InOrderUpTo([], contents, f.firstTimestamp);
    AddEmptyFile(fs, [], contents, nl, f);
    NotBeforeSnoc([], contents, f, ts);
    OpenedFirst(fs, f);
    ConcatEmpty([f]);
    fs1, files1, name1 := fs[Filename(f) := FileText([], nl)], [] + [f], Filename(f);
  }

  /** The successor of the last file comes after every file of the index. */
  lemma SuccessorLater(files: seq<JournalFile>, ts: Ticks)
    requires SequencesIncrease(files) && files != []
    ensures forall i :: 0 <= i < |files| ==> files[i].sequenceNumber < Successor(files[|files| - 1], ts).sequenceNumber
  {
    var last := files[|files| - 1];
    forall i | 0 <= i < |files| ensures files[i].sequenceNumber < Successor(last, ts).sequenceNumber {
      if i < |files| - 1 {
        assert files[i].sequenceNumber < last.sequenceNumber;
      }
    }
  }

  /** Opening with a cutoff adds the successor of the last file, created empty. */
  lemma OpenedWithCutoff(fs: FileSystem, files: seq<JournalFile>, ts: Ticks)
    requires files != [] && Filename(Successor(files[|files| - 1], ts)) !in fs
    ensures var f := Successor(files[|files| - 1], ts);
            Opened(fs, files, Some(ts)) == (fs[Filename(f) := ""], files + [f], Filename(f))
  {
  }

  /**
   * A rotation: the successor of the last file, starting at `ts`, is added
   * empty and the stream moves to it. The layout is kept; the time order is
   * kept when `ts` is no earlier than every record and file so far.
   */
  lemma RotateAddsFile(fs: FileSystem, files: seq<JournalFile>, contents: seq<seq<Record>>, nl: string, ts: Ticks)
    returns (fs2: FileSystem, files2: seq<JournalFile>, name2: string)
    requires Layout(fs, files, contents, nl) && files != []
    requires InRange(Successor(files[|files| - 1], ts))
    ensures Opened(fs, files, Some(ts)) == (fs2, files2, name2)
    ensures Layout(fs2, files2, contents + [[]], nl)
    ensures InOrderUpTo(files, contents, ts) ==> InOrderUpTo(files2, contents + [[]], ts)
    ensures files <= files2 && files2 != [] && name2 == Filename(files2[|files2| - 1])
  {
    var f := Successor(files[|files| - 1], ts);
    SuccessorLater(files, ts);
    AddEmptyFile(fs, files, contents, nl, f);
    OpenedWithCutoff(fs, files, ts);
    assert FileText([], nl) == "";
    fs2, files2, name2 := fs[Filename(f) := ""], files + [f], Filename(f);
    assert files2[|files2| - 1] == f;
  }

  /** The rotation check with the stream on the last file. */
  lemma RotateKeeps(fs: FileSystem, files: seq<JournalFile>, contents: seq<seq<Record>>, nl: string,
                    name: string, maxSize: int, ts: Ticks)
    returns (fs2: FileSystem, files2: seq<JournalFile>, name2: string)
    requires Layout(fs, files, contents, nl) && files != [] && name == Filename(files[|files| - 1])
    requires InRange(Successor(files[|files| - 1], ts))
    ensures name in fs && Rotated(fs, files, name, maxSize, ts) == (fs2, files2, name2)
    ensures Layout(fs2, files2, RotatedContents(contents, |fs[name]| >= maxSize), nl)
    ensures InOrderUpTo(files, contents, ts) ==> InOrderUpTo(files2, RotatedContents(contents, |fs[name]| >= maxSize), ts)
    ensures files <= files2 && files2 != [] && name2 == Filename(files2[|files2| - 1])
  {
    assert name in fs;
    if |fs[name]| >= maxSize {
      fs2, files2, name2 := RotateAddsFile(fs, files, contents, nl, ts);
    } else {
      fs2, files2, name2 := fs, files, name;
    }
  }

  /** `WriteToIndex` and `ContentsAfterWrite` in terms of the results of their open and rotation steps. */
  lemma WriteSteps(fs: FileSystem, files: seq<JournalFile>, stream: Option<string>, contents: seq<seq<Record>>,
                   maxSize: int, ts: Ticks, payloads: seq<Payload>, nl: string, atOpen: seq<seq<Record>>,
                   fs1: FileSystem, files1: seq<JournalFile>, name1: string,
                   fs2: FileSystem, files2: seq<JournalFile>, name2: string)
    requires stream.Some? ==> files != [] && stream.value in fs
    requires |files| == |contents|
    requires atOpen == if stream.None? then OpenedContents(files, contents) else contents
    requires (if stream.None? then Opened(fs, files, None) else (fs, files, stream.value)) == (fs1, files1, name1)
    requires files1 != [] && name1 in fs1
    requires Rotated(fs1, files1, name1, maxSize, ts) == (fs2, files2, name2)
    ensures WriteToIndex(fs, files, stream, maxSize, ts, payloads, nl) == (fs2[name2 := fs2[name2] + Line(Record(ts, payloads), nl)], files2, name2)
    ensures ContentsAfterWrite(fs, files, stream, contents, maxSize, Record(ts, payloads))
         == AppendedContents(RotatedContents(atOpen, |fs1[name1]| >= maxSize), Record(ts, payloads))
  {
  }

  /** The open step of a write: a writer with no stream opens one without a cutoff; an open stream is kept. */
  lemma OpenStep(fs: FileSystem, files: seq<JournalFile>, stream: Option<string>, contents: seq<seq<Record>>,
                 nl: string, ts: Ticks)
    returns (atOpen: seq<seq<Record>>, fs1: FileSystem, files1: seq<JournalFile>, name1: string)
    requires Layout(fs, files, contents, nl)
    requires stream.Some? ==> files != [] && stream.value == Filename(files[|files| - 1])
    ensures stream.Some? ==> stream.value in fs
    ensures |files| == |contents|
    ensures atOpen == if stream.None? then OpenedContents(files, contents) else contents
    ensures (if stream.None? then Opened(fs, files, None) else (fs, files, stream.value)) == (fs1, files1, name1)
    ensures Layout(fs1, files1, atOpen, nl)
    ensures InOrderUpTo(files, contents, ts) ==> InOrderUpTo(files1, atOpen, ts)
    ensures files <= files1 && files1 != [] && name1 == Filename(files1[|files1| - 1])
    ensures files1 == if files == [] then [JournalFile(1, MinTicks)] else files
  {
    if stream.None? {
      fs1, files1, name1 := OpenKeeps(fs, files, contents, nl, ts);
      atOpen := OpenedContents(files, contents);
    } else {
      assert Filename(files[|files| - 1]) in fs;
      atOpen, fs1, files1, name1 := contents, fs, files, stream.value;
    }
  }

  /** A write once the stream is open on the last file: the rotation check, then the append. */
  lemma WriteFromOpen(fs: FileSystem, files: seq<JournalFile>, stream: Option<string>, contents: seq<seq<Record>>,
                      nl: string, maxSize: int, ts: Ticks, payloads: seq<Payload>, atOpen: seq<seq<Record>>,
                      fs1: FileSystem, files1: seq<JournalFile>, name1: string)
    returns (fs': FileSystem, files': seq<JournalFile>, name': string)
    requires stream.Some? ==> files != [] && stream.value in fs
    requires |files| == |contents|
    requires atOpen == if stream.None? then OpenedContents(files, contents) else contents
    requires (if stream.None? then Opened(fs, files, None) else (fs, files, stream.value)) == (fs1, files1, name1)
    requires Layout(fs1, files1, atOpen, nl)
    requires files <= files1 && files1 != [] && name1 == Filename(files1[|files1| - 1])
    requires InRange(Successor(files1[|files1| - 1], ts))
    ensures (fs', files', name') == WriteToIndex(fs, files, stream, maxSize, ts, payloads, nl)
    ensures Layout(fs', files', ContentsAfterWrite(fs, files, stream, contents, maxSize, Record(ts, payloads)), nl)
    ensures InOrderUpTo(files1, atOpen, ts) ==>
              RecordsFit(files', ContentsAfterWrite(fs, files, stream, contents, maxSize, Record(ts, payloads)))
    ensures files <= files' && name' == Filename(files'[|files'| - 1])
  {
    var r := Record(ts, payloads);
    var fs2, files2, name2 := RotateKeeps(fs1, files1, atOpen, nl, name1, maxSize, ts);
    AppendRecord(fs2, files2, RotatedContents(atOpen, |fs1[name1]| >= maxSize), nl, name2, r);
    WriteSteps(fs, files, stream, contents, maxSize, ts, payloads, nl, atOpen, fs1, files1, name1, fs2, files2, name2);
    fs', files', name' := fs2[name2 := fs2[name2] + Line(r, nl)], files2, name2;
  }

  /**
   * One write leaves the stream on the last file, appends the record to the
   * last file (rotating first when that file has reached the size limit),
   * grows the index only at its end and keeps the layout, whatever its
   * timestamp. It keeps the whole invariant when its timestamp is no earlier
   * than any record or file so far.
   */
  lemma WriteKeepsInvariant(fs: FileSystem, files: seq<JournalFile>, stream: Option<string>, contents: seq<seq<Record>>,
                            nl: string, maxSize: int, ts: Ticks, payloads: seq<Payload>)
    returns (fs': FileSystem, files': seq<JournalFile>, name': string)
    requires Layout(fs, files, contents, nl)
    requires stream.Some? ==> files != [] && stream.value == Filename(files[|files| - 1])
    requires files != [] ==> InRange(Successor(files[|files| - 1], ts))
    ensures stream.Some? ==> stream.value in fs
    ensures (fs', files', name') == WriteToIndex(fs, files, stream, maxSize, ts, payloads, nl)
    ensures Layout(fs', files', ContentsAfterWrite(fs, files, stream, contents, maxSize, Record(ts, payloads)), nl)
    ensures JournalInvariant(fs, files, contents, nl) && NotBefore(files, contents, ts) ==>
              JournalInvariant(fs', files', ContentsAfterWrite(fs, files, stream, contents, maxSize, Record(ts, payloads)), nl)
    ensures files <= files' && name' == Filename(files'[|files'| - 1])
  {
    var atOpen, fs1, files1, name1 := OpenStep(fs, files, stream, contents, nl, ts);
    fs', files', name' := WriteFromOpen(fs, files, stream, contents, nl, maxSize, ts, payloads, atOpen, fs1, files1, name1);
  }
}
