/**
 * `JournalPersistor`: a rotating writer over a journal directory, with the
 * range read and the latest-timestamp read over the same index.
 */
module Persistor {
  import opened Common
  import opened JournalFiles
  import opened Payloads
  import opened RecordCodec
  import opened FileIndex
  import opened FileSelection
  import opened Storage
  import opened Journalables

  /**
   * The nested `JournalWriter.Write`: the record's line goes to the stream in
   * one piece and is flushed; only then does every journalable receive the
   * record's timestamp.
   */
  method WriteRecord(dir: JournalDirectory, name: string, ts: Ticks, js: seq<Journalable>, nl: string)
    requires name in dir.fs && dir.Valid()
    modifies dir, set j | j in js
    ensures dir.fs == old(dir.fs)[name := old(dir.fs)[name] + Line(Record(ts, Targets(js)), nl)]
    ensures dir.index == old(dir.index) && dir.Valid()
    ensures forall j :: j in js ==> j.timestamp == Stamped(old(j.timestamp), ts)
  {
    dir.Append(name, Line(Record(ts, Targets(js)), nl));
    StampAll(js, ts);
  }

  /**
   * The rotating write of `JournalPersistor.WriteAsync` and of the older
   * `JournalWriter.Write` on a directory and the stream a writer holds: open
   * a stream without a cutoff if none is open, rotate once if the stream's
   * position (the length of its file) has reached the size limit, then write
   * the record. The journalables are stamped only when the record was
   * written.
   */
  method WriteRotating(dir: JournalDirectory, stream: Option<string>, maxSize: int, nl: string,
                       ts: Ticks, js: seq<Journalable>)
    returns (stream': Option<string>, err: Option<Error>)
    requires dir.Valid() && StreamOpen(WriterState(dir.fs, dir.index, stream))
    modifies dir, set j | j in js
    ensures dir.Valid()
    ensures (WriterState(dir.fs, dir.index, stream'), err)
         == WriteStep(WriterState(old(dir.fs), old(dir.index), stream), dir.listing, maxSize, ts, Targets(js), nl)
    ensures forall j :: j in js ==> j.timestamp == if err.None? then Stamped(old(j.timestamp), ts) else old(j.timestamp)
  {
    ghost var s0 := WriterState(dir.fs, dir.index, stream);
    ghost var files := if stream.None? then Forced(dir.index, dir.listing) else Ok(dir.index.files);
    stream' := stream;
    if stream'.None? {
      var opening := dir.ProvisionStream(None);
      if opening.Err? {
        return None, Some(opening.error);
      }
      stream' := Some(opening.value);
    }
    ghost var (fs1, files1, name1) := if s0.stream.None? then Opened(s0.fs, files.value, None) else (s0.fs, files.value, s0.stream.value);
    assert dir.fs == fs1 && dir.index == Built(files1) && stream' == Some(name1);
    ghost var (fs2, files2, name2) := Rotated(fs1, files1, name1, maxSize, ts);
    if |dir.fs[stream'.value]| >= maxSize {
      var rotation := dir.ProvisionStream(Some(ts));
      assert rotation.Ok?;
      stream' := Some(rotation.value);
    }
    assert dir.fs == fs2 && dir.index == Built(files2) && stream' == Some(name2);
    WriteRecord(dir, stream'.value, ts, js, nl);
    err := None;
  }

  /** `File.Open` with `FileMode.Open` on a file of the index, then `JournalReader.Read` to the end. */
  method OpenAndRead(fs: FileSystem, f: JournalFile, lo: int, hi: int, target: TargetType) returns (o: ReadOutcome)
    ensures o == FileRead(fs, f, lo, hi, target)
  {
    var name := Filename(f);
    if name !in fs {
      return ReadOutcome([], Some(FileNotFound));
    }
    o := Read(fs[name], lo, hi, target);
  }

  /** What `ReadAsync` returns: the exception that ends the read loses the items read so far. */
  function RangeRead(fs: FileSystem, files: Result<seq<JournalFile>>, first: Ticks, last: Ticks, target: TargetType)
    : Result<seq<Payload>>
  {
    if files.Err? then Err(files.error)
    else
      var o := ReadFiles(fs, SelectFiles(files.value, Some(first), Some(last), AsWritten), first, last, target);
      if o.error.Some? then Err(o.error.value) else Ok(o.items)
  }

  class JournalPersistor {
    const dir: JournalDirectory
    const maxSize: int
    /** `Environment.NewLine` */
    const nl: string
    /** The file `_stream` appends to, if one is open. */
    var stream: Option<string>

    function State(): WriterState
      reads this, dir
    {
      WriterState(dir.fs, dir.index, stream)
    }

    ghost predicate Valid()
      reads this, dir
    {
      IsNewLine(nl) && dir.Valid() && StreamOpen(State())
    }

    constructor(fs: FileSystem, listing: seq<string>, maxSize: int, nl: string)
      requires IsListing(fs, listing) && IsNewLine(nl)
      ensures Valid() && fresh(dir)
      ensures State() == WriterState(fs, Unbuilt, None) && dir.listing == listing
      ensures this.maxSize == maxSize && this.nl == nl
    {
      dir := new JournalDirectory(fs, listing);
      this.maxSize := maxSize;
      this.nl := nl;
      stream := None;
    }

    /** Flushing and closing the stream, if one is open; a second call does nothing. */
    method Dispose()
      requires Valid()
      modifies this
      ensures stream == None && Valid()
    {
      stream := None;
    }

    /** `WriteAsync` */
    method WriteAsync(ts: Ticks, js: seq<Journalable>) returns (err: Option<Error>)
      requires Valid()
      modifies this, dir, set j | j in js
      ensures Valid()
      ensures (State(), err) == WriteStep(old(State()), dir.listing, maxSize, ts, Targets(js), nl)
      ensures forall j :: j in js ==> j.timestamp == if err.None? then Stamped(old(j.timestamp), ts) else old(j.timestamp)
    {
      stream, err := WriteRotating(dir, stream, maxSize, nl, ts, js);
    }

    /** `ReadLatestTimestampAsync` */
    method ReadLatestTimestampAsync() returns (r: Result<Ticks>)
      requires Valid()
      modifies dir
      ensures r == LatestIn(dir.fs, Forced(old(dir.index), dir.listing), nl)
      ensures dir.fs == old(dir.fs) && dir.index == Cached(Forced(old(dir.index), dir.listing))
      ensures Valid()
    {
      r := dir.LatestTimestamp(nl);
    }

    /** `ReadAsync`: the index, then the range read over it; an exception loses the items read so far. */
    method ReadAsync(first: Ticks, last: Ticks, target: TargetType) returns (r: Result<seq<Payload>>)
      requires Valid()
      modifies dir
      ensures r == RangeRead(dir.fs, Forced(old(dir.index), dir.listing), first, last, target)
      ensures dir.fs == old(dir.fs) && dir.index == Cached(Forced(old(dir.index), dir.listing))
      ensures Valid()
    {
      var files := dir.Files();
      if files.Err? {
        return Err(files.error);
      }
      var o := ReadIndex(dir.fs, files.value, first, last, target);
      r := if o.error.Some? then Err(o.error.value) else Ok(o.items);
    }
  }

  /**
   * The loop of `ReadAsync` over the index: stop at the first file that
   * starts after `last`, and otherwise go on with the next file. An
   * exception ends the loop.
   */
  method ReadIndex(fs: FileSystem, files: seq<JournalFile>, first: Ticks, last: Ticks, target: TargetType)
    returns (o: ReadOutcome)
    ensures o == ReadFiles(fs, SelectFiles(files, Some(first), Some(last), AsWritten), first, last, target)
  {
    ghost var all := ReadFiles(fs, SelectFiles(files, Some(first), Some(last), AsWritten), first, last, target);
    var targets: seq<Payload> := [];
    var index := 0;
    while index < |files| && !After(files[index].firstTimestamp, Some(last))
      invariant 0 <= index <= |files|
      invariant all == Prepend(targets, ReadFiles(fs, SelectFrom(files, index, Some(first), Some(last), AsWritten), first, last, target))
    {
      var err;
      targets, err := ReadAt(fs, files, index, first, last, target, all, targets);
      if err.Some? {
        return ReadOutcome(targets, err);
      }
      index := index + 1;
    }
    SelectEnds(files, index, Some(first), Some(last), AsWritten);
    ConcatEmpty(targets);
    o := ReadOutcome(targets, None);
  }

  /**
   * The body of that loop for file `index`: skip it when the next file
   * starts after `first`, and otherwise read it in full, adding its items
   * to `targets` or ending the read with its exception.
   */
  method ReadAt(fs: FileSystem, files: seq<JournalFile>, index: nat, first: Ticks, last: Ticks, target: TargetType,
                ghost all: ReadOutcome, targets: seq<Payload>)
    returns (targets': seq<Payload>, err: Option<Error>)
    requires index < |files| && !After(files[index].firstTimestamp, Some(last))
    requires all == Prepend(targets, ReadFiles(fs, SelectFrom(files, index, Some(first), Some(last), AsWritten), first, last, target))
    ensures err.Some? ==> all == ReadOutcome(targets', err)
    ensures err.None? ==>
              all == Prepend(targets', ReadFiles(fs, SelectFrom(files, index + 1, Some(first), Some(last), AsWritten), first, last, target))
  {
    if index + 1 < |files| && files[index + 1].firstTimestamp > first {
      SelectSkipped(files, index, Some(first), Some(last), AsWritten);
      return targets, None;
    }
    ReadStep(fs, files, index, Some(first), Some(last), first, last, target, targets, all);
    var o := OpenAndRead(fs, files[index], first, last, target);
    targets', err := targets + o.items, o.error;
  }
}
