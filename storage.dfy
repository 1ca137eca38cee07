/**
 * The state the writers share: the journal directory, the lazily built
 * index over it (`_journalFiles`), and the provisioning closure
 * (`_streamProvisioning`) that opens the file the next record is appended to.
 * `JournalPersistor` and `Journal` each own one such directory and the same
 * code over it.
 */
module Storage {
  import opened Common
  import opened JournalFiles
  import opened RecordCodec
  import opened FileIndex
  import opened LatestTimestamp

  /** `_journalFiles.Value`: the cached list, the cached exception, or a fresh build. */
  function Forced(index: LazyIndex, listing: seq<string>): Result<seq<JournalFile>> {
    match index
    case Unbuilt => IndexOf(listing)
    case Built(files) => Ok(files)
    case Faulted(e) => Err(e)
  }

  /** What the `Lazy<T>` holds after it has been asked for its value once. */
  function Cached(r: Result<seq<JournalFile>>): LazyIndex {
    if r.Ok? then Built(r.value) else Faulted(r.error)
  }

  /**
   * The provisioning closure once the index is at hand: the new directory,
   * the new index, and the name of the file opened for append, which is
   * created empty if it does not exist.
   */
  function Opened(fs: FileSystem, files: seq<JournalFile>, cutoff: Option<Ticks>)
    : (r: (FileSystem, seq<JournalFile>, string))
    ensures r.1 == Provision(files, cutoff).0 && r.2 == Filename(Provision(files, cutoff).1)
    ensures r.2 in r.0 && r.1 != [] && r.2 == Filename(r.1[|r.1| - 1])
  {
    var (files', f) := Provision(files, cutoff);
    (OpenForAppend(fs, Filename(f)), files', Filename(f))
  }

  /**
   * The provisioning closure on the directory and the lazy index: as
   * `Opened`, or the exception the index build threw, which the index keeps.
   */
  function Provisioned(fs: FileSystem, index: LazyIndex, listing: seq<string>, cutoff: Option<Ticks>)
    : (r: (FileSystem, LazyIndex, Result<string>))
  {
    var files := Forced(index, listing);
    if files.Err? then (fs, Faulted(files.error), Err(files.error))
    else
      var (fs', files', name) := Opened(fs, files.value, cutoff);
      (fs', Built(files'), Ok(name))
  }

  /**
   * The rotation check on an open stream positioned at the end of `name`: at
   * or past `maxSize` the stream is replaced by one on a new file that starts
   * at `ts`; otherwise nothing changes.
   */
  function Rotated(fs: FileSystem, files: seq<JournalFile>, name: string, maxSize: int, ts: Ticks)
    : (r: (FileSystem, seq<JournalFile>, string))
    requires files != [] && name in fs
    ensures r.2 in r.0 && r.1 != []
  {
    if |fs[name]| >= maxSize then Opened(fs, files, Some(ts)) else (fs, files, name)
  }

  /**
   * One write with the index at hand: open a stream without a cutoff if none
   * is open, rotate once if the stream is at or past the size limit, then
   * append the record's line. The result is the directory, the index and the
   * file the stream is left open on.
   */
  function WriteToIndex(fs: FileSystem, files: seq<JournalFile>, stream: Option<string>, maxSize: int,
                        ts: Ticks, payloads: seq<Payloads.Payload>, nl: string)
    : (r: (FileSystem, seq<JournalFile>, string))
    requires stream.Some? ==> files != [] && stream.value in fs
    ensures r.2 in r.0 && r.1 != []
  {
    var (fs1, files1, name1) := if stream.None? then Opened(fs, files, None) else (fs, files, stream.value);
    var (fs2, files2, name2) := Rotated(fs1, files1, name1, maxSize, ts);
    (fs2[name2 := fs2[name2] + Line(Record(ts, payloads), nl)], files2, name2)
  }

  /**
   * `ReadLatestTimestamp` on the index value: `MinValue` for an empty index,
   * otherwise the latest timestamp of the last file, which `File.Open` with
   * `FileMode.Open` requires to exist.
   */
  function LatestIn(fs: FileSystem, files: Result<seq<JournalFile>>, nl: string): Result<Ticks> {
    if files.Err? then Err(files.error)
    else if files.value == [] then Ok(MinTicks)
    else
      var name := Filename(files.value[|files.value| - 1]);
      if name !in fs then Err(FileNotFound) else LatestTimestampOf(fs[name], nl)
  }

  /** The state a rotating writer acts on: the directory, the index, and the file its stream is open on. */
  datatype WriterState = WriterState(fs: FileSystem, index: LazyIndex, stream: Option<string>)

  ghost predicate StreamOpen(s: WriterState) {
    s.stream.Some? ==> s.index.Built? && s.index.files != [] && s.stream.value in s.fs
  }

  /**
   * One write of a rotating writer (`JournalPersistor.WriteAsync` and the
   * older `JournalWriter.Write`). Only a writer without an open stream asks
   * the lazy index for its value, so only it can meet the exception the
   * index build threw; that ends the write with the stream still closed.
   */
  function WriteStep(s: WriterState, listing: seq<string>, maxSize: int, ts: Ticks, payloads: seq<Payloads.Payload>, nl: string)
    : (r: (WriterState, Option<Error>))
    requires StreamOpen(s)
    ensures StreamOpen(r.0)
    ensures r.1.None? <==> r.0.stream.Some?
  {
    var files := if s.stream.None? then Forced(s.index, listing) else Ok(s.index.files);
    if files.Err? then (WriterState(s.fs, Faulted(files.error), None), Some(files.error))
    else
      var (fs', files', name) := WriteToIndex(s.fs, files.value, s.stream, maxSize, ts, payloads, nl);
      (WriterState(fs', Built(files'), Some(name)), None)
  }

  class JournalDirectory {
    var fs: FileSystem
    var index: LazyIndex
    /** The enumeration of the directory the index is built from. */
    const listing: seq<string>

    /** Until the index is built nothing is written, so the listing still describes the directory. */
    ghost predicate Valid()
      reads this
    {
      index.Unbuilt? ==> IsListing(fs, listing)
    }

    constructor(fs: FileSystem, listing: seq<string>)
      requires IsListing(fs, listing)
      ensures Valid()
      ensures this.fs == fs && this.listing == listing && index == Unbuilt
    {
      this.fs := fs;
      this.listing := listing;
      index := Unbuilt;
    }

    /** `_journalFiles.Value` */
    method Files() returns (r: Result<seq<JournalFile>>)
      modifies this
      ensures r == Forced(old(index), listing)
      ensures index == Cached(r) && fs == old(fs)
      ensures Valid()
    {
      match index
      case Unbuilt =>
        r := BuildIndex(listing);
        index := Cached(r);
      case Built(files) =>
        r := Ok(files);
      case Faulted(e) =>
        r := Err(e);
    }

    /** Writing `text` through a stream open for append on `name`, and flushing it. */
    method Append(name: string, text: string)
      requires name in fs && Valid()
      modifies this
      ensures fs == old(fs)[name := old(fs)[name] + text] && index == old(index)
      ensures Valid()
    {
      fs := fs[name := fs[name] + text];
    }

    /** `ReadLatestTimestamp` of the persistor and of the journal: the index, then the last file. */
    method LatestTimestamp(nl: string) returns (r: Result<Ticks>)
      requires IsNewLine(nl) && Valid()
      modifies this
      ensures r == LatestIn(fs, Forced(old(index), listing), nl)
      ensures index == Cached(Forced(old(index), listing)) && fs == old(fs)
      ensures Valid()
    {
      var files := Files();
      if files.Err? {
        return Err(files.error);
      }
      var journalFiles := files.value;
      if journalFiles == [] {
        return Ok(MinTicks);
      }
      var name := Filename(journalFiles[|journalFiles| - 1]);
      if name !in fs {
        return Err(FileNotFound);
      }
      r := ReadLatestTimestamp(fs[name], nl);
    }

    /** `_streamProvisioning.Invoke(cutoff)`: the name of the file the new stream appends to. */
    method ProvisionStream(cutoff: Option<Ticks>) returns (r: Result<string>)
      modifies this
      ensures (fs, index, r) == Provisioned(old(fs), old(index), listing, cutoff)
      ensures Valid()
    {
      var files := Files();
      if files.Err? {
        assert fs == old(fs) && index == Faulted(files.error);
        return Err(files.error);
      }
      // `LastOrDefault()`, then the three branches of the closure.
      var current: JournalFile;
      var journalFiles := files.value;
      if journalFiles == [] {
        current := JournalFile(1, if cutoff.Some? then cutoff.value else MinTicks);
        journalFiles := journalFiles + [current];
        assert journalFiles == [current];
      } else if cutoff.Some? {
        current := Successor(journalFiles[|journalFiles| - 1], cutoff.value);
        journalFiles := journalFiles + [current];
      } else {
        current := journalFiles[|journalFiles| - 1];
      }
      index := Built(journalFiles);
      var name := Filename(current);
      fs := OpenForAppend(fs, name);
      r := Ok(name);
    }
  }
}
