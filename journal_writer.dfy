/**
 * The older standalone `JournalWriter`: the same rotation state machine as
 * the persistor's, over a provisioning closure that it is handed. The closure
 * and the state it captures (the directory and the lazy index) are a
 * `JournalDirectory`; the record is written by the persistor's record writer.
 */
module Writer {
  import opened Common
  import opened Payloads
  import opened FileIndex
  import opened Storage
  import opened Journalables
  import opened Persistor

  class JournalWriter {
    /** What `_streamProvisioning` opens files in and indexes them by. */
    const dir: JournalDirectory
    const maxSize: int
    const nl: string
    /** The file `_stream` appends to, if one is open. */
    var stream: Option<string>

    function State(): WriterState
      reads this, dir
    {
      WriterState(dir.fs, dir.index, stream)
    }

    ghost predicate Valid()
      reads this, dir
    {
      dir.Valid() && StreamOpen(State())
    }

    constructor(dir: JournalDirectory, maxSize: int, nl: string)
      requires dir.Valid()
      ensures Valid() && stream == None
      ensures this.dir == dir && this.maxSize == maxSize && this.nl == nl
    {
      this.dir := dir;
      this.maxSize := maxSize;
      this.nl := nl;
      stream := None;
    }

    /** Flushing and closing the stream, if one is open; a second call does nothing. */
    method Dispose()
      requires Valid()
      modifies this
      ensures stream == None && Valid()
    {
      stream := None;
    }

    /**
     * `Write`: the first write provisions with no cutoff (reopening or
     * creating a file, never rotating); a write at or past the size limit
     * rotates once, to a file starting at the record's timestamp.
     */
    method Write(ts: Ticks, js: seq<Journalable>) returns (err: Option<Error>)
      requires Valid()
      modifies this, dir, set j | j in js
      ensures Valid()
      ensures (State(), err) == WriteStep(old(State()), dir.listing, maxSize, ts, Targets(js), nl)
      ensures forall j :: j in js ==> j.timestamp == if err.None? then Stamped(old(j.timestamp), ts) else old(j.timestamp)
    {
      stream, err := WriteRotating(dir, stream, maxSize, nl, ts, js);
    }
  }
}
