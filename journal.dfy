/**
 * The `Journal` facade: its own lazy index and provisioning closure over the
 * journal directory, the journaling action that writes one batch through a
 * fresh `JournalWriter`, the latest-timestamp getter, and `Replay`, which
 * sends the records of a range of the journal to a target block.
 */
module Journals {
  import opened Common
  import opened JournalFiles
  import opened Payloads
  import opened RecordCodec
  import opened FileIndex
  import opened FileSelection
  import opened Storage
  import opened Journalables
  import opened Writer
  import opened Persistor

  /** The replay filter: no predicate lets everything through. */
  predicate Passes(keep: Option<Payload -> bool>, p: Payload) {
    keep.None? || keep.value(p)
  }

  /** The items that pass the filter, in their order. */
  function Filter(keep: Option<Payload -> bool>, ps: seq<Payload>): (r: seq<Payload>)
    ensures |r| <= |ps|
  {
    if ps == [] then []
    else (if Passes(keep, ps[0]) then [ps[0]] else []) + Filter(keep, ps[1..])
  }

  /**
   * What `Replay` sends to the target block, and the exception it faults
   * the block with (`None`: the block is completed). Missing bounds take no
   * part in the choice of files and become `MinValue` and `MaxValue` inside
   * each file; the items read before an exception have been sent.
   */
  function ReplayOf(fs: FileSystem, files: Result<seq<JournalFile>>, first: Option<Ticks>, last: Option<Ticks>,
                    keep: Option<Payload -> bool>, target: TargetType): (seq<Payload>, Option<Error>)
  {
    if files.Err? then ([], Some(files.error))
    else
      var o := ReadFiles(fs, SelectFiles(files.value, first, last, AsWritten), OrElse(first, MinTicks), OrElse(last, MaxTicks), target);
      (Filter(keep, o.items), o.error)
  }

  class Journal {
    const dir: JournalDirectory
    const maxSize: int
    const nl: string

    ghost predicate Valid()
      reads this, dir
    {
      IsNewLine(nl) && dir.Valid()
    }

    constructor(fs: FileSystem, listing: seq<string>, maxSize: int, nl: string)
      requires IsListing(fs, listing) && IsNewLine(nl)
      ensures Valid() && fresh(dir)
      ensures dir.fs == fs && dir.listing == listing && dir.index == Unbuilt
      ensures this.maxSize == maxSize && this.nl == nl
    {
      dir := new JournalDirectory(fs, listing);
      this.maxSize := maxSize;
      this.nl := nl;
    }

    /**
     * The journaling action on one batch: a fresh writer, with no stream
     * open, writes the batch at `now` and is disposed.
     */
    method JournalBatch(now: Ticks, js: seq<Journalable>) returns (err: Option<Error>)
      requires Valid()
      modifies dir, set j | j in js
      ensures Valid()
      ensures var (s, e) := WriteStep(WriterState(old(dir.fs), old(dir.index), None), dir.listing, maxSize, now, Targets(js), nl);
              dir.fs == s.fs && dir.index == s.index && err == e
      ensures forall j :: j in js ==> j.timestamp == if err.None? then Stamped(old(j.timestamp), now) else old(j.timestamp)
    {
      var writer := new JournalWriter(dir, maxSize, nl);
      err := writer.Write(now, js);
      writer.Dispose();
    }

    /** The `ReadLatestTimestamp` getter. */
    method ReadLatestTimestamp() returns (r: Result<Ticks>)
      requires Valid()
      modifies dir
      ensures r == LatestIn(dir.fs, Forced(old(dir.index), dir.listing), nl)
      ensures dir.fs == old(dir.fs) && dir.index == Cached(Forced(old(dir.index), dir.listing))
      ensures Valid()
    {
      r := dir.LatestTimestamp(nl);
    }

    /** `Replay`: the index, then the loop over it; any exception faults the target block. */
    method Replay(first: Option<Ticks>, last: Option<Ticks>, keep: Option<Payload -> bool>, target: TargetType)
      returns (sent: seq<Payload>, fault: Option<Error>)
      requires Valid()
      modifies dir
      ensures (sent, fault) == ReplayOf(dir.fs, Forced(old(dir.index), dir.listing), first, last, keep, target)
      ensures dir.fs == old(dir.fs) && dir.index == Cached(Forced(old(dir.index), dir.listing))
      ensures Valid()
    {
      var files := dir.Files();
      if files.Err? {
        return [], Some(files.error);
      }
      sent, fault := ReplayIndex(dir.fs, files.value, first, last, keep, target);
    }
  }

  /**
   * The loop of `Replay` over the index: a file after `last` ends it, and
   * otherwise the loop goes on with the next file; neither this test nor
   * the skip test fires for a missing bound.
   */
  method ReplayIndex(fs: FileSystem, files: seq<JournalFile>, first: Option<Ticks>, last: Option<Ticks>,
                     keep: Option<Payload -> bool>, target: TargetType)
    returns (sent: seq<Payload>, fault: Option<Error>)
    ensures (sent, fault) == ReplayOf(fs, Ok(files), first, last, keep, target)
  {
    var lo, hi := OrElse(first, MinTicks), OrElse(last, MaxTicks);
    ghost var all := ReadFiles(fs, SelectFiles(files, first, last, AsWritten), lo, hi, target);
    ghost var consumed: seq<Payload> := [];
    sent := [];
    var index := 0;
    while index < |files| && !After(files[index].firstTimestamp, last)
      invariant 0 <= index <= |files|
      invariant all == Prepend(consumed, ReadFiles(fs, SelectFrom(files, index, first, last, AsWritten), lo, hi, target))
      invariant sent == Filter(keep, consumed)
    {
      consumed, sent, fault := ReplayAt(fs, files, index, first, last, lo, hi, keep, target, all, consumed, sent);
      if fault.Some? {
        ReplayOfRead(fs, files, first, last, keep, target, sent, fault);
        return;
      }
      index := index + 1;
    }
    SelectEnds(files, index, first, last, AsWritten);
    ConcatEmpty(consumed);
    fault := None;
    ReplayOfRead(fs, files, first, last, keep, target, sent, fault);
  }

  /**
   * The body of that loop for file `index`: skip it when the next file
   * starts after `first`, and otherwise send each item read from it that
   * the predicate lets through, ending with its exception, if any.
   */
  method ReplayAt(fs: FileSystem, files: seq<JournalFile>, index: nat, first: Option<Ticks>, last: Option<Ticks>,
                  lo: int, hi: int, keep: Option<Payload -> bool>, target: TargetType,
                  ghost all: ReadOutcome, ghost consumed: seq<Payload>, sent: seq<Payload>)
    returns (ghost consumed': seq<Payload>, sent': seq<Payload>, fault: Option<Error>)
    requires index < |files| && !After(files[index].firstTimestamp, last)
    requires all == Prepend(consumed, ReadFiles(fs, SelectFrom(files, index, first, last, AsWritten), lo, hi, target))
    requires sent == Filter(keep, consumed)
    ensures sent' == Filter(keep, consumed')
    ensures fault.Some? ==> all == ReadOutcome(consumed', fault)
    ensures fault.None? ==>
              all == Prepend(consumed', ReadFiles(fs, SelectFrom(files, index + 1, first, last, AsWritten), lo, hi, target))
  {
    if index + 1 < |files| && After(files[index + 1].firstTimestamp, first) {
      SelectSkipped(files, index, first, last, AsWritten);
      return consumed, sent, None;
    }
    ReadStep(fs, files, index, first, last, lo, hi, target, consumed, all);
    var o := OpenAndRead(fs, files[index], lo, hi, target);
    var passed := SendAll(keep, o.items);
    FilterConcat(keep, consumed, o.items);
    consumed', sent', fault := consumed + o.items, sent + passed, o.error;
  }

  /** What `Replay` sends and the exception it faults the block with, in terms of the read of the files chosen. */
  lemma ReplayOfRead(fs: FileSystem, files: seq<JournalFile>, first: Option<Ticks>, last: Option<Ticks>,
                     keep: Option<Payload -> bool>, target: TargetType, sent: seq<Payload>, fault: Option<Error>)
    requires var all := ReadFiles(fs, SelectFiles(files, first, last, AsWritten), OrElse(first, MinTicks), OrElse(last, MaxTicks), target);
             sent == Filter(keep, all.items) && fault == all.error
    ensures (sent, fault) == ReplayOf(fs, Ok(files), first, last, keep, target)
  {
  }

  /** The `foreach` over the items of one file: an item the predicate rejects is not sent. */
  method SendAll(keep: Option<Payload -> bool>, items: seq<Payload>) returns (sent: seq<Payload>)
    ensures sent == Filter(keep, items)
  {
    sent := [];
    var k := 0;
    while k < |items|
      invariant 0 <= k <= |items|
      invariant sent == Filter(keep, items[..k])
    {
      FilterSnoc(keep, items[..k], items[k]);
      assert items[..k + 1] == items[..k] + [items[k]];
      if Passes(keep, items[k]) {
        sent := sent + [items[k]];
      }
      k := k + 1;
    }
    assert items[..k] == items;
  }

  /** Filtering one more item keeps the items filtered so far and adds the new one if it passes. */
  lemma {:induction false} FilterSnoc(keep: Option<Payload -> bool>, ps: seq<Payload>, p: Payload)
    ensures Filter(keep, ps + [p]) == Filter(keep, ps) + if Passes(keep, p) then [p] else []
  {
    FilterConcat(keep, ps, [p]);
    assert Filter(keep, [p]) == (if Passes(keep, p) then [p] else []) + Filter(keep, []);
    ConcatEmpty(if Passes(keep, p) then [p] else []);
  }

  /** Filtering a concatenation filters each part, so the relative order of the items kept is preserved. */
  lemma {:induction false} FilterConcat(keep: Option<Payload -> bool>, a: seq<Payload>, b: seq<Payload>)
    ensures Filter(keep, a + b) == Filter(keep, a) + Filter(keep, b)
  {
    if a == [] {
      ConcatEmpty(b);
      ConcatEmpty(Filter(keep, b));
    } else {
      ConcatHead(a, b);
      FilterConcat(keep, a[1..], b);
      Assoc(if Passes(keep, a[0]) then [a[0]] else [], Filter(keep, a[1..]), Filter(keep, b));
    }
  }

  /** The items sent are exactly the items read that pass the predicate. */
  lemma {:induction false} FilterMembers(keep: Option<Payload -> bool>, ps: seq<Payload>)
    ensures forall p :: p in Filter(keep, ps) <==> p in ps && Passes(keep, p)
  {
    if ps != [] {
      FilterMembers(keep, ps[1..]);
      assert ps == [ps[0]] + ps[1..];
    }
  }

  /** Without a predicate every item is sent. */
  lemma {:induction false} FilterNone(ps: seq<Payload>)
    ensures Filter(None, ps) == ps
  {
    if ps != [] {
      FilterNone(ps[1..]);
    }
  }

  /**
   * Without a lower bound no file is skipped: a replay of a well-formed
   * journal sends every record's payloads of the target type up to `last`
   * (all of them when `last` is missing too) that pass the predicate, and
   * completes the block.
   */
  lemma ReplayWithoutFirst(fs: FileSystem, files: seq<JournalFile>, contents: seq<seq<Record>>, nl: string,
                           last: Option<Ticks>, keep: Option<Payload -> bool>, target: TargetType)
    requires WellFormed(fs, files, contents, nl) && IsNewLine(nl)
    ensures ReplayOf(fs, Ok(files), None, last, keep, target)
         == (Filter(keep, Collect(RecordsInRange(Flatten(contents), MinTicks, OrElse(last, MaxTicks)), target)), None)
  {
    AsWrittenReadsAllWithoutFirst(fs, files, contents, nl, last, target);
  }

  /**
   * On a journal of one file no file can be skipped: a replay sends every
   * record's payloads of the target type in the range that pass the
   * predicate, whatever the bounds, and completes the block.
   */
  lemma ReplaySingleFile(fs: FileSystem, files: seq<JournalFile>, contents: seq<seq<Record>>, nl: string,
                         first: Option<Ticks>, last: Option<Ticks>, keep: Option<Payload -> bool>, target: TargetType)
    requires WellFormed(fs, files, contents, nl) && IsNewLine(nl) && |files| == 1
    ensures ReplayOf(fs, Ok(files), first, last, keep, target)
         == (Filter(keep, Collect(RecordsInRange(Flatten(contents), OrElse(first, MinTicks), OrElse(last, MaxTicks)), target)), None)
  {
    assert !Skips(AsWritten, files, 0, first) && !Skips(Corrected, files, 0, first);
    assert SelectFrom(files, 1, first, last, AsWritten) == [] == SelectFrom(files, 1, first, last, Corrected);
    assert SelectFiles(files, first, last, AsWritten) == SelectFiles(files, first, last, Corrected);
    ReadFrom(fs, files, contents, nl, 0, first, last, Corrected, target);
    assert contents[0..] == contents;
  }
}
