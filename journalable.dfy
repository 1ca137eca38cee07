/**
 * `Journalable`: an object handed to the journal together with a one-shot
 * cell for its timestamp (a `WriteOnceBlock`, which keeps the first value
 * posted to it and ignores later ones). The `Index` setter does nothing.
 */
module Journalables {
  import opened Common
  import opened Payloads

  /** What a write-once cell holds after `t` is posted to it. */
  function Stamped(cell: Option<Ticks>, t: Ticks): (r: Option<Ticks>)
    ensures r.Some?
    ensures cell.Some? ==> r == cell
    ensures cell.None? ==> r == Some(t)
  {
    if cell.Some? then cell else Some(t)
  }

  class Journalable {
    const target: Payload
    var timestamp: Option<Ticks>

    constructor(target: Payload)
      ensures this.target == target && timestamp == None
    {
      this.target := target;
      timestamp := None;
    }

    /** The `Timestamp` setter: `TimestampBlock.Post(value)`. */
    method SetTimestamp(t: Ticks)
      modifies this
      ensures timestamp == Stamped(old(timestamp), t)
    {
      if timestamp.None? {
        timestamp := Some(t);
      }
    }
  }

  /** The targets of the journalables, in array order: the payloads of one record. */
  function Targets(js: seq<Journalable>): (r: seq<Payload>)
    ensures |r| == |js|
    ensures forall i :: 0 <= i < |js| ==> r[i] == js[i].target
  {
    if js == [] then [] else [js[0].target] + Targets(js[1..])
  }

  /**
   * The loop that ends `JournalWriter.Write`: every journalable receives the
   * record's timestamp (the index it also receives is discarded by the
   * setter). A journalable listed twice is stamped once, as the cell keeps
   * its first value.
   */
  method StampAll(js: seq<Journalable>, t: Ticks)
    modifies set j | j in js
    ensures forall j :: j in js ==> j.timestamp == Stamped(old(j.timestamp), t)
  {
    var i := 0;
    while i < |js|
      invariant 0 <= i <= |js|
      invariant forall j :: j in js ==> j.timestamp == if j in js[..i] then Stamped(old(j.timestamp), t) else old(j.timestamp)
    {
      js[i].SetTimestamp(t);
      assert js[..i + 1] == js[..i] + [js[i]];
      i := i + 1;
    }
    assert js[..i] == js;
  }
}
