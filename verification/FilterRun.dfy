/** The read loop of crates/cli/src/filter_run.rs: one stream into the capped log and the
    line collector. */
module FilterRun {
  import opened Prelude
  import Lines
  import CappedLog

  /** What one read of the pipe gives; no bytes is the end of the stream. */
  datatype Read = Data(bytes: seq<Byte>) | Interrupted | Failed

  predicate Ends(r: Read) {
    r.Failed? || (r.Data? && r.bytes == [])
  }

  /** The bytes that arrive before the stream ends, an interrupted read being retried. */
  function Delivered(arrivals: seq<Read>): seq<Byte> {
    if arrivals == [] || Ends(arrivals[0]) then []
    else (if arrivals[0].Data? then arrivals[0].bytes else []) + Delivered(arrivals[1..])
  }

  /** An interrupted read changes nothing, wherever it is. */
  lemma {:induction false} InterruptedIsRetried(a: seq<Read>, b: seq<Read>)
    ensures Delivered(a + [Interrupted] + b) == Delivered(a + b)
    decreases |a|
  {
    if a == [] {
      assert a + [Interrupted] + b == [Interrupted] + b && a + b == b;
      assert ([Interrupted] + b)[1..] == b;
      assert [] + Delivered(b) == Delivered(b);
    } else {
      assert (a + [Interrupted] + b)[1..] == a[1..] + [Interrupted] + b;
      assert (a + b)[1..] == a[1..] + b;
      InterruptedIsRetried(a[1..], b);
    }
  }

  /** Reads that bring bytes are delivered one after the other. */
  lemma {:induction false} BytesAreDelivered(chunks: seq<seq<Byte>>, b: seq<Read>)
    requires forall k | 0 <= k < |chunks| :: chunks[k] != []
    ensures Delivered(seq(|chunks|, k requires 0 <= k < |chunks| => Data(chunks[k])) + b) ==
            Concat(chunks) + Delivered(b)
    decreases |chunks|
  {
    var a := seq(|chunks|, k requires 0 <= k < |chunks| => Data(chunks[k]));
    if chunks == [] {
      assert a + b == b;
      assert [] + Delivered(b) == Delivered(b);
    } else {
      var rest := chunks[1..];
      var c := seq(|rest|, k requires 0 <= k < |rest| => Data(rest[k]));
      assert (a + b)[1..] == c + b;
      BytesAreDelivered(rest, b);
      assert chunks == [chunks[0]] + rest;
      ConcatAppend([chunks[0]], rest);
      ConcatOne(chunks[0]);
      hide Concat;
      Associate(chunks[0], Concat(rest), Delivered(b));
    }
  }

  /** The stream ends at the first read that brings nothing or fails: the rest is not
      read. */
  lemma {:induction false} EndsThere(a: seq<Read>, end: Read, b: seq<Read>)
    requires end == Failed || end == Data([])
    ensures Delivered(a + [end] + b) == Delivered(a + [end]) == Delivered(a)
    decreases |a|
  {
    if a == [] {
      assert a + [end] + b == [end] + b && a + [end] == [end];
    } else {
      assert (a + [end] + b)[1..] == a[1..] + [end] + b && (a + [end])[1..] == a[1..] + [end];
      EndsThere(a[1..], end, b);
    }
  }

  lemma DeliveredFrom(arrivals: seq<Read>, k: nat)
    requires k <= |arrivals|
    ensures k == |arrivals| || Ends(arrivals[k]) ==> Delivered(arrivals[k..]) == []
    ensures k < |arrivals| && !Ends(arrivals[k]) ==>
            var got := if arrivals[k].Data? then arrivals[k].bytes else [];
            Delivered(arrivals[k..]) == got + Delivered(arrivals[k + 1..])
  {
    if k < |arrivals| {
      assert arrivals[k..][1..] == arrivals[k + 1..];
    }
  }

  /** Without write errors the log is the log of the delivered stream; with them it is a
      prefix of that. The lines never depend on the log. */
  method Filtered(arrivals: seq<Read>, outcomes: seq<CappedLog.Outcomes>)
    returns (log: seq<Byte>, count: nat, lines: seq<seq<Byte>>)
    requires |outcomes| == |arrivals|
    ensures log <= CappedLog.LogOf(Delivered(arrivals))
    ensures (forall k | 0 <= k < |arrivals| :: outcomes[k] == CappedLog.ALL_DONE) ==>
            log == CappedLog.LogOf(Delivered(arrivals))
    ensures count == |Lines.LinesOf(Delivered(arrivals))|
    ensures lines == Lines.View(Delivered(arrivals))
  {
    hide Delivered;
    hide CappedLog.LogCut;
    hide CappedLog.LogOf;
    hide Lines.LinesOf;
    hide Lines.View;
    hide Lines.Collector.Valid;
    hide CappedLog.Log.Valid;
    assert arrivals[0..] == arrivals;
    var out := new CappedLog.Log();
    var collector := new Lines.Collector();
    var k := 0;
    while k < |arrivals| && !Ends(arrivals[k])
      invariant 0 <= k <= |arrivals|
      invariant out.Valid() && collector.Valid()
      invariant out.stream == collector.stream
      invariant Delivered(arrivals) == out.stream + Delivered(arrivals[k..])
      invariant (forall i | 0 <= i < k :: outcomes[i] == CappedLog.ALL_DONE) ==> !out.failed
    {
      ghost var before := out.stream;
      if arrivals[k].Data? {
        out.Write(arrivals[k].bytes, outcomes[k]);
        collector.Push(arrivals[k].bytes);
      }
      DeliveredFrom(arrivals, k);
      assert out.stream == before + if arrivals[k].Data? then arrivals[k].bytes else [];
      k := k + 1;
    }
    DeliveredFrom(arrivals, k);
    assert Delivered(arrivals) == out.stream;
    out.HoldsALog();
    log := out.contents;
    count, lines := collector.Finish();
  }
}
