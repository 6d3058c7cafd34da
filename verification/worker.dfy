/**
 * The consumer of the work queue (Work_Queues/worker.go). Each delivery is
 * logged, "processed" by sleeping one second per '.' byte of its body, logged
 * as done and acknowledged on its own, one delivery after another.
 */
module Worker {
  import opened Common
  import Utf8

  /** A delivery as the consumer sees it: the broker's tag and the body bytes. */
  datatype Delivery = Delivery(tag: nat, body: seq<byte>)

  /** What the worker does, in the order it does it. Sleeps are whole seconds. */
  datatype Event =
    | Received(body: seq<byte>)
    | Slept(seconds: nat)
    | Done
    | Acked(tag: nat, multiple: bool)

  /** The prefetch count the worker sets with Qos(1, 0, false): at most this many
      deliveries may be unacknowledged at once. */
  const PrefetchCount: nat := 1

  /** bytes.Count(body, []byte(".")): the seconds one delivery takes. */
  function DotCount(body: seq<byte>): (n: nat)
    ensures n <= |body|
    ensures n == multiset(body)[Utf8.DOT]
  {
    if body == [] then 0
    else
      assert body == [body[0]] + body[1..];
      (if body[0] == Utf8.DOT then 1 else 0) + DotCount(body[1..])
  }

  /** The four steps the loop body takes for one delivery. */
  function Handle(d: Delivery): seq<Event> {
    [Received(d.body), Slept(DotCount(d.body)), Done, Acked(d.tag, false)]
  }

  /** Handling one delivery acknowledges that delivery and no other. */
  lemma HandleAcksOwnTag(d: Delivery)
    ensures AckedTags(Handle(d)) == [d.tag]
  {
    var h := Handle(d);
    assert h[..4] == h && h[..4][..3] == h[..3];
    assert h[..3][..2] == h[..2] && h[..2][..1] == h[..1] && h[..1][..0] == [];
    assert AckedTags(h[..1]) == [];
    assert AckedTags(h[..2]) == [];
    assert AckedTags(h[..3]) == [];
  }

  /** The events of handling the deliveries one after another, in arrival order. */
  function Trace(ds: seq<Delivery>): seq<Event> {
    if ds == [] then [] else Trace(ds[..|ds| - 1]) + Handle(ds[|ds| - 1])
  }

  /** The consume loop: for each delivery, log it, sleep, log "Done", ack it. */
  method Consume(ds: seq<Delivery>) returns (trace: seq<Event>)
    ensures trace == Trace(ds)
  {
    trace := [];
    var i := 0;
    while i < |ds|
      invariant 0 <= i <= |ds|
      invariant trace == Trace(ds[..i])
    {
      var d := ds[i];
      trace := trace + [Received(d.body)];
      var seconds := DotCount(d.body);
      trace := trace + [Slept(seconds)];
      trace := trace + [Done];
      trace := trace + [Acked(d.tag, false)];
      assert ds[..i + 1][..i] == ds[..i];
      i := i + 1;
    }
    assert ds[..|ds|] == ds;
  }

  lemma {:induction false} TraceLength(ds: seq<Delivery>)
    ensures |Trace(ds)| == 4 * |ds|
  {
    if ds != [] {
      TraceLength(ds[..|ds| - 1]);
    }
  }

  /** Deliveries are handled strictly one after another: the k-th block of four
      events is exactly log, sleep for the dot count, "Done", ack of delivery k. */
  lemma {:induction false} TraceBlocks(ds: seq<Delivery>)
    ensures |Trace(ds)| == 4 * |ds|
    ensures forall k :: 0 <= k < |ds| ==>
      Trace(ds)[4 * k..4 * k + 4] == [Received(ds[k].body), Slept(DotCount(ds[k].body)), Done, Acked(ds[k].tag, false)]
  {
    if ds != [] {
      var init := ds[..|ds| - 1];
      TraceBlocks(init);
      var t := Trace(ds);
      forall k | 0 <= k < |ds|
        ensures t[4 * k..4 * k + 4] == Handle(ds[k])
      {
        if k < |ds| - 1 {
          assert t[4 * k..4 * k + 4] == Trace(init)[4 * k..4 * k + 4];
          assert init[k] == ds[k];
        } else {
          assert t[4 * k..4 * k + 4] == Handle(ds[k]);
        }
      }
    }
  }

  /** The acknowledgement tags in the order they are sent. */
  function AckedTags(es: seq<Event>): seq<nat> {
    if es == [] then []
    else AckedTags(es[..|es| - 1]) + (if es[|es| - 1].Acked? then [es[|es| - 1].tag] else [])
  }

  lemma {:induction false} AckedTagsAppend(a: seq<Event>, b: seq<Event>)
    ensures AckedTags(a + b) == AckedTags(a) + AckedTags(b)
  {
    if b == [] {
      assert a + b == a;
    } else {
      AckedTagsAppend(a, b[..|b| - 1]);
      assert (a + b)[..|a + b| - 1] == a + b[..|b| - 1];
    }
  }

  /** Every delivery is acknowledged exactly once, in arrival order, and no other tag is. */
  lemma {:induction false} EachDeliveryAckedOnce(ds: seq<Delivery>)
    ensures AckedTags(Trace(ds)) == seq(|ds|, k requires 0 <= k < |ds| => ds[k].tag)
  {
    if ds != [] {
      var init := ds[..|ds| - 1];
      EachDeliveryAckedOnce(init);
      AckedTagsAppend(Trace(init), Handle(ds[|ds| - 1]));
      var h := Handle(ds[|ds| - 1]);
      assert AckedTags(h) == [ds[|ds| - 1].tag] by {
        HandleAcksOwnTag(ds[|ds| - 1]);
      }
    }
  }

  /** No acknowledgement uses multiple=true, so each covers only its own delivery. */
  lemma {:induction false} AcksAreSingle(ds: seq<Delivery>)
    ensures forall j :: 0 <= j < |Trace(ds)| && Trace(ds)[j].Acked? ==> !Trace(ds)[j].multiple
  {
    if ds != [] {
      AcksAreSingle(ds[..|ds| - 1]);
    }
  }

  /** How one event changes the number of unacknowledged deliveries. */
  function Delta(e: Event): int {
    if e.Received? then 1 else if e.Acked? then -1 else 0
  }

  /** Deliveries received and not yet acknowledged after the first n events of es. */
  function InFlight(es: seq<Event>, n: nat): int
    requires n <= |es|
  {
    if n == 0 then 0 else InFlight(es, n - 1) + Delta(es[n - 1])
  }

  lemma {:induction false} InFlightBefore(a: seq<Event>, b: seq<Event>, j: nat)
    requires j <= |a|
    ensures InFlight(a + b, j) == InFlight(a, j)
  {
    if j > 0 {
      InFlightBefore(a, b, j - 1);
    }
  }

  lemma {:induction false} InFlightAfter(a: seq<Event>, b: seq<Event>, r: nat)
    requires r <= |b|
    ensures InFlight(a + b, |a| + r) == InFlight(a, |a|) + InFlight(b, r)
  {
    if r == 0 {
      InFlightBefore(a, b, |a|);
    } else {
      InFlightAfter(a, b, r - 1);
    }
  }

  /** Within one delivery's block: one in flight until the ack, none after it. */
  lemma InFlightOfHandle(d: Delivery, r: nat)
    requires 1 <= r <= 4
    ensures InFlight(Handle(d), r) == if r == 4 then 0 else 1
  {
    var h := Handle(d);
    assert InFlight(h, 1) == 1;
    assert InFlight(h, 2) == 1;
    assert InFlight(h, 3) == 1;
  }

  /** Between two deliveries nothing is in flight: the previous one is acknowledged
      before the next is received. */
  lemma {:induction false} IdleBetweenDeliveries(ds: seq<Delivery>, k: nat)
    requires k <= |ds|
    ensures 4 * k <= |Trace(ds)| && InFlight(Trace(ds), 4 * k) == 0
  {
    TraceLength(ds);
    if ds != [] {
      var init := ds[..|ds| - 1];
      var d := ds[|ds| - 1];
      TraceLength(init);
      var t0 := Trace(init);
      assert Trace(ds) == t0 + Handle(d);
      if k < |ds| {
        InFlightBefore(t0, Handle(d), 4 * k);
        IdleBetweenDeliveries(init, k);
      } else {
        InFlightAfter(t0, Handle(d), 4);
        IdleBetweenDeliveries(init, |init|);
        InFlightOfHandle(d, 4);
      }
    }
  }

  /** While a delivery is handled, it is the one delivery in flight. */
  lemma {:induction false} BusyWithinDelivery(ds: seq<Delivery>, k: nat, r: nat)
    requires k < |ds| && 1 <= r <= 3
    ensures 4 * k + r <= |Trace(ds)| && InFlight(Trace(ds), 4 * k + r) == 1
  {
    TraceLength(ds);
    var init := ds[..|ds| - 1];
    var d := ds[|ds| - 1];
    TraceLength(init);
    var t0 := Trace(init);
    assert Trace(ds) == t0 + Handle(d);
    if k < |init| {
      InFlightBefore(t0, Handle(d), 4 * k + r);
      BusyWithinDelivery(init, k, r);
    } else {
      InFlightAfter(t0, Handle(d), r);
      IdleBetweenDeliveries(init, |init|);
      InFlightOfHandle(d, r);
    }
  }

  /** At every point of the run at most one delivery is unacknowledged, matching
      the prefetch count of 1. */
  lemma InFlightWithinPrefetch(ds: seq<Delivery>)
    ensures forall j :: 0 <= j <= |Trace(ds)| ==>
      0 <= InFlight(Trace(ds), j) <= PrefetchCount
  {
    TraceLength(ds);
    forall j | 0 <= j <= |Trace(ds)|
      ensures 0 <= InFlight(Trace(ds), j) <= 1
    {
      var k, r := j / 4, j % 4;
      assert j == 4 * k + r;
      if r == 0 {
        IdleBetweenDeliveries(ds, k);
      } else {
        BusyWithinDelivery(ds, k, r);
      }
    }
  }

  /** A body without dots, such as the "Hello World!" of the first tutorial, costs no time. */
  lemma NoDotsNoWait(s: string)
    requires '.' !in s
    ensures DotCount(Utf8.Encode(s)) == 0
  {
    Utf8.EncodeKeepsDots(s);
  }

  lemma HelloWorldWaitsNothing()
    ensures DotCount(Utf8.Encode("Hello World!")) == 0
  {
    NoDotsNoWait("Hello World!");
  }
}
