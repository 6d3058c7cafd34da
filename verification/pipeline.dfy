/**
 * Producer and worker together: what the worker does with the messages the
 * producer publishes. Neither program decides how the broker delivers; this
 * module assumes it, through Deliver: every message goes to one worker, in
 * publishing order, with delivery tags 1, 2, 3, ...
 */
module Pipeline {
  import NewTask
  import Worker

  /** The assumed broker behaviour: the deliveries one worker receives for the published messages. */
  function Deliver(msgs: seq<NewTask.Publishing>): (ds: seq<Worker.Delivery>)
    ensures |ds| == |msgs|
    ensures forall k :: 0 <= k < |ds| ==> ds[k] == Worker.Delivery(k + 1, msgs[k].body)
  {
    seq(|msgs|, k requires 0 <= k < |msgs| => Worker.Delivery(k + 1, msgs[k].body))
  }

  /** Seconds slept over a run of the worker. */
  function TotalSleep(es: seq<Worker.Event>): nat {
    if es == [] then 0
    else TotalSleep(es[..|es| - 1]) + (if es[|es| - 1].Slept? then es[|es| - 1].seconds else 0)
  }

  lemma {:induction false} TotalSleepAppend(a: seq<Worker.Event>, b: seq<Worker.Event>)
    ensures TotalSleep(a + b) == TotalSleep(a) + TotalSleep(b)
  {
    if b == [] {
      assert a + b == a;
    } else {
      TotalSleepAppend(a, b[..|b| - 1]);
      assert (a + b)[..|a + b| - 1] == a + b[..|b| - 1];
    }
  }

  /** Whatever the bodies, the worker sleeps one second per dot of each message,
      in publishing order, and acknowledges that message alone. */
  lemma WorkerWaitsPerMessage(msgs: seq<NewTask.Publishing>)
    ensures |Worker.Trace(Deliver(msgs))| == 4 * |msgs|
    ensures forall k :: 0 <= k < |msgs| ==>
      && Worker.Trace(Deliver(msgs))[4 * k + 1] == Worker.Slept(Worker.DotCount(msgs[k].body))
      && Worker.Trace(Deliver(msgs))[4 * k + 3] == Worker.Acked(k + 1, false)
  {
    var ds := Deliver(msgs);
    var t := Worker.Trace(ds);
    Worker.TraceBlocks(ds);
    forall k | 0 <= k < |msgs|
      ensures t[4 * k + 1] == Worker.Slept(Worker.DotCount(msgs[k].body))
      ensures t[4 * k + 3] == Worker.Acked(k + 1, false)
    {
      assert t[4 * k + 1] == t[4 * k..4 * k + 4][1];
      assert t[4 * k + 3] == t[4 * k..4 * k + 4][3];
    }
  }

  /** The producer's generated bodies with qtyDots = n, taken by the worker: every
      message costs exactly n seconds, and the run n times the number of messages. */
  lemma GeneratedBodiesWaitQtyDots(args: seq<string>, dots: string, msgs: seq<NewTask.Publishing>)
    requires NewTask.UsesDefault(args) && NewTask.AllDots(dots)
    requires forall k :: 0 <= k < |msgs| ==> msgs[k] == NewTask.Message(NewTask.BodyFrom(args, k + 1, dots))
    ensures |Worker.Trace(Deliver(msgs))| == 4 * |msgs|
    ensures forall k :: 0 <= k < |msgs| ==> Worker.Trace(Deliver(msgs))[4 * k + 1] == Worker.Slept(|dots|)
    ensures TotalSleep(Worker.Trace(Deliver(msgs))) == |msgs| * |dots|
  {
    NewTask.GeneratedMessagesDots(args, dots, msgs);
    WorkerWaitsPerMessage(msgs);
    TotalWait(msgs, |dots|);
  }

  /** When every message holds n dots, the worker sleeps n times the number of messages in all. */
  lemma {:induction false} TotalWait(msgs: seq<NewTask.Publishing>, n: nat)
    requires forall k :: 0 <= k < |msgs| ==> Worker.DotCount(msgs[k].body) == n
    ensures TotalSleep(Worker.Trace(Deliver(msgs))) == |msgs| * n
  {
    if msgs != [] {
      var init := msgs[..|msgs| - 1];
      TotalWait(init, n);
      var ds := Deliver(msgs);
      assert ds[..|ds| - 1] == Deliver(init);
      var last := ds[|ds| - 1];
      assert Worker.DotCount(last.body) == n;
      var h := Worker.Handle(last);
      assert Worker.Trace(ds) == Worker.Trace(Deliver(init)) + h;
      TotalSleepAppend(Worker.Trace(Deliver(init)), h);
      SleepOfHandle(last);
      calc {
        TotalSleep(Worker.Trace(ds));
        TotalSleep(Worker.Trace(Deliver(init))) + TotalSleep(h);
        |init| * n + n;
        { MulSucc(|init|, n); }
        |msgs| * n;
      }
    }
  }

  lemma MulSucc(a: nat, n: nat)
    ensures (a + 1) * n == a * n + n
  {
  }

  lemma SleepOfHandle(d: Worker.Delivery)
    ensures TotalSleep(Worker.Handle(d)) == Worker.DotCount(d.body)
  {
    var h := Worker.Handle(d);
    assert h[..4] == h && h[..4][..3] == h[..3];
    assert h[..3][..2] == h[..2] && h[..2][..1] == h[..1] && h[..1][..0] == [];
    assert TotalSleep(h[..1]) == 0;
    assert TotalSleep(h[..2]) == Worker.DotCount(d.body);
    assert TotalSleep(h[..3]) == Worker.DotCount(d.body);
  }
}
