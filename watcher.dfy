/** MapWatcher: handler calls wait until the minimap's waypoint manager has a
    current world, and then run in arrival order. The watcher rechecks on a
    timer and gives up after too many failed checks. */
module Watcher {
  import opened Handler

  /** The number of failed readiness checks the watcher tolerates; one more
      and it has given up. */
  const GiveUpAfter: nat := 24

  /** The watcher's state as a value: the deferred calls in arrival order,
      whether a recheck chain is running, the number of failed checks, and
      the number of recheck timers scheduled that have not fired yet. */
  datatype Gate = Gate(deferred: seq<Event>, running: bool, count: nat, timers: nat)

  const Initial: Gate := Gate([], false, 0, 0)

  /** One entry into the watcher: its new state and the calls it ran, in order. */
  datatype Turn = Turn(gate: Gate, ran: seq<Event>)

  /** recheckMapReady as written, and as its give-up message says it should
      behave (the deferred calls are discarded). */
  datatype Version = AsWritten | Intended

  predicate GaveUp(g: Gate) {
    g.count > GiveUpAfter
  }

  /** recheckMapReady. Not ready: having given up, stop the chain; otherwise
      count the failure and schedule another check. Ready: run every deferred
      call in order, then empty the queue and reset the count. */
  function RecheckStep(v: Version, g: Gate, ready: bool): Turn {
    if !ready then
      if GaveUp(g) then
        if v == AsWritten then Turn(g.(running := false), [])
        else Turn(g.(running := false, deferred := []), [])
      else Turn(g.(running := true, count := g.count + 1, timers := g.timers + 1), [])
    else Turn(g.(deferred := [], count := 0, running := false), g.deferred)
  }

  /** defer: dropped once given up; otherwise queued, then a recheck. */
  function DeferStep(v: Version, g: Gate, e: Event, ready: bool): Turn {
    if GaveUp(g) then Turn(g, []) else RecheckStep(v, g.(deferred := g.deferred + [e]), ready)
  }

  /** whenReady: run at once only when the manager is ready and nothing is
      waiting; otherwise defer. */
  function WhenReadyStep(v: Version, g: Gate, e: Event, ready: bool): Turn {
    if !ready || g.deferred != [] then DeferStep(v, g, e, ready) else Turn(g, [e])
  }

  /** A scheduled recheck timer fires; with none scheduled nothing happens. */
  function FireStep(v: Version, g: Gate, ready: bool): Turn {
    if g.timers == 0 then Turn(g, []) else RecheckStep(v, g.(timers := g.timers - 1), ready)
  }

  // -----------------------------------------------------------------------
  // Runs

  /** What reaches the watcher: a handler call (with the manager's readiness
      at that moment) or a timer firing. */
  datatype Input = Submit(e: Event, ready: bool) | Tick(ready: bool)

  function InputStep(v: Version, g: Gate, i: Input): Turn {
    match i
    case Submit(e, ready) => WhenReadyStep(v, g, e, ready)
    case Tick(ready) => FireStep(v, g, ready)
  }

  /** The inputs in order; the calls run are collected in order. */
  function Run(v: Version, g: Gate, ins: seq<Input>): (t: Turn)
    decreases |ins|
  {
    if ins == [] then Turn(g, [])
    else
      var first := InputStep(v, g, ins[0]);
      var rest := Run(v, first.gate, ins[1..]);
      Turn(rest.gate, first.ran + rest.ran)
  }

  /** The handler calls among the inputs, in order. */
  function Submitted(ins: seq<Input>): seq<Event>
    decreases |ins|
  {
    if ins == [] then []
    else (if ins[0].Submit? then [ins[0].e] else []) + Submitted(ins[1..])
  }

  lemma {:induction false} RunAppend(v: Version, g: Gate, a: seq<Input>, b: seq<Input>)
    ensures var ta := Run(v, g, a);
      var tb := Run(v, ta.gate, b);
      Run(v, g, a + b) == Turn(tb.gate, ta.ran + tb.ran)
    decreases |a|
  {
    if a == [] {
      assert a + b == b;
    } else {
      var first := InputStep(v, g, a[0]);
      assert (a + b)[1..] == a[1..] + b;
      RunAppend(v, first.gate, a[1..], b);
    }
  }

  lemma {:induction false} SubmittedAppend(a: seq<Input>, b: seq<Input>)
    ensures Submitted(a + b) == Submitted(a) + Submitted(b)
    decreases |a|
  {
    if a == [] {
      assert a + b == b;
    } else {
      assert (a + b)[0] == a[0] && (a + b)[1..] == a[1..] + b;
      SubmittedAppend(a[1..], b);
    }
  }

  // -----------------------------------------------------------------------
  // What whenReady promises

  /** A call runs on the spot, leaving the watcher as it was, exactly when the
      manager is ready and no earlier call is still waiting. */
  lemma {:induction false} RunsAtOnceIff(v: Version, g: Gate, e: Event, ready: bool)
    ensures WhenReadyStep(v, g, e, ready) == Turn(g, [e]) <==> ready && g.deferred == []
  {
    if !ready && !GaveUp(g) {
      assert WhenReadyStep(v, g, e, ready).gate.count == g.count + 1;
    }
  }

  /** Before giving up, one input loses no call and keeps arrival order: the
      calls run, followed by those still waiting, are the calls that were
      waiting followed by the new one. */
  lemma {:induction false} StepKeepsOrder(v: Version, g: Gate, i: Input)
    requires !GaveUp(g)
    ensures var t := InputStep(v, g, i);
      && t.ran + t.gate.deferred == g.deferred + Submitted([i])
      && t.gate.count <= g.count + 1
  {
    assert Submitted([i]) == (if i.Submit? then [i.e] else []) + Submitted([]);
    var t := InputStep(v, g, i);
    if i.Submit? && i.ready && g.deferred == [] {
      assert t == Turn(g, [i.e]);
    }
  }

  /** Over any run that cannot reach the give-up threshold, no call is lost
      or reordered. */
  lemma {:induction false} RunKeepsOrder(v: Version, g: Gate, ins: seq<Input>)
    requires g.count + |ins| <= GiveUpAfter + 1
    ensures var t := Run(v, g, ins);
      && t.ran + t.gate.deferred == g.deferred + Submitted(ins)
      && t.gate.count <= g.count + |ins|
    decreases |ins|
  {
    if ins != [] {
      var first := InputStep(v, g, ins[0]);
      var rest := Run(v, first.gate, ins[1..]);
      assert first.ran + first.gate.deferred == g.deferred + Submitted([ins[0]])
             && first.gate.count <= g.count + 1 by {
        StepKeepsOrder(v, g, ins[0]);
      }
      assert rest.ran + rest.gate.deferred == first.gate.deferred + Submitted(ins[1..])
             && rest.gate.count <= first.gate.count + |ins| - 1 by {
        RunKeepsOrder(v, first.gate, ins[1..]);
      }
      assert Submitted(ins) == Submitted([ins[0]]) + Submitted(ins[1..]) by {
        assert ins == [ins[0]] + ins[1..];
        SubmittedAppend([ins[0]], ins[1..]);
      }
      Regroup(first.ran, rest.ran, rest.gate.deferred, first.gate.deferred, g.deferred,
              Submitted([ins[0]]), Submitted(ins[1..]));
    }
  }

  /** What one step runs and leaves queued, followed by what the rest of the
      run does with the queue it leaves. */
  lemma {:induction false} Regroup<T>(a: seq<T>, b: seq<T>, c: seq<T>, d: seq<T>, q: seq<T>, s1: seq<T>, s2: seq<T>)
    requires a + d == q + s1 && b + c == d + s2
    ensures a + b + c == q + (s1 + s2)
  {
    calc {
      a + b + c;
      a + (b + c);
      a + (d + s2);
      (a + d) + s2;
      (q + s1) + s2;
      q + (s1 + s2);
    }
  }

  /** Once the manager is ready, the next call runs together with the whole
      backlog, in arrival order, and leaves nothing waiting. */
  lemma {:induction false} BacklogDrains(v: Version, g: Gate, ins: seq<Input>, e: Event)
    requires g.count + |ins| <= GiveUpAfter
    ensures var t := Run(v, g, ins + [Submit(e, true)]);
      && t.ran == g.deferred + Submitted(ins) + [e]
      && t.gate.deferred == []
  {
    var t := Run(v, g, ins);
    assert t.ran + t.gate.deferred == g.deferred + Submitted(ins) && !GaveUp(t.gate) by {
      RunKeepsOrder(v, g, ins);
    }
    var last := Run(v, t.gate, [Submit(e, true)]);
    assert last.ran == t.gate.deferred + [e] && last.gate.deferred == [] by {
      ReadyRunsBacklog(v, t.gate, e);
    }
    RunAppend(v, g, ins, [Submit(e, true)]);
  }

  /** A call made while the manager is ready runs after everything waiting. */
  lemma ReadyRunsBacklog(v: Version, g: Gate, e: Event)
    requires !GaveUp(g)
    ensures var t := Run(v, g, [Submit(e, true)]);
      && t.ran == g.deferred + [e] && t.gate.deferred == []
  {
    var step := WhenReadyStep(v, g, e, true);
    assert Run(v, g, [Submit(e, true)]) == Turn(step.gate, step.ran + []);
  }

  /** A failed check before the threshold counts itself and schedules the
      next one; the waiting calls stay queued. */
  lemma {:induction false} FailedCheckCounts(v: Version, g: Gate)
    requires !GaveUp(g)
    ensures var t := RecheckStep(v, g, false);
      && t.ran == [] && t.gate.deferred == g.deferred && t.gate.running
      && t.gate.count == g.count + 1 && t.gate.timers == g.timers + 1
  {
  }

  // -----------------------------------------------------------------------
  // Giving up

  function Repeat(i: Input, n: nat): (r: seq<Input>)
    ensures |r| == n && forall k :: 0 <= k < n ==> r[k] == i
  {
    seq(n, _ => i)
  }

  /** Calls that arrive while the manager is not ready are queued, each one
      counting a failed check and scheduling a timer. */
  lemma {:induction false} SubmitsWhileNotReady(v: Version, g: Gate, e: Event, n: nat)
    requires g.count + n <= GiveUpAfter + 1
    ensures var t := Run(v, g, Repeat(Submit(e, false), n));
      && t.ran == []
      && |t.gate.deferred| == |g.deferred| + n
      && t.gate.count == g.count + n && t.gate.timers == g.timers + n
    decreases n
  {
    if n > 0 {
      var ins := Repeat(Submit(e, false), n);
      assert ins[1..] == Repeat(Submit(e, false), n - 1);
      SubmitsWhileNotReady(v, InputStep(v, g, ins[0]).gate, e, n - 1);
    }
  }

  /** After giving up, timers that fire while the manager is still not ready
      stop their chains and run nothing; as written they keep the queue. */
  lemma {:induction false} TicksAfterGiveUp(v: Version, g: Gate, n: nat)
    requires GaveUp(g) && n <= g.timers
    ensures var t := Run(v, g, Repeat(Tick(false), n));
      && t.ran == []
      && t.gate.count == g.count && t.gate.timers == g.timers - n
      && t.gate.deferred == (if v == AsWritten || n == 0 then g.deferred else [])
    decreases n
  {
    if n > 0 {
      var ins := Repeat(Tick(false), n);
      assert ins[1..] == Repeat(Tick(false), n - 1);
      TicksAfterGiveUp(v, InputStep(v, g, ins[0]).gate, n - 1);
    }
  }

  /** As written: a watcher that gave up with calls still queued and no
      timer left runs nothing ever again, whatever arrives and even once the
      manager is ready. */
  lemma {:induction false} GiveUpWedges(g: Gate, ins: seq<Input>)
    requires GaveUp(g) && g.deferred != [] && g.timers == 0
    ensures Run(AsWritten, g, ins) == Turn(g, [])
    decreases |ins|
  {
    if ins != [] {
      assert InputStep(AsWritten, g, ins[0]) == Turn(g, []);
      GiveUpWedges(g, ins[1..]);
    }
  }

  /** The inputs that reach the give-up: 25 calls before the manager is
      ready, then their 25 timers firing while it still is not. */
  function GiveUpPrefix(e: Event): seq<Input> {
    Repeat(Submit(e, false), GiveUpAfter + 1) + Repeat(Tick(false), GiveUpAfter + 1)
  }

  lemma {:induction false} GiveUpPrefixReached(v: Version, e: Event)
    ensures var g := Run(v, Initial, GiveUpPrefix(e)).gate;
      && GaveUp(g) && g.timers == 0 && Run(v, Initial, GiveUpPrefix(e)).ran == []
      && (v == AsWritten ==> |g.deferred| == GiveUpAfter + 1)
      && (v == Intended ==> g.deferred == [])
  {
    var a := Repeat(Submit(e, false), GiveUpAfter + 1);
    var b := Repeat(Tick(false), GiveUpAfter + 1);
    SubmitsWhileNotReady(v, Initial, e, GiveUpAfter + 1);
    var g1 := Run(v, Initial, a).gate;
    TicksAfterGiveUp(v, g1, GiveUpAfter + 1);
    RunAppend(v, Initial, a, b);
  }

  /** As written: after that prefix, a call made when the manager is ready
      is never run. */
  lemma {:induction false} AsWrittenDropsLaterCalls(e: Event, later: seq<Input>)
    ensures Run(AsWritten, Initial, GiveUpPrefix(e) + later).ran == []
  {
    GiveUpPrefixReached(AsWritten, e);
    var g := Run(AsWritten, Initial, GiveUpPrefix(e)).gate;
    GiveUpWedges(g, later);
    RunAppend(AsWritten, Initial, GiveUpPrefix(e), later);
  }

  /** As intended: after the same prefix, a call made when the manager is
      ready runs at once. */
  lemma {:induction false} IntendedRecovers(e: Event, f: Event)
    ensures Run(Intended, Initial, GiveUpPrefix(e) + [Submit(f, true)]).ran == [f]
  {
    GiveUpPrefixReached(Intended, e);
    var g := Run(Intended, Initial, GiveUpPrefix(e)).gate;
    RunsAtOnceIff(Intended, g, f, true);
    RunAppend(Intended, Initial, GiveUpPrefix(e), [Submit(f, true)]);
  }

  // -----------------------------------------------------------------------
  // The watcher object

  class MapWatcher {
    var deferred: seq<Event>
    var running: bool
    var count: nat
    /** Recheck timers scheduled and not fired yet (the "Deferred Events"
        Timer threads). */
    var timers: nat

    predicate Valid()
      reads this
    {
      forall e <- deferred :: EventOk(e)
    }

    function State(): Gate
      reads this
    {
      Gate(deferred, running, count, timers)
    }

    constructor ()
      ensures Valid() && State() == Initial
    {
      deferred := [];
      running := false;
      count := 0;
      timers := 0;
    }

    function GivenUp(): (r: bool)
      reads this
      ensures r <==> GaveUp(State())
    {
      count > GiveUpAfter
    }

    /** whenReady; `mgr` is what mgrIfReady returns at this moment. */
    method WhenReady(e: Event, mgr: WaypointsManager?)
      requires Valid() && EventOk(e) && (mgr != null ==> mgr.Valid())
      modifies this, mgr
      ensures Valid()
      ensures var t := WhenReadyStep(AsWritten, old(State()), e, mgr != null);
        && State() == t.gate
        && (mgr != null ==> mgr.State() == ApplyAll(old(mgr.State()), t.ran))
    {
      if mgr == null || deferred != [] {
        Defer(e, mgr);
        return;
      }
      Dispatch(mgr, e);
      assert [e][1..] == [];
    }

    method Defer(e: Event, mgr: WaypointsManager?)
      requires Valid() && EventOk(e) && (mgr != null ==> mgr.Valid())
      modifies this, mgr
      ensures Valid()
      ensures var t := DeferStep(AsWritten, old(State()), e, mgr != null);
        && State() == t.gate
        && (mgr != null ==> mgr.State() == ApplyAll(old(mgr.State()), t.ran))
    {
      if GivenUp() {
        return;
      }
      deferred := deferred + [e];
      RecheckMapReady(mgr);
    }

    /** A scheduled timer fires and rechecks. */
    method TimerFires(mgr: WaypointsManager?)
      requires Valid() && (mgr != null ==> mgr.Valid())
      modifies this, mgr
      ensures Valid()
      ensures var t := FireStep(AsWritten, old(State()), mgr != null);
        && State() == t.gate
        && (mgr != null ==> mgr.State() == ApplyAll(old(mgr.State()), t.ran))
    {
      if timers == 0 {
        return;
      }
      timers := timers - 1;
      RecheckMapReady(mgr);
    }

    /** recheckMapReady as written: the give-up stops the chain and keeps the queue. */
    method RecheckMapReady(mgr: WaypointsManager?)
      requires Valid() && (mgr != null ==> mgr.Valid())
      modifies this, mgr
      ensures Valid()
      ensures var t := RecheckStep(AsWritten, old(State()), mgr != null);
        && State() == t.gate
        && (mgr != null ==> mgr.State() == ApplyAll(old(mgr.State()), t.ran))
    {
      if mgr == null {
        if GivenUp() {
          running := false;
          return;
        }
        running := true;
        count := count + 1;
        timers := timers + 1;
        return;
      }
      DispatchAll(mgr, deferred);
      deferred := [];
      count := 0;
      running := false;
    }
  }
}
