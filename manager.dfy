/** The four IWay2WayHandler operations of Way2WayFabric as imperative code
    over the map's waypoint manager, each proved against its specification
    function in Reconcile. */
module Handler {
  import opened Waystones
  import opened WaypointSets
  import opened Reconcile

  /** The manager's state as a value: the current world's dimension, its
      waypoint sets, the index of the active set, and how many times the
      waypoints were written to disk. */
  datatype World = World(dimension: string, sets: Sets, current: nat, saves: nat)

  predicate WorldOk(v: World) {
    v.current < |v.sets|
  }

  /** The map's waypoint manager: the current world's dimension and sets,
      the set new waypoints go to, and a count of saveAllWaypoints calls. */
  class WaypointsManager {
    var dimension: string
    var sets: Sets
    var current: nat
    var saves: nat

    predicate Valid()
      reads this
    {
      current < |sets|
    }

    function State(): (v: World)
      reads this
      ensures WorldOk(v) <==> Valid()
    {
      World(dimension, sets, current, saves)
    }

    constructor (dimension: string, sets: Sets, current: nat)
      requires current < |sets|
      ensures Valid() && State() == World(dimension, sets, current, 0)
    {
      this.dimension := dimension;
      this.sets := sets;
      this.current := current;
      this.saves := 0;
    }

    /** saveAllWaypoints: one write of the world to disk. */
    method SaveAllWaypoints()
      modifies this
      ensures State() == old(State()).(saves := old(saves) + 1)
    {
      saves := saves + 1;
    }

    /** addWaypointFor: the record's waypoint goes to the end of set `s`. */
    method AddWaypointFor(s: nat, w: Waystone)
      requires s < |sets| && ValidIdx(w.modIdx)
      modifies this
      ensures State() == old(State()).(sets := AppendTo(old(sets), s, [ToWaypoint(w)]))
    {
      sets := sets[s := sets[s] + [ToWaypoint(w)]];
    }

    /** updateWaypoint: when the name or the tag differs from the record's,
        both are overwritten and true is returned; the coordinates never
        change. */
    method UpdateWaypoint(l: Loc, w: Waystone) returns (changed: bool)
      requires ValidLoc(sets, l) && ValidIdx(w.modIdx)
      modifies this
      ensures changed == NeedsUpdate(old(At(sets, l)), w)
      ensures changed <==> sets != old(sets)
      ensures State() == old(State()).(sets := if changed then Put(old(sets), l, Refresh(old(At(sets, l)), w)) else old(sets))
      ensures ValidLoc(sets, l) && At(sets, l).name == w.name && At(sets, l).symbol == Symbol(w.modIdx)
      ensures Matches(At(sets, l), w) <==> Matches(old(At(sets, l)), w)
    {
      var existing := At(sets, l);
      RefreshSpec(existing, w);
      if existing.name != w.name || existing.symbol != Symbol(w.modIdx) {
        var v := existing.(name := w.name, symbol := Symbol(w.modIdx));
        sets := sets[l.setIdx := sets[l.setIdx][l.pos := v]];
        assert At(sets, l) != At(old(sets), l);
        return true;
      }
      return false;
    }
  }

  // -----------------------------------------------------------------------
  // The handler operations

  /** syncAllWaystones, once the manager is ready. */
  method SyncAllWaystones(mgr: WaypointsManager, ws: seq<Waystone>, modIdx: int)
    requires mgr.Valid() && ValidIdx(modIdx) && IndexedIn(ws, mgr.dimension)
    modifies mgr
    ensures var o := SyncAll(old(mgr.sets), old(mgr.current), old(mgr.dimension), ws, modIdx);
      mgr.State() == old(mgr.State()).(sets := o.sets, saves := old(mgr.saves) + if o.saved then 1 else 0)
  {
    ghost var q := Fold(Start(mgr.sets, modIdx), SameDimension(ws, mgr.dimension));
    assert Complete(q, mgr.current) == SyncAll(mgr.sets, mgr.current, mgr.dimension, ws, modIdx);
    var existing, staged, changed := MatchAll(mgr, SameDimension(ws, mgr.dimension), modIdx);
    CompletePass(mgr, existing, staged, changed);
  }

  /** The end of syncAllWaystones: the staged records are added to the active
      set, the unmatched provider waypoints are removed, and the world is saved
      when something was updated or removed. */
  method CompletePass(mgr: WaypointsManager, existing: seq<Loc>, staged: seq<Waystone>, changed: nat)
    requires mgr.Valid() && Live(Pass(mgr.sets, existing, staged, changed))
    modifies mgr
    ensures var o := Complete(Pass(old(mgr.sets), existing, staged, changed), old(mgr.current));
      mgr.State() == old(mgr.State()).(sets := o.sets, saves := old(mgr.saves) + if o.saved then 1 else 0)
  {
    ghost var W := mgr.sets;
    ghost var grown := AppendTo(W, mgr.current, ToWaypoints(staged));
    if staged != [] {
      AddAll(mgr, staged);
    } else {
      assert mgr.sets[mgr.current] + [] == mgr.sets[mgr.current];
    }
    assert mgr.sets == grown;
    assert forall l <- existing :: ValidLoc(grown, l) by {
      forall l <- existing ensures ValidLoc(grown, l) {
        AppendedKeepsLoc(W, old(mgr.current), ToWaypoints(staged), l);
      }
    }
    var removed := RemoveEach(mgr, existing);
    if changed > 0 || |existing| > 0 {
      mgr.SaveAllWaypoints();
    }
  }

  /** The loop of syncAllWaystones over the records of the current dimension:
      each record updates the first unmatched provider waypoint at its spot
      and takes it out of `existing`, or is staged as new. */
  method MatchAll(mgr: WaypointsManager, recs: seq<Waystone>, modIdx: int)
    returns (existing: seq<Loc>, staged: seq<Waystone>, changed: nat)
    requires mgr.Valid() && ValidIdx(modIdx) && Indexed(recs)
    modifies mgr
    ensures Pass(mgr.sets, existing, staged, changed) == Fold(Start(old(mgr.sets), modIdx), recs)
    ensures mgr.State() == old(mgr.State()).(sets := mgr.sets)
  {
    ghost var target := Fold(Start(mgr.sets, modIdx), recs);
    existing := OwnedLocs(mgr.sets, Symbol(modIdx));
    staged := [];
    changed := 0;
    var i := 0;
    assert recs[i..] == recs;
    while i < |recs|
      invariant 0 <= i <= |recs| && mgr.Valid()
      invariant mgr.State() == old(mgr.State()).(sets := mgr.sets)
      invariant Live(Pass(mgr.sets, existing, staged, changed))
      invariant target == Fold(Pass(mgr.sets, existing, staged, changed), recs[i..])
    {
      ghost var p := Pass(mgr.sets, existing, staged, changed);
      assert Fold(p, recs[i..]) == Fold(Step(p, recs[i]), recs[i + 1..]) by {
        assert recs[i..][0] == recs[i] && recs[i..][1..] == recs[i + 1..];
      }
      existing, staged, changed := MatchOne(mgr, existing, staged, changed, recs[i]);
      i := i + 1;
    }
  }

  /** One iteration of syncAllWaystones' loop, as Reconcile.Step describes it. */
  method MatchOne(mgr: WaypointsManager, existing: seq<Loc>, staged: seq<Waystone>, changed: nat, w: Waystone)
    returns (existing': seq<Loc>, staged': seq<Waystone>, changed': nat)
    requires mgr.Valid() && Live(Pass(mgr.sets, existing, staged, changed)) && ValidIdx(w.modIdx)
    modifies mgr
    ensures mgr.Valid()
    ensures Pass(mgr.sets, existing', staged', changed') == Step(Pass(old(mgr.sets), existing, staged, changed), w)
    ensures mgr.State() == old(mgr.State()).(sets := mgr.sets)
  {
    existing', staged', changed' := existing, staged, changed;
    var found := FindMatch(mgr.sets, existing, w);
    if found == None {
      staged' := staged + [w];
    } else {
      var k := found.value;
      var l := existing[k];
      DropAt(existing, k);
      var upd := mgr.UpdateWaypoint(l, w);
      if upd {
        changed' := changed + 1;
      }
      existing' := existing[..k] + existing[k + 1..];
    }
  }

  /** new.forEach { activeSet.addWaypointFor(it) }: the staged records'
      waypoints go, in order, to the end of the active set. */
  method AddAll(mgr: WaypointsManager, staged: seq<Waystone>)
    requires mgr.Valid() && Indexed(staged)
    modifies mgr
    ensures mgr.State() == old(mgr.State()).(sets := AppendTo(old(mgr.sets), old(mgr.current), ToWaypoints(staged)))
  {
    var W := mgr.sets;
    assert W[mgr.current] + [] == W[mgr.current] && staged[..0] == [];
    var j := 0;
    while j < |staged|
      invariant 0 <= j <= |staged|
      invariant mgr.State() == old(mgr.State()).(sets := AppendTo(W, old(mgr.current), ToWaypoints(staged[..j])))
    {
      assert staged[..j + 1] == staged[..j] + [staged[j]];
      ToWaypointsAppend(staged[..j], [staged[j]]);
      assert ToWaypoints([staged[j]]) == [ToWaypoint(staged[j])];
      mgr.AddWaypointFor(mgr.current, staged[j]);
      AppendToTwice(W, mgr.current, ToWaypoints(staged[..j]), [ToWaypoint(staged[j])]);
      j := j + 1;
    }
    assert staged[..j] == staged;
  }

  /** existing.forEach { it.remove() } and allModWaypoints(..).count { it.remove() }:
      each listed waypoint is taken out of its own set, and the number taken
      out is counted. The locations name waypoints of the world as it was
      before the first removal, as the contexts name waypoint objects, so the
      removals are made as one batch. */
  method RemoveEach(mgr: WaypointsManager, existing: seq<Loc>) returns (count: nat)
    requires mgr.Valid() && forall l <- existing :: ValidLoc(mgr.sets, l)
    modifies mgr
    ensures count == |existing|
    ensures mgr.State() == old(mgr.State()).(sets := RemoveLocs(old(mgr.sets), ToSet(existing)))
  {
    mgr.sets := RemoveLocs(mgr.sets, ToSet(existing));
    count := |existing|;
  }

  /** syncWaystone, once the manager is ready. */
  method SyncWaystone(mgr: WaypointsManager, w: Waystone)
    requires mgr.Valid() && (w.dimension == mgr.dimension ==> ValidIdx(w.modIdx))
    modifies mgr
    ensures var o := SyncOne(old(mgr.sets), old(mgr.current), old(mgr.dimension), w);
      mgr.State() == old(mgr.State()).(sets := o.sets, saves := old(mgr.saves) + if o.saved then 1 else 0)
  {
    if !SameDimensionAs(mgr.dimension, w) {
      return;
    }
    var all := OwnedLocs(mgr.sets, Symbol(w.modIdx));
    var existing := FindMatch(mgr.sets, all, w);
    var changed: bool;
    if existing == None {
      mgr.AddWaypointFor(mgr.current, w);
      changed := true;
    } else {
      changed := mgr.UpdateWaypoint(all[existing.value], w);
    }
    if changed {
      mgr.SaveAllWaypoints();
    }
  }

  /** removeWaystone, once the manager is ready. */
  method RemoveWaystone(mgr: WaypointsManager, w: Waystone)
    requires mgr.Valid() && (w.dimension == mgr.dimension ==> ValidIdx(w.modIdx))
    modifies mgr
    ensures var o := RemoveOne(old(mgr.sets), old(mgr.dimension), w);
      mgr.State() == old(mgr.State()).(sets := o.sets, saves := old(mgr.saves) + if o.saved then 1 else 0)
  {
    if !SameDimensionAs(mgr.dimension, w) {
      return;
    }
    var all := OwnedLocs(mgr.sets, Symbol(w.modIdx));
    var existing := FindMatch(mgr.sets, all, w);
    if existing == None {
      return;
    }
    var removed := RemoveEach(mgr, [all[existing.value]]);
    assert ToSet([all[existing.value]]) == {all[existing.value]};
    if removed > 0 {
      mgr.SaveAllWaypoints();
    }
  }

  /** removeAllWaystones, once the manager is ready. */
  method RemoveAllWaystones(mgr: WaypointsManager, modIdx: int)
    requires mgr.Valid() && ValidIdx(modIdx)
    modifies mgr
    ensures var o := RemoveAll(old(mgr.sets), modIdx);
      mgr.State() == old(mgr.State()).(sets := o.sets, saves := old(mgr.saves) + if o.saved then 1 else 0)
  {
    var changed := RemoveEach(mgr, OwnedLocs(mgr.sets, Symbol(modIdx)));
    if changed > 0 {
      mgr.SaveAllWaypoints();
    }
  }

  // -----------------------------------------------------------------------
  // Handler calls as values

  /** A handler call waiting to run: the closure an IWay2WayHandler operation
      hands to the map watcher. */
  datatype Event =
    | SyncAllEvent(waystones: seq<Waystone>, modIdx: int)
    | SyncOneEvent(waystone: Waystone)
    | RemoveOneEvent(waystone: Waystone)
    | RemoveAllEvent(modIdx: int)

  /** Every provider index the call looks up has a tag. */
  predicate EventOk(e: Event) {
    match e
    case SyncAllEvent(ws, modIdx) => ValidIdx(modIdx) && Indexed(ws)
    case SyncOneEvent(w) => ValidIdx(w.modIdx)
    case RemoveOneEvent(w) => ValidIdx(w.modIdx)
    case RemoveAllEvent(modIdx) => ValidIdx(modIdx)
  }

  /** What a handler call does to the manager. Each call keeps the world's
      dimension, its active set and its number of sets, and saves at most
      once. */
  function Apply(v: World, e: Event): (r: World)
    requires WorldOk(v) && EventOk(e)
    ensures WorldOk(r) && r.dimension == v.dimension && r.current == v.current && |r.sets| == |v.sets|
    ensures v.saves <= r.saves <= v.saves + 1
  {
    var o := match e
      case SyncAllEvent(ws, modIdx) => SyncAll(v.sets, v.current, v.dimension, ws, modIdx)
      case SyncOneEvent(w) => SyncOne(v.sets, v.current, v.dimension, w)
      case RemoveOneEvent(w) => RemoveOne(v.sets, v.dimension, w)
      case RemoveAllEvent(modIdx) => RemoveAll(v.sets, modIdx);
    v.(sets := o.sets, saves := v.saves + if o.saved then 1 else 0)
  }

  /** Handler calls run one after another, in order. */
  function ApplyAll(v: World, es: seq<Event>): (r: World)
    requires WorldOk(v) && forall e <- es :: EventOk(e)
    ensures WorldOk(r) && r.dimension == v.dimension && r.current == v.current && |r.sets| == |v.sets|
    ensures v.saves <= r.saves <= v.saves + |es|
    decreases |es|
  {
    if es == [] then v else ApplyAll(Apply(v, es[0]), es[1..])
  }

  /** Running the calls of `a` and then those of `b` is running `a + b`. */
  lemma {:induction false} ApplyAllAppend(v: World, a: seq<Event>, b: seq<Event>)
    requires WorldOk(v) && (forall e <- a :: EventOk(e)) && forall e <- b :: EventOk(e)
    ensures ApplyAll(v, a + b) == ApplyAll(ApplyAll(v, a), b)
    decreases |a|
  {
    if a == [] {
      assert a + b == b;
    } else {
      assert (a + b)[0] == a[0] && (a + b)[1..] == a[1..] + b;
      ApplyAllAppend(Apply(v, a[0]), a[1..], b);
    }
  }

  /** Runs one handler call against a ready manager. */
  method Dispatch(mgr: WaypointsManager, e: Event)
    requires mgr.Valid() && EventOk(e)
    modifies mgr
    ensures mgr.State() == Apply(old(mgr.State()), e)
  {
    match e
    case SyncAllEvent(ws, modIdx) => SyncAllWaystones(mgr, ws, modIdx);
    case SyncOneEvent(w) => SyncWaystone(mgr, w);
    case RemoveOneEvent(w) => RemoveWaystone(mgr, w);
    case RemoveAllEvent(modIdx) => RemoveAllWaystones(mgr, modIdx);
  }

  /** Runs waiting handler calls against a ready manager, in order. */
  method DispatchAll(mgr: WaypointsManager, es: seq<Event>)
    requires mgr.Valid() && forall e <- es :: EventOk(e)
    modifies mgr
    ensures mgr.Valid() && mgr.State() == ApplyAll(old(mgr.State()), es)
  {
    var i := 0;
    assert es[i..] == es;
    while i < |es|
      invariant 0 <= i <= |es| && mgr.Valid()
      invariant ApplyAll(mgr.State(), es[i..]) == ApplyAll(old(mgr.State()), es)
    {
      assert es[i..][0] == es[i] && es[i..][1..] == es[i + 1..];
      Dispatch(mgr, es[i]);
      i := i + 1;
    }
  }
}
