/** The reconciliation engine as functions of the world's waypoint sets: what
    syncAllWaystones, syncWaystone, removeWaystone and removeAllWaystones
    leave behind, and whether they save. */
module Reconcile {
  import opened Waystones
  import opened WaypointSets

  /** existing.find { it.matches(w) }: the index in `E` of the first location
      whose waypoint stands at the record's coordinates. */
  function FindMatch(W: Sets, E: seq<Loc>, w: Waystone): (r: Option<nat>)
    requires forall l <- E :: ValidLoc(W, l)
    ensures r.Some? ==> r.value < |E| && Matches(At(W, E[r.value]), w)
    ensures r.Some? ==> forall k :: 0 <= k < r.value ==> !Matches(At(W, E[k]), w)
    ensures r.None? <==> forall k :: 0 <= k < |E| ==> !Matches(At(W, E[k]), w)
    decreases |E|
  {
    if E == [] then None
    else if Matches(At(W, E[0]), w) then Some(0)
    else match FindMatch(W, E[1..], w)
      case None => None
      case Some(k) => Some(k + 1)
  }

  /** A FindMatch that only looks at coordinates gives the same answer on two
      worlds that agree on them. */
  lemma {:induction false} FindMatchSameSpots(A: Sets, B: Sets, E: seq<Loc>, w: Waystone)
    requires forall l <- E :: ValidLoc(A, l) && ValidLoc(B, l)
    requires forall k :: 0 <= k < |E| ==> (Matches(At(A, E[k]), w) <==> Matches(At(B, E[k]), w))
    ensures FindMatch(A, E, w) == FindMatch(B, E, w)
    decreases |E|
  {
    if E != [] {
      FindMatchSameSpots(A, B, E[1..], w);
    }
  }

  /** Overwriting a waypoint with one at the same coordinates does not change
      what FindMatch finds. */
  lemma {:induction false} FindMatchPut(W: Sets, E: seq<Loc>, l: Loc, v: Waypoint, w: Waystone)
    requires (forall m <- E :: ValidLoc(W, m)) && ValidLoc(W, l)
    requires Matches(v, w) <==> Matches(At(W, l), w)
    ensures forall m <- E :: ValidLoc(Put(W, l, v), m)
    ensures FindMatch(Put(W, l, v), E, w) == FindMatch(W, E, w)
  {
    var V := Put(W, l, v);
    forall j | 0 <= j < |E| ensures ValidLoc(V, E[j]) && (Matches(At(V, E[j]), w) <==> Matches(At(W, E[j]), w)) {
      assert E[j] in E;
    }
    FindMatchSameSpots(V, W, E, w);
  }

  predicate Indexed(ws: seq<Waystone>) {
    forall w <- ws :: ValidIdx(w.modIdx)
  }

  /** Every record of dimension `dim` has a provider index with a tag. */
  predicate IndexedIn(ws: seq<Waystone>, dim: string) {
    forall w <- ws :: w.dimension == dim ==> ValidIdx(w.modIdx)
  }

  /** Every record of dimension `dim` carries the tag of `modIdx`, as the
      records a provider hands to syncAllWaystones always do. */
  predicate TaggedAs(ws: seq<Waystone>, dim: string, modIdx: int)
    requires ValidIdx(modIdx)
  {
    forall w <- ws :: w.dimension == dim ==> ValidIdx(w.modIdx) && Symbol(w.modIdx) == Symbol(modIdx)
  }

  predicate SameSpot(a: Waystone, b: Waystone) {
    a.x == b.x && a.y == b.y && a.z == b.z
  }

  /** No two records stand at the same coordinates. */
  predicate DistinctSpots(ws: seq<Waystone>) {
    forall i, j :: 0 <= i < j < |ws| ==> !SameSpot(ws[i], ws[j])
  }

  // -----------------------------------------------------------------------
  // syncAllWaystones

  /** The working state of syncAllWaystones' loop: the world as updated so far,
      the owned waypoints not matched yet (`existing`), the records staged as
      new, and the number of waypoints updated. */
  datatype Pass = Pass(sets: Sets, existing: seq<Loc>, added: seq<Waystone>, changed: nat)

  predicate Live(p: Pass) {
    (forall l <- p.existing :: ValidLoc(p.sets, l)) && Indexed(p.added)
  }

  /** The loop's state before the first record. */
  function Start(W: Sets, modIdx: int): Pass
    requires ValidIdx(modIdx)
  {
    Pass(W, OwnedLocs(W, Symbol(modIdx)), [], 0)
  }

  /** One iteration of the loop: a record with an unmatched owned waypoint at
      its coordinates updates the first such waypoint and takes it out of
      `existing`; any other record is staged as new. */
  function Step(p: Pass, w: Waystone): (q: Pass)
    requires Live(p) && ValidIdx(w.modIdx)
    ensures Live(q) && SameShape(q.sets, p.sets)
  {
    match FindMatch(p.sets, p.existing, w)
    case None => p.(added := p.added + [w])
    case Some(k) =>
      var l := p.existing[k];
      var wp := At(p.sets, l);
      var rest := p.existing[..k] + p.existing[k + 1..];
      assert forall m <- rest :: m in p.existing;
      if NeedsUpdate(wp, w) then Pass(Put(p.sets, l, Refresh(wp, w)), rest, p.added, p.changed + 1)
      else p.(existing := rest)
  }

  /** The loop over the records, in order. */
  function Fold(p: Pass, ws: seq<Waystone>): (q: Pass)
    requires Live(p) && Indexed(ws)
    ensures Live(q) && SameShape(q.sets, p.sets)
    decreases |ws|
  {
    if ws == [] then p else Fold(Step(p, ws[0]), ws[1..])
  }

  /** The result of an operation: the world's sets afterwards, and whether
      saveAllWaypoints was called. */
  datatype Outcome = Outcome(sets: Sets, saved: bool)

  /** After the loop: staged records are added to the current set, unmatched
      owned waypoints are removed, and the world is saved only if something
      was updated or removed. */
  function Complete(q: Pass, current: nat): Outcome
    requires Live(q) && current < |q.sets|
  {
    Outcome(RemoveLocs(AppendTo(q.sets, current, ToWaypoints(q.added)), ToSet(q.existing)),
            q.changed > 0 || |q.existing| > 0)
  }

  /** syncAllWaystones on a world whose current dimension is `dim` and whose
      current set is `current`. */
  function SyncAll(W: Sets, current: nat, dim: string, ws: seq<Waystone>, modIdx: int): Outcome
    requires current < |W| && ValidIdx(modIdx) && IndexedIn(ws, dim)
  {
    Complete(Fold(Start(W, modIdx), SameDimension(ws, dim)), current)
  }

  // -----------------------------------------------------------------------
  // syncWaystone, removeWaystone, removeAllWaystones

  /** syncWaystone: outside the current dimension nothing happens; otherwise
      the first owned waypoint at the record's coordinates is updated, or a
      new waypoint is added to the current set when there is none. */
  function SyncOne(W: Sets, current: nat, dim: string, w: Waystone): Outcome
    requires current < |W| && (w.dimension == dim ==> ValidIdx(w.modIdx))
  {
    if w.dimension != dim then Outcome(W, false)
    else
      var E := OwnedLocs(W, Symbol(w.modIdx));
      match FindMatch(W, E, w)
      case None => Outcome(AppendTo(W, current, [ToWaypoint(w)]), true)
      case Some(k) =>
        var wp := At(W, E[k]);
        if NeedsUpdate(wp, w) then Outcome(Put(W, E[k], Refresh(wp, w)), true) else Outcome(W, false)
  }

  /** removeWaystone: outside the current dimension nothing happens; otherwise
      the first owned waypoint at the record's coordinates is removed. */
  function RemoveOne(W: Sets, dim: string, w: Waystone): Outcome
    requires w.dimension == dim ==> ValidIdx(w.modIdx)
  {
    if w.dimension != dim then Outcome(W, false)
    else
      var E := OwnedLocs(W, Symbol(w.modIdx));
      match FindMatch(W, E, w)
      case None => Outcome(W, false)
      case Some(k) => Outcome(RemoveLocs(W, {E[k]}), true)
  }

  /** removeAllWaystones: every waypoint carrying the provider's tag is
      removed, in every set of the current world. */
  function RemoveAll(W: Sets, modIdx: int): Outcome
    requires ValidIdx(modIdx)
  {
    var E := OwnedLocs(W, Symbol(modIdx));
    Outcome(RemoveLocs(W, ToSet(E)), |E| > 0)
  }

  // -----------------------------------------------------------------------
  // Convergence of syncAllWaystones

  /** Taking the `k`-th location out of a duplicate-free `existing` list,
      as LinkedList.remove does, removes exactly that location. */
  lemma {:induction false} RemoveAtSpec(E: seq<Loc>, k: nat)
    requires NoDup(E) && k < |E|
    ensures NoDup(E[..k] + E[k + 1..])
    ensures ToSet(E[..k] + E[k + 1..]) == ToSet(E) - {E[k]}
  {
    var rest := E[..k] + E[k + 1..];
    forall i, j | 0 <= i < j < |rest| ensures rest[i] != rest[j] {
      var i' := if i < k then i else i + 1;
      var j' := if j < k then j else j + 1;
      assert rest[i] == E[i'] && rest[j] == E[j'];
    }
    forall l | l in ToSet(E) - {E[k]} ensures l in ToSet(rest) {
      var i :| 0 <= i < |E| && E[i] == l;
      if i < k { assert rest[i] == l; } else { assert rest[i - 1] == l; }
    }
  }

  /** The tagged waypoints left in the loop's world, unmatched ones set
      aside, together with the staged records: what the pass has settled so
      far. */
  function Settled(p: Pass, sym: string): multiset<Waypoint>
    requires Live(p)
  {
    multiset(Owned(RemoveLocs(p.sets, ToSet(p.existing)), sym)) + multiset(ToWaypoints(p.added))
  }

  predicate AllTaggedWith(ws: seq<Waystone>, sym: string)
    requires Indexed(ws)
  {
    forall w <- ws :: Symbol(w.modIdx) == sym
  }

  /** The loop invariant of syncAllWaystones relative to the world `W0` it
      started from, after the records `done` have been handled: `existing`
      lists tagged locations once each, waypoints without the tag are as they
      were, and the settled waypoints are exactly the records handled. */
  ghost predicate Tracks(p: Pass, sym: string, W0: Sets, done: seq<Waystone>)
    requires Indexed(done)
  {
    && Live(p)
    && Framed(p.sets, p.existing, sym, W0)
    && AllTaggedWith(p.added, sym)
    && Settled(p, sym) == multiset(ToWaypoints(done))
  }

  /** The part of the invariant about the world and the unmatched locations. */
  ghost predicate Framed(S: Sets, E: seq<Loc>, sym: string, W0: Sets) {
    && OnlyTaggedChanged(S, W0, sym)
    && NoDup(E)
    && (forall l <- E :: ValidLoc(S, l) && At(S, l).symbol == sym)
  }

  lemma {:induction false} StartTracks(W: Sets, modIdx: int)
    requires ValidIdx(modIdx)
    ensures Tracks(Start(W, modIdx), Symbol(modIdx), W, [])
  {
    var sym := Symbol(modIdx);
    var E := OwnedLocs(W, sym);
    RemoveAllTagged(W, ToSet(E), sym);
  }

  /** A matched waypoint ends up as the record's waypoint, whether or not
      updateWaypoint had to write. */
  lemma {:induction false} MatchedBecomesRecord(wp: Waypoint, w: Waystone)
    requires ValidIdx(w.modIdx) && Matches(wp, w) && wp.symbol == Symbol(w.modIdx)
    ensures (if NeedsUpdate(wp, w) then Refresh(wp, w) else wp) == ToWaypoint(w)
  {
    RefreshSpec(wp, w);
  }

  lemma {:induction false} StepTracks(p: Pass, sym: string, W0: Sets, done: seq<Waystone>, w: Waystone)
    requires Indexed(done) && ValidIdx(w.modIdx) && Symbol(w.modIdx) == sym
    requires Tracks(p, sym, W0, done)
    ensures Tracks(Step(p, w), sym, W0, done + [w])
  {
    match FindMatch(p.sets, p.existing, w)
    case None =>
      StepTracksStaged(p, sym, W0, done, w);
    case Some(k) =>
      StepTracksMatched(p, sym, W0, done, w, k);
  }

  /** An unmatched record: it is staged, and its waypoint joins the settled
      ones. */
  lemma {:induction false} StepTracksStaged(p: Pass, sym: string, W0: Sets, done: seq<Waystone>, w: Waystone)
    requires Indexed(done) && ValidIdx(w.modIdx) && Symbol(w.modIdx) == sym
    requires Tracks(p, sym, W0, done)
    requires FindMatch(p.sets, p.existing, w).None?
    ensures Tracks(Step(p, w), sym, W0, done + [w])
  {
    StagedSettles(p, w, sym);
    ToWaypointsSnoc(done, w);
  }

  /** Staging a record tagged `sym` adds its waypoint to the settled ones. */
  lemma {:induction false} StagedSettles(p: Pass, w: Waystone, sym: string)
    requires Live(p) && ValidIdx(w.modIdx) && Symbol(w.modIdx) == sym && AllTaggedWith(p.added, sym)
    ensures var q := p.(added := p.added + [w]);
      && Live(q) && AllTaggedWith(q.added, sym)
      && Settled(q, sym) == Settled(p, sym) + multiset{ToWaypoint(w)}
  {
    var q := p.(added := p.added + [w]);
    assert forall x <- q.added :: x in p.added || x == w;
    ToWaypointsSnoc(p.added, w);
  }

  /** A matched record: its waypoint moves from the unmatched locations to
      the settled ones, holding the record's waypoint. */
  lemma {:induction false} StepTracksMatched(p: Pass, sym: string, W0: Sets, done: seq<Waystone>, w: Waystone, k: nat)
    requires Indexed(done) && ValidIdx(w.modIdx) && Symbol(w.modIdx) == sym
    requires Tracks(p, sym, W0, done)
    requires FindMatch(p.sets, p.existing, w) == Some(k)
    ensures Tracks(Step(p, w), sym, W0, done + [w])
  {
    var u := ToWaypoint(w);
    var q := Step(p, w);
    var rest := p.existing[..k] + p.existing[k + 1..];
    assert q.sets == Put(p.sets, p.existing[k], u) && q.existing == rest && q.added == p.added by {
      StepMatched(p, w, k);
    }
    assert OnlyTaggedChanged(q.sets, W0, sym) && forall l <- rest :: ValidLoc(q.sets, l) && At(q.sets, l).symbol == sym by {
      MatchedFrame(p.sets, p.existing, k, u, sym, W0);
    }
    assert NoDup(rest) by {
      RemoveAtSpec(p.existing, k);
    }
    assert Settled(q, sym) == Settled(p, sym) + multiset{u} by {
      MatchedSettles(p.sets, p.existing, p.added, k, u, sym, p.changed, q.changed);
      assert q == Pass(Put(p.sets, p.existing[k], u), rest, p.added, q.changed);
    }
    ToWaypointsSnoc(done, w);
  }

  lemma {:induction false} ToWaypointsSnoc(done: seq<Waystone>, w: Waystone)
    requires Indexed(done) && ValidIdx(w.modIdx)
    ensures multiset(ToWaypoints(done + [w])) == multiset(ToWaypoints(done)) + multiset{ToWaypoint(w)}
  {
    ToWaypointsAppend(done, [w]);
    assert ToWaypoints([w]) == [ToWaypoint(w)];
  }

  /** The step of a matched record whose waypoint carries the record's tag:
      the waypoint becomes the record's and leaves `existing`. */
  lemma {:induction false} StepMatched(p: Pass, w: Waystone, k: nat)
    requires Live(p) && ValidIdx(w.modIdx) && FindMatch(p.sets, p.existing, w) == Some(k)
    requires At(p.sets, p.existing[k]).symbol == Symbol(w.modIdx)
    ensures var q := Step(p, w);
      && q.sets == Put(p.sets, p.existing[k], ToWaypoint(w))
      && q.existing == p.existing[..k] + p.existing[k + 1..]
      && q.added == p.added
  {
    MatchedBecomesRecord(At(p.sets, p.existing[k]), w);
    PutSame(p.sets, p.existing[k]);
  }

  /** Overwriting the matched location with a tagged waypoint keeps the
      remaining unmatched locations tagged and changes only tagged waypoints. */
  lemma {:induction false} MatchedFrame(S: Sets, E: seq<Loc>, k: nat, u: Waypoint, sym: string, W0: Sets)
    requires k < |E| && forall m <- E :: ValidLoc(S, m) && At(S, m).symbol == sym
    requires NoDup(E) && OnlyTaggedChanged(S, W0, sym) && u.symbol == sym
    ensures var S' := Put(S, E[k], u);
      && OnlyTaggedChanged(S', W0, sym)
      && forall m <- E[..k] + E[k + 1..] :: ValidLoc(S', m) && At(S', m).symbol == sym
  {
    var rest := E[..k] + E[k + 1..];
    RemoveAtSpec(E, k);
    assert forall m <- rest :: m in E && m != E[k] by {
      forall m | m in rest ensures m in E && m != E[k] {
        assert m in ToSet(rest);
      }
    }
    OnlyTaggedChangedPut(S, W0, sym, E[k], u);
  }

  /** Moving the matched location out of the unmatched ones while it holds
      `u` adds exactly `u` to the settled waypoints. */
  lemma {:induction false} MatchedSettles(S: Sets, E: seq<Loc>, A: seq<Waystone>, k: nat, u: Waypoint, sym: string, c: nat, c': nat)
    requires k < |E| && NoDup(E) && forall m <- E :: ValidLoc(S, m)
    requires Indexed(A) && u.symbol == sym
    ensures var q := Pass(Put(S, E[k], u), E[..k] + E[k + 1..], A, c');
      && Live(q)
      && Settled(q, sym) == Settled(Pass(S, E, A, c), sym) + multiset{u}
  {
    var l := E[k];
    var X := ToSet(E);
    var S' := Put(S, l, u);
    RemoveAtSpec(E, k);
    assert l in X;
    forall m | m in E[..k] + E[k + 1..] ensures ValidLoc(S', m) {
      assert m in ToSet(E[..k] + E[k + 1..]);
    }
    ReleaseLoc(S', X, l, sym);
    RemoveLocsPut(S, l, u, X);
  }

  lemma {:induction false} FoldTracks(p: Pass, sym: string, W0: Sets, done: seq<Waystone>, ws: seq<Waystone>)
    requires Indexed(done) && Indexed(ws) && AllTaggedWith(ws, sym)
    requires Tracks(p, sym, W0, done)
    ensures Tracks(Fold(p, ws), sym, W0, done + ws)
    decreases |ws|
  {
    if ws == [] {
      assert done + ws == done;
    } else {
      var p' := Step(p, ws[0]);
      var done' := done + [ws[0]];
      var rest := ws[1..];
      assert ws == [ws[0]] + rest;
      assert done' + rest == done + ws;
      StepTracks(p, sym, W0, done, ws[0]);
      FoldTracks(p', sym, W0, done', rest);
      assert Fold(p, ws) == Fold(p', rest);
    }
  }

  /** Completing a tracked pass: the tagged waypoints of the final world are
      the records handled, and the untagged ones are where they were. */
  lemma {:induction false} Finish(q: Pass, sym: string, W0: Sets, done: seq<Waystone>, current: nat)
    requires Indexed(done) && current < |W0| && Tracks(q, sym, W0, done)
    ensures var r := Complete(q, current).sets;
      && |r| == |W0|
      && multiset(Owned(r, sym)) == multiset(ToWaypoints(done))
      && forall s :: 0 <= s < |W0| ==> Untagged(r[s], sym) == Untagged(W0[s], sym)
  {
    var S := q.sets;
    var X := ToSet(q.existing);
    var A := ToWaypoints(q.added);
    forall s | 0 <= s < |W0| ensures Untagged(S[s], sym) == Untagged(W0[s], sym) {
      OnlyTaggedChangedUntagged(S, W0, sym, s);
    }
    AllTagged(A, sym);
    RemoveLocsAppend(S, current, A, X);
    OwnedAppendTo(RemoveLocs(S, X), current, A, sym);
    var r := Complete(q, current).sets;
    forall s | 0 <= s < |W0| ensures Untagged(r[s], sym) == Untagged(W0[s], sym) {
      assert forall m :: 0 <= m < |S[s]| && Loc(s, m) in X ==> S[s][m].symbol == sym by {
        forall m | 0 <= m < |S[s]| && Loc(s, m) in X ensures S[s][m].symbol == sym {
          assert At(S, Loc(s, m)).symbol == sym;
        }
      }
      KeptInOnlyTagged(S[s], s, X, sym);
      if s == current {
        TaggedAppend(KeptIn(S[s], s, X), A, sym);
      }
    }
  }

  lemma {:induction false} SameDimensionTagged(ws: seq<Waystone>, dim: string, modIdx: int)
    requires ValidIdx(modIdx) && TaggedAs(ws, dim, modIdx)
    ensures Indexed(SameDimension(ws, dim)) && AllTaggedWith(SameDimension(ws, dim), Symbol(modIdx))
  {
  }

  /** syncAllWaystones converges: afterwards the provider's waypoints in the
      world are exactly one per record of the current dimension (counted with
      multiplicity, so two records at one spot give two waypoints), and every
      waypoint without the provider's tag is left where it was. */
  lemma {:induction false} SyncAllConverges(W: Sets, current: nat, dim: string, ws: seq<Waystone>, modIdx: int)
    requires current < |W| && ValidIdx(modIdx) && TaggedAs(ws, dim, modIdx)
    ensures var r := SyncAll(W, current, dim, ws, modIdx).sets;
      && |r| == |W|
      && multiset(Owned(r, Symbol(modIdx))) == multiset(ToWaypoints(SameDimension(ws, dim)))
      && forall s :: 0 <= s < |W| ==> Untagged(r[s], Symbol(modIdx)) == Untagged(W[s], Symbol(modIdx))
  {
    var sym := Symbol(modIdx);
    var f := SameDimension(ws, dim);
    SameDimensionTagged(ws, dim, modIdx);
    StartTracks(W, modIdx);
    FoldTracks(Start(W, modIdx), sym, W, [], f);
    assert [] + f == f;
    Finish(Fold(Start(W, modIdx), f), sym, W, f, current);
  }

  // -----------------------------------------------------------------------
  // When syncAllWaystones saves

  /** The loop only writes to the world when it counts an update. */
  lemma {:induction false} FoldWritesOnlyWhenCounting(p: Pass, ws: seq<Waystone>)
    requires Live(p) && Indexed(ws)
    ensures Fold(p, ws).changed >= p.changed
    ensures Fold(p, ws).changed == p.changed ==> Fold(p, ws).sets == p.sets
    decreases |ws|
  {
    if ws != [] {
      FoldWritesOnlyWhenCounting(Step(p, ws[0]), ws[1..]);
    }
  }

  /** A pass that does not save has only added waypoints: every set but the
      current one is as it was, and the current one kept its waypoints and
      grew at its end. Updates and removals are therefore always saved. */
  lemma {:induction false} SyncAllUnsavedOnlyAdds(W: Sets, current: nat, dim: string, ws: seq<Waystone>, modIdx: int)
    requires current < |W| && ValidIdx(modIdx) && IndexedIn(ws, dim)
    ensures var r := SyncAll(W, current, dim, ws, modIdx);
      !r.saved ==>
        && |r.sets| == |W|
        && (forall s :: 0 <= s < |W| && s != current ==> r.sets[s] == W[s])
        && W[current] <= r.sets[current]
  {
    var p := Start(W, modIdx);
    var q := Fold(p, SameDimension(ws, dim));
    var r := SyncAll(W, current, dim, ws, modIdx);
    assert r == Complete(q, current);
    if q.changed == 0 && q.existing == [] {
      assert q.sets == W by {
        FoldWritesOnlyWhenCounting(p, SameDimension(ws, dim));
      }
      var grown := AppendTo(W, current, ToWaypoints(q.added));
      assert r.sets == grown by {
        assert ToSet(q.existing) == {};
        RemoveLocsEmpty(grown);
      }
      assert W[current] <= grown[current];
    }
  }

  /** With nothing left to match, every record is staged as new. */
  lemma {:induction false} FoldUnmatched(p: Pass, ws: seq<Waystone>)
    requires Live(p) && Indexed(ws) && p.existing == []
    ensures Fold(p, ws) == p.(added := p.added + ws)
    decreases |ws|
  {
    if ws == [] {
      assert p.added + ws == p.added;
    } else {
      var p' := Step(p, ws[0]);
      assert p' == p.(added := p.added + [ws[0]]);
      FoldUnmatched(p', ws[1..]);
      assert p.added + [ws[0]] + ws[1..] == p.added + ws;
    }
  }

  /** In a world without the provider's waypoints, a pass adds one waypoint
      per record of the current dimension to the current set, in order (two
      records at one spot give two waypoints), and does not save. */
  lemma {:induction false} SyncAllFreshWorld(W: Sets, current: nat, dim: string, ws: seq<Waystone>, modIdx: int)
    requires current < |W| && ValidIdx(modIdx) && IndexedIn(ws, dim)
    requires Owned(W, Symbol(modIdx)) == []
    ensures SyncAll(W, current, dim, ws, modIdx)
         == Outcome(AppendTo(W, current, ToWaypoints(SameDimension(ws, dim))), false)
  {
    var f := SameDimension(ws, dim);
    OwnedLocsCount(W, Symbol(modIdx));
    FoldUnmatched(Start(W, modIdx), f);
    assert [] + f == f;
    assert ToSet([]) == {};
    RemoveLocsEmpty(AppendTo(W, current, ToWaypoints(f)));
  }

  // -----------------------------------------------------------------------
  // Idempotence of syncAllWaystones

  /** When the waypoints at the unmatched locations are exactly the records'
      waypoints and the records stand at distinct spots, each record finds
      its own waypoint unchanged: the loop writes nothing and stages nothing. */
  lemma {:induction false} FoldInSync(p: Pass, ws: seq<Waystone>)
    requires Live(p) && Indexed(ws) && DistinctSpots(ws)
    requires multiset(Values(p.sets, p.existing)) == multiset(ToWaypoints(ws))
    ensures Fold(p, ws) == p.(existing := [])
    decreases |ws|
  {
    if ws == [] {
      var V := Values(p.sets, p.existing);
      assert multiset(V) == multiset{};
      assert |multiset(V)| == |V|;
    } else {
      var p' := InSyncStep(p, ws);
      FoldInSync(p', ws[1..]);
    }
  }

  /** One step of a pass in sync: the first record finds its own waypoint,
      which leaves the unmatched locations, and the rest is still in sync. */
  lemma {:induction false} InSyncStep(p: Pass, ws: seq<Waystone>) returns (p': Pass)
    requires Live(p) && Indexed(ws) && DistinctSpots(ws) && ws != []
    requires multiset(Values(p.sets, p.existing)) == multiset(ToWaypoints(ws))
    ensures Live(p') && p'.sets == p.sets && p'.added == p.added && p'.changed == p.changed
    ensures Fold(p, ws) == Fold(p', ws[1..])
    ensures Indexed(ws[1..]) && DistinctSpots(ws[1..])
    ensures multiset(Values(p'.sets, p'.existing)) == multiset(ToWaypoints(ws[1..]))
  {
    var k := InSyncFinds(p, ws);
    p' := p.(existing := p.existing[..k] + p.existing[k + 1..]);
    assert Step(p, ws[0]) == p';
    InSyncRest(p, ws, k);
  }

  /** In a pass in sync, the first record finds a location holding exactly
      its own waypoint. */
  lemma {:induction false} InSyncFinds(p: Pass, ws: seq<Waystone>) returns (k: nat)
    requires Live(p) && Indexed(ws) && DistinctSpots(ws) && ws != []
    requires multiset(Values(p.sets, p.existing)) == multiset(ToWaypoints(ws))
    ensures FindMatch(p.sets, p.existing, ws[0]) == Some(k)
    ensures k < |p.existing| && ValidLoc(p.sets, p.existing[k]) && At(p.sets, p.existing[k]) == ToWaypoint(ws[0])
  {
    var w := ws[0];
    var u := ToWaypoint(w);
    var V := Values(p.sets, p.existing);
    assert ToWaypoints(ws) == [u] + ToWaypoints(ws[1..]);
    assert FindMatch(p.sets, p.existing, w).Some? by {
      assert u in multiset(V);
      var i :| 0 <= i < |V| && V[i] == u;
      assert Matches(At(p.sets, p.existing[i]), w);
    }
    k := FindMatch(p.sets, p.existing, w).value;
    assert V[k] in multiset(ToWaypoints(ws));
    OnlyRecordAtItsSpot(ws, V[k]);
  }

  /** Taking the first record's waypoint out of a pass in sync leaves the
      rest in sync. */
  lemma InSyncRest(p: Pass, ws: seq<Waystone>, k: nat)
    requires Live(p) && Indexed(ws) && ws != [] && k < |p.existing| && ValidLoc(p.sets, p.existing[k])
    requires At(p.sets, p.existing[k]) == ToWaypoint(ws[0])
    requires multiset(Values(p.sets, p.existing)) == multiset(ToWaypoints(ws))
    ensures (forall l <- p.existing[..k] + p.existing[k + 1..] :: ValidLoc(p.sets, l))
      && multiset(Values(p.sets, p.existing[..k] + p.existing[k + 1..])) == multiset(ToWaypoints(ws[1..]))
  {
    var u := ToWaypoint(ws[0]);
    var rest := ToWaypoints(ws[1..]);
    assert ToWaypoints(ws) == [u] + rest;
    ValuesRemoveAt(p.sets, p.existing, k);
    assert multiset(ToWaypoints(ws)) == multiset(rest) + multiset{u};
    MultisetCancelOne(multiset(Values(p.sets, p.existing[..k] + p.existing[k + 1..])), multiset(rest), u);
  }

  /** Among the waypoints of records at distinct spots, the one at the first
      record's spot is that record's. */
  lemma {:induction false} OnlyRecordAtItsSpot(ws: seq<Waystone>, v: Waypoint)
    requires ws != [] && Indexed(ws) && DistinctSpots(ws)
    requires v in ToWaypoints(ws) && Matches(v, ws[0])
    ensures v == ToWaypoint(ws[0])
  {
    var j :| 0 <= j < |ws| && ToWaypoints(ws)[j] == v;
    assert j == 0 || !SameSpot(ws[0], ws[j]);
  }

  /** A world whose provider waypoints are already exactly the records'
      waypoints is left alone and not saved. */
  lemma {:induction false} SyncAllInSync(W: Sets, current: nat, dim: string, ws: seq<Waystone>, modIdx: int)
    requires current < |W| && ValidIdx(modIdx) && IndexedIn(ws, dim)
    requires DistinctSpots(SameDimension(ws, dim))
    requires multiset(Owned(W, Symbol(modIdx))) == multiset(ToWaypoints(SameDimension(ws, dim)))
    ensures SyncAll(W, current, dim, ws, modIdx) == Outcome(W, false)
  {
    var p := Start(W, modIdx);
    var recs := SameDimension(ws, dim);
    assert Fold(p, recs) == p.(existing := []) by {
      ValuesOwnedLocs(W, Symbol(modIdx));
      FoldInSync(p, recs);
    }
    assert AppendTo(W, current, ToWaypoints([])) == W by {
      assert W[current] + [] == W[current];
    }
    assert RemoveLocs(W, ToSet([])) == W by {
      assert ToSet([]) == {};
      RemoveLocsEmpty(W);
    }
  }

  /** Running syncAllWaystones a second time with the same records (at
      distinct spots) changes nothing and does not save. */
  lemma {:induction false} SyncAllIdempotent(W: Sets, current: nat, dim: string, ws: seq<Waystone>, modIdx: int)
    requires current < |W| && ValidIdx(modIdx) && TaggedAs(ws, dim, modIdx)
    requires DistinctSpots(SameDimension(ws, dim))
    ensures var r := SyncAll(W, current, dim, ws, modIdx).sets;
      |r| == |W| && SyncAll(r, current, dim, ws, modIdx) == Outcome(r, false)
  {
    SyncAllConverges(W, current, dim, ws, modIdx);
    SyncAllInSync(SyncAll(W, current, dim, ws, modIdx).sets, current, dim, ws, modIdx);
  }

  /** Records of another dimension have no effect on a pass, wherever they
      stand in the list. */
  lemma {:induction false} SyncAllIgnoresOtherDimensions(W: Sets, current: nat, dim: string, a: seq<Waystone>, o: Waystone, b: seq<Waystone>, modIdx: int)
    requires current < |W| && ValidIdx(modIdx) && IndexedIn(a + b, dim) && o.dimension != dim
    ensures IndexedIn(a + [o] + b, dim)
    ensures SyncAll(W, current, dim, a + [o] + b, modIdx) == SyncAll(W, current, dim, a + b, modIdx)
  {
    assert forall w <- a + [o] + b :: w == o || w in a + b;
    SameDimensionAppend(a + [o], b, dim);
    SameDimensionAppend(a, [o], dim);
    SameDimensionAppend(a, b, dim);
    assert SameDimension([o], dim) == [] + SameDimension([o][1..], dim);
    assert SameDimension(a, dim) + [] == SameDimension(a, dim);
  }

  // -----------------------------------------------------------------------
  // syncWaystone and removeWaystone

  /** The world holds a waypoint tagged `sym` at the record's coordinates. */
  ghost predicate HasMatch(W: Sets, sym: string, w: Waystone) {
    exists l :: ValidLoc(W, l) && At(W, l).symbol == sym && Matches(At(W, l), w)
  }

  /** findExistingFor finds something exactly when such a waypoint exists. */
  lemma {:induction false} FindMatchOwned(W: Sets, sym: string, w: Waystone)
    ensures FindMatch(W, OwnedLocs(W, sym), w).Some? <==> HasMatch(W, sym, w)
  {
    var E := OwnedLocs(W, sym);
    if HasMatch(W, sym, w) {
      var l :| ValidLoc(W, l) && At(W, l).symbol == sym && Matches(At(W, l), w);
      assert l in E;
      var i :| 0 <= i < |E| && E[i] == l;
    }
  }

  /** syncWaystone is an upsert: outside the current dimension nothing
      happens; otherwise the record's waypoint is among the provider's
      afterwards, added when no provider waypoint stood at its spot and
      otherwise replacing one that did, waypoints without the tag are left
      alone, and the world is saved exactly when it changed. */
  lemma {:induction false} SyncOneUpserts(W: Sets, current: nat, dim: string, w: Waystone)
    requires current < |W| && (w.dimension == dim ==> ValidIdx(w.modIdx))
    ensures var r := SyncOne(W, current, dim, w);
      && |r.sets| == |W|
      && (r.saved <==> r.sets != W)
      && (w.dimension != dim ==> r.sets == W)
      && (w.dimension == dim ==>
            var sym := Symbol(w.modIdx);
            var before := multiset(Owned(W, sym));
            var after := multiset(Owned(r.sets, sym));
            && ToWaypoint(w) in after
            && (forall s :: 0 <= s < |W| ==> Untagged(r.sets[s], sym) == Untagged(W[s], sym))
            && (!HasMatch(W, sym, w) ==> after == before + multiset{ToWaypoint(w)})
            && (HasMatch(W, sym, w) ==>
                  && |after| == |before|
                  && |before - after| <= 1
                  && forall v <- before - after :: Matches(v, w)))
  {
    if w.dimension == dim {
      var sym := Symbol(w.modIdx);
      var E := OwnedLocs(W, sym);
      var u := ToWaypoint(w);
      FindMatchOwned(W, sym, w);
      match FindMatch(W, E, w)
      case None =>
        OwnedAppendOne(W, current, u, sym);
        assert |AppendTo(W, current, [u])[current]| != |W[current]|;
      case Some(k) =>
        var wp := At(W, E[k]);
        assert E[k] in E;
        MatchedBecomesRecord(wp, w);
        RefreshSpec(wp, w);
        OwnedPutOne(W, E[k], u, sym);
        PutSame(W, E[k]);
        SwapOne(multiset(Owned(Put(W, E[k], u), sym)), multiset(Owned(W, sym)), wp, u);
    }
  }

  /** Replacing one element `x` of a multiset by `y` takes at most `x` out. */
  lemma {:induction false} SwapOne<T>(a: multiset<T>, b: multiset<T>, x: T, y: T)
    requires a + multiset{x} == b + multiset{y}
    ensures |a| == |b| && |b - a| <= 1 && forall v <- b - a :: v == x
  {
    assert |a + multiset{x}| == |a| + 1 && |b + multiset{y}| == |b| + 1;
    forall e ensures (b - a)[e] == (if x == y then multiset{} else multiset{x})[e] {
      assert (a + multiset{x})[e] == (b + multiset{y})[e];
    }
    assert b - a == (if x == y then multiset{} else multiset{x});
  }

  /** Syncing the same record twice: the second call changes nothing and
      does not save. */
  lemma {:induction false} SyncOneIdempotent(W: Sets, current: nat, dim: string, w: Waystone)
    requires current < |W| && (w.dimension == dim ==> ValidIdx(w.modIdx))
    ensures var r := SyncOne(W, current, dim, w).sets;
      |r| == |W| && SyncOne(r, current, dim, w) == Outcome(r, false)
  {
    if w.dimension == dim {
      var sym := Symbol(w.modIdx);
      var E := OwnedLocs(W, sym);
      var u := ToWaypoint(w);
      match FindMatch(W, E, w)
      case None =>
        SyncOneAddedIsFound(W, current, w);
      case Some(k) =>
        var l := E[k];
        assert l in E;
        var wp := At(W, l);
        if NeedsUpdate(wp, w) {
          MatchedBecomesRecord(wp, w);
          SyncOneUpdatedIsFound(W, w, k);
        }
    }
  }

  /** After an add, the record finds the waypoint just added. */
  lemma {:induction false} SyncOneAddedIsFound(W: Sets, current: nat, w: Waystone)
    requires current < |W| && ValidIdx(w.modIdx)
    requires FindMatch(W, OwnedLocs(W, Symbol(w.modIdx)), w).None?
    ensures var V := AppendTo(W, current, [ToWaypoint(w)]);
      var E := OwnedLocs(V, Symbol(w.modIdx));
      && FindMatch(V, E, w).Some?
      && At(V, E[FindMatch(V, E, w).value]) == ToWaypoint(w)
  {
    var sym := Symbol(w.modIdx);
    var u := ToWaypoint(w);
    var V := AppendTo(W, current, [u]);
    var E := OwnedLocs(V, sym);
    var newLoc := Loc(current, |W[current]|);
    assert ValidLoc(V, newLoc) && At(V, newLoc) == u;
    FindMatchOwned(V, sym, w);
    FindMatchOwned(W, sym, w);
    var m := E[FindMatch(V, E, w).value];
    assert m in E;
    OnlyAddedMatches(W, current, u, w, m);
  }

  /** Without a match before the add, the only tagged waypoint at the
      record's spot afterwards is the one added. */
  lemma {:induction false} OnlyAddedMatches(W: Sets, current: nat, u: Waypoint, w: Waystone, m: Loc)
    requires current < |W| && !HasMatch(W, u.symbol, w)
    requires var V := AppendTo(W, current, [u]);
      ValidLoc(V, m) && At(V, m).symbol == u.symbol && Matches(At(V, m), w)
    ensures m == Loc(current, |W[current]|)
  {
    AppendedLoc(W, current, [u], m);
  }

  /** After an update, the record finds the same waypoint, now its own. */
  lemma {:induction false} SyncOneUpdatedIsFound(W: Sets, w: Waystone, k: nat)
    requires ValidIdx(w.modIdx)
    requires FindMatch(W, OwnedLocs(W, Symbol(w.modIdx)), w) == Some(k)
    requires NeedsUpdate(At(W, OwnedLocs(W, Symbol(w.modIdx))[k]), w)
    ensures var E := OwnedLocs(W, Symbol(w.modIdx));
      var V := Put(W, E[k], Refresh(At(W, E[k]), w));
      && OwnedLocs(V, Symbol(w.modIdx)) == E
      && FindMatch(V, E, w) == Some(k)
      && !NeedsUpdate(At(V, E[k]), w)
  {
    var sym := Symbol(w.modIdx);
    var E := OwnedLocs(W, sym);
    var l := E[k];
    assert l in E;
    var v := Refresh(At(W, l), w);
    var V := Put(W, l, v);
    assert v.symbol == sym && Matches(v, w) && !NeedsUpdate(v, w) by {
      RefreshSpec(At(W, l), w);
    }
    assert OwnedLocs(V, sym) == E by {
      OwnedLocsSameTags(V, W, sym);
    }
    assert FindMatch(V, E, w) == FindMatch(W, E, w) by {
      assert forall m <- E :: ValidLoc(W, m);
      assert Matches(At(W, l), w);
      FindMatchPut(W, E, l, v, w);
    }
  }

  /** Removing one tagged waypoint takes exactly it out of the provider's
      waypoints and leaves every untagged waypoint where it was. */
  lemma {:induction false} RemoveTaggedLoc(W: Sets, l: Loc, sym: string)
    requires ValidLoc(W, l) && At(W, l).symbol == sym
    ensures var r := RemoveLocs(W, {l});
      && multiset(Owned(r, sym)) <= multiset(Owned(W, sym))
      && multiset(Owned(W, sym)) - multiset(Owned(r, sym)) == multiset{At(W, l)}
      && forall s :: 0 <= s < |W| ==> Untagged(r[s], sym) == Untagged(W[s], sym)
  {
    var r := RemoveLocs(W, {l});
    var before, after := multiset(Owned(W, sym)), multiset(Owned(r, sym));
    assert before == after + multiset{At(W, l)} by {
      assert {l} - {l} == {};
      ReleaseLoc(W, {l}, l, sym);
      RemoveLocsEmpty(W);
    }
    MultisetLessOne(before, after, At(W, l));
    forall s | 0 <= s < |W| ensures Untagged(r[s], sym) == Untagged(W[s], sym) {
      KeptInOnlyTagged(W[s], s, {l}, sym);
    }
  }

  lemma {:induction false} MultisetLessOne<T>(a: multiset<T>, b: multiset<T>, x: T)
    requires a == b + multiset{x}
    ensures b <= a && a - b == multiset{x}
  {
    forall e ensures (a - b)[e] == multiset{x}[e] {
    }
  }

  /** removeWaystone: outside the current dimension nothing happens;
      otherwise it removes one provider waypoint at the record's spot when
      there is one, and saves exactly then; nothing else changes. */
  lemma {:induction false} RemoveOneSpec(W: Sets, dim: string, w: Waystone)
    requires w.dimension == dim ==> ValidIdx(w.modIdx)
    ensures var r := RemoveOne(W, dim, w);
      && |r.sets| == |W|
      && (!r.saved ==> r.sets == W)
      && (w.dimension != dim ==> !r.saved)
      && (w.dimension == dim ==>
            var sym := Symbol(w.modIdx);
            var before := multiset(Owned(W, sym));
            var after := multiset(Owned(r.sets, sym));
            && (r.saved <==> HasMatch(W, sym, w))
            && (forall s :: 0 <= s < |W| ==> Untagged(r.sets[s], sym) == Untagged(W[s], sym))
            && after <= before
            && |before - after| == (if r.saved then 1 else 0)
            && forall v <- before - after :: Matches(v, w))
  {
    if w.dimension == dim {
      var sym := Symbol(w.modIdx);
      var E := OwnedLocs(W, sym);
      FindMatchOwned(W, sym, w);
      match FindMatch(W, E, w)
      case None =>
      case Some(k) =>
        assert E[k] in E;
        RemoveTaggedLoc(W, E[k], sym);
    }
  }

  /** removeAllWaystones: each set keeps exactly its waypoints without the
      provider's tag, in order, and the world is saved exactly when the
      provider had a waypoint in it. */
  lemma {:induction false} RemoveAllSpec(W: Sets, modIdx: int)
    requires ValidIdx(modIdx)
    ensures var r := RemoveAll(W, modIdx);
      && |r.sets| == |W|
      && (forall s :: 0 <= s < |W| ==> r.sets[s] == Untagged(W[s], Symbol(modIdx)))
      && (r.saved <==> Owned(W, Symbol(modIdx)) != [])
  {
    var sym := Symbol(modIdx);
    var X := ToSet(OwnedLocs(W, sym));
    forall s | 0 <= s < |W| ensures RemoveLocs(W, X)[s] == Untagged(W[s], sym) {
      forall q | 0 <= q < |W[s]| ensures (Loc(s, q) in X <==> W[s][q].symbol == sym) {
        assert ValidLoc(W, Loc(s, q));
      }
      KeptInExactlyTagged(W[s], s, X, sym);
    }
    OwnedLocsCount(W, sym);
  }
}
