/** The waypoint sets of the current world, and the views of them the
    reconciliation reads: the waypoints carrying one provider's tag
    (allWay2way, allModWaypoints) and the removal of a batch of waypoints
    (WaypointContext.remove). */
module WaypointSets {
  import opened Waystones

  /** A WaypointContext: the index of a set in the world's set sequence and a
      position in that set's list. */
  datatype Loc = Loc(setIdx: nat, pos: nat)

  /** The lists of the world's waypoint sets, in the order the world holds them. */
  type Sets = seq<seq<Waypoint>>

  predicate ValidLoc(W: Sets, l: Loc) {
    l.setIdx < |W| && l.pos < |W[l.setIdx]|
  }

  function At(W: Sets, l: Loc): Waypoint
    requires ValidLoc(W, l)
  {
    W[l.setIdx][l.pos]
  }

  /** Same number of sets, and the same length for each. */
  predicate SameShape(A: Sets, B: Sets) {
    |A| == |B| && forall s :: 0 <= s < |A| ==> |A[s]| == |B[s]|
  }

  /** The world after the waypoint at `l` is overwritten with `v`. */
  function Put(W: Sets, l: Loc, v: Waypoint): (r: Sets)
    requires ValidLoc(W, l)
    ensures SameShape(r, W) && ValidLoc(r, l) && At(r, l) == v
    ensures forall m :: ValidLoc(W, m) && m != l ==> At(r, m) == At(W, m)
  {
    W[l.setIdx := W[l.setIdx][l.pos := v]]
  }

  /** The world after `ws` is added, in order, to the end of set `c`. */
  function AppendTo(W: Sets, c: nat, ws: seq<Waypoint>): Sets
    requires c < |W|
  {
    W[c := W[c] + ws]
  }

  /** allWay2way: the waypoints of one list carrying tag `sym`, in order. */
  function Tagged(list: seq<Waypoint>, sym: string): (r: seq<Waypoint>)
    decreases |list|
  {
    if list == [] then []
    else Tagged(list[..|list| - 1], sym) + (if list[|list| - 1].symbol == sym then [list[|list| - 1]] else [])
  }

  /** The waypoints of one list not carrying tag `sym`, in order. */
  function Untagged(list: seq<Waypoint>, sym: string): seq<Waypoint>
    decreases |list|
  {
    if list == [] then []
    else Untagged(list[..|list| - 1], sym) + (if list[|list| - 1].symbol != sym then [list[|list| - 1]] else [])
  }

  /** The positions of set `s` holding a waypoint tagged `sym`, in list order,
      paired with the waypoints `Tagged` lists. */
  function TaggedLocsIn(list: seq<Waypoint>, s: nat, sym: string): (r: seq<Loc>)
    ensures forall l :: l in r <==> l.setIdx == s && l.pos < |list| && list[l.pos].symbol == sym
    ensures forall i, j :: 0 <= i < j < |r| ==> r[i].pos < r[j].pos
    ensures |r| == |Tagged(list, sym)|
    ensures forall i :: 0 <= i < |r| ==> r[i].pos < |list| && list[r[i].pos] == Tagged(list, sym)[i]
    decreases |list|
  {
    if list == [] then []
    else
      var n := |list| - 1;
      var front := TaggedLocsIn(list[..n], s, sym);
      TaggedLocsSnoc(list, s, sym, front);
      TaggedLocsSnocValues(list, s, sym, front);
      front + (if list[n].symbol == sym then [Loc(s, n)] else [])
  }

  /** The inductive step of TaggedLocsIn: the locations found in all but
      the last waypoint, extended by the last one when it is tagged, are the
      tagged positions of the whole list, in increasing order. */
  lemma TaggedLocsSnoc(list: seq<Waypoint>, s: nat, sym: string, front: seq<Loc>)
    requires list != []
    requires forall l :: l in front <==> l.setIdx == s && l.pos < |list| - 1 && list[..|list| - 1][l.pos].symbol == sym
    requires forall i, j :: 0 <= i < j < |front| ==> front[i].pos < front[j].pos
    ensures var r := front + (if list[|list| - 1].symbol == sym then [Loc(s, |list| - 1)] else []);
      && (forall l :: l in r <==> l.setIdx == s && l.pos < |list| && list[l.pos].symbol == sym)
      && (forall i, j :: 0 <= i < j < |r| ==> r[i].pos < r[j].pos)
  {
    var n := |list| - 1;
    var back := if list[n].symbol == sym then [Loc(s, n)] else [];
    var r := front + back;
    forall l ensures l in r <==> l.setIdx == s && l.pos < |list| && list[l.pos].symbol == sym {
      assert l in r <==> l in front || l in back;
      if l.pos < n {
        assert list[..n][l.pos] == list[l.pos];
        assert l !in back;
      } else {
        assert l !in front;
      }
    }
    forall i, j | 0 <= i < j < |r| ensures r[i].pos < r[j].pos {
      if j >= |front| {
        assert r[i] == front[i] && front[i] in front;
      }
    }
  }

  /** The same step lines the locations up with Tagged's waypoints. */
  lemma TaggedLocsSnocValues(list: seq<Waypoint>, s: nat, sym: string, front: seq<Loc>)
    requires list != []
    requires |front| == |Tagged(list[..|list| - 1], sym)|
    requires forall i :: 0 <= i < |front| ==> front[i].pos < |list| - 1 && list[..|list| - 1][front[i].pos] == Tagged(list[..|list| - 1], sym)[i]
    ensures var r := front + (if list[|list| - 1].symbol == sym then [Loc(s, |list| - 1)] else []);
      && |r| == |Tagged(list, sym)|
      && (forall i :: 0 <= i < |r| ==> r[i].pos < |list| && list[r[i].pos] == Tagged(list, sym)[i])
  {
    var n := |list| - 1;
    var r := front + (if list[n].symbol == sym then [Loc(s, n)] else []);
    var T := Tagged(list[..n], sym);
    assert Tagged(list, sym) == T + (if list[n].symbol == sym then [list[n]] else []);
    forall i | 0 <= i < |r| ensures r[i].pos < |list| && list[r[i].pos] == Tagged(list, sym)[i] {
      if i < |front| {
        assert r[i] == front[i] && Tagged(list, sym)[i] == T[i];
        assert list[..n][front[i].pos] == list[front[i].pos];
      } else {
        assert r[i] == Loc(s, n) && Tagged(list, sym)[i] == list[n];
      }
    }
  }

  /** allModWaypoints: every waypoint of the world tagged `sym`, set by set. */
  function OwnedLocs(W: Sets, sym: string): (r: seq<Loc>)
    ensures forall l :: l in r <==> ValidLoc(W, l) && At(W, l).symbol == sym
    ensures NoDup(r)
    decreases |W|
  {
    if W == [] then []
    else
      var n := |W| - 1;
      var front := OwnedLocs(W[..n], sym);
      var back := TaggedLocsIn(W[n], n, sym);
      assert forall l :: l in front ==> l.setIdx < n;
      assert forall i, j :: 0 <= i < |front| && 0 <= j < |back| ==> front[i] != back[j] by {
        forall i, j | 0 <= i < |front| && 0 <= j < |back| ensures front[i] != back[j] {
          assert front[i] in front && back[j] in back;
        }
      }
      front + back
  }

  /** Taking the `k`-th entry out of a list leaves entries of the list. */
  lemma {:induction false} DropAt(E: seq<Loc>, k: nat)
    requires k < |E|
    ensures forall m <- E[..k] + E[k + 1..] :: m in E
  {
    forall m | m in E[..k] + E[k + 1..] ensures m in E {
      assert m in E[..k] || m in E[k + 1..];
    }
  }

  predicate NoDup(E: seq<Loc>) {
    forall i, j :: 0 <= i < j < |E| ==> E[i] != E[j]
  }

  /** The waypoints allModWaypoints visits, set by set. */
  function Owned(W: Sets, sym: string): seq<Waypoint>
    decreases |W|
  {
    if W == [] then [] else Owned(W[..|W| - 1], sym) + Tagged(W[|W| - 1], sym)
  }

  /** Set `s`'s list without the positions named in `X`. */
  function KeptIn(list: seq<Waypoint>, s: nat, X: set<Loc>): seq<Waypoint>
    decreases |list|
  {
    if list == [] then []
    else KeptIn(list[..|list| - 1], s, X) + (if Loc(s, |list| - 1) in X then [] else [list[|list| - 1]])
  }

  /** The world after each waypoint at a location of `X` is removed from its
      own set. */
  function RemoveLocs(W: Sets, X: set<Loc>): (r: Sets)
    ensures |r| == |W| && forall s :: 0 <= s < |W| ==> r[s] == KeptIn(W[s], s, X)
  {
    seq(|W|, s requires 0 <= s < |W| => KeptIn(W[s], s, X))
  }

  function ToSet(E: seq<Loc>): set<Loc> {
    set l | l in E
  }

  // ---------------------------------------------------------------------
  // Lemmas about one list

  lemma TaggedAppend(a: seq<Waypoint>, b: seq<Waypoint>, sym: string)
    ensures Tagged(a + b, sym) == Tagged(a, sym) + Tagged(b, sym)
    ensures Untagged(a + b, sym) == Untagged(a, sym) + Untagged(b, sym)
  {
    TaggedOnlyAppend(a, b, sym);
    UntaggedAppend(a, b, sym);
  }

  lemma {:induction false} TaggedOnlyAppend(a: seq<Waypoint>, b: seq<Waypoint>, sym: string)
    ensures Tagged(a + b, sym) == Tagged(a, sym) + Tagged(b, sym)
    decreases |b|
  {
    if b == [] {
      assert a + b == a;
    } else {
      var n := |b| - 1;
      assert (a + b)[..|a + b| - 1] == a + b[..n] && (a + b)[|a + b| - 1] == b[n];
      TaggedOnlyAppend(a, b[..n], sym);
    }
  }

  lemma {:induction false} UntaggedAppend(a: seq<Waypoint>, b: seq<Waypoint>, sym: string)
    ensures Untagged(a + b, sym) == Untagged(a, sym) + Untagged(b, sym)
    decreases |b|
  {
    if b == [] {
      assert a + b == a;
    } else {
      var n := |b| - 1;
      assert (a + b)[..|a + b| - 1] == a + b[..n] && (a + b)[|a + b| - 1] == b[n];
      UntaggedAppend(a, b[..n], sym);
    }
  }

  /** allWay2way and its complement split a list: every waypoint lands in
      exactly one of them, according to whether it carries the tag. */
  lemma TaggedPartition(list: seq<Waypoint>, sym: string)
    ensures forall w <- Tagged(list, sym) :: w in list && w.symbol == sym
    ensures forall w <- Untagged(list, sym) :: w in list && w.symbol != sym
    ensures multiset(Tagged(list, sym)) + multiset(Untagged(list, sym)) == multiset(list)
  {
    TaggedSplits(list, sym);
    TaggedSymbols(list, sym);
    PartsOfSum(Tagged(list, sym), Untagged(list, sym), list);
  }

  /** Two sequences that together count the elements of a third draw from it. */
  lemma PartsOfSum<T>(a: seq<T>, b: seq<T>, c: seq<T>)
    requires multiset(a) + multiset(b) == multiset(c)
    ensures (forall x <- a :: x in c) && forall x <- b :: x in c
  {
    forall x <- a ensures x in c {
      assert multiset(a)[x] > 0;
      assert multiset(c)[x] == multiset(a)[x] + multiset(b)[x];
      assert x in multiset(c);
    }
    forall x <- b ensures x in c {
      assert multiset(b)[x] > 0;
      assert multiset(c)[x] == multiset(a)[x] + multiset(b)[x];
      assert x in multiset(c);
    }
  }

  lemma {:induction false} TaggedSplits(list: seq<Waypoint>, sym: string)
    ensures multiset(Tagged(list, sym)) + multiset(Untagged(list, sym)) == multiset(list)
    decreases |list|
  {
    if list != [] {
      var n := |list| - 1;
      TaggedSplits(list[..n], sym);
      assert list == list[..n] + [list[n]];
    }
  }

  lemma {:induction false} TaggedSymbols(list: seq<Waypoint>, sym: string)
    ensures forall w <- Tagged(list, sym) :: w.symbol == sym
    ensures forall w <- Untagged(list, sym) :: w.symbol != sym
    decreases |list|
  {
    if list != [] {
      TaggedSymbols(list[..|list| - 1], sym);
    }
  }

  lemma {:induction false} KeptInIgnores(list: seq<Waypoint>, s: nat, X: set<Loc>, Y: set<Loc>)
    requires forall q :: 0 <= q < |list| ==> (Loc(s, q) in X <==> Loc(s, q) in Y)
    ensures KeptIn(list, s, X) == KeptIn(list, s, Y)
    decreases |list|
  {
    if list != [] {
      KeptInIgnores(list[..|list| - 1], s, X, Y);
    }
  }

  lemma {:induction false} KeptInNone(list: seq<Waypoint>, s: nat, X: set<Loc>)
    requires forall q :: 0 <= q < |list| ==> Loc(s, q) !in X
    ensures KeptIn(list, s, X) == list
    decreases |list|
  {
    if list != [] {
      KeptInNone(list[..|list| - 1], s, X);
    }
  }

  lemma {:induction false} KeptInPut(list: seq<Waypoint>, s: nat, X: set<Loc>, p: nat, v: Waypoint)
    requires p < |list| && Loc(s, p) in X
    ensures KeptIn(list[p := v], s, X) == KeptIn(list, s, X)
    decreases |list|
  {
    var n := |list| - 1;
    if p < n {
      assert list[p := v][..n] == list[..n][p := v];
      KeptInPut(list[..n], s, X, p, v);
    } else {
      assert list[p := v][..n] == list[..n];
    }
  }

  lemma {:induction false} KeptInAppend(list: seq<Waypoint>, ws: seq<Waypoint>, s: nat, X: set<Loc>)
    requires forall l :: l in X && l.setIdx == s ==> l.pos < |list|
    ensures KeptIn(list + ws, s, X) == KeptIn(list, s, X) + ws
    decreases |ws|
  {
    if ws == [] {
      assert list + ws == list;
    } else {
      var n := |ws| - 1;
      assert (list + ws)[..|list + ws| - 1] == list + ws[..n];
      KeptInAppend(list, ws[..n], s, X);
    }
  }

  lemma {:induction false} TaggedSnoc(a: seq<Waypoint>, x: Waypoint, sym: string)
    ensures Tagged(a + [x], sym) == Tagged(a, sym) + (if x.symbol == sym then [x] else [])
  {
    assert (a + [x])[..|a|] == a;
  }

  lemma {:induction false} KeptInSnoc(list: seq<Waypoint>, s: nat, X: set<Loc>)
    requires list != []
    ensures KeptIn(list, s, X)
         == KeptIn(list[..|list| - 1], s, X) + (if Loc(s, |list| - 1) in X then [] else [list[|list| - 1]])
  {
  }

  lemma {:induction false} MultisetShift<T>(A: seq<T>, B: seq<T>, tail: seq<T>, e: multiset<T>)
    requires multiset(A) == multiset(B) + e
    ensures multiset(A + tail) == multiset(B + tail) + e
  {
  }

  lemma {:induction false} MultisetCancel<T>(A: multiset<T>, B: multiset<T>, t: multiset<T>, u: multiset<T>)
    requires A + t == B + (t + u)
    ensures A == B + u
  {
    forall x ensures A[x] == (B + u)[x] {
      assert (A + t)[x] == (B + (t + u))[x];
    }
  }

  lemma {:induction false} MultisetAddBoth<T>(a: multiset<T>, x: multiset<T>, b: multiset<T>, y: multiset<T>, t: multiset<T>)
    requires a + x == b + y
    ensures a + t + x == b + t + y
  {
    forall e ensures (a + t + x)[e] == (b + t + y)[e] {
      assert (a + x)[e] == (b + y)[e];
    }
  }

  lemma {:induction false} MultisetSwap<T>(o: seq<T>, p: seq<T>, q: seq<T>)
    ensures multiset(o + p) + multiset(q) == multiset(o + q) + multiset(p)
  {
  }

  /** Releasing one removed position of set `s` brings back exactly the
      waypoint at it into that set's tagged view. */
  lemma {:induction false} KeptInRelease(list: seq<Waypoint>, s: nat, X: set<Loc>, p: nat, sym: string)
    requires p < |list| && Loc(s, p) in X
    ensures multiset(Tagged(KeptIn(list, s, X - {Loc(s, p)}), sym))
         == multiset(Tagged(KeptIn(list, s, X), sym))
            + (if list[p].symbol == sym then multiset{list[p]} else multiset{})
    decreases |list|
  {
    var n := |list| - 1;
    var front := list[..n];
    var Y := X - {Loc(s, p)};
    var e: multiset<Waypoint> := if list[p].symbol == sym then multiset{list[p]} else multiset{};
    var kY, kX := KeptIn(front, s, Y), KeptIn(front, s, X);
    var tailY := if Loc(s, n) in Y then [] else [list[n]];
    var tailX := if Loc(s, n) in X then [] else [list[n]];
    assert KeptIn(list, s, Y) == kY + tailY && KeptIn(list, s, X) == kX + tailX by {
      KeptInSnoc(list, s, X);
      KeptInSnoc(list, s, Y);
    }
    if p == n {
      assert kY == kX by {
        KeptInIgnores(front, s, X, Y);
      }
      assert tailY == [list[n]] && tailX == [];
      assert multiset(Tagged(kX + tailY, sym)) == multiset(Tagged(kX + tailX, sym)) + e by {
        TaggedSnoc(kX, list[n], sym);
        assert kX + [] == kX;
      }
    } else {
      assert tailY == tailX;
      assert multiset(Tagged(kY, sym)) == multiset(Tagged(kX, sym)) + e by {
        KeptInRelease(front, s, X, p, sym);
        assert front[p] == list[p];
      }
      assert Tagged(kY + tailX, sym) == Tagged(kY, sym) + Tagged(tailX, sym) by {
        TaggedAppend(kY, tailX, sym);
      }
      assert Tagged(kX + tailX, sym) == Tagged(kX, sym) + Tagged(tailX, sym) by {
        TaggedAppend(kX, tailX, sym);
      }
      MultisetShift(Tagged(kY, sym), Tagged(kX, sym), Tagged(tailX, sym), e);
    }
  }

  lemma {:induction false} KeptInNoneTagged(list: seq<Waypoint>, s: nat, X: set<Loc>, sym: string)
    requires forall q :: 0 <= q < |list| && list[q].symbol == sym ==> Loc(s, q) in X
    ensures Tagged(KeptIn(list, s, X), sym) == []
    decreases |list|
  {
    if list != [] {
      var n := |list| - 1;
      KeptInNoneTagged(list[..n], s, X, sym);
      var tail := if Loc(s, n) in X then [] else [list[n]];
      TaggedAppend(KeptIn(list[..n], s, X), tail, sym);
    }
  }

  lemma {:induction false} KeptInOnlyTagged(list: seq<Waypoint>, s: nat, X: set<Loc>, sym: string)
    requires forall q :: 0 <= q < |list| && Loc(s, q) in X ==> list[q].symbol == sym
    ensures Untagged(KeptIn(list, s, X), sym) == Untagged(list, sym)
    decreases |list|
  {
    if list != [] {
      var n := |list| - 1;
      KeptInOnlyTagged(list[..n], s, X, sym);
      var tail := if Loc(s, n) in X then [] else [list[n]];
      TaggedAppend(KeptIn(list[..n], s, X), tail, sym);
    }
  }

  /** Removing exactly the tagged positions leaves the untagged waypoints. */
  lemma {:induction false} KeptInExactlyTagged(list: seq<Waypoint>, s: nat, X: set<Loc>, sym: string)
    requires forall q :: 0 <= q < |list| ==> (Loc(s, q) in X <==> list[q].symbol == sym)
    ensures KeptIn(list, s, X) == Untagged(list, sym)
    decreases |list|
  {
    if list != [] {
      KeptInExactlyTagged(list[..|list| - 1], s, X, sym);
    }
  }

  lemma {:induction false} UntaggedPut(list: seq<Waypoint>, p: nat, v: Waypoint, sym: string)
    requires p < |list| && list[p].symbol == sym && v.symbol == sym
    ensures Untagged(list[p := v], sym) == Untagged(list, sym)
    decreases |list|
  {
    var n := |list| - 1;
    if p < n {
      assert list[p := v][..n] == list[..n][p := v];
      UntaggedPut(list[..n], p, v, sym);
    } else {
      assert list[p := v][..n] == list[..n];
    }
  }

  // ---------------------------------------------------------------------
  // Lemmas about the whole world

  lemma {:induction false} RemoveLocsEmpty(W: Sets)
    ensures RemoveLocs(W, {}) == W
  {
    forall s | 0 <= s < |W| ensures RemoveLocs(W, {})[s] == W[s] {
      KeptInNone(W[s], s, {});
    }
  }

  /** Overwriting a waypoint that is being removed anyway makes no difference. */
  lemma {:induction false} RemoveLocsPut(W: Sets, l: Loc, v: Waypoint, X: set<Loc>)
    requires ValidLoc(W, l) && l in X
    ensures RemoveLocs(Put(W, l, v), X) == RemoveLocs(W, X)
  {
    var s := l.setIdx;
    KeptInPut(W[s], s, X, l.pos, v);
    assert RemoveLocs(Put(W, l, v), X)[s] == RemoveLocs(W, X)[s];
  }

  /** Additions at the end of a set are untouched by a removal that names
      only locations that existed before them. */
  lemma {:induction false} RemoveLocsAppend(W: Sets, c: nat, ws: seq<Waypoint>, X: set<Loc>)
    requires c < |W| && forall l :: l in X ==> ValidLoc(W, l)
    ensures RemoveLocs(AppendTo(W, c, ws), X) == AppendTo(RemoveLocs(W, X), c, ws)
  {
    KeptInAppend(W[c], ws, c, X);
  }

  lemma {:induction false} OwnedSnoc(W: Sets, sym: string)
    requires W != []
    ensures Owned(W, sym) == Owned(W[..|W| - 1], sym) + Tagged(W[|W| - 1], sym)
  {
  }

  /** Replacing one set's list changes the tagged view by that list only. */
  lemma {:induction false} OwnedReplace(W: Sets, s: nat, list: seq<Waypoint>, sym: string)
    requires s < |W|
    ensures multiset(Owned(W[s := list], sym)) + multiset(Tagged(W[s], sym))
         == multiset(Owned(W, sym)) + multiset(Tagged(list, sym))
    decreases |W|
  {
    var n := |W| - 1;
    var V := W[s := list];
    OwnedSnoc(V, sym);
    OwnedSnoc(W, sym);
    if s == n {
      assert V[..n] == W[..n];
      MultisetSwap(Owned(W[..n], sym), Tagged(list, sym), Tagged(W[n], sym));
    } else {
      assert V[..n] == W[..n][s := list];
      assert V[n] == W[n];
      OwnedReplace(W[..n], s, list, sym);
      assert W[..n][s] == W[s];
      MultisetAddBoth(multiset(Owned(V[..n], sym)), multiset(Tagged(W[s], sym)),
                      multiset(Owned(W[..n], sym)), multiset(Tagged(list, sym)),
                      multiset(Tagged(W[n], sym)));
    }
  }

  lemma {:induction false} OwnedAppendTo(W: Sets, c: nat, ws: seq<Waypoint>, sym: string)
    requires c < |W|
    ensures multiset(Owned(AppendTo(W, c, ws), sym)) == multiset(Owned(W, sym)) + multiset(Tagged(ws, sym))
  {
    OwnedReplace(W, c, W[c] + ws, sym);
    TaggedAppend(W[c], ws, sym);
    MultisetCancel(multiset(Owned(AppendTo(W, c, ws), sym)), multiset(Owned(W, sym)),
                   multiset(Tagged(W[c], sym)), multiset(Tagged(ws, sym)));
  }

  /** Releasing one removed location brings back exactly its waypoint into the
      world's tagged view. */
  lemma {:induction false} ReleaseLoc(W: Sets, X: set<Loc>, l: Loc, sym: string)
    requires ValidLoc(W, l) && l in X
    ensures multiset(Owned(RemoveLocs(W, X - {l}), sym))
         == multiset(Owned(RemoveLocs(W, X), sym))
            + (if At(W, l).symbol == sym then multiset{At(W, l)} else multiset{})
  {
    var s := l.setIdx;
    var V := RemoveLocs(W, X);
    var V' := RemoveLocs(W, X - {l});
    var K' := KeptIn(W[s], s, X - {l});
    forall t | 0 <= t < |W| && t != s ensures V'[t] == V[t] {
      KeptInIgnores(W[t], t, X - {l}, X);
    }
    assert V' == V[s := K'];
    OwnedReplace(V, s, K', sym);
    assert l == Loc(s, l.pos);
    KeptInRelease(W[s], s, X, l.pos, sym);
    MultisetCancel(multiset(Owned(V', sym)), multiset(Owned(V, sym)), multiset(Tagged(V[s], sym)),
                   if At(W, l).symbol == sym then multiset{At(W, l)} else multiset{});
  }

  lemma {:induction false} OwnedNone(V: Sets, sym: string)
    requires forall s :: 0 <= s < |V| ==> Tagged(V[s], sym) == []
    ensures Owned(V, sym) == []
    decreases |V|
  {
    if V != [] {
      OwnedNone(V[..|V| - 1], sym);
    }
  }

  /** Removing every tagged location leaves no tagged waypoint. */
  lemma {:induction false} RemoveAllTagged(W: Sets, X: set<Loc>, sym: string)
    requires forall l :: ValidLoc(W, l) && At(W, l).symbol == sym ==> l in X
    ensures Owned(RemoveLocs(W, X), sym) == []
  {
    forall s | 0 <= s < |W| ensures Tagged(RemoveLocs(W, X)[s], sym) == [] {
      assert forall q :: 0 <= q < |W[s]| && W[s][q].symbol == sym ==> ValidLoc(W, Loc(s, q));
      KeptInNoneTagged(W[s], s, X, sym);
    }
    OwnedNone(RemoveLocs(W, X), sym);
  }

  /** A list whose every waypoint carries `sym` is its own tagged view. */
  lemma {:induction false} AllTagged(list: seq<Waypoint>, sym: string)
    requires forall x <- list :: x.symbol == sym
    ensures Tagged(list, sym) == list && Untagged(list, sym) == []
    decreases |list|
  {
    if list != [] {
      AllTagged(list[..|list| - 1], sym);
    }
  }

  lemma {:induction false} MultisetCancelOne<T>(a: multiset<T>, b: multiset<T>, x: T)
    requires a + multiset{x} == b + multiset{x}
    ensures a == b
  {
    forall e ensures a[e] == b[e] {
      assert (a + multiset{x})[e] == (b + multiset{x})[e];
    }
  }

  lemma {:induction false} PutSame(W: Sets, l: Loc)
    requires ValidLoc(W, l)
    ensures Put(W, l, At(W, l)) == W
  {
    assert W[l.setIdx][l.pos := At(W, l)] == W[l.setIdx];
  }

  /** `S` is `W0` with only waypoints tagged `sym` rewritten, each to a
      waypoint that still carries the tag. */
  ghost predicate OnlyTaggedChanged(S: Sets, W0: Sets, sym: string) {
    && SameShape(S, W0)
    && forall l :: ValidLoc(W0, l) ==>
         && (At(S, l).symbol == sym <==> At(W0, l).symbol == sym)
         && (At(W0, l).symbol != sym ==> At(S, l) == At(W0, l))
  }

  lemma {:induction false} UntaggedSame(a: seq<Waypoint>, b: seq<Waypoint>, sym: string)
    requires |a| == |b|
    requires forall i :: 0 <= i < |a| ==> (a[i].symbol == sym <==> b[i].symbol == sym)
    requires forall i :: 0 <= i < |a| && a[i].symbol != sym ==> a[i] == b[i]
    ensures Untagged(a, sym) == Untagged(b, sym)
    decreases |a|
  {
    if a != [] {
      UntaggedSame(a[..|a| - 1], b[..|b| - 1], sym);
    }
  }

  /** Rewriting tagged waypoints only leaves every set's untagged waypoints
      as they were. */
  lemma {:induction false} OnlyTaggedChangedUntagged(S: Sets, W0: Sets, sym: string, s: int)
    requires OnlyTaggedChanged(S, W0, sym) && 0 <= s < |W0|
    ensures Untagged(S[s], sym) == Untagged(W0[s], sym)
  {
    forall i | 0 <= i < |S[s]|
      ensures (S[s][i].symbol == sym <==> W0[s][i].symbol == sym)
      ensures W0[s][i].symbol != sym ==> S[s][i] == W0[s][i]
    {
      assert ValidLoc(W0, Loc(s, i));
    }
    UntaggedSame(S[s], W0[s], sym);
  }

  lemma {:induction false} OnlyTaggedChangedPut(S: Sets, W0: Sets, sym: string, l: Loc, v: Waypoint)
    requires OnlyTaggedChanged(S, W0, sym) && ValidLoc(S, l)
    requires At(S, l).symbol == sym && v.symbol == sym
    ensures OnlyTaggedChanged(Put(S, l, v), W0, sym)
  {
  }

  lemma {:induction false} OwnedLocsCount(W: Sets, sym: string)
    ensures |OwnedLocs(W, sym)| == |Owned(W, sym)|
    decreases |W|
  {
    if W != [] {
      OwnedLocsCount(W[..|W| - 1], sym);
    }
  }

  // ---------------------------------------------------------------------
  // The waypoints at a list of locations

  /** The waypoints standing at the locations of `E`, in order. */
  function Values(W: Sets, E: seq<Loc>): (r: seq<Waypoint>)
    requires forall l <- E :: ValidLoc(W, l)
    ensures |r| == |E| && forall i :: 0 <= i < |E| ==> r[i] == At(W, E[i])
  {
    seq(|E|, i requires 0 <= i < |E| => At(W, E[i]))
  }

  /** allModWaypoints visits the waypoints of `Owned`, in the same order. */
  lemma {:induction false} ValuesOwnedLocs(W: Sets, sym: string)
    ensures Values(W, OwnedLocs(W, sym)) == Owned(W, sym)
    decreases |W|
  {
    if W != [] {
      var n := |W| - 1;
      var V := W[..n];
      var front := OwnedLocs(V, sym);
      var back := TaggedLocsIn(W[n], n, sym);
      assert OwnedLocs(W, sym) == front + back;
      assert Owned(W, sym) == Owned(V, sym) + Tagged(W[n], sym);
      assert Values(W, front) == Owned(V, sym) by {
        ValuesOwnedLocs(V, sym);
        ValuesPrefixWorld(W, n, front);
      }
      assert Values(W, back) == Tagged(W[n], sym);
      ValuesAppend(W, front, back);
    }
  }

  /** Locations in the first `n` sets hold the same waypoints in the world
      cut down to those sets. */
  lemma ValuesPrefixWorld(W: Sets, n: nat, E: seq<Loc>)
    requires n <= |W| && forall l <- E :: ValidLoc(W[..n], l)
    ensures (forall l <- E :: ValidLoc(W, l)) && Values(W, E) == Values(W[..n], E)
  {
    forall i | 0 <= i < |E| ensures ValidLoc(W, E[i]) && At(W, E[i]) == At(W[..n], E[i]) {
      assert E[i] in E;
    }
  }

  /** Taking the `k`-th location out of `E` takes its waypoint out of the
      values, counted with multiplicity. */
  lemma {:induction false} ValuesRemoveAt(W: Sets, E: seq<Loc>, k: nat)
    requires (forall l <- E :: ValidLoc(W, l)) && k < |E|
    ensures forall l <- E[..k] + E[k + 1..] :: ValidLoc(W, l)
    ensures multiset(Values(W, E[..k] + E[k + 1..])) + multiset{At(W, E[k])} == multiset(Values(W, E))
  {
    var A, B := E[..k], E[k + 1..];
    var C := [E[k]] + B;
    assert E == A + C;
    var x := At(W, E[k]);
    ValuesAppend(W, A, C);
    ValuesAppend(W, [E[k]], B);
    assert Values(W, [E[k]]) == [x];
    assert forall l <- A + B :: ValidLoc(W, l) by {
      assert forall l <- A + B :: l in A || l in B;
    }
    ValuesAppend(W, A, B);
    MultisetInsert(Values(W, A), Values(W, B), x);
  }

  lemma {:induction false} ValuesAppend(W: Sets, A: seq<Loc>, B: seq<Loc>)
    requires forall l <- A + B :: ValidLoc(W, l)
    ensures forall l <- A :: ValidLoc(W, l)
    ensures forall l <- B :: ValidLoc(W, l)
    ensures Values(W, A + B) == Values(W, A) + Values(W, B)
  {
    assert forall l <- A :: l in A + B;
    assert forall l <- B :: l in A + B;
    assert forall i :: 0 <= i < |B| ==> (A + B)[|A| + i] == B[i];
  }

  lemma {:induction false} MultisetInsert<T>(a: seq<T>, b: seq<T>, x: T)
    ensures multiset(a + b) + multiset{x} == multiset(a + ([x] + b))
  {
  }

  /** The tagged positions of a list depend only on which entries carry the tag. */
  lemma {:induction false} TaggedLocsInSameTags(a: seq<Waypoint>, b: seq<Waypoint>, s: nat, sym: string)
    requires |a| == |b|
    requires forall i :: 0 <= i < |a| ==> (a[i].symbol == sym <==> b[i].symbol == sym)
    ensures TaggedLocsIn(a, s, sym) == TaggedLocsIn(b, s, sym)
    decreases |a|
  {
    if a != [] {
      TaggedLocsInSameTags(a[..|a| - 1], b[..|b| - 1], s, sym);
    }
  }

  /** allModWaypoints lists the same locations in two worlds of one shape
      whose waypoints carry the tag at the same places. */
  lemma {:induction false} OwnedLocsSameTags(A: Sets, B: Sets, sym: string)
    requires SameShape(A, B)
    requires forall l :: ValidLoc(A, l) ==> (At(A, l).symbol == sym <==> At(B, l).symbol == sym)
    ensures OwnedLocs(A, sym) == OwnedLocs(B, sym)
    decreases |A|
  {
    if A != [] {
      var n := |A| - 1;
      assert OwnedLocs(A[..n], sym) == OwnedLocs(B[..n], sym) by {
        forall l | ValidLoc(A[..n], l) ensures (At(A[..n], l).symbol == sym <==> At(B[..n], l).symbol == sym) {
          assert ValidLoc(A, l);
        }
        OwnedLocsSameTags(A[..n], B[..n], sym);
      }
      assert TaggedLocsIn(A[n], n, sym) == TaggedLocsIn(B[n], n, sym) by {
        forall i | 0 <= i < |A[n]| ensures (A[n][i].symbol == sym <==> B[n][i].symbol == sym) {
          assert ValidLoc(A, Loc(n, i));
        }
        TaggedLocsInSameTags(A[n], B[n], n, sym);
      }
    }
  }

  // ---------------------------------------------------------------------
  // One waypoint added or overwritten

  /** Adding a tagged waypoint to set `c` adds it to the owned waypoints and
      leaves the untagged ones alone. */
  lemma {:induction false} OwnedAppendOne(W: Sets, c: nat, u: Waypoint, sym: string)
    requires c < |W| && u.symbol == sym
    ensures var V := AppendTo(W, c, [u]);
      && multiset(Owned(V, sym)) == multiset(Owned(W, sym)) + multiset{u}
      && forall s :: 0 <= s < |W| ==> Untagged(V[s], sym) == Untagged(W[s], sym)
  {
    var V := AppendTo(W, c, [u]);
    assert multiset(Owned(V, sym)) == multiset(Owned(W, sym)) + multiset{u} by {
      AllTagged([u], sym);
      OwnedAppendTo(W, c, [u], sym);
    }
    assert Untagged(V[c], sym) == Untagged(W[c], sym) by {
      AllTagged([u], sym);
      TaggedAppend(W[c], [u], sym);
      assert Untagged(W[c], sym) + [] == Untagged(W[c], sym);
    }
  }

  /** Two additions to one set are one addition of both, in order. */
  lemma {:induction false} AppendToTwice(W: Sets, c: nat, a: seq<Waypoint>, b: seq<Waypoint>)
    requires c < |W|
    ensures AppendTo(AppendTo(W, c, a), c, b) == AppendTo(W, c, a + b)
  {
    assert W[c] + a + b == W[c] + (a + b);
  }

  /** Every location of a world is still a location after an addition. */
  lemma {:induction false} AppendedKeepsLoc(W: Sets, c: nat, ws: seq<Waypoint>, l: Loc)
    requires c < |W| && ValidLoc(W, l)
    ensures ValidLoc(AppendTo(W, c, ws), l) && At(AppendTo(W, c, ws), l) == At(W, l)
  {
  }

  /** A location of the grown world is either one of the additions or a
      location of the old world holding the same waypoint. */
  lemma {:induction false} AppendedLoc(W: Sets, c: nat, ws: seq<Waypoint>, m: Loc)
    requires c < |W| && ValidLoc(AppendTo(W, c, ws), m)
    ensures || (m.setIdx == c && |W[c]| <= m.pos)
            || (ValidLoc(W, m) && At(W, m) == At(AppendTo(W, c, ws), m))
  {
  }

  /** Overwriting a tagged waypoint with another tagged one swaps the two
      among the owned waypoints and leaves the untagged ones alone. */
  lemma {:induction false} OwnedPutOne(W: Sets, l: Loc, v: Waypoint, sym: string)
    requires ValidLoc(W, l) && At(W, l).symbol == sym && v.symbol == sym
    ensures var V := Put(W, l, v);
      && multiset(Owned(V, sym)) + multiset{At(W, l)} == multiset(Owned(W, sym)) + multiset{v}
      && v in Owned(V, sym)
      && forall s :: 0 <= s < |W| ==> Untagged(V[s], sym) == Untagged(W[s], sym)
  {
    var V := Put(W, l, v);
    var R := multiset(Owned(RemoveLocs(W, {l}), sym));
    assert multiset(Owned(V, sym)) == R + multiset{v} by {
      assert {l} - {l} == {};
      ReleaseLoc(V, {l}, l, sym);
      RemoveLocsPut(W, l, v, {l});
      RemoveLocsEmpty(V);
    }
    assert multiset(Owned(W, sym)) == R + multiset{At(W, l)} by {
      assert {l} - {l} == {};
      ReleaseLoc(W, {l}, l, sym);
      RemoveLocsEmpty(W);
    }
    assert v in multiset(Owned(V, sym));
    forall s | 0 <= s < |W| ensures Untagged(V[s], sym) == Untagged(W[s], sym) {
      if s == l.setIdx {
        UntaggedPut(W[s], l.pos, v, sym);
      }
    }
  }
}
