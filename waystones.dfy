/** Upstream waystone records, downstream waypoints and the ownership tags
    that tie them together (GenericWaystone, Waypoint.matches, fromMod,
    updateWaypoint in Way2WayFabric.kt). */
module Waystones {

  datatype Option<+T> = None | Some(value: T)

  /** A GenericWaystone: a block position, a name, the dimension it lives in
      and the index of the provider that reported it. */
  datatype Waystone = Waystone(x: int, y: int, z: int, name: string, dimension: string, modIdx: int)

  /** The part of a map waypoint this core reads and writes; the colour and the
      other display fields are never compared and are left out. */
  datatype Waypoint = Waypoint(x: int, y: int, z: int, name: string, symbol: string)

  /** The fixed tag table: one symbol per provider index. */
  const SymbolTable: seq<string> := ["\U{3028}", "\U{5170}", "\U{4E97}", "\U{4E3B}"]

  /** Indices for which `Symbol` is defined; any other index makes the table
      lookup fail. */
  predicate ValidIdx(idx: int) { idx < |SymbolTable| }

  /** The ownership tag of a provider index: a negative index means "the sole
      provider" and shares the first entry. */
  function Symbol(idx: int): string
    requires ValidIdx(idx)
  {
    if idx < 0 then SymbolTable[0] else SymbolTable[idx]
  }

  /** The sole-provider sentinel and index 0 carry the same tag. */
  lemma {:induction false} NegativeIndexSharesFirstTag(idx: int)
    requires idx < 0
    ensures Symbol(idx) == Symbol(0) == SymbolTable[0]
  {
  }

  /** Distinct non-negative indices carry distinct tags, so providers with
      different indices never see each other's waypoints. */
  lemma {:induction false} TagsDistinct(i: int, j: int)
    requires 0 <= i < |SymbolTable| && 0 <= j < |SymbolTable|
    ensures Symbol(i) == Symbol(j) <==> i == j
  {
    if i != j {
      assert Symbol(i)[0] != Symbol(j)[0];
    }
  }

  /** Waypoint.matches: equality of the coordinate triple only. */
  predicate Matches(wp: Waypoint, w: Waystone) {
    wp.x == w.x && wp.y == w.y && wp.z == w.z
  }

  /** sameDimensionAs: the record belongs to the world's current dimension. */
  predicate SameDimensionAs(dim: string, w: Waystone) {
    dim == w.dimension
  }

  /** toWaypoint, without the random colour. */
  function ToWaypoint(w: Waystone): Waypoint
    requires ValidIdx(w.modIdx)
  {
    Waypoint(w.x, w.y, w.z, w.name, Symbol(w.modIdx))
  }

  function ToWaypoints(ws: seq<Waystone>): (r: seq<Waypoint>)
    requires forall w <- ws :: ValidIdx(w.modIdx)
    ensures |r| == |ws| && forall i :: 0 <= i < |ws| ==> r[i] == ToWaypoint(ws[i])
  {
    if ws == [] then [] else [ToWaypoint(ws[0])] + ToWaypoints(ws[1..])
  }

  lemma {:induction false} ToWaypointsAppend(a: seq<Waystone>, b: seq<Waystone>)
    requires forall w <- a + b :: ValidIdx(w.modIdx)
    ensures ToWaypoints(a + b) == ToWaypoints(a) + ToWaypoints(b)
  {
  }

  /** The condition under which updateWaypoint writes: the name or the tag
      differs from the record's. */
  predicate NeedsUpdate(existing: Waypoint, w: Waystone)
    requires ValidIdx(w.modIdx)
  {
    existing.name != w.name || existing.symbol != Symbol(w.modIdx)
  }

  /** The waypoint updateWaypoint leaves behind when it writes. */
  function Refresh(existing: Waypoint, w: Waystone): Waypoint
    requires ValidIdx(w.modIdx)
  {
    existing.(name := w.name, symbol := Symbol(w.modIdx))
  }

  /** What updateWaypoint promises: it reports a change exactly when it makes
      one, the name and tag are the record's afterwards, the coordinates never
      move, and a matching waypoint ends up equal to the record's waypoint. */
  lemma {:induction false} RefreshSpec(existing: Waypoint, w: Waystone)
    requires ValidIdx(w.modIdx)
    ensures NeedsUpdate(existing, w) <==> Refresh(existing, w) != existing
    ensures Refresh(existing, w).name == w.name && Refresh(existing, w).symbol == Symbol(w.modIdx)
    ensures Refresh(existing, w).x == existing.x && Refresh(existing, w).y == existing.y
    ensures Refresh(existing, w).z == existing.z
    ensures !NeedsUpdate(Refresh(existing, w), w)
    ensures Matches(existing, w) ==> Refresh(existing, w) == ToWaypoint(w)
  {
  }

  /** The records of `ws` that belong to dimension `dim`, in order. */
  function SameDimension(ws: seq<Waystone>, dim: string): (r: seq<Waystone>)
    ensures forall w <- r :: w in ws && w.dimension == dim
    ensures |r| <= |ws|
  {
    if ws == [] then []
    else (if ws[0].dimension == dim then [ws[0]] else []) + SameDimension(ws[1..], dim)
  }

  /** Filtering by dimension keeps exactly the records of that dimension. */
  lemma {:induction false} SameDimensionKeeps(ws: seq<Waystone>, dim: string, w: Waystone)
    ensures w in SameDimension(ws, dim) <==> w in ws && w.dimension == dim
  {
    if ws != [] {
      SameDimensionKeeps(ws[1..], dim, w);
      assert ws == [ws[0]] + ws[1..];
    }
  }

  /** Filtering twice is filtering once. */
  lemma {:induction false} SameDimensionIdempotent(ws: seq<Waystone>, dim: string)
    ensures SameDimension(SameDimension(ws, dim), dim) == SameDimension(ws, dim)
  {
    if ws != [] {
      SameDimensionIdempotent(ws[1..], dim);
      var rest := SameDimension(ws[1..], dim);
      if ws[0].dimension == dim {
        var f := [ws[0]] + rest;
        assert SameDimension(ws, dim) == f;
        assert f != [] && f[0] == ws[0] && f[1..] == rest;
        assert SameDimension(f, dim) == [ws[0]] + SameDimension(rest, dim);
      } else {
        assert SameDimension(ws, dim) == rest;
      }
    }
  }

  /** Filtering distributes over concatenation. */
  lemma {:induction false} SameDimensionAppend(a: seq<Waystone>, b: seq<Waystone>, dim: string)
    ensures SameDimension(a + b, dim) == SameDimension(a, dim) + SameDimension(b, dim)
    decreases |a|
  {
    if a == [] {
      assert a + b == b;
    } else {
      assert (a + b)[1..] == a[1..] + b;
      SameDimensionAppend(a[1..], b, dim);
    }
  }
}
