/** onInitialize: the waystone mods that are present register in a fixed
    order and each is given the provider index it stamps on its records. */
module Providers {
  import opened Waystones

  /** A waystone provider (BlayWaystones, FabricWaystones); `modIdx` is the
      index whose tag marks its waypoints. */
  class Provider {
    var modIdx: int

    constructor (modIdx: int)
      ensures this.modIdx == modIdx
    {
      this.modIdx := modIdx;
    }
  }

  /** The indices handed to `n` registered providers, in registration order. */
  function Allocation(n: nat): (r: seq<int>)
    ensures |r| == n
  {
    if n == 1 then [-1] else seq(n, i => i)
  }

  /** The providers' tags are the first `n` entries of the tag table, in
      order: a sole provider uses the first tag, as provider 0 would, and
      several providers never share a tag. */
  lemma {:induction false} AllocationTags(n: nat)
    requires n <= |SymbolTable|
    ensures forall i :: 0 <= i < n ==> ValidIdx(Allocation(n)[i]) && Symbol(Allocation(n)[i]) == SymbolTable[i]
    ensures forall i, j :: 0 <= i < j < n ==> Symbol(Allocation(n)[i]) != Symbol(Allocation(n)[j])
  {
    if n == 1 {
      NegativeIndexSharesFirstTag(-1);
    }
    forall i, j | 0 <= i < j < n ensures SymbolTable[i] != SymbolTable[j] {
      TagsDistinct(i, j);
    }
  }

  /** The numbering step of onInitialize: -1 for a sole provider, otherwise
      each provider's position in the list. */
  method AssignModIndices(providers: seq<Provider>)
    requires forall i, j :: 0 <= i < j < |providers| ==> providers[i] != providers[j]
    modifies set p | p in providers
    ensures forall i :: 0 <= i < |providers| ==> providers[i].modIdx == Allocation(|providers|)[i]
  {
    if |providers| == 1 {
      providers[0].modIdx := -1;
      return;
    }
    var i := 0;
    while i < |providers|
      invariant 0 <= i <= |providers|
      invariant forall j :: 0 <= j < i ==> providers[j].modIdx == j
    {
      providers[i].modIdx := i;
      i := i + 1;
    }
  }

  /** onInitialize: BlayWaystones registers first when present, then
      FabricWaystones, and the registered providers are numbered. */
  method OnInitialize(blay: Provider, fabric: Provider, blayPresent: bool, fabricPresent: bool)
    returns (providers: seq<Provider>)
    requires blay != fabric
    modifies blay, fabric
    ensures providers == (if blayPresent then [blay] else []) + (if fabricPresent then [fabric] else [])
    ensures forall i :: 0 <= i < |providers| ==> providers[i].modIdx == Allocation(|providers|)[i]
    ensures forall i :: 0 <= i < |providers| ==> ValidIdx(providers[i].modIdx)
    ensures forall i, j :: 0 <= i < j < |providers| ==> Symbol(providers[i].modIdx) != Symbol(providers[j].modIdx)
  {
    providers := [];
    if blayPresent {
      providers := providers + [blay];
    }
    if fabricPresent {
      providers := providers + [fabric];
    }
    AssignModIndices(providers);
    AllocationTags(|providers|);
  }
}
