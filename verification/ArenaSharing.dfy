/** How requests share a block: while they fit, they lie one behind the other and no memory is asked for. */
module ArenaSharing {
  import opened Basics
  import opened ArenaLayout
  import opened Arena

  /** The requests rounded up, added up. */
  ghost function Total(sizes: seq<nat>): nat {
    if sizes == [] then 0 else Total(sizes[..|sizes| - 1]) + Align(sizes[|sizes| - 1])
  }

  lemma {:induction false} TotalGrows(sizes: seq<nat>, k: nat)
    requires k < |sizes|
    ensures Total(sizes[..k + 1]) == Total(sizes[..k]) + Align(sizes[k]) <= Total(sizes)
    decreases |sizes|
  {
    assert sizes[..k + 1][..k] == sizes[..k];
    if k + 1 < |sizes| {
      var front := sizes[..|sizes| - 1];
      TotalGrows(front, k);
      assert front[..k] == sizes[..k] && front[..k + 1] == sizes[..k + 1];
    } else {
      assert sizes[..k + 1] == sizes;
    }
  }

  /** The last allocation of a block lies at its end. */
  lemma LastEndsUsed(b: Block)
    requires b.Ok() && b.sizes != []
    ensures b.RangeOf(|b.sizes| - 1).addr + b.RangeOf(|b.sizes| - 1).size == b.data + b.used
  {
  }

  /** A request that fits the current block lies right behind what is used of it, whatever `malloc` would do. */
  method AllocHere(p: Process, a: Arena, size: nat) returns (ptr: nat)
    requires a.Valid() && 0 < size <= MAX_REQUEST && a.Fits(Align(size))
    modifies a`first, a`current, a`chain, a.chain`next, a.chain`used, a.chain`sizes, p`arenaBlocks
    ensures a.Valid() && a.chain == old(a.chain) && a.current == old(a.current) && p.arenaBlocks == old(p.arenaBlocks)
    ensures a.current != null && a.current.used == old(a.current.used) + Align(size)
    ensures ptr == a.current.data + old(a.current.used)
  {
    Open(a.first, a.chain);
    var r, home := a.AllocSomewhere(p, size, None);
    Open(a.first, a.chain);
    SumAppend(old(a.current.sizes), Align(size));
    LastEndsUsed(home);
    ptr := r.value;
  }

  /** Requests that fit the current block together. */
  method AllocEach(p: Process, a: Arena, sizes: seq<nat>) returns (ptrs: seq<nat>)
    requires a.Valid() && a.current != null && Total(sizes) <= a.current.capacity - a.current.used
    requires forall k :: 0 <= k < |sizes| ==> 0 < sizes[k] <= MAX_REQUEST
    modifies a`first, a`current, a`chain, a.chain`next, a.chain`used, a.chain`sizes, p`arenaBlocks
    ensures a.Valid() && a.chain == old(a.chain) && a.current == old(a.current) && p.arenaBlocks == old(p.arenaBlocks)
    ensures a.current != null && |ptrs| == |sizes|
    ensures forall k :: 0 <= k < |sizes| ==> ptrs[k] == a.current.data + old(a.current.used) + Total(sizes[..k])
  {
    ptrs := [];
    for i := 0 to |sizes|
      invariant a.Valid() && a.chain == old(a.chain) && a.current == old(a.current) && p.arenaBlocks == old(p.arenaBlocks)
      invariant a.current != null && a.current.used == old(a.current.used) + Total(sizes[..i]) && |ptrs| == i
      invariant forall k :: 0 <= k < i ==> ptrs[k] == a.current.data + old(a.current.used) + Total(sizes[..k])
    {
      TotalGrows(sizes, i);
      var ptr := AllocHere(p, a, sizes[i]);
      ptrs := ptrs + [ptr];
    }
  }

  /** The first ordinary request of an arena makes a block of the default size, and as many more as still fit it
      are answered from it, one behind the other. */
  method RequestsShareBlock(p: Process, a: Arena, size: nat, sizes: seq<nat>, malloc: nat) returns (ptr: nat, ptrs: seq<nat>)
    requires a.Valid() && a.chain == [] && 0 < size && Align(size) <= a.defaultBlockSize / 2
    requires Honest(Some(malloc), a.defaultBlockSize, []) && Align(size) + Total(sizes) <= a.defaultBlockSize
    requires forall k :: 0 <= k < |sizes| ==> 0 < sizes[k] <= MAX_REQUEST
    modifies a`first, a`current, a`chain, p`arenaBlocks
    ensures a.Valid() && |a.chain| == 1 && a.chain[0].capacity == a.defaultBlockSize
    ensures p.arenaBlocks == old(p.arenaBlocks) + 1
    ensures |ptrs| == |sizes| && forall k :: 0 <= k < |sizes| ==> ptrs[k] == ptr + Align(size) + Total(sizes[..k])
  {
    var r, home := a.Alloc(p, size, Some(malloc));
    Open(a.first, a.chain);
    SumAppend([], Align(size));
    LastEndsUsed(home);
    assert |a.chain| == 1;
    ptr := r.value;
    ptrs := AllocEach(p, a, sizes);
  }
}
