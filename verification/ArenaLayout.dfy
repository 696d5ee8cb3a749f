/** Where the blocks and the allocations of an arena lie.  Addresses are plain numbers and
    `malloc` returns ranges apart from those in use, so pointer comparisons mean what they
    do in the code. */
module ArenaLayout {
  import opened Basics

  /** Bytes in front of a block's data. */
  const HEADER: nat := 32

  /** Requests up to here round up and add a header without wrapping. */
  const MAX_REQUEST: nat := 0x8000_0000_0000_0000 - 64

  datatype Range = Range(addr: nat, size: nat)

  /** The size rounded up to a multiple of 16. */
  function Align(size: nat): (r: nat)
    ensures size <= r < size + 16 && r % 16 == 0
    ensures size % 16 == 0 ==> r == size
  {
    if size == 0 then 0 else if size <= 16 then 16 else 16 + Align(size - 16)
  }

  /** Adding 15 and clearing the low four bits does that. */
  lemma {:induction false} AlignClearsLowBits(size: nat)
    ensures Align(size) == (size + 15) / 16 * 16 == size + 15 - (size + 15) % 16
  {
    if size > 16 { AlignClearsLowBits(size - 16); }
  }

  predicate Disjoint(a: Range, b: Range) {
    a.addr + a.size <= b.addr || b.addr + b.size <= a.addr
  }

  ghost function Sum(sizes: seq<nat>): nat {
    if sizes == [] then 0 else Sum(sizes[..|sizes| - 1]) + sizes[|sizes| - 1]
  }

  class Block {
    var next: Block?
    var used: nat
    const capacity: nat
    const data: nat

    /** The rounded sizes of the allocations taken from the block, from its start on. */
    ghost var sizes: seq<nat>

    constructor (data: nat, capacity: nat)
      ensures next == null && used == 0 && this.capacity == capacity && this.data == data && sizes == []
    {
      next := null;
      used := 0;
      this.capacity := capacity;
      this.data := data;
      sizes := [];
    }

    predicate Placed() {
      HEADER <= data && data % 16 == 0 && data + capacity < U64
    }

    /** Hands out `size` more bytes. */
    method Take(size: nat)
      requires Ok() && 0 < size && size % 16 == 0 && capacity - used >= size
      modifies this`used, this`sizes
      ensures Ok() && used == old(used) + size && sizes == old(sizes) + [size]
    {
      used := used + size;
      SumAppend(sizes, size);
      sizes := sizes + [size];
    }

    /** Gives the last allocation, of `was` bytes, a new size in place. */
    method ResizeLast(was: nat, size: nat)
      requires Ok() && sizes != [] && sizes[|sizes| - 1] == was && 0 < size && size % 16 == 0
      requires size <= was || capacity - used >= size - was
      modifies this`used, this`sizes
      ensures Ok() && sizes == old(sizes)[..|old(sizes)| - 1] + [size]
    {
      ghost var rest := sizes[..|sizes| - 1];
      SumAppend(rest, size);
      if size <= was {
        used := used - (was - size);
      } else {
        used := used + (size - was);
      }
      sizes := rest + [size];
    }

    /** The allocations tile the used part of the block. */
    ghost predicate Ok()
      reads this`used, this`sizes
    {
      Placed() && used == Sum(sizes) && used <= capacity && Rounded(sizes)
    }

    ghost function RangeOf(i: nat): Range
      reads this`sizes
      requires i < |sizes|
    {
      Range(data + Sum(sizes[..i]), sizes[i])
    }
  }

  /** All sizes are positive multiples of 16. */
  ghost predicate Rounded(sizes: seq<nat>) {
    sizes == [] || (Rounded(sizes[..|sizes| - 1]) && 0 < sizes[|sizes| - 1] && sizes[|sizes| - 1] % 16 == 0)
  }

  /** The ranges of two blocks, headers included, do not overlap. */
  predicate Apart(a: Block, b: Block) {
    a.data + a.capacity + HEADER <= b.data || b.data + b.capacity + HEADER <= a.data
  }

  ghost predicate AllApart(chain: seq<Block>) {
    forall i, j {:trigger Apart(chain[i], chain[j])} :: 0 <= i < j < |chain| ==> Apart(chain[i], chain[j])
  }

  /** What `malloc` returns when asked for `size` bytes behind a header, the data address or nothing, is aligned
      and apart from every block in use. */
  ghost predicate Honest(malloc: Option<nat>, size: nat, chain: seq<Block>) {
    malloc.Some? ==> Roomy(malloc.value, size, chain)
  }

  ghost predicate Roomy(data: nat, size: nat, chain: seq<Block>) {
    if chain == [] then HEADER <= data && data % 16 == 0 && data + size < U64
    else
      && (data + size + HEADER <= chain[0].data || chain[0].data + chain[0].capacity + HEADER <= data)
      && Roomy(data, size, chain[1..])
  }

  lemma {:induction false} RoomyMeans(data: nat, size: nat, chain: seq<Block>)
    requires Roomy(data, size, chain)
    ensures HEADER <= data && data % 16 == 0 && data + size < U64
    ensures forall i :: 0 <= i < |chain| ==>
              data + size + HEADER <= chain[i].data || chain[i].data + chain[i].capacity + HEADER <= data
  {
    if chain != [] {
      RoomyMeans(data, size, chain[1..]);
      assert forall i :: 1 <= i < |chain| ==> chain[i] == chain[1..][i - 1];
    }
  }

  // -------------------------------------------------------------- sums of sizes

  lemma SumAppend(sizes: seq<nat>, size: nat)
    ensures Sum(sizes + [size]) == Sum(sizes) + size
    ensures Rounded(sizes) && 0 < size && size % 16 == 0 ==> Rounded(sizes + [size])
  {
    assert (sizes + [size])[..|sizes|] == sizes;
  }

  lemma {:induction false} SumPrefix(sizes: seq<nat>, i: nat)
    requires i < |sizes|
    ensures Sum(sizes[..i]) + sizes[i] <= Sum(sizes)
    ensures Sum(sizes[..i]) + sizes[i] == Sum(sizes[..i + 1])
    decreases |sizes|
  {
    assert sizes[..i + 1][..i] == sizes[..i];
    if i + 1 == |sizes| {
      assert sizes[..i + 1] == sizes;
    } else {
      var s := sizes[..|sizes| - 1];
      SumPrefix(s, i);
      assert s[..i] == sizes[..i] && s[i] == sizes[i];
    }
  }

  lemma {:induction false} SumOrdered(sizes: seq<nat>, i: nat, j: nat)
    requires i < j < |sizes|
    ensures Sum(sizes[..i]) + sizes[i] <= Sum(sizes[..j])
  {
    SumPrefix(sizes[..j], i);
    assert sizes[..j][..i] == sizes[..i] && sizes[..j][i] == sizes[i];
  }

  lemma {:induction false} RoundedPrefix(sizes: seq<nat>, i: nat)
    requires Rounded(sizes) && i < |sizes|
    ensures Sum(sizes[..i]) % 16 == 0 && Sum(sizes) % 16 == 0
    ensures 0 < sizes[i] && sizes[i] % 16 == 0
    decreases |sizes|
  {
    var s := sizes[..|sizes| - 1];
    if s != [] {
      RoundedPrefix(s, if i < |s| then i else 0);
      if i < |s| { assert s[..i] == sizes[..i] && s[i] == sizes[i]; }
    }
  }

  // ------------------------------------------------------- separation of allocations

  /** Every allocation is aligned and lies in the used part of its block. */
  lemma AllocationFits(b: Block, i: nat)
    requires b.Ok() && i < |b.sizes|
    ensures b.RangeOf(i).addr % 16 == 0 && b.RangeOf(i).size % 16 == 0 && 0 < b.RangeOf(i).size
    ensures b.data <= b.RangeOf(i).addr && b.RangeOf(i).addr + b.RangeOf(i).size <= b.data + b.used <= b.data + b.capacity < U64
  {
    SumPrefix(b.sizes, i);
    RoundedPrefix(b.sizes, i);
  }

  /** Any two allocations of any two blocks of an arena are disjoint. */
  lemma AllocationsAreDisjoint(chain: seq<Block>, x: nat, i: nat, y: nat, j: nat)
    requires AllApart(chain) && x < |chain| && y < |chain| && chain[x].Ok() && chain[y].Ok()
    requires i < |chain[x].sizes| && j < |chain[y].sizes| && (x, i) != (y, j)
    ensures Disjoint(chain[x].RangeOf(i), chain[y].RangeOf(j))
  {
    if x == y {
      if i < j { SumOrdered(chain[x].sizes, i, j); } else { SumOrdered(chain[x].sizes, j, i); }
    } else {
      AllocationFits(chain[x], i);
      AllocationFits(chain[y], j);
      assert if x < y then Apart(chain[x], chain[y]) else Apart(chain[y], chain[x]);
    }
  }

  // ------------------------------------------------------------- in-place realloc

  /** `ptr == &data[used - oldSize]`, with the subtraction and the address in 64 bits. */
  predicate AtEnd(data: nat, used: nat, ptr: nat, oldSize: nat) {
    (data + (used - oldSize) % U64) % U64 == ptr
  }

  lemma WrappedAddress(data: nat, used: nat, ptr: nat, size: nat)
    requires data + used < U64 && ptr + size < U64
    ensures AtEnd(data, used, ptr, size) <==> ptr + size == data + used
  {
  }

  /** The test of `arena_realloc` picks out exactly the last allocation of block `y`: allocation
      `i` of block `x` passes it if and only if it is that one.  A wrapped difference never
      fools it, because a header separates any two blocks. */
  lemma TestPicksLastAllocation(chain: seq<Block>, x: nat, i: nat, y: nat)
    requires AllApart(chain) && x < |chain| && y < |chain| && chain[x].Ok() && chain[y].Ok() && i < |chain[x].sizes|
    ensures var r := chain[x].RangeOf(i);
            AtEnd(chain[y].data, chain[y].used, r.addr, r.size) <==> x == y && i == |chain[y].sizes| - 1
  {
    var r := chain[x].RangeOf(i);
    var sizes := chain[x].sizes;
    AllocationFits(chain[x], i);
    WrappedAddress(chain[y].data, chain[y].used, r.addr, r.size);
    if x != y {
      assert if x < y then Apart(chain[x], chain[y]) else Apart(chain[y], chain[x]);
    } else if i < |sizes| - 1 {
      SumOrdered(sizes, i, |sizes| - 1);
      SumPrefix(sizes, |sizes| - 1);
    } else {
      SumPrefix(sizes, i);
      assert sizes[..i + 1] == sizes;
    }
  }
}
