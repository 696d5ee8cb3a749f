/** The arena allocator: bump allocation over a linked chain of blocks, large blocks
    spliced in, resizing in place, and a reset that keeps the ordinary blocks. */
module Arena {
  import opened Basics
  import opened ArenaLayout

  /** Process-wide state: memory and the block metric. */
  class Process {
    var memory: int -> int
    var arenaBlocks: int

    constructor (memory: int -> int)
      ensures this.memory == memory && arenaBlocks == 0
    {
      this.memory := memory;
      arenaBlocks := 0;
    }

    /** `memcpy` of `n` bytes between ranges that do not overlap. */
    method Memcpy(dst: nat, src: nat, n: nat)
      requires Disjoint(Range(dst, n), Range(src, n))
      modifies this`memory
      ensures memory == Overwritten(old(memory), dst, src, n)
    {
      memory := Overwritten(memory, dst, src, n);
    }
  }

  /** The byte at `a` after `n` bytes at `src` have been copied to `dst`. */
  function ByteAfter(memory: int -> int, dst: nat, src: nat, n: nat, a: int): int {
    if dst <= a < dst + n then memory(src + (a - dst)) else memory(a)
  }

  /** Memory after that. */
  function Overwritten(memory: int -> int, dst: nat, src: nat, n: nat): int -> int {
    a => ByteAfter(memory, dst, src, n, a)
  }

  /** `chain` is linked from its first block to a null. */
  ghost predicate Linked(chain: seq<Block>)
    reads chain`next
  {
    && (forall i {:trigger chain[i].next} :: 0 <= i < |chain| - 1 ==> chain[i].next == chain[i + 1])
    && (chain != [] ==> chain[|chain| - 1].next == null)
  }

  ghost predicate Distinct(chain: seq<Block>) {
    forall i, j :: 0 <= i < j < |chain| ==> chain[i] != chain[j]
  }

  ghost predicate AllOk(chain: seq<Block>)
    reads chain`used, chain`sizes
  {
    forall i :: 0 <= i < |chain| ==> chain[i].Ok()
  }

  /** Each block is good and apart from those behind it. */
  ghost predicate Good(chain: seq<Block>)
    reads chain`used, chain`sizes
  {
    chain == [] ||
    (chain[0].Ok() && (forall i :: 1 <= i < |chain| ==> Apart(chain[0], chain[i])) && Good(chain[1..]))
  }

  /** The list from `b` on is `chain`, each block good and apart from those behind it. */
  ghost predicate Sound(b: Block?, chain: seq<Block>)
    reads chain`next, chain`used, chain`sizes
    decreases |chain|
  {
    if chain == [] then b == null
    else
      && b == chain[0] && chain[0].Ok()
      && (forall i :: 1 <= i < |chain| ==> Apart(chain[0], chain[i]))
      && Sound(chain[0].next, chain[1..])
  }

  lemma {:induction false} SoundMeans(b: Block?, chain: seq<Block>)
    requires Sound(b, chain)
    ensures Linked(chain) && Good(chain)
    ensures chain == [] <==> b == null
    ensures chain != [] ==> b == chain[0]
    decreases |chain|
  {
    if chain != [] {
      var rest := chain[1..];
      SoundMeans(chain[0].next, rest);
      forall i | 0 <= i < |chain| - 1 ensures chain[i].next == chain[i + 1] {
        if i > 0 { assert chain[i] == rest[i - 1] && chain[i + 1] == rest[i]; }
      }
    }
  }

  lemma {:induction false} LinkedIsSound(b: Block?, chain: seq<Block>)
    requires Linked(chain) && Good(chain)
    requires if chain == [] then b == null else b == chain[0]
    ensures Sound(b, chain)
    decreases |chain|
  {
    if chain != [] { LinkedIsSound(chain[0].next, chain[1..]); }
  }

  lemma {:induction false} GoodMeans(chain: seq<Block>)
    requires Good(chain)
    ensures AllOk(chain) && AllApart(chain)
  {
    if chain != [] {
      var rest := chain[1..];
      GoodMeans(rest);
      forall i | 0 <= i < |chain| ensures chain[i].Ok() {
        if i > 0 { assert chain[i] == rest[i - 1]; }
      }
      forall i, j | 0 <= i < j < |chain| ensures Apart(chain[i], chain[j]) {
        if i > 0 { assert Apart(rest[i - 1], rest[j - 1]); }
      }
    }
  }

  lemma {:induction false} ApartIsGood(chain: seq<Block>)
    requires AllOk(chain) && AllApart(chain)
    ensures Good(chain)
  {
    if chain != [] {
      var rest := chain[1..];
      forall i, j | 0 <= i < j < |rest| ensures Apart(rest[i], rest[j]) {
        assert Apart(chain[i + 1], chain[j + 1]);
      }
      forall i | 1 <= i < |chain| ensures Apart(chain[0], chain[i]) {}
      ApartIsGood(rest);
    }
  }

  lemma Open(b: Block?, chain: seq<Block>)
    requires Sound(b, chain)
    ensures Linked(chain) && AllOk(chain) && AllApart(chain)
    ensures chain == [] <==> b == null
    ensures chain != [] ==> b == chain[0]
  {
    SoundMeans(b, chain);
    GoodMeans(chain);
  }

  lemma Close(b: Block?, chain: seq<Block>)
    requires Linked(chain) && AllOk(chain) && AllApart(chain)
    requires if chain == [] then b == null else b == chain[0]
    ensures Sound(b, chain)
  {
    ApartIsGood(chain);
    LinkedIsSound(b, chain);
  }

  /** `chain` with `x` put in at position `k`. */
  ghost function Put(chain: seq<Block>, k: nat, x: Block): (c: seq<Block>)
    requires k <= |chain|
    ensures |c| == |chain| + 1 && c[k] == x
    ensures forall i {:trigger c[i]} :: 0 <= i < k ==> c[i] == chain[i]
    ensures forall i {:trigger c[i]} :: k < i < |c| ==> c[i] == chain[i - 1]
  {
    if k == 0 then [x] + chain else [chain[0]] + Put(chain[1..], k - 1, x)
  }

  /** At most one block was put into the chain; none was lost and none moved. */
  ghost predicate Grew(a: seq<Block>, b: seq<Block>) {
    a == b || (b != [] && (b[1..] == a || (a != [] && a[0] == b[0] && Grew(a[1..], b[1..]))))
  }

  /** The blocks from position `k` on are too full for `size` bytes. */
  ghost predicate FullFrom(chain: seq<Block>, k: nat, size: nat)
    reads chain`used
    decreases |chain| - k
  {
    k < |chain| ==> chain[k].capacity - chain[k].used < size && FullFrom(chain, k + 1, size)
  }

  /** So are those from position `k` on and before `j`. */
  ghost predicate FullUpTo(chain: seq<Block>, k: nat, j: nat, size: nat)
    requires j <= |chain|
    reads chain`used
    decreases j - k
  {
    k < j ==> chain[k].capacity - chain[k].used < size && FullUpTo(chain, k + 1, j, size)
  }

  lemma {:induction false} OneMoreFull(chain: seq<Block>, k: nat, j: nat, size: nat)
    requires k <= j < |chain| && FullUpTo(chain, k, j, size) && chain[j].capacity - chain[j].used < size
    ensures FullUpTo(chain, k, j + 1, size)
    decreases j - k
  {
    if k < j { OneMoreFull(chain, k + 1, j, size); }
  }

  lemma {:induction false} FullToTheEnd(chain: seq<Block>, k: nat, size: nat)
    requires FullUpTo(chain, k, |chain|, size)
    ensures FullFrom(chain, k, size)
    decreases |chain| - k
  {
    if k < |chain| { FullToTheEnd(chain, k + 1, size); }
  }

  /** `c` comes behind `b`, and every block between them is too full for `size` bytes. */
  ghost predicate FullBetween(chain: seq<Block>, b: Block?, c: Block?, size: nat)
    reads chain`used
  {
    forall i, j :: 0 <= i < |chain| && 0 <= j < |chain| && chain[i] == b && chain[j] == c ==>
      i < j && FullUpTo(chain, i + 1, j, size)
  }

  /** Every block behind `b` is too full for `size` bytes. */
  ghost predicate FullBehind(chain: seq<Block>, b: Block?, size: nat)
    reads chain`used
  {
    forall i :: 0 <= i < |chain| && chain[i] == b ==> FullFrom(chain, i + 1, size)
  }

  class Arena {
    var first: Block?
    var current: Block?
    const defaultBlockSize: nat

    /** The blocks from `first` on. */
    ghost var chain: seq<Block>

    ghost predicate Valid()
      reads this`first, this`current, this`chain, chain`next, chain`used, chain`sizes
    {
      && Sound(first, chain)
      && (current == null <==> chain == []) && (current != null ==> current in chain)
      && 0 < defaultBlockSize <= MAX_REQUEST
    }

    /** The current block has room for `size` bytes. */
    predicate Fits(size: nat)
      reads this, current
    {
      current != null && current.capacity - current.used >= size
    }

    function NewBlockSize(size: nat): nat {
      if size > defaultBlockSize then size else defaultBlockSize
    }

    /** What `malloc` is asked for when a block for `size` bytes has to be made. */
    function AskedFor(size: nat): nat {
      if size > defaultBlockSize / 2 then size else NewBlockSize(size)
    }

    /** `arena_init`. */
    constructor (blockSize: nat)
      requires blockSize <= MAX_REQUEST
      ensures Valid() && chain == []
      ensures defaultBlockSize == if blockSize > 0 then blockSize else 4096
    {
      first := null;
      current := null;
      defaultBlockSize := if blockSize > 0 then blockSize else 4096;
      chain := [];
    }

    /** `create_block`. */
    method CreateBlock(p: Process, size: nat, malloc: Option<nat>) returns (block: Block?)
      requires Honest(malloc, size, chain)
      modifies p`arenaBlocks
      ensures block == null <==> malloc.None?
      ensures block != null ==> fresh(block) && block.next == null && block.used == 0 && block.sizes == []
                                && block.capacity == size && block.data == malloc.value
                                && block.Ok() && Roomy(block.data, size, chain)
      ensures p.arenaBlocks == old(p.arenaBlocks) + if block == null then 0 else 1
    {
      match malloc
      case None => return null;
      case Some(a) =>
        RoomyMeans(a, size, chain);
        block := new Block(a, size);
        p.arenaBlocks := p.arenaBlocks + 1;
    }

    /** A block for one allocation that fills it. */
    method CreateFullBlock(p: Process, size: nat, malloc: Option<nat>) returns (block: Block?)
      requires 0 < size && size % 16 == 0 && Honest(malloc, size, chain)
      modifies p`arenaBlocks
      ensures block == null <==> malloc.None?
      ensures block != null ==> fresh(block) && block.next == null && block.sizes == [size] && block.capacity == size
                                && block.Ok() && Roomy(block.data, size, chain) && block.RangeOf(0).addr == block.data
      ensures p.arenaBlocks == old(p.arenaBlocks) + if block == null then 0 else 1
    {
      block := CreateBlock(p, size, malloc);
      if block != null {
        block.Take(size);
      }
    }

    /** Slices `size` bytes off the current block. */
    method Carve(size: nat) returns (ptr: nat)
      requires Valid() && current != null && 0 < size && size % 16 == 0
      requires current.capacity - current.used >= size
      modifies current`used, current`sizes
      ensures Valid() && current.sizes == old(current.sizes) + [size]
      ensures ptr == current.RangeOf(|current.sizes| - 1).addr
    {
      Open(first, chain);
      ptr := current.data + current.used;
      current.Take(size);
      assert current.sizes[..|current.sizes| - 1] == old(current.sizes);
      Close(first, chain);
    }

    /** Starts the chain with a block. */
    method Begin(block: Block)
      requires Valid() && first == null && block.next == null && block.Ok()
      modifies this`first, this`current, this`chain
      ensures Valid() && chain == [block] && current == block
    {
      first := block;
      current := block;
      chain := [block];
    }

    /** Links a dedicated block behind the current one. */
    method Splice(large: Block) returns (ghost k: nat)
      requires Valid() && first != null && large !in chain && large.Ok() && Roomy(large.data, large.capacity, chain)
      modifies this`chain, large`next, current`next
      ensures k <= |old(chain)| && chain == Put(old(chain), k, large) && Valid()
      ensures current.next == large && large.next == old(current.next)
    {
      SoundMeans(first, chain);
      k := LinkBehindCurrent(large);
      PutSound(first, chain, k, large);
      PutMembers(chain, k, large);
      chain := Put(chain, k, large);
    }

    method LinkBehindCurrent(large: Block) returns (ghost k: nat)
      requires current != null && current in chain && Linked(chain) && large !in chain
      modifies large`next, current`next
      ensures 0 < k <= |chain| && Linked(Put(chain, k, large))
      ensures current.next == large && large.next == old(current.next)
    {
      ghost var i :| 0 <= i < |chain| && chain[i] == current;
      LinkedIsDistinct(chain);
      large.next := current.next;
      current.next := large;
      k := i + 1;
      LinkedPut(chain, k, large);
    }

    /** Links an empty block behind the last one and makes it current. */
    method Append(block: Block)
      requires Valid() && block !in chain && block.next == null && block.Ok() && Roomy(block.data, block.capacity, chain)
      requires current != null && current.next == null
      modifies this`current, this`chain, current`next
      ensures chain == Put(old(chain), |old(chain)|, block) && Valid() && current == block
    {
      SoundMeans(first, chain);
      LinkAtEnd(block);
      PutSound(first, chain, |chain|, block);
      chain := Put(chain, |chain|, block);
      current := block;
    }

    method LinkAtEnd(block: Block)
      requires current != null && current in chain && Linked(chain) && block !in chain
      requires current.next == null && block.next == null
      modifies current`next
      ensures Linked(Put(chain, |chain|, block))
    {
      LastHasNoNext(chain, current);
      LinkedIsDistinct(chain);
      current.next := block;
      LinkedPut(chain, |chain|, block);
    }

    /** Moves along the chain until a block has room; without one, `current` ends at the last block. */
    method Advance(size: nat) returns (found: bool)
      requires Valid()
      modifies this`current
      ensures Valid()
      ensures found ==> current != null && current.capacity - current.used >= size && FullBetween(chain, old(current), current, size)
      ensures !found ==> (current != null ==> current.next == null) && FullBehind(chain, old(current), size)
    {
      SoundMeans(first, chain);
      found := Walk(size);
    }

    method Walk(size: nat) returns (found: bool)
      requires Linked(chain) && (current == null <==> chain == []) && (current != null ==> current in chain)
      modifies this`current
      ensures (current == null <==> chain == []) && (current != null ==> current in chain)
      ensures found ==> current != null && current.capacity - current.used >= size && FullBetween(chain, old(current), current, size)
      ensures !found ==> (current != null ==> current.next == null) && FullBehind(chain, old(current), size)
    {
      LinkedIsDistinct(chain);
      ghost var from := 0;
      if current != null {
        from :| 0 <= from < |chain| && chain[from] == current;
      }
      ghost var k := from;
      while current != null && current.next != null
        invariant current == null <==> chain == []
        invariant current != null ==> from <= k < |chain| && chain[k] == current
        invariant current != null ==> FullUpTo(chain, from + 1, k + 1, size)
        decreases |chain| - k
      {
        assert k < |chain| - 1 && chain[k].next == chain[k + 1];
        k := k + 1;
        current := current.next;
        if current.capacity - current.used >= size {
          return true;
        }
        OneMoreFull(chain, from + 1, k, size);
      }
      if current != null {
        LastHasNoNext(chain, current);
        FullToTheEnd(chain, from + 1, size);
      }
      return false;
    }

    /** What every way to allocate `size` bytes does.  The chain keeps its blocks and their order and gets at most
        one new block.  The allocation at `ptr` is the last one of block `home`, behind those `home` had; without
        one the chain is as it was.  No other block changes, and the block metric moves with the chain. */
    twostate predicate Allocated(p: Process, size: nat, new ptr: Option<nat>, new home: Block?)
      reads this, chain, p`arenaBlocks
    {
      && Valid() && Grew(old(chain), chain) && (forall b :: b in chain ==> b in old(chain) || b == home)
      && (ptr.None? ==> chain == old(chain) && home == null)
      && (ptr.Some? ==>
            && home != null && home in chain && (home !in old(chain) ==> fresh(home))
            && home.sizes == (if home in old(chain) then old(home.sizes) else []) + [size]
            && home.RangeOf(|home.sizes| - 1) == Range(ptr.value, size))
      && (forall b :: b in chain && b in old(chain) && b != home ==> b.sizes == old(b.sizes))
      && p.arenaBlocks - |chain| == old(p.arenaBlocks) - |old(chain)|
    }

    /** Where an allocation of `size` bytes goes: into the current block if it fits; if it is large, into a block of
        its own size, first or right behind the current one, which stays current; otherwise into the next block with
        room, or into a new one of the default size if there is none, and that block is current. */
    twostate predicate Chosen(size: nat, new ptr: Option<nat>, new home: Block?)
      reads this, chain, current
    {
      && (old(Fits(size)) ==> ptr.Some? && home == current == old(current) && chain == old(chain))
      && (ptr.Some? && !old(Fits(size)) && size > defaultBlockSize / 2 ==>
            && home != null && home !in old(chain) && home.capacity == size
            && (if old(first) == null then current == home else current != null && current == old(current) && current.next == home))
      && (ptr.Some? && !old(Fits(size)) && size <= defaultBlockSize / 2 ==>
            && home != null && current == home
            && if home in old(chain) then old(FullBetween(chain, current, home, size))
               else old(FullBehind(chain, current, size)) && home.capacity == defaultBlockSize)
    }

    /** A large block goes first, or behind the current one. */
    method AddLarge(large: Block) returns (ghost k: nat)
      requires Valid() && large !in chain && large.next == null && large.Ok() && Roomy(large.data, large.capacity, chain)
      modifies this`first, this`current, this`chain, chain`next, large`next
      ensures k <= |old(chain)| && chain == Put(old(chain), k, large) && Valid()
      ensures if old(first) == null then current == large else current == old(current) && current.next == large
    {
      if first == null {
        Begin(large);
        k := 0;
      } else {
        k := Splice(large);
      }
    }

    /** An ordinary block goes to the end and becomes the current one. */
    method AddBlock(block: Block)
      requires Valid() && block !in chain && block.next == null && block.Ok() && Roomy(block.data, block.capacity, chain)
      requires current != null ==> current.next == null
      modifies this`first, this`current, this`chain, chain`next
      ensures chain == Put(old(chain), |old(chain)|, block) && Valid() && current == block
    {
      if first == null {
        Begin(block);
      } else {
        Append(block);
      }
    }

    /** A dedicated block for a large request, spliced in without moving `current`. */
    method AllocLarge(p: Process, size: nat, malloc: Option<nat>) returns (ptr: Option<nat>, ghost home: Block?)
      requires Valid() && 0 < size && size % 16 == 0 && Honest(malloc, size, chain)
      modifies this`first, this`current, this`chain, chain`next, p`arenaBlocks
      ensures Allocated(p, size, ptr, home) && (ptr.None? ==> malloc.None?)
      ensures ptr.Some? ==> home !in old(chain) && home.capacity == size && (old(first) == null ==> current == home)
      ensures old(first) != null ==> current == old(current) && (ptr.Some? ==> current.next == home)
    {
      var large := CreateFullBlock(p, size, malloc);
      if large == null {
        return None, null;
      }
      ghost var k := AddLarge(large);
      PutGrew(old(chain), k, large);
      return Some(large.data), large;
    }

    /** A new block at the end of the chain and the first slice of it. */
    method AllocInNewBlock(p: Process, size: nat, malloc: Option<nat>) returns (ptr: Option<nat>, ghost home: Block?)
      requires Valid() && 0 < size && size % 16 == 0 && Honest(malloc, NewBlockSize(size), chain)
      requires current != null ==> current.next == null
      modifies this`first, this`current, this`chain, chain`next, p`arenaBlocks
      ensures Allocated(p, size, ptr, home) && (ptr.None? ==> malloc.None?)
      ensures ptr.Some? ==> home !in old(chain) && current == home && home.capacity == NewBlockSize(size)
    {
      var block := CreateBlock(p, NewBlockSize(size), malloc);
      if block == null {
        return None, null;
      }
      AddBlock(block);
      PutGrew(old(chain), |old(chain)|, block);
      var a := Carve(size);
      return Some(a), block;
    }

    /** `arena_alloc`.  `home` is the block the new allocation is the last one of. */
    method Alloc(p: Process, size: nat, malloc: Option<nat>) returns (ptr: Option<nat>, ghost home: Block?)
      requires Valid() && size <= MAX_REQUEST && Honest(malloc, AskedFor(Align(size)), chain)
      modifies this`first, this`current, this`chain, chain`next, chain`used, chain`sizes, p`arenaBlocks
      ensures Allocated(p, Align(size), ptr, home) && (ptr.None? ==> size == 0 || malloc.None?) && (ptr.Some? ==> 0 < size)
      ensures 0 < size ==> Chosen(Align(size), ptr, home)
    {
      if size == 0 {
        return None, null;
      }
      ptr, home := AllocRounded(p, Align(size), malloc);
    }

    method AllocRounded(p: Process, size: nat, malloc: Option<nat>) returns (ptr: Option<nat>, ghost home: Block?)
      requires Valid() && 0 < size && size % 16 == 0 && Honest(malloc, AskedFor(size), chain)
      modifies this`first, this`current, this`chain, chain`next, chain`used, chain`sizes, p`arenaBlocks
      ensures Allocated(p, size, ptr, home) && (ptr.None? ==> malloc.None?)
      ensures Chosen(size, ptr, home)
    {
      if current != null && current.capacity - current.used >= size {
        var a := Carve(size);
        return Some(a), current;
      }
      ptr, home := AllocBeyond(p, size, malloc);
    }

    /** The current block is full or there is none. */
    method AllocBeyond(p: Process, size: nat, malloc: Option<nat>) returns (ptr: Option<nat>, ghost home: Block?)
      requires Valid() && 0 < size && size % 16 == 0 && Honest(malloc, AskedFor(size), chain) && !Fits(size)
      modifies this`first, this`current, this`chain, chain`next, chain`used, chain`sizes, p`arenaBlocks
      ensures Allocated(p, size, ptr, home) && (ptr.None? ==> malloc.None?) && Chosen(size, ptr, home)
    {
      if size > defaultBlockSize / 2 {
        ptr, home := AllocLarge(p, size, malloc);
      } else {
        ptr, home := AllocElsewhere(p, size, malloc);
      }
    }

    /** The current block is full and the request an ordinary one: a later block, or a new one. */
    method AllocElsewhere(p: Process, size: nat, malloc: Option<nat>) returns (ptr: Option<nat>, ghost home: Block?)
      requires Valid() && 0 < size && size % 16 == 0 && Honest(malloc, NewBlockSize(size), chain)
      modifies this`first, this`current, this`chain, chain`next, chain`used, chain`sizes, p`arenaBlocks
      ensures Allocated(p, size, ptr, home) && (ptr.None? ==> malloc.None?)
      ensures ptr.Some? ==> current == home
      ensures ptr.Some? && home in old(chain) ==> old(FullBetween(chain, current, home, size))
      ensures ptr.Some? && home !in old(chain) ==> old(FullBehind(chain, current, size)) && home.capacity == NewBlockSize(size)
    {
      var found := Advance(size);
      if found {
        var a := Carve(size);
        return Some(a), current;
      }
      ptr, home := AllocInNewBlock(p, size, malloc);
    }

    /** Allocation `i` of `home` is the last one of the current block, and shrinks or has room to grow. */
    ghost predicate ResizesInPlace(home: Block, i: nat, newSize: nat)
      reads this`current, home
      requires i < |home.sizes|
    {
      && home == current && i == |home.sizes| - 1
      && (newSize <= home.sizes[i] || home.capacity - home.used >= newSize - home.sizes[i])
    }

    /** The test of `arena_realloc`, with both sizes rounded: true exactly for the last allocation of the current
        block, when it shrinks or there is room. */
    method CanResize(ptr: nat, oldSize: nat, newSize: nat, ghost home: Block, ghost i: nat) returns (can: bool)
      requires Valid()
      requires home in chain && i < |home.sizes| && home.RangeOf(i) == Range(ptr, oldSize)
      ensures can <==> ResizesInPlace(home, i, newSize)
    {
      if current == null {
        return false;
      }
      Open(first, chain);
      ghost var x, y :| 0 <= x < |chain| && 0 <= y < |chain| && chain[x] == home && chain[y] == current;
      TestPicksLastAllocation(chain, x, i, y);
      LinkedIsDistinct(chain);
      can := AtEnd(current.data, current.used, ptr, oldSize)
             && (newSize <= oldSize || current.capacity - current.used >= newSize - oldSize);
    }

    /** The last allocation of its block, number `i`, has a new size; no byte and no other block changes. */
    twostate predicate ResizedInPlace(p: Process, newSize: nat, home: Block, i: nat)
      reads this, chain, home, p
      requires i < |old(home.sizes)|
    {
      && Valid() && chain == old(chain) && home.sizes == old(home.sizes)[..i] + [newSize]
      && home.RangeOf(i) == Range(old(home.RangeOf(i)).addr, newSize)
      && (forall b :: b in chain && b != home ==> b.sizes == old(b.sizes))
      && p.memory == old(p.memory) && p.arenaBlocks == old(p.arenaBlocks)
    }

    /** The last allocation of the current block gets its new size. */
    method ResizeHere(ghost p: Process, oldSize: nat, newSize: nat, ghost home: Block, ghost i: nat)
      requires Valid() && 0 < newSize && newSize % 16 == 0
      requires home in chain && i < |home.sizes| && home.sizes[i] == oldSize && ResizesInPlace(home, i, newSize)
      modifies home`used, home`sizes
      ensures ResizedInPlace(p, newSize, home, i)
    {
      Open(first, chain);
      current.ResizeLast(oldSize, newSize);
      Close(first, chain);
      assert home.sizes[..i] == old(home.sizes)[..i];
    }

    /** The same, wherever the allocation goes. */
    method AllocSomewhere(p: Process, size: nat, malloc: Option<nat>) returns (ptr: Option<nat>, ghost home: Block?)
      requires Valid() && 0 < size <= MAX_REQUEST && Honest(malloc, AskedFor(Align(size)), chain)
      modifies this`first, this`current, this`chain, chain`next, chain`used, chain`sizes, p`arenaBlocks
      ensures Allocated(p, Align(size), ptr, home) && Suited(Align(size), ptr, home, malloc)
    {
      ptr, home := Alloc(p, size, malloc);
    }

    /** It goes into the current block if it fits; a new block has its size if it is large, else the default one;
        and it fails only for want of memory. */
    twostate predicate Suited(size: nat, new ptr: Option<nat>, new home: Block?, malloc: Option<nat>)
      reads this`chain, this`current
    {
      && (ptr.None? ==> malloc.None? && !old(Fits(size)))
      && (old(Fits(size)) ==> home == current == old(current) && chain == old(chain))
      && (ptr.Some? && home != null && home !in old(chain) ==>
            home.capacity == if size > defaultBlockSize / 2 then size else defaultBlockSize)
    }

    /** A new allocation of a rounded size beside allocation `i` of block `home`. */
    method AllocBeside(p: Process, newSize: nat, malloc: Option<nat>, ghost home: Block, ghost i: nat)
      returns (r: Option<nat>, ghost newHome: Block?)
      requires Valid() && 0 < newSize <= MAX_REQUEST && newSize % 16 == 0 && Honest(malloc, AskedFor(newSize), chain)
      requires home in chain && i < |home.sizes|
      modifies this`first, this`current, this`chain, chain`next, chain`used, chain`sizes, p`arenaBlocks
      ensures Allocated(p, newSize, r, newHome) && Suited(newSize, r, newHome, malloc)
      ensures r.Some? ==> old(home.RangeOf(i)).addr != r.value && Disjoint(old(home.RangeOf(i)), Range(r.value, newSize))
    {
      r, newHome := AllocSomewhere(p, newSize, malloc);
      if r.Some? {
        GrewKeeps(old(chain), chain, home);
        assert home.RangeOf(i) == old(home.RangeOf(i)) by {
          assert home.sizes[..i] == old(home.sizes[..i]) && home.sizes[i] == old(home.sizes[i]);
        }
        Open(first, chain);
        NewIsDisjoint(chain, home, i, newHome);
      }
    }

    /** A new allocation apart from the old one, and a copy of what both sizes have in common. */
    twostate predicate Moved(p: Process, ptr: nat, oldSize: nat, newSize: nat, new r: Option<nat>, new home: Block?)
      reads this, chain, p
    {
      && Allocated(p, newSize, r, home)
      && (r.None? ==> p.memory == old(p.memory))
      && (r.Some? ==>
            && r.value != ptr && Disjoint(Range(ptr, oldSize), Range(r.value, newSize))
            && p.memory == Overwritten(old(p.memory), r.value, ptr, Common(oldSize, newSize)))
    }

    /** The other part: a new allocation and a copy of what both sizes have in common. */
    method MoveElsewhere(p: Process, ptr: nat, oldSize: nat, newSize: nat, malloc: Option<nat>, ghost home: Block, ghost i: nat)
      returns (r: Option<nat>, ghost newHome: Block?)
      requires Valid() && 0 < newSize <= MAX_REQUEST && newSize % 16 == 0 && Honest(malloc, AskedFor(newSize), chain)
      requires home in chain && i < |home.sizes| && home.RangeOf(i) == Range(ptr, oldSize)
      modifies this`first, this`current, this`chain, chain`next, chain`used, chain`sizes, p
      ensures Moved(p, ptr, oldSize, newSize, r, newHome) && Suited(newSize, r, newHome, malloc)
    {
      r, newHome := AllocBeside(p, newSize, malloc, home, i);
      if r.Some? {
        p.Memcpy(r.value, ptr, Common(oldSize, newSize));
      }
    }

    /** What `arena_realloc` does: without a pointer it allocates, to size 0 it does nothing, and otherwise it
        resizes in place exactly when it can, and moves when it cannot. */
    twostate predicate Reallocated(p: Process, ptr: Option<nat>, oldSize: nat, newSize: nat, home: Block, i: nat,
                                   new r: Option<nat>, new newHome: Block?)
      reads this, chain, home, p
      requires ptr.Some? ==> i < |old(home.sizes)|
    {
      && (ptr.None? ==> Allocated(p, Align(newSize), r, newHome) && p.memory == old(p.memory))
      && (ptr.Some? && newSize == 0 ==> r.None? && newHome == null && Unchanged(p))
      && (ptr.Some? ==> (r == ptr <==> 0 < newSize && old(ResizesInPlace(home, i, Align(newSize)))))
      && (ptr.Some? && r == ptr ==> newHome == home && ResizedInPlace(p, Align(newSize), home, i))
      && (ptr.Some? && 0 < newSize && r != ptr ==> Moved(p, ptr.value, Align(oldSize), Align(newSize), r, newHome))
    }

    /** `arena_realloc` of nothing, which allocates, or of allocation `i` of block `home`.  The result is the
        last allocation of block `newHome`. */
    method Realloc(p: Process, ptr: Option<nat>, oldSize: nat, newSize: nat, malloc: Option<nat>, ghost home: Block, ghost i: nat)
      returns (r: Option<nat>, ghost newHome: Block?)
      requires Valid() && oldSize <= MAX_REQUEST && newSize <= MAX_REQUEST && Honest(malloc, AskedFor(Align(newSize)), chain)
      requires ptr.Some? ==> home in chain && i < |home.sizes| && home.RangeOf(i) == Range(ptr.value, Align(oldSize))
      modifies this`first, this`current, this`chain, chain`next, chain`used, chain`sizes, p
      ensures Reallocated(p, ptr, oldSize, newSize, home, i, r, newHome)
      ensures 0 < newSize && (ptr.None? || r != ptr) ==> Suited(Align(newSize), r, newHome, malloc)
    {
      if ptr.None? {
        r, newHome := Alloc(p, newSize, malloc);
      } else if newSize == 0 {
        r, newHome := None, null;
      } else {
        r, newHome := Resize(p, ptr.value, Align(oldSize), Align(newSize), malloc, home, i);
      }
    }

    twostate predicate Unchanged(p: Process)
      reads this, chain, p
    {
      && Valid() && chain == old(chain) && (forall b :: b in chain ==> b.sizes == old(b.sizes))
      && p.memory == old(p.memory) && p.arenaBlocks == old(p.arenaBlocks)
    }

    /** After a reallocation the bytes both sizes have in common are at the result. */
    twostate lemma ReallocKeepsPrefix(p: Process, ptr: nat, oldSize: nat, newSize: nat, home: Block, i: nat,
                                      new r: Option<nat>, new newHome: Block?, k: nat)
      requires i < |old(home.sizes)| && Reallocated(p, Some(ptr), oldSize, newSize, home, i, r, newHome)
      requires r.Some? && k < Align(oldSize) && k < Align(newSize)
      ensures p.memory(r.value + k) == old(p.memory)(ptr + k)
    {
      PrefixAt(old(p.memory), p.memory, r.value, ptr, Common(Align(oldSize), Align(newSize)), k);
    }

    /** And every byte of every allocation there was, the moved one included, is where it was. */
    twostate lemma ReallocSparesOthers(p: Process, ptr: nat, oldSize: nat, newSize: nat, home: Block, i: nat,
                                       new r: Option<nat>, new newHome: Block?, other: Block, j: nat, k: nat)
      requires i < |old(home.sizes)| && Reallocated(p, Some(ptr), oldSize, newSize, home, i, r, newHome)
      requires old(other in chain && j < |other.sizes|) && k < old(other.sizes[j])
      ensures p.memory(old(other.RangeOf(j)).addr + k) == old(p.memory)(old(other.RangeOf(j)).addr + k)
    {
      if r.Some? && r != Some(ptr) {
        GrewKeeps(old(chain), chain, other);
        assert other.RangeOf(j) == old(other.RangeOf(j)) by {
          assert other.sizes[..j] == old(other.sizes[..j]) && other.sizes[j] == old(other.sizes[j]);
        }
        Open(first, chain);
        NewIsDisjoint(chain, other, j, newHome);
        UntouchedByte(old(p.memory), r.value, ptr, Common(Align(oldSize), Align(newSize)), old(other.RangeOf(j)).addr + k);
      }
    }

    /** Both sizes rounded, the new one not 0. */
    method Resize(p: Process, ptr: nat, oldSize: nat, newSize: nat, malloc: Option<nat>, ghost home: Block, ghost i: nat)
      returns (r: Option<nat>, ghost newHome: Block?)
      requires Valid() && 0 < newSize <= MAX_REQUEST && newSize % 16 == 0 && Honest(malloc, AskedFor(newSize), chain)
      requires home in chain && i < |home.sizes| && home.RangeOf(i) == Range(ptr, oldSize)
      modifies this`first, this`current, this`chain, chain`next, chain`used, chain`sizes, p
      ensures r == Some(ptr) <==> old(ResizesInPlace(home, i, newSize))
      ensures r == Some(ptr) ==> newHome == home && ResizedInPlace(p, newSize, home, i)
      ensures r != Some(ptr) ==> Moved(p, ptr, oldSize, newSize, r, newHome) && Suited(newSize, r, newHome, malloc)
    {
      var can := CanResize(ptr, oldSize, newSize, home, i);
      if can {
        ResizeHere(p, oldSize, newSize, home, i);
        return Some(ptr), home;
      }
      r, newHome := MoveElsewhere(p, ptr, oldSize, newSize, malloc, home, i);
    }

    /** Unlinks the block behind `prev`, or the first one. */
    method Unlink(prev: Block?, next: Block?, ghost block: Block?, ghost kept: seq<Block>)
      requires Filtered(first, prev, block, kept) && Distinct(kept)
      modifies this`first, (if prev == null then {} else {prev})`next
      ensures Filtered(first, prev, next, kept)
    {
      if prev != null {
        prev.next := next;
      } else {
        first := next;
      }
    }

    /** Empties a block that stays. */
    method Empty(prev: Block?, block: Block, ghost kept: seq<Block>)
      requires Filtered(first, prev, block, kept) && block !in kept && block.Placed()
      modifies block`used, block`sizes
      ensures Filtered(first, block, block.next, kept + [block])
    {
      block.used := 0;
      block.sizes := [];
    }

    /** `arena_reset`: keeps, emptied and in order, exactly the blocks of at most the default size. */
    method Reset(p: Process)
      requires Valid()
      modifies this`first, this`current, this`chain, chain`next, chain`used, chain`sizes, p`arenaBlocks
      ensures Valid() && chain == Kept(old(chain), defaultBlockSize) && current == first
      ensures forall b :: b in chain ==> b.used == 0 && b.sizes == []
      ensures p.arenaBlocks - |chain| == old(p.arenaBlocks) - |old(chain)|
    {
      ReadyToFilter(first, chain);
      ghost var prev := Filter(p, chain);
      current := first;
      FilteredIsSound(first, prev, chain, defaultBlockSize);
      chain := Kept(chain, defaultBlockSize);
    }

    /** The loop of the reset. */
    method Filter(p: Process, ghost was: seq<Block>) returns (prev: Block?)
      requires LinkedFrom(was, 0) && Distinct(was) && first == if was == [] then null else was[0]
      requires forall i :: 0 <= i < |was| ==> was[i].Placed()
      modifies this`first, was`next, was`used, was`sizes, p`arenaBlocks
      ensures Filtered(first, prev, null, Kept(was, defaultBlockSize))
      ensures p.arenaBlocks - |Kept(was, defaultBlockSize)| == old(p.arenaBlocks) - |was|
    {
      var block := first;
      prev := null;
      ghost var i, kept := 0, [];
      while block != null
        invariant 0 <= i <= |was| && block == (if i < |was| then was[i] else null) && kept == Kept(was[..i], defaultBlockSize)
        invariant Filtered(first, prev, block, kept) && LinkedFrom(was, i)
        invariant p.arenaBlocks - |kept| == old(p.arenaBlocks) - i
        decreases |was| - i
      {
        KeptStep(was, i, defaultBlockSize);
        prev, block, kept := Visit(p, prev, block, was, i, kept);
        i := i + 1;
      }
      assert was[..i] == was;
    }

    /** One round of the reset loop: the block goes or stays, emptied. */
    method Visit(p: Process, prev: Block?, block: Block, ghost was: seq<Block>, ghost i: nat, ghost kept: seq<Block>)
      returns (prev': Block?, next: Block?, ghost kept': seq<Block>)
      requires i < |was| && block == was[i] && block.Placed() && LinkedFrom(was, i)
      requires Filtered(first, prev, block, kept) && Distinct(kept) && Behind(kept, was, i)
      modifies this`first, block`used, block`sizes, kept`next, p`arenaBlocks
      ensures next == if i + 1 < |was| then was[i + 1] else null
      ensures kept' == kept + if block.capacity <= defaultBlockSize then [block] else []
      ensures Filtered(first, prev', next, kept') && LinkedFrom(was, i + 1)
      ensures p.arenaBlocks - |kept'| == old(p.arenaBlocks) - |kept| - 1
    {
      next := block.next;
      if block.capacity > defaultBlockSize {
        Unlink(prev, next, block, kept);
        prev', kept' := prev, kept;
        p.arenaBlocks := p.arenaBlocks - 1;
      } else {
        Empty(prev, block, kept);
        prev', kept' := block, kept + [block];
      }
    }

    /** `arena_destroy`. */
    method Destroy(p: Process)
      requires Valid()
      modifies this`first, this`current, this`chain, p`arenaBlocks
      ensures Valid() && chain == []
      ensures p.arenaBlocks == old(p.arenaBlocks) - |old(chain)|
    {
      Open(first, chain);
      var block := first;
      var count := 0;
      while block != null
        invariant 0 <= count <= |chain| && block == (if count < |chain| then chain[count] else null)
        decreases |chain| - count
      {
        assert block == chain[count];
        block := block.next;
        count := count + 1;
      }
      first := null;
      current := null;
      chain := [];
      if count > 0 {
        p.arenaBlocks := p.arenaBlocks - count;
      }
    }

    /** `arena_contains`. */
    method Contains(ptr: nat) returns (found: bool)
      requires Valid()
      ensures found <==> exists i :: 0 <= i < |chain| && chain[i].data <= ptr < chain[i].data + chain[i].capacity
    {
      Open(first, chain);
      var block := first;
      ghost var i := 0;
      while block != null
        invariant 0 <= i <= |chain| && block == (if i < |chain| then chain[i] else null)
        invariant forall j :: 0 <= j < i ==> !(chain[j].data <= ptr < chain[j].data + chain[j].capacity)
        decreases |chain| - i
      {
        assert block == chain[i];
        if block.data <= ptr < block.data + block.capacity {
          return true;
        }
        block := block.next;
        i := i + 1;
      }
      return false;
    }
  }

  // ------------------------------------------------------------------- small lemmas

  /** The common part of two sizes. */
  function Common(a: nat, b: nat): nat {
    if a < b then a else b
  }

  /** After a move, the first bytes of the new allocation are those of the old one, and any
      allocation disjoint from the new one, the old one included, reads as before. */
  lemma CommonPrefixSurvives(memory: int -> int, old_: Range, new_: Range, k: nat, other: Range, j: nat)
    requires Disjoint(old_, new_) && Disjoint(other, new_)
    requires k < old_.size && k < new_.size && j < other.size
    ensures var after := Overwritten(memory, new_.addr, old_.addr, Common(old_.size, new_.size));
            && after(new_.addr + k) == memory(old_.addr + k) == after(old_.addr + k)
            && after(other.addr + j) == memory(other.addr + j)
  {
    var n := Common(old_.size, new_.size);
    CopiedByte(memory, new_.addr, old_.addr, n, k);
    UntouchedByte(memory, new_.addr, old_.addr, n, old_.addr + k);
    UntouchedByte(memory, new_.addr, old_.addr, n, other.addr + j);
  }

  lemma CopiedByte(memory: int -> int, dst: nat, src: nat, n: nat, k: nat)
    requires k < n
    ensures Overwritten(memory, dst, src, n)(dst + k) == memory(src + k)
  {
    assert src + (dst + k - dst) == src + k;
  }

  lemma PrefixAt(was: int -> int, now: int -> int, dst: nat, src: nat, n: nat, k: nat)
    requires k < n && (dst == src ==> now == was) && (dst != src ==> now == Overwritten(was, dst, src, n))
    ensures now(dst + k) == was(src + k)
  {
    if dst != src { CopiedByte(was, dst, src, n, k); }
  }

  lemma UntouchedByte(memory: int -> int, dst: nat, src: nat, n: nat, a: nat)
    requires a < dst || dst + n <= a
    ensures Overwritten(memory, dst, src, n)(a) == memory(a)
  {
  }

  /** Of an arena in order, every allocation is aligned and inside the used part of its block, and apart from
      every other allocation of every block. */
  lemma AllocationsStandApart(a: Arena, x: nat, i: nat, y: nat, j: nat)
    requires a.Valid() && x < |a.chain| && y < |a.chain|
    requires i < |a.chain[x].sizes| && j < |a.chain[y].sizes| && (x, i) != (y, j)
    ensures var b, r := a.chain[x], a.chain[x].RangeOf(i);
            && r.addr % 16 == 0 && r.size % 16 == 0 && 0 < r.size
            && b.data <= r.addr && r.addr + r.size <= b.data + b.used <= b.data + b.capacity < U64
            && Disjoint(r, a.chain[y].RangeOf(j))
  {
    Open(a.first, a.chain);
    AllocationFits(a.chain[x], i);
    AllocationsAreDisjoint(a.chain, x, i, y, j);
  }

  /** The last allocation of one block is disjoint from any other allocation. */
  lemma NewIsDisjoint(chain: seq<Block>, home: Block, i: nat, newHome: Block)
    requires AllOk(chain) && AllApart(chain) && home in chain && newHome in chain
    requires i < |home.sizes| && newHome.sizes != [] && (home == newHome ==> i < |home.sizes| - 1)
    ensures Disjoint(home.RangeOf(i), newHome.RangeOf(|newHome.sizes| - 1))
    ensures home.RangeOf(i).addr != newHome.RangeOf(|newHome.sizes| - 1).addr
  {
    AllocationFits(home, i);
    AllocationFits(newHome, |newHome.sizes| - 1);
    var x, y :| 0 <= x < |chain| && 0 <= y < |chain| && chain[x] == home && chain[y] == newHome;
    AllocationsAreDisjoint(chain, x, i, y, |newHome.sizes| - 1);
  }

  /** The blocks of a chain that a reset keeps. */
  ghost function Kept(chain: seq<Block>, limit: nat): seq<Block> {
    if chain == [] then []
    else
      var last := chain[|chain| - 1];
      Kept(chain[..|chain| - 1], limit) + if last.capacity <= limit then [last] else []
  }

  lemma {:induction false} KeptMembers(chain: seq<Block>, limit: nat)
    ensures forall i :: 0 <= i < |Kept(chain, limit)| ==> Kept(chain, limit)[i] in chain && Kept(chain, limit)[i].capacity <= limit
    ensures forall i :: 0 <= i < |chain| && chain[i].capacity <= limit ==> chain[i] in Kept(chain, limit)
  {
    if chain != [] { KeptMembers(chain[..|chain| - 1], limit); }
  }

  /** No block of `kept` is among those from position `i` on. */
  ghost predicate Behind(kept: seq<Block>, chain: seq<Block>, i: nat) {
    forall x, j :: 0 <= x < |kept| && i <= j < |chain| ==> kept[x] != chain[j]
  }

  lemma KeptStep(chain: seq<Block>, i: nat, limit: nat)
    requires i < |chain| && Distinct(chain)
    ensures var kept := Kept(chain[..i], limit);
            && Kept(chain[..i + 1], limit) == kept + (if chain[i].capacity <= limit then [chain[i]] else [])
            && Distinct(kept) && (forall x :: 0 <= x < |kept| ==> kept[x] in chain) && Behind(kept, chain, i)
  {
    assert chain[..i + 1][..i] == chain[..i];
    KeptMembers(chain[..i], limit);
    KeptDistinct(chain[..i], limit);
  }

  lemma {:induction false} KeptDistinct(chain: seq<Block>, limit: nat)
    requires Distinct(chain)
    ensures Distinct(Kept(chain, limit))
  {
    if chain != [] {
      KeptDistinct(chain[..|chain| - 1], limit);
      KeptMembers(chain[..|chain| - 1], limit);
    }
  }

  lemma ReadyToFilter(first: Block?, chain: seq<Block>)
    requires Sound(first, chain)
    ensures first == (if chain == [] then null else chain[0])
    ensures LinkedFrom(chain, 0) && Distinct(chain) && AllApart(chain)
    ensures forall i :: 0 <= i < |chain| ==> chain[i].Placed()
  {
    Open(first, chain);
    LinkedIsDistinct(chain);
  }

  lemma FilteredIsSound(first: Block?, prev: Block?, chain: seq<Block>, limit: nat)
    requires Filtered(first, prev, null, Kept(chain, limit)) && AllApart(chain)
    ensures Sound(first, Kept(chain, limit))
    ensures forall b :: b in Kept(chain, limit) ==> b.used == 0 && b.sizes == []
    ensures Kept(chain, limit) == [] <==> first == null
    ensures first != null ==> first in Kept(chain, limit)
  {
    KeptApart(chain, limit);
    Close(first, Kept(chain, limit));
  }

  lemma {:induction false} KeptApart(chain: seq<Block>, limit: nat)
    requires AllApart(chain)
    ensures AllApart(Kept(chain, limit))
  {
    if chain != [] {
      var n := |chain| - 1;
      var front, kept := chain[..n], Kept(chain[..n], limit);
      forall i, j | 0 <= i < j < |front| ensures Apart(front[i], front[j]) {
        assert Apart(chain[i], chain[j]);
      }
      KeptApart(front, limit);
      KeptMembers(front, limit);
      forall i | 0 <= i < |kept| ensures Apart(kept[i], chain[n]) {
        var x :| 0 <= x < |front| && front[x] == kept[i];
        assert Apart(chain[x], chain[n]);
      }
    }
  }

  /** The part of the list a reset has been through: `kept`, emptied, linked, and leading on to `block`. */
  ghost predicate Filtered(first: Block?, prev: Block?, block: Block?, kept: seq<Block>)
    reads kept
  {
    && (prev == null <==> kept == [])
    && (kept == [] ==> first == block)
    && (kept != [] ==> prev == kept[|kept| - 1] && first == kept[0] && prev.next == block)
    && (forall i {:trigger kept[i].next} :: 0 <= i < |kept| - 1 ==> kept[i].next == kept[i + 1])
    && (forall i :: 0 <= i < |kept| ==> kept[i].used == 0 && kept[i].sizes == [] && kept[i].Placed())
  }

  /** The part of the list from position `k` on is still as it was. */
  ghost predicate LinkedFrom(chain: seq<Block>, k: nat)
    reads chain`next
  {
    && (forall i {:trigger chain[i].next} :: k <= i < |chain| - 1 ==> chain[i].next == chain[i + 1])
    && (k < |chain| ==> chain[|chain| - 1].next == null)
  }

  lemma PutMembers(chain: seq<Block>, k: nat, x: Block)
    requires k <= |chain|
    ensures Put(chain, k, x)[k] == x
    ensures forall b :: b in Put(chain, k, x) <==> b == x || b in chain
  {
    var c := Put(chain, k, x);
    forall i | 0 <= i < |c| ensures i < k ==> c[i] == chain[i] ensures i > k ==> c[i] == chain[i - 1] {}
    forall b | b in chain ensures b in c {
      var i :| 0 <= i < |chain| && chain[i] == b;
      assert c[if i < k then i else i + 1] == b;
    }
  }

  /** A good block apart from the others joins the chain anywhere. */
  lemma PutGood(chain: seq<Block>, k: nat, x: Block)
    requires k <= |chain| && Good(chain) && x.Ok() && x !in chain && Roomy(x.data, x.capacity, chain)
    ensures Good(Put(chain, k, x))
  {
    GoodMeans(chain);
    PutApart(chain, k, x);
    PutOk(chain, k, x);
    ApartIsGood(Put(chain, k, x));
  }

  lemma PutSound(first: Block?, chain: seq<Block>, k: nat, x: Block)
    requires 0 < k <= |chain| && first == chain[0] && Good(chain) && Linked(Put(chain, k, x))
    requires x.Ok() && x !in chain && Roomy(x.data, x.capacity, chain)
    ensures Sound(first, Put(chain, k, x))
  {
    PutGood(chain, k, x);
    LinkedIsSound(first, Put(chain, k, x));
  }

  lemma PutGrew(chain: seq<Block>, k: nat, x: Block)
    requires k <= |chain|
    ensures Grew(chain, Put(chain, k, x)) && forall b :: b in Put(chain, k, x) <==> b == x || b in chain
  {
    PutIsGrowth(chain, k, x);
    PutMembers(chain, k, x);
  }

  lemma {:induction false} GrewKeeps(a: seq<Block>, b: seq<Block>, x: Block)
    requires Grew(a, b) && x in a
    ensures x in b
  {
    if a != b && b[1..] != a && x != a[0] { GrewKeeps(a[1..], b[1..], x); }
  }

  lemma {:induction false} PutIsGrowth(chain: seq<Block>, k: nat, x: Block)
    requires k <= |chain|
    ensures Grew(chain, Put(chain, k, x))
  {
    var c := Put(chain, k, x);
    if k == 0 {
      assert c[1..] == chain;
    } else {
      PutIsGrowth(chain[1..], k - 1, x);
      assert c[1..] == Put(chain[1..], k - 1, x);
    }
  }

  lemma PutOk(chain: seq<Block>, k: nat, x: Block)
    requires k <= |chain| && AllOk(chain) && x.Ok()
    ensures AllOk(Put(chain, k, x))
  {
    var c := Put(chain, k, x);
    forall i | 0 <= i < |c| ensures c[i].Ok() {
      assert c[i] == if i < k then chain[i] else if i == k then x else chain[i - 1];
    }
  }

  lemma PutApart(chain: seq<Block>, k: nat, x: Block)
    requires k <= |chain| && AllApart(chain) && Roomy(x.data, x.capacity, chain)
    ensures AllApart(Put(chain, k, x))
  {
    RoomyMeans(x.data, x.capacity, chain);
    var c := Put(chain, k, x);
    forall i, j | 0 <= i < j < |c| ensures Apart(c[i], c[j]) {
      var i', j' := if i < k then i else i - 1, if j < k then j else j - 1;
      if i != k && j != k { assert Apart(chain[i'], chain[j']); }
    }
  }

  /** A chain that ends cannot meet a block twice. */
  lemma LinkedIsDistinct(chain: seq<Block>)
    requires Linked(chain)
    ensures Distinct(chain)
  {
    forall i, j | 0 <= i < j < |chain| ensures chain[i] != chain[j] {
      if chain[i] == chain[j] { SameTail(chain, i, j); }
    }
  }

  lemma {:induction false} SameTail(chain: seq<Block>, i: nat, j: nat)
    requires Linked(chain) && i < j < |chain| && chain[i] == chain[j]
    ensures false
    decreases |chain| - j
  {
    assert chain[i].next == chain[i + 1];
    if j + 1 < |chain| {
      assert chain[j].next == chain[j + 1];
      SameTail(chain, i + 1, j + 1);
    }
  }

  /** A block linked in behind position `k - 1` extends the chain. */
  lemma LinkedPut(chain: seq<Block>, k: nat, x: Block)
    requires 0 < k <= |chain|
    requires forall i {:trigger chain[i].next} :: 0 <= i < |chain| - 1 && i != k - 1 ==> chain[i].next == chain[i + 1]
    requires k < |chain| ==> chain[|chain| - 1].next == null
    requires chain[k - 1].next == x && x.next == if k < |chain| then chain[k] else null
    ensures Linked(Put(chain, k, x))
  {
    var c := Put(chain, k, x);
    forall i | 0 <= i < |c| - 1 ensures c[i].next == c[i + 1] {
      if i < k - 1 {
        assert c[i] == chain[i] && c[i + 1] == chain[i + 1];
      } else if i > k {
        assert c[i] == chain[i - 1] && c[i + 1] == chain[i];
      }
    }
  }

  /** Only the last block of a chain has no successor. */
  lemma LastHasNoNext(chain: seq<Block>, b: Block)
    requires Linked(chain) && b in chain && b.next == null
    ensures b == chain[|chain| - 1]
  {
    forall i | 0 <= i < |chain| - 1 ensures chain[i] != b {
      assert chain[i].next == chain[i + 1];
    }
  }
}
