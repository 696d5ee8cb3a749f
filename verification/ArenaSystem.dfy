/** Any number of arenas in one process: the block metric counts the blocks of all of them. */
module ArenaSystem {
  import opened Basics
  import opened ArenaLayout
  import opened Arena

  /** The number of blocks on all chains. */
  ghost function Blocks(arenas: seq<Arena>): nat
    reads arenas`chain
  {
    if arenas == [] then 0 else |arenas[0].chain| + Blocks(arenas[1..])
  }

  /** The blocks on the arena's chain are those marked as its own. */
  ghost predicate Owns(a: Arena, owner: map<Block, Arena>, blocks: set<Block>)
    reads a`chain
  {
    forall k :: 0 <= k < |a.chain| ==> a.chain[k] in blocks && a.chain[k] in owner && owner[a.chain[k]] == a
  }

  /** Different arenas, each in order and with blocks of its own. */
  ghost predicate InOrder(arenas: seq<Arena>, owner: map<Block, Arena>, blocks: set<Block>)
    reads arenas`first, arenas`current, arenas`chain, blocks`next, blocks`used, blocks`sizes
  {
    arenas != [] ==>
      && Owns(arenas[0], owner, blocks) && arenas[0].Valid() && arenas[0] !in arenas[1..]
      && InOrder(arenas[1..], owner, blocks)
  }

  /** The metric is the number of blocks on all chains. */
  ghost predicate Counted(p: Process, arenas: seq<Arena>, owner: map<Block, Arena>)
    reads p`arenaBlocks, arenas`first, arenas`current, arenas`chain
    reads owner.Keys`next, owner.Keys`used, owner.Keys`sizes
  {
    InOrder(arenas, owner, owner.Keys) && p.arenaBlocks == Blocks(arenas)
  }

  /** The arenas without the one at position `i`. */
  ghost function Others(arenas: seq<Arena>, i: nat): seq<Arena>
    requires i < |arenas|
  {
    if i == 0 then arenas[1..] else [arenas[0]] + Others(arenas[1..], i - 1)
  }

  lemma {:induction false} OthersAre(arenas: seq<Arena>, i: nat)
    requires i < |arenas|
    ensures forall a :: a in Others(arenas, i) ==> a in arenas
    ensures forall a :: a in arenas ==> a == arenas[i] || a in Others(arenas, i)
  {
    assert arenas == [arenas[0]] + arenas[1..];
    if i > 0 { OthersAre(arenas[1..], i - 1); }
  }

  /** The blocks of the other arenas. */
  ghost function NotOf(a: Arena, owner: map<Block, Arena>): set<Block> {
    set b | b in owner && owner[b] != a
  }

  lemma {:induction false} Narrow(arenas: seq<Arena>, owner: map<Block, Arena>, a: Arena)
    requires InOrder(arenas, owner, owner.Keys) && a !in arenas
    ensures InOrder(arenas, owner, NotOf(a, owner))
  {
    if arenas != [] { Narrow(arenas[1..], owner, a); }
  }

  lemma {:induction false} TakeOut(arenas: seq<Arena>, i: nat, owner: map<Block, Arena>)
    requires i < |arenas| && InOrder(arenas, owner, owner.Keys)
    ensures arenas[i].Valid() && Owns(arenas[i], owner, owner.Keys) && arenas[i] !in Others(arenas, i)
    ensures InOrder(Others(arenas, i), owner, NotOf(arenas[i], owner))
    ensures Blocks(arenas) == |arenas[i].chain| + Blocks(Others(arenas, i))
  {
    if i > 0 {
      TakeOut(arenas[1..], i - 1, owner);
      OthersAre(arenas[1..], i - 1);
    } else {
      Narrow(arenas[1..], owner, arenas[0]);
    }
  }

  /** The owners once the blocks on the arena's chain are marked as its own. */
  ghost function Claim(owner: map<Block, Arena>, a: Arena): map<Block, Arena>
    reads a`chain
  {
    owner + map b | b in a.chain :: a
  }

  /** An arena in order beside others whose blocks are `outside`, and the metric counts the blocks of all. */
  ghost predicate Beside(p: Process, a: Arena, others: seq<Arena>, owner: map<Block, Arena>, outside: set<Block>)
    reads p`arenaBlocks, a`first, a`current, a`chain, a.chain`next, a.chain`used, a.chain`sizes
    reads others`first, others`current, others`chain, outside`next, outside`used, outside`sizes
  {
    && a.Valid() && a !in others && (forall b :: b in a.chain ==> b !in outside)
    && InOrder(others, owner, outside) && p.arenaBlocks == |a.chain| + Blocks(others)
  }

  lemma {:induction false} Widen(arenas: seq<Arena>, owner: map<Block, Arena>, owner': map<Block, Arena>,
                                 blocks: set<Block>)
    requires InOrder(arenas, owner, blocks)
    requires forall b :: b in blocks && b in owner ==> b in owner' && owner'[b] == owner[b]
    ensures InOrder(arenas, owner', owner'.Keys)
  {
    if arenas != [] { Widen(arenas[1..], owner, owner', blocks); }
  }

  lemma {:induction false} PutBack(arenas: seq<Arena>, i: nat, owner: map<Block, Arena>, owner': map<Block, Arena>,
                                   blocks: set<Block>)
    requires i < |arenas| && arenas[i].Valid() && Owns(arenas[i], owner', owner'.Keys) && arenas[i] !in Others(arenas, i)
    requires InOrder(Others(arenas, i), owner, blocks)
    requires forall b :: b in blocks && b in owner ==> b in owner' && owner'[b] == owner[b]
    ensures InOrder(arenas, owner', owner'.Keys)
    ensures Blocks(arenas) == |arenas[i].chain| + Blocks(Others(arenas, i))
  {
    OthersAre(arenas, i);
    if i > 0 {
      PutBack(arenas[1..], i - 1, owner, owner', blocks);
      OthersAre(arenas[1..], i - 1);
    } else {
      Widen(arenas[1..], owner, owner', blocks);
    }
  }

  /** One arena is taken out of their number. */
  lemma Detach(p: Process, arenas: seq<Arena>, i: nat, owner: map<Block, Arena>)
    requires i < |arenas| && Counted(p, arenas, owner)
    ensures Beside(p, arenas[i], Others(arenas, i), owner, NotOf(arenas[i], owner))
  {
    TakeOut(arenas, i, owner);
  }

  /** An arena that has changed on its own is back among the others. */
  lemma Attach(p: Process, arenas: seq<Arena>, i: nat, owner: map<Block, Arena>)
    requires i < |arenas| && Beside(p, arenas[i], Others(arenas, i), owner, NotOf(arenas[i], owner))
    ensures Counted(p, arenas, Claim(owner, arenas[i]))
  {
    PutBack(arenas, i, owner, Claim(owner, arenas[i]), NotOf(arenas[i], owner));
  }

  /** The others do not notice an allocation. */
  method AllocBeside(p: Process, a: Arena, size: nat, malloc: Option<nat>,
                     ghost others: seq<Arena>, ghost owner: map<Block, Arena>, ghost outside: set<Block>)
    returns (ptr: Option<nat>, ghost home: Block?)
    requires Beside(p, a, others, owner, outside) && size <= MAX_REQUEST && Honest(malloc, a.AskedFor(Align(size)), a.chain)
    modifies a`first, a`current, a`chain, a.chain`next, a.chain`used, a.chain`sizes, p`arenaBlocks
    ensures Beside(p, a, others, owner, outside)
    ensures a.Allocated(p, Align(size), ptr, home)
  {
    ptr, home := a.Alloc(p, size, malloc);
    assert InOrder(others, owner, outside) && Blocks(others) == old(Blocks(others));
  }

  /** An allocation in one of the arenas. */
  method AllocIn(p: Process, a: Arena, size: nat, malloc: Option<nat>,
                 ghost arenas: seq<Arena>, ghost i: nat, ghost owner: map<Block, Arena>)
    returns (ptr: Option<nat>, ghost home: Block?)
    requires i < |arenas| && a == arenas[i] && Counted(p, arenas, owner)
    requires size <= MAX_REQUEST && Honest(malloc, a.AskedFor(Align(size)), a.chain)
    modifies a`first, a`current, a`chain, a.chain`next, a.chain`used, a.chain`sizes, p`arenaBlocks
    ensures Counted(p, arenas, Claim(owner, a)) && a.Allocated(p, Align(size), ptr, home)
  {
    Detach(p, arenas, i, owner);
    ptr, home := AllocBeside(p, a, size, malloc, Others(arenas, i), owner, NotOf(a, owner));
    Attach(p, arenas, i, owner);
  }

  method ReallocBeside(p: Process, a: Arena, ptr: Option<nat>, oldSize: nat, newSize: nat, malloc: Option<nat>,
                       ghost home: Block, ghost k: nat,
                       ghost others: seq<Arena>, ghost owner: map<Block, Arena>, ghost outside: set<Block>)
    returns (r: Option<nat>, ghost newHome: Block?)
    requires Beside(p, a, others, owner, outside) && oldSize <= MAX_REQUEST && newSize <= MAX_REQUEST
    requires Honest(malloc, a.AskedFor(Align(newSize)), a.chain)
    requires ptr.Some? ==> home in a.chain && k < |home.sizes| && home.RangeOf(k) == Range(ptr.value, Align(oldSize))
    modifies a`first, a`current, a`chain, a.chain`next, a.chain`used, a.chain`sizes, p
    ensures Beside(p, a, others, owner, outside)
    ensures a.Reallocated(p, ptr, oldSize, newSize, home, k, r, newHome)
  {
    r, newHome := a.Realloc(p, ptr, oldSize, newSize, malloc, home, k);
  }

  /** A reallocation in one of the arenas. */
  method ReallocIn(p: Process, a: Arena, ptr: Option<nat>, oldSize: nat, newSize: nat, malloc: Option<nat>,
                   ghost home: Block, ghost k: nat,
                   ghost arenas: seq<Arena>, ghost i: nat, ghost owner: map<Block, Arena>)
    returns (r: Option<nat>, ghost newHome: Block?)
    requires i < |arenas| && a == arenas[i] && Counted(p, arenas, owner)
    requires oldSize <= MAX_REQUEST && newSize <= MAX_REQUEST && Honest(malloc, a.AskedFor(Align(newSize)), a.chain)
    requires ptr.Some? ==> home in a.chain && k < |home.sizes| && home.RangeOf(k) == Range(ptr.value, Align(oldSize))
    modifies a`first, a`current, a`chain, a.chain`next, a.chain`used, a.chain`sizes, p
    ensures Counted(p, arenas, Claim(owner, a)) && a.Reallocated(p, ptr, oldSize, newSize, home, k, r, newHome)
  {
    Detach(p, arenas, i, owner);
    r, newHome := ReallocBeside(p, a, ptr, oldSize, newSize, malloc, home, k, Others(arenas, i), owner, NotOf(a, owner));
    Attach(p, arenas, i, owner);
  }

  method ResetBeside(p: Process, a: Arena, ghost others: seq<Arena>, ghost owner: map<Block, Arena>, ghost outside: set<Block>)
    requires Beside(p, a, others, owner, outside)
    modifies a`first, a`current, a`chain, a.chain`next, a.chain`used, a.chain`sizes, p`arenaBlocks
    ensures Beside(p, a, others, owner, outside)
    ensures a.chain == Kept(old(a.chain), a.defaultBlockSize)
  {
    a.Reset(p);
    KeptMembers(old(a.chain), a.defaultBlockSize);
  }

  /** A reset of one of the arenas. */
  method ResetIn(p: Process, a: Arena, ghost arenas: seq<Arena>, ghost i: nat, ghost owner: map<Block, Arena>)
    requires i < |arenas| && a == arenas[i] && Counted(p, arenas, owner)
    modifies a`first, a`current, a`chain, a.chain`next, a.chain`used, a.chain`sizes, p`arenaBlocks
    ensures Counted(p, arenas, Claim(owner, a)) && a.chain == Kept(old(a.chain), a.defaultBlockSize)
  {
    Detach(p, arenas, i, owner);
    ResetBeside(p, a, Others(arenas, i), owner, NotOf(a, owner));
    Attach(p, arenas, i, owner);
  }

  method DestroyBeside(p: Process, a: Arena, ghost others: seq<Arena>, ghost owner: map<Block, Arena>, ghost outside: set<Block>)
    requires Beside(p, a, others, owner, outside)
    modifies a`first, a`current, a`chain, p`arenaBlocks
    ensures Beside(p, a, others, owner, outside)
    ensures a.chain == []
  {
    a.Destroy(p);
  }

  /** The end of one of the arenas. */
  method DestroyIn(p: Process, a: Arena, ghost arenas: seq<Arena>, ghost i: nat, ghost owner: map<Block, Arena>)
    requires i < |arenas| && a == arenas[i] && Counted(p, arenas, owner)
    modifies a`first, a`current, a`chain, p`arenaBlocks
    ensures Counted(p, arenas, Claim(owner, a)) && a.chain == []
  {
    Detach(p, arenas, i, owner);
    DestroyBeside(p, a, Others(arenas, i), owner, NotOf(a, owner));
    Attach(p, arenas, i, owner);
  }

  /** A new arena, without a block, joins the others. */
  method InitIn(p: Process, blockSize: nat, ghost arenas: seq<Arena>, ghost owner: map<Block, Arena>) returns (a: Arena)
    requires blockSize <= MAX_REQUEST && Counted(p, arenas, owner)
    ensures Counted(p, [a] + arenas, owner) && fresh(a)
  {
    a := new Arena(blockSize);
    assert ([a] + arenas)[1..] == arenas;
  }
}
