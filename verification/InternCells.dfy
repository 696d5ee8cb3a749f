/** The linked cells behind the interning table: an array of chain heads and what each chain holds. */
module InternCells {
  import opened Basics
  import opened InternPool

  /** A node of the pool and the pointer to the one behind it.  The ghost labels say which chain of which
      array the cell is on, and how many cells are behind it, so cells with different labels differ. */
  class Cell {
    const node: Node
    var next: Cell?
    ghost var owner: object?
    ghost var bucket: nat
    ghost var rank: nat

    constructor (node: Node)
      ensures this.node == node && owner == null
    {
      this.node := node;
      next, owner, bucket, rank := null, null, 0, 0;
    }
  }

  ghost function Values(cells: seq<Cell>): (chain: Chain)
    ensures |chain| == |cells|
  {
    if cells == [] then [] else [cells[0].node] + Values(cells[1..])
  }

  lemma {:induction false} ValueAt(cells: seq<Cell>, i: nat)
    requires i < |cells|
    ensures Values(cells)[i] == cells[i].node && Values(cells)[i..] == Values(cells[i..])
  {
    if i > 0 {
      ValueAt(cells[1..], i - 1);
      assert cells[1..][i - 1..] == cells[i..];
    }
  }

  ghost function Buckets(chains: seq<seq<Cell>>): (buckets: seq<Chain>)
    ensures |buckets| == |chains|
  {
    if chains == [] then [] else [Values(chains[0])] + Buckets(chains[1..])
  }

  lemma {:induction false} BucketAt(chains: seq<seq<Cell>>, b: nat)
    requires b < |chains|
    ensures Buckets(chains)[b] == Values(chains[b])
  {
    if b > 0 { BucketAt(chains[1..], b - 1); }
  }

  lemma {:induction false} BucketsUpdate(chains: seq<seq<Cell>>, b: nat, cell: Cell)
    requires b < |chains|
    ensures Buckets(chains[b := [cell] + chains[b]]) == Buckets(chains)[b := [cell.node] + Buckets(chains)[b]]
  {
    var chains' := chains[b := [cell] + chains[b]];
    if b == 0 {
      assert ([cell] + chains[0])[1..] == chains[0] && chains'[1..] == chains[1..];
    } else {
      BucketsUpdate(chains[1..], b - 1, cell);
      assert chains'[1..] == chains[1..][b - 1 := [cell] + chains[b]];
    }
  }

  /** The pointers from `head` on lead through `cells`, all labelled as chain `b` of `owner`. */
  ghost predicate Chained(head: Cell?, cells: seq<Cell>, owner: object, b: nat)
    reads cells
    decreases |cells|
  {
    if cells == [] then head == null
    else
      && head == cells[0] && cells[0].owner == owner && cells[0].bucket == b && cells[0].rank == |cells| - 1
      && Chained(cells[0].next, cells[1..], owner, b)
  }

  /** The same, cell by cell. */
  ghost predicate Links(head: Cell?, cells: seq<Cell>, owner: object, b: nat)
    reads cells
  {
    && head == (if cells == [] then null else cells[0])
    && forall k {:trigger cells[k]} :: 0 <= k < |cells| ==>
         && cells[k].owner == owner && cells[k].bucket == b && cells[k].rank == |cells| - 1 - k
         && cells[k].next == if k + 1 < |cells| then cells[k + 1] else null
  }

  lemma {:induction false} ChainedMeans(head: Cell?, cells: seq<Cell>, owner: object, b: nat)
    requires Chained(head, cells, owner, b)
    ensures Links(head, cells, owner, b)
    decreases |cells|
  {
    if cells != [] {
      ChainedMeans(cells[0].next, cells[1..], owner, b);
      forall k | 0 <= k < |cells|
        ensures cells[k].owner == owner && cells[k].bucket == b && cells[k].rank == |cells| - 1 - k
                && cells[k].next == if k + 1 < |cells| then cells[k + 1] else null
      {
        if k > 0 { assert cells[k] == cells[1..][k - 1]; }
      }
    }
  }

  lemma {:induction false} LinksMean(head: Cell?, cells: seq<Cell>, owner: object, b: nat)
    requires Links(head, cells, owner, b)
    ensures Chained(head, cells, owner, b)
    decreases |cells|
  {
    if cells != [] { LinksMean(cells[0].next, cells[1..], owner, b); }
  }

  lemma {:induction false} Labels(head: Cell?, cells: seq<Cell>, owner: object, b: nat)
    requires Chained(head, cells, owner, b)
    ensures forall c :: c in cells ==> c.owner == owner && c.bucket == b && c.rank < |cells|
    decreases |cells|
  {
    if cells != [] {
      Labels(cells[0].next, cells[1..], owner, b);
      assert cells == [cells[0]] + cells[1..];
    }
  }

  /** Chain `b` starts at its place in the array. */
  ghost predicate HoldsAt(table: array<Cell?>, chains: seq<seq<Cell>>, b: nat)
    requires b < |chains| == table.Length
    reads table, chains[b]
  {
    Chained(table[b], chains[b], table, b)
  }

  ghost predicate Within(cells: seq<Cell>, all: set<Cell>) {
    forall i :: 0 <= i < |cells| ==> cells[i] in all
  }

  /** The chains from `b` on, made of cells of `all`. */
  ghost predicate HoldsFrom(table: array<Cell?>, chains: seq<seq<Cell>>, all: set<Cell>, b: nat)
    requires b <= |chains| == table.Length
    reads table, all
    decreases |chains| - b
  {
    b < |chains| ==> Within(chains[b], all) && HoldsAt(table, chains, b) && HoldsFrom(table, chains, all, b + 1)
  }

  ghost predicate Holds(table: array<Cell?>, chains: seq<seq<Cell>>, all: set<Cell>)
    reads table, all
  {
    |chains| == table.Length && HoldsFrom(table, chains, all, 0)
  }

  lemma {:induction false} OpenFrom(table: array<Cell?>, chains: seq<seq<Cell>>, all: set<Cell>, k: nat, b: nat)
    requires k <= b < |chains| == table.Length && HoldsFrom(table, chains, all, k)
    ensures Within(chains[b], all) && HoldsAt(table, chains, b)
    decreases b - k
  {
    if k < b { OpenFrom(table, chains, all, k + 1, b); }
  }

  lemma {:induction false} CloseFrom(table: array<Cell?>, chains: seq<seq<Cell>>, all: set<Cell>, k: nat)
    requires k <= |chains| == table.Length
    requires forall b :: k <= b < |chains| ==> Within(chains[b], all) && HoldsAt(table, chains, b)
    ensures HoldsFrom(table, chains, all, k)
    decreases |chains| - k
  {
    if k < |chains| { CloseFrom(table, chains, all, k + 1); }
  }

  /** A cell of another array is on none of the chains. */
  lemma NotOnChains(table: array<Cell?>, chains: seq<seq<Cell>>, all: set<Cell>, cell: Cell)
    requires Holds(table, chains, all) && cell.owner != table
    ensures forall b :: 0 <= b < |chains| ==> Within(chains[b], all) && HoldsAt(table, chains, b) && cell !in chains[b]
  {
    forall b | 0 <= b < |chains| ensures Within(chains[b], all) && HoldsAt(table, chains, b) && cell !in chains[b] {
      OpenFrom(table, chains, all, 0, b);
      Labels(table[b], chains[b], table, b);
    }
  }

  /** Chains behind chain `i` share no cell with it. */
  lemma OtherChains(table: array<Cell?>, chains: seq<seq<Cell>>, all: set<Cell>, i: nat)
    requires i < |chains| == table.Length && HoldsFrom(table, chains, all, i)
    ensures Within(chains[i], all) && HoldsAt(table, chains, i)
    ensures forall b :: i < b < |chains| ==> Within(chains[b], all) && Links(table[b], chains[b], table, b)
    ensures forall b, k :: i < b < |chains| && 0 <= k < |chains[b]| ==> chains[b][k] !in chains[i]
  {
    OpenFrom(table, chains, all, i, i);
    Labels(table[i], chains[i], table, i);
    forall b | i < b < |chains|
      ensures Within(chains[b], all) && Links(table[b], chains[b], table, b)
      ensures forall k :: 0 <= k < |chains[b]| ==> chains[b][k] !in chains[i]
    {
      OpenFrom(table, chains, all, i, b);
      ChainedMeans(table[b], chains[b], table, b);
    }
  }

  /** `cell` goes in front of chain `idx`. */
  method Push(cell: Cell, table: array<Cell?>, idx: nat, ghost chains: seq<seq<Cell>>, ghost all: set<Cell>)
    requires Holds(table, chains, all) && idx < table.Length && cell.owner != table
    modifies cell, table
    ensures Holds(table, chains[idx := [cell] + chains[idx]], all + {cell})
  {
    NotOnChains(table, chains, all, cell);
    cell.next := table[idx];
    table[idx] := cell;
    cell.owner, cell.bucket, cell.rank := table, idx, |chains[idx]|;
    assert ([cell] + chains[idx])[1..] == chains[idx];
    CloseFrom(table, chains[idx := [cell] + chains[idx]], all + {cell}, 0);
  }

  // ------------------------------------------------------------------------- the search

  /** Walks a chain to the first cell that matches. */
  method FindCell(head: Cell?, text: string, mem: Memory, ghost cells: seq<Cell>, ghost owner: object, ghost b: nat)
    returns (found: Cell?, ghost i: nat)
    requires Chained(head, cells, owner, b)
    ensures found != null ==> i < |cells| && found == cells[i] && Matches(mem, found.node, text)
    ensures found == null ==> forall j :: 0 <= j < |cells| ==> !Matches(mem, cells[j].node, text)
  {
    found, i := head, 0;
    assert cells[0..] == cells;
    while found != null
      invariant i <= |cells| && Chained(found, cells[i..], owner, b)
      invariant forall j :: 0 <= j < i ==> !Matches(mem, cells[j].node, text)
      decreases |cells| - i
    {
      assert found == cells[i] && cells[i..][1..] == cells[i + 1..];
      if Matches(mem, found.node, text) { return; }
      found, i := found.next, i + 1;
    }
  }

  // ------------------------------------------------------------------------- the resize

  /** The masked hash of the characters a node points to.  A buffer shorter than its node says, which no
      pool has, counts as 0. */
  function IndexOf(hash: string -> nat, mem: Memory, node: Node, capacity: nat): nat
    requires 0 < capacity
  {
    if node.str in mem && node.len <= |mem[node.str]| then Index(hash, mem[node.str][..node.len], capacity) else 0
  }

  lemma IndexOfInRange(hash: string -> nat, mem: Memory, node: Node, capacity: nat)
    requires PowerOfTwo(capacity)
    ensures 0 < capacity && IndexOf(hash, mem, node, capacity) < capacity
  {
    var k: nat :| capacity == Pow2(k);
    if node.str in mem && node.len <= |mem[node.str]| {
      IndexInRange(hash, mem[node.str][..node.len], capacity);
    }
  }

  ghost predicate ChainAtHome(chain: Chain, b: nat, capacity: nat, hash: string -> nat, mem: Memory)
    requires 0 < capacity
  {
    chain != [] ==> IndexOf(hash, mem, chain[0], capacity) == b && ChainAtHome(chain[1..], b, capacity, hash, mem)
  }

  /** Every node of the chains from `b` on is in the bucket its characters are masked to. */
  ghost predicate AtHomeFrom(buckets: seq<Chain>, b: nat, hash: string -> nat, mem: Memory)
    requires b <= |buckets|
    decreases |buckets| - b
  {
    b < |buckets| ==> ChainAtHome(buckets[b], b, |buckets|, hash, mem) && AtHomeFrom(buckets, b + 1, hash, mem)
  }

  lemma {:induction false} PushedIsAtHome(buckets: seq<Chain>, k: nat, idx: nat, node: Node, hash: string -> nat, mem: Memory)
    requires k <= |buckets| && idx < |buckets| && AtHomeFrom(buckets, k, hash, mem)
    requires IndexOf(hash, mem, node, |buckets|) == idx
    ensures AtHomeFrom(buckets[idx := [node] + buckets[idx]], k, hash, mem)
    decreases |buckets| - k
  {
    if k < |buckets| {
      PushedIsAtHome(buckets, k + 1, idx, node, hash, mem);
      assert ([node] + buckets[idx])[1..] == buckets[idx];
    }
  }

  lemma {:induction false} NobodyAway(buckets: seq<Chain>, k: nat, hash: string -> nat, mem: Memory)
    requires k <= |buckets| && forall b :: 0 <= b < |buckets| ==> buckets[b] == []
    ensures AtHomeFrom(buckets, k, hash, mem)
    decreases |buckets| - k
  {
    if k < |buckets| { NobodyAway(buckets, k + 1, hash, mem); }
  }

  /** What is in a table under construction. */
  ghost predicate Filled(moved: seq<seq<Cell>>, nodes: multiset<Node>, hash: string -> nat, mem: Memory) {
    All(Buckets(moved)) == nodes && AtHomeFrom(Buckets(moved), 0, hash, mem)
  }

  lemma PushFills(moved: seq<seq<Cell>>, nodes: multiset<Node>, idx: nat, cell: Cell, hash: string -> nat, mem: Memory)
    requires Filled(moved, nodes, hash, mem) && idx < |moved| && IndexOf(hash, mem, cell.node, |moved|) == idx
    ensures Filled(moved[idx := [cell] + moved[idx]], nodes + multiset{cell.node}, hash, mem)
  {
    var buckets := Buckets(moved);
    BucketsUpdate(moved, idx, cell);
    PushedIsAtHome(buckets, 0, idx, cell.node, hash, mem);
    AllUpdate(buckets, idx, [cell.node] + buckets[idx]);
    assert multiset([cell.node] + buckets[idx]) == multiset{cell.node} + multiset(buckets[idx]);
    CancelCommon(All(buckets[idx := [cell.node] + buckets[idx]]), nodes + multiset{cell.node}, multiset(buckets[idx]));
  }

  /** One cell moves to the front of its bucket in the new table. */
  method MoveCell(cell: Cell, newTable: array<Cell?>, hash: string -> nat, mem: Memory,
                  ghost moved: seq<seq<Cell>>, ghost nodes: multiset<Node>, ghost all: set<Cell>)
    returns (ghost moved': seq<seq<Cell>>)
    requires cell in all && cell.owner != newTable && PowerOfTwo(newTable.Length)
    requires Holds(newTable, moved, all) && Filled(moved, nodes, hash, mem)
    modifies newTable, cell
    ensures Holds(newTable, moved', all) && Filled(moved', nodes + multiset{cell.node}, hash, mem)
  {
    IndexOfInRange(hash, mem, cell.node, newTable.Length);
    var newIdx := IndexOf(hash, mem, cell.node, newTable.Length);
    Push(cell, newTable, newIdx, moved, all);
    moved' := moved[newIdx := [cell] + moved[newIdx]];
    assert all + {cell} == all;
    PushFills(moved, nodes, newIdx, cell, hash, mem);
  }

  /** The first cell of what is left of a chain moves. */
  method MoveFirst(curr: Cell, newTable: array<Cell?>, hash: string -> nat, mem: Memory,
                   ghost rest: seq<Cell>, ghost table: array<Cell?>, ghost b: nat,
                   ghost moved: seq<seq<Cell>>, ghost nodes: multiset<Node>, ghost all: set<Cell>)
    returns (next: Cell?, ghost moved': seq<seq<Cell>>)
    requires rest != [] && Chained(curr, rest, table, b) && curr in all && newTable != table && PowerOfTwo(newTable.Length)
    requires Holds(newTable, moved, all) && Filled(moved, nodes, hash, mem)
    modifies newTable, curr
    ensures Chained(next, rest[1..], table, b)
    ensures Holds(newTable, moved', all) && Filled(moved', nodes + multiset{curr.node}, hash, mem)
  {
    Labels(curr.next, rest[1..], table, b);
    next := curr.next;
    moved' := MoveCell(curr, newTable, hash, mem, moved, nodes, all);
  }

  /** Takes one chain apart from the front. */
  method Relink(head: Cell?, newTable: array<Cell?>, hash: string -> nat, mem: Memory,
                ghost chain: seq<Cell>, ghost table: array<Cell?>, ghost b: nat,
                ghost moved: seq<seq<Cell>>, ghost nodes: multiset<Node>, ghost all: set<Cell>)
    returns (ghost moved': seq<seq<Cell>>)
    requires Chained(head, chain, table, b) && Within(chain, all) && newTable != table && PowerOfTwo(newTable.Length)
    requires Holds(newTable, moved, all) && Filled(moved, nodes, hash, mem)
    modifies newTable, chain
    ensures table[..] == old(table[..])
    ensures Holds(newTable, moved', all) && Filled(moved', nodes + multiset(Values(chain)), hash, mem)
  {
    moved' := moved;
    var curr := head;
    ghost var rest, got, j := chain, nodes, 0;
    while curr != null
      invariant Chained(curr, rest, table, b) && 0 <= j <= |chain| && rest == chain[j..]
      invariant table[..] == old(table[..])
      invariant Balanced(got, rest, nodes + multiset(Values(chain)))
      invariant Holds(newTable, moved', all) && Filled(moved', got, hash, mem)
      decreases |rest|
    {
      ghost var node := curr.node;
      assert curr == chain[j] && rest[1..] == chain[j + 1..];
      FirstMoves(got, rest, nodes + multiset(Values(chain)));
      curr, moved' := MoveFirst(curr, newTable, hash, mem, rest, table, b, moved', got, all);
      got, rest, j := got + multiset{node}, rest[1..], j + 1;
    }
    assert Values(rest) == [];
    assert got + multiset(Values(rest)) == got;
  }

  /** Nodes moved so far and nodes on the rest of the chain. */
  ghost predicate Balanced(got: multiset<Node>, rest: seq<Cell>, total: multiset<Node>) {
    got + multiset(Values(rest)) == total
  }

  lemma FirstMoves(got: multiset<Node>, rest: seq<Cell>, total: multiset<Node>)
    requires rest != [] && Balanced(got, rest, total)
    ensures Balanced(got + multiset{rest[0].node}, rest[1..], total)
  {
    assert Values(rest) == [rest[0].node] + Values(rest[1..]);
  }

  /** Chain `i` moves; those behind it stay as they are. */
  method MoveChain(i: nat, table: array<Cell?>, newTable: array<Cell?>, hash: string -> nat, mem: Memory,
                   ghost chains: seq<seq<Cell>>, ghost moved: seq<seq<Cell>>, ghost nodes: multiset<Node>, ghost all: set<Cell>)
    returns (ghost moved': seq<seq<Cell>>)
    requires i < |chains| == table.Length && HoldsFrom(table, chains, all, i)
    requires newTable != table && PowerOfTwo(newTable.Length)
    requires Holds(newTable, moved, all) && Filled(moved, nodes, hash, mem)
    modifies newTable, all
    ensures HoldsFrom(table, chains, all, i + 1)
    ensures Holds(newTable, moved', all) && Filled(moved', nodes + multiset(Values(chains[i])), hash, mem)
  {
    OtherChains(table, chains, all, i);
    moved' := Relink(table[i], newTable, hash, mem, chains[i], table, i, moved, nodes, all);
    forall b | i < b < |chains| ensures Within(chains[b], all) && HoldsAt(table, chains, b) {
      assert table[b] == table[..][b] == old(table[..])[b];
      assert forall k :: 0 <= k < |chains[b]| ==> chains[b][k] !in chains[i];
      LinksMean(table[b], chains[b], table, b);
    }
    CloseFrom(table, chains, all, i + 1);
  }

  lemma EmptyTable(table: array<Cell?>, chains: seq<seq<Cell>>, all: set<Cell>)
    requires |chains| == table.Length
    requires forall b :: 0 <= b < |chains| ==> chains[b] == [] && table[b] == null
    ensures Holds(table, chains, all) && All(Buckets(chains)) == multiset{}
    ensures forall b :: 0 <= b < |chains| ==> Buckets(chains)[b] == []
  {
    CloseFrom(table, chains, all, 0);
    forall b | 0 <= b < |chains| ensures Buckets(chains)[b] == [] {
      BucketAt(chains, b);
    }
    NothingIn(Buckets(chains));
  }

  lemma {:induction false} NothingIn(buckets: seq<Chain>)
    requires forall b :: 0 <= b < |buckets| ==> buckets[b] == []
    ensures All(buckets) == multiset{}
  {
    if buckets != [] { NothingIn(buckets[1..]); }
  }

  /** Nodes moved so far and nodes on the chains from `i` on. */
  ghost predicate Pending(got: multiset<Node>, chains: seq<seq<Cell>>, i: nat, total: multiset<Node>)
    requires i <= |chains|
  {
    got + All(Buckets(chains[i..])) == total
  }

  lemma ChainMoves(got: multiset<Node>, chains: seq<seq<Cell>>, i: nat, total: multiset<Node>)
    requires i < |chains| && Pending(got, chains, i, total)
    ensures Pending(got + multiset(Values(chains[i])), chains, i + 1, total)
  {
    assert chains[i..][1..] == chains[i + 1..];
    assert Buckets(chains[i..])[1..] == Buckets(chains[i + 1..]);
  }

  lemma AllMoved(got: multiset<Node>, chains: seq<seq<Cell>>, total: multiset<Node>)
    requires Pending(got, chains, |chains|, total)
    ensures got == total
  {
    assert Buckets(chains[|chains|..]) == [];
  }

  method MakeTable(capacity: nat, hash: string -> nat, mem: Memory, ghost all: set<Cell>)
    returns (table: array<Cell?>, ghost chains: seq<seq<Cell>>)
    ensures fresh(table) && table.Length == capacity == |chains|
    ensures Holds(table, chains, all) && Filled(chains, multiset{}, hash, mem)
    ensures forall b :: 0 <= b < capacity ==> Buckets(chains)[b] == []
  {
    table := new Cell?[capacity](_ => null);
    chains := seq(capacity, _ => []);
    EmptyTable(table, chains, all);
    NobodyAway(Buckets(chains), 0, hash, mem);
  }

  /** The cells of every chain move to a new table of twice the size. */
  method Rehash(table: array<Cell?>, hash: string -> nat, mem: Memory, ghost chains: seq<seq<Cell>>, ghost all: set<Cell>)
    returns (newTable: array<Cell?>, ghost moved: seq<seq<Cell>>)
    requires Holds(table, chains, all) && PowerOfTwo(table.Length)
    modifies all
    ensures fresh(newTable) && newTable.Length == 2 * table.Length
    ensures Holds(newTable, moved, all) && Filled(moved, All(Buckets(chains)), hash, mem)
  {
    DoublePower(table.Length);
    newTable, moved := MakeTable(table.Length * 2, hash, mem, all);
    ghost var got: multiset<Node> := multiset{};
    ghost var total := All(Buckets(chains));
    assert chains[0..] == chains;
    var i := 0;
    while i < table.Length
      invariant 0 <= i <= table.Length && HoldsFrom(table, chains, all, i)
      invariant Holds(newTable, moved, all) && Filled(moved, got, hash, mem) && Pending(got, chains, i, total)
    {
      ChainMoves(got, chains, i, total);
      moved := MoveChain(i, table, newTable, hash, mem, chains, moved, got, all);
      got := got + multiset(Values(chains[i]));
      i := i + 1;
    }
    AllMoved(got, chains, total);
  }

  lemma DoublePower(n: nat)
    requires PowerOfTwo(n)
    ensures 0 < n && PowerOfTwo(2 * n)
  {
    var k: nat :| n == Pow2(k);
    assert 2 * n == Pow2(k + 1);
  }
}
