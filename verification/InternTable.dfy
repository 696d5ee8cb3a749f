/** The interning table as the code keeps it: an array of linked chains that is replaced by one of twice the
    size, and the operation one caller performs on it alone. */
module InternTable {
  import opened Basics
  import opened InternPool
  import opened InternCells

  class Table {
    var table: array<Cell?>
    var count: nat
    var mem: Memory
    const hash: string -> nat

    /** The cells of each chain, and all of them. */
    ghost var chains: seq<seq<Cell>>
    ghost var cells: set<Cell>

    ghost function State(): Pool
      reads this
    {
      Pool(Buckets(chains), count, mem)
    }

    ghost predicate Valid()
      reads this, table, cells
    {
      Holds(table, chains, cells) && PoolOk(State(), hash)
    }

    /** `intern_init`. */
    constructor (hash: string -> nat)
      ensures Valid() && fresh(table) && cells == {} && table.Length == INITIAL_CAPACITY
      ensures forall text :: !Interned(State(), text)
      ensures LightlyLoaded(State())
    {
      var t, empty := MakeTable(INITIAL_CAPACITY, hash, map[], {});
      this.hash := hash;
      count := 0;
      mem := map[];
      table, chains, cells := t, empty, {};
      new;
      assert Pow2(10) == INITIAL_CAPACITY;
    }

    /** The chain walk both the read-locked and the write-locked search make. */
    method Search(text: string) returns (found: Option<Ptr>)
      requires Valid()
      ensures found.Some? ==> Has(State(), text, found.value)
      ensures found.None? ==> !Interned(State(), text)
    {
      var idx := BucketOf(text);
      OpenFrom(table, chains, cells, 0, idx);
      BucketAt(chains, idx);
      var cell, i := FindCell(table[idx], text, mem, chains[idx], table, idx);
      if cell != null {
        ValueAt(chains[idx], i);
        HitIsSound(State(), hash, text, idx, i);
        return Some(cell.node.str);
      }
      forall j | 0 <= j < |chains[idx]| ensures !Matches(mem, Values(chains[idx])[j], text) {
        ValueAt(chains[idx], j);
      }
      MissIsSound(State(), hash, text);
      return None;
    }

    /** The resize. */
    method Grow()
      requires Valid()
      modifies this`table, this`chains, cells
      ensures fresh(table) && Valid() && table.Length == 2 * old(table.Length)
      ensures SameTexts(old(State()), State())
    {
      ghost var pool := State();
      table, chains := Rehash(table, hash, mem, chains, cells);
      FilledIsRehashed(pool, chains, hash);
      RehashKeepsPool(pool, hash, Buckets(chains));
      assert State() == pool.(buckets := Buckets(chains));
    }

    /** The resize is tried when the table is three quarters full; `growOk` is whether `calloc` succeeds. */
    method MakeRoom(growOk: bool)
      requires Valid()
      modifies this`table, this`chains, cells
      ensures Valid() && (table == old(table) || fresh(table))
      ensures table.Length == old(table.Length) * if growOk && old(count >= table.Length * 3 / 4) then 2 else 1
      ensures SameTexts(old(State()), State())
      ensures growOk && old(LightlyLoaded(State())) ==> HasRoom(State())
    {
      if count >= table.Length * 3 / 4 {
        if growOk {
          Grow();
        }
      }
    }

    /** `hash & (capacity - 1)`. */
    method BucketOf(text: string) returns (idx: nat)
      requires PowerOfTwo(table.Length)
      ensures 0 < table.Length && idx == Index(hash, text, table.Length) < table.Length
    {
      IndexInRange(hash, text, table.Length);
      idx := BitAnd(hash(text), table.Length - 1);
    }

    /** A new cell in front of chain `idx`. */
    method AddCell(idx: nat, node: Node)
      requires Holds(table, chains, cells) && idx < table.Length
      modifies this`chains, this`cells, table
      ensures Holds(table, chains, cells) && fresh(cells - old(cells)) && |chains| == |old(chains)|
      ensures Buckets(chains) == old(Buckets(chains))[idx := [node] + old(Buckets(chains))[idx]]
    {
      var cell := new Cell(node);
      Push(cell, table, idx, chains, cells);
      BucketsUpdate(chains, idx, cell);
      chains, cells := chains[idx := [cell] + chains[idx]], cells + {cell};
    }

    /** The new node goes in front of its chain, and its buffer gets the text and a NUL. */
    method LinkCell(text: string, dup: Ptr)
      requires Holds(table, chains, cells) && PowerOfTwo(table.Length)
      modifies this`count, this`mem, this`chains, this`cells, table
      ensures Holds(table, chains, cells) && fresh(cells - old(cells))
      ensures 0 < table.Length && Index(hash, text, table.Length) < |old(Buckets(chains))|
      ensures State() == Linked(old(State()), hash, text, dup)
    {
      var idx := BucketOf(text);
      AddCell(idx, Node(dup, |text|));
      mem := mem[dup := text + ['\0']];
      count := count + 1;
    }

    method Link(text: string, dup: Ptr)
      requires Valid() && !Interned(State(), text) && dup !in mem
      modifies this`count, this`mem, this`chains, this`cells, table
      ensures Valid() && fresh(cells - old(cells)) && Keeps(old(State()), State()) && Has(State(), text, dup)
      ensures count == old(count) + 1 && |chains| == |old(chains)|
      ensures 0 < table.Length && Index(hash, text, table.Length) < |old(Buckets(chains))|
      ensures State() == Linked(old(State()), hash, text, dup)
    {
      LinkKeepsPool(State(), hash, text, dup);
      LinkCell(text, dup);
    }

    /** The new node, if both `malloc`s succeed. */
    method LinkIfAllocated(text: string, nodeOk: bool, dup: Option<Ptr>) returns (r: Option<Ptr>)
      requires Valid() && !Interned(State(), text) && (dup.Some? ==> dup.value !in mem)
      modifies this`count, this`mem, this`chains, this`cells, table
      ensures Valid() && fresh(cells - old(cells)) && Keeps(old(State()), State())
      ensures r.Some? ==> Has(State(), text, r.value)
      ensures r.None? <==> !nodeOk || dup.None?
      ensures AddsOnly(old(State()), State(), text, r)
      ensures old(HasRoom(State())) ==> LightlyLoaded(State())
    {
      ghost var pool := State();
      if !nodeOk || dup.None? {
        return None;
      }
      Link(text, dup.value);
      LinkedAddsOnly(pool, hash, text, dup.value);
      return Some(dup.value);
    }

    /** The part of `intern_string_len` under the write lock once the second search has missed.
        `nodeOk` and `dup` are what the two `malloc`s return; a buffer address is one not yet in use. */
    method Insert(text: string, growOk: bool, nodeOk: bool, dup: Option<Ptr>) returns (r: Option<Ptr>)
      requires Valid() && !Interned(State(), text) && (dup.Some? ==> dup.value !in mem)
      modifies this, table, cells
      ensures Valid() && (table == old(table) || fresh(table)) && fresh(cells - old(cells))
      ensures Keeps(old(State()), State())
      ensures r.Some? ==> Has(State(), text, r.value)
      ensures r.None? <==> !nodeOk || dup.None?
      ensures AddsOnly(old(State()), State(), text, r)
      ensures table.Length == old(table.Length) * if growOk && old(count >= table.Length * 3 / 4) then 2 else 1
      ensures growOk && old(LightlyLoaded(State())) ==> LightlyLoaded(State())
    {
      ghost var pool := State();
      MakeRoom(growOk);
      ghost var roomy := State();
      SameTextsMisses(pool, roomy, text);
      r := LinkIfAllocated(text, nodeOk, dup);
      SameTextsKeeps(pool, roomy, State());
      SameTextsAdds(pool, roomy, State(), text, r);
    }

    /** `intern_string_len` run alone: two searches, then the insertion. */
    method Intern(str: Option<string>, growOk: bool, nodeOk: bool, dup: Option<Ptr>) returns (r: Option<Ptr>)
      requires Valid() && (dup.Some? ==> dup.value !in mem)
      modifies this, table, cells
      ensures Valid() && (table == old(table) || fresh(table)) && fresh(cells - old(cells))
      ensures Keeps(old(State()), State())
      ensures r.Some? ==> str.Some? && Has(State(), str.value, r.value)
      ensures r.None? <==> str.None? || (!old(Interned(State(), str.value)) && (!nodeOk || dup.None?))
      ensures str.None? || old(Interned(State(), str.value)) ==> table == old(table) && State() == old(State())
      ensures str.Some? && !old(Interned(State(), str.value)) ==>
                table.Length == old(table.Length) * if growOk && old(count >= table.Length * 3 / 4) then 2 else 1
      ensures growOk && old(LightlyLoaded(State())) ==> LightlyLoaded(State())
      ensures str.Some? ==> AddsOnly(old(State()), State(), str.value, r)
    {
      if str.None? {
        return None;
      }
      var text := str.value;
      r := Search(text);
      if r.Some? {
        return;
      }
      r := Search(text);
      if r.Some? {
        return;
      }
      r := Insert(text, growOk, nodeOk, dup);
    }
  }

  /** A filled table holds the old nodes, each in its place. */
  lemma FilledIsRehashed(pool: Pool, moved: seq<seq<Cell>>, hash: string -> nat)
    requires PoolOk(pool, hash) && |moved| == 2 * |pool.buckets| && Filled(moved, All(pool.buckets), hash, pool.mem)
    ensures Rehashed(pool.buckets, Buckets(moved), pool.mem, hash)
  {
    var buckets := Buckets(moved);
    forall b, i | 0 <= b < |buckets| && 0 <= i < |buckets[b]| ensures PlacedAt(buckets[b][i], b, |buckets|, pool.mem, hash) {
      AllMember(buckets, buckets[b][i]);
      NodesAreSpelled(pool, hash, buckets[b][i]);
      AtHome(buckets, 0, b, i, hash, pool.mem);
      var text :| Spells(pool.mem, buckets[b][i], text);
      assert text == (text + ['\0'])[..|text|];
    }
  }

  lemma {:induction false} AtHome(buckets: seq<Chain>, k: nat, b: nat, i: nat, hash: string -> nat, mem: Memory)
    requires k <= b < |buckets| && i < |buckets[b]| && AtHomeFrom(buckets, k, hash, mem)
    ensures IndexOf(hash, mem, buckets[b][i], |buckets|) == b
    decreases b - k
  {
    if k < b { AtHome(buckets, k + 1, b, i, hash, mem); } else { ChainHome(buckets[b], b, |buckets|, i, hash, mem); }
  }

  lemma {:induction false} ChainHome(chain: Chain, b: nat, capacity: nat, i: nat, hash: string -> nat, mem: Memory)
    requires 0 < capacity && i < |chain| && ChainAtHome(chain, b, capacity, hash, mem)
    ensures IndexOf(hash, mem, chain[i], capacity) == b
  {
    if i > 0 { ChainHome(chain[1..], b, capacity, i - 1, hash, mem); }
  }

  /** One node more is not too many. */
  ghost predicate HasRoom(pool: Pool) {
    pool.count + 1 <= |pool.buckets| * 3 / 4
  }

  /** The same texts at the same pointers, in the same buffers. */
  ghost predicate SameTexts(a: Pool, b: Pool) {
    a.mem == b.mem && a.count == b.count && forall t, p :: Has(a, t, p) <==> Has(b, t, p)
  }

  lemma SameTextsKeeps(a: Pool, b: Pool, c: Pool)
    requires SameTexts(a, b) && Keeps(b, c)
    ensures Keeps(a, c)
  {
  }

  lemma SameTextsMisses(a: Pool, b: Pool, text: string)
    requires SameTexts(a, b) && !Interned(a, text)
    ensures !Interned(b, text)
  {
    forall p ensures !Has(b, text, p) {}
  }

  /** Nothing is interned that was not, but the text at the pointer returned. */
  ghost predicate AddsOnly(a: Pool, b: Pool, text: string, r: Option<Ptr>) {
    forall t, p: Ptr :: Has(b, t, p) ==> Has(a, t, p) || (t == text && r == Some(p))
  }

  lemma SameTextsAdds(a: Pool, b: Pool, c: Pool, text: string, r: Option<Ptr>)
    requires SameTexts(a, b) && AddsOnly(b, c, text, r)
    ensures AddsOnly(a, c, text, r)
  {
  }

  lemma LinkedAddsOnly(pool: Pool, hash: string -> nat, text: string, p: Ptr)
    requires PoolOk(pool, hash) && !Interned(pool, text) && p !in pool.mem
    ensures 0 < |pool.buckets| && Index(hash, text, |pool.buckets|) < |pool.buckets|
    ensures AddsOnly(pool, Linked(pool, hash, text, p), text, Some(p))
  {
    LinkKeepsPool(pool, hash, text, p);
    var pool' := Linked(pool, hash, text, p);
    forall t, q: Ptr | Has(pool', t, q) ensures Has(pool, t, q) || (t == text && q == p) {
      var node := Node(q, |t|);
      if q == p {
        OneText(t, text);
        assert node == Node(p, |text|) || node in All(pool.buckets);
        if node in All(pool.buckets) { NodesAreSpelled(pool, hash, node); }
      }
    }
  }

  lemma OneText(a: string, b: string)
    ensures a + ['\0'] == b + ['\0'] ==> a == b
  {
    assert a == (a + ['\0'])[..|a|] && b == (b + ['\0'])[..|b|];
    if a + ['\0'] == b + ['\0'] { assert |a| + 1 == |b| + 1; }
  }

  /** Everything interned stays interned where it was, and no buffer changes. */
  ghost predicate Keeps(a: Pool, b: Pool) {
    && (forall t, p :: Has(a, t, p) ==> Has(b, t, p))
    && (forall p :: p in a.mem ==> p in b.mem && b.mem[p] == a.mem[p])
  }
}
