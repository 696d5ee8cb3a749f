/** The string interning pool: a chained hash table that doubles when it is three
    quarters full. */
module InternPool {
  import opened Basics

  type Ptr = nat

  /** One chain node: the address of the private copy and the length of the text. */
  datatype Node = Node(str: Ptr, len: nat)

  type Chain = seq<Node>

  /** What `malloc`ed buffers hold: the text and a closing NUL. */
  type Memory = map<Ptr, string>

  const INITIAL_CAPACITY: nat := 1024

  // ------------------------------------------------------------------ bucket index

  ghost predicate PowerOfTwo(n: nat) {
    exists k: nat :: n == Pow2(k)
  }

  /** Bitwise and. */
  function BitAnd(a: nat, b: nat): nat {
    if a == 0 || b == 0 then 0 else (if a % 2 == 1 && b % 2 == 1 then 1 else 0) + 2 * BitAnd(a / 2, b / 2)
  }

  lemma {:induction false} MaskIsRemainder(h: nat, k: nat)
    ensures BitAnd(h, Pow2(k) - 1) == h % Pow2(k)
  {
    var q := MaskSplits(h, k);
    DivMod(q, Pow2(k), BitAnd(h, Pow2(k) - 1));
  }

  /** The masked bits are what is left over above a multiple of the power. */
  lemma {:induction false} MaskSplits(h: nat, k: nat) returns (q: nat)
    ensures h == q * Pow2(k) + BitAnd(h, Pow2(k) - 1)
    ensures BitAnd(h, Pow2(k) - 1) < Pow2(k)
  {
    if k == 0 {
      q := h;
    } else {
      q := MaskSplits(h / 2, k - 1);
      var half := Pow2(k - 1);
      BitAndOdd(h, half - 1);
      DoubledSplit(h, q, half, BitAnd(h / 2, half - 1));
    }
  }

  lemma DoubledSplit(h: nat, q: nat, half: nat, low: nat)
    requires h / 2 == q * half + low && low < half
    ensures h == q * (2 * half) + (h % 2 + 2 * low) && h % 2 + 2 * low < 2 * half
  {
    assert q * (2 * half) == 2 * (q * half);
  }

  lemma BitAndOdd(a: nat, b: nat)
    ensures BitAnd(a, 2 * b + 1) == a % 2 + 2 * BitAnd(a / 2, b)
  {
    assert (2 * b + 1) / 2 == b;
  }

  /** `hash & (capacity - 1)`. */
  function Index(hash: string -> nat, text: string, capacity: nat): nat
    requires 0 < capacity
  {
    BitAnd(hash(text), capacity - 1)
  }

  lemma IndexInRange(hash: string -> nat, text: string, capacity: nat)
    requires PowerOfTwo(capacity)
    ensures 0 < capacity && Index(hash, text, capacity) == hash(text) % capacity < capacity
  {
    var k: nat :| capacity == Pow2(k);
    MaskIsRemainder(hash(text), k);
  }

  // ------------------------------------------------------------- what the pool holds

  /** All nodes of all chains. */
  ghost function All(buckets: seq<Chain>): multiset<Node> {
    if buckets == [] then multiset{} else multiset(buckets[0]) + All(buckets[1..])
  }

  lemma {:induction false} AllMember(buckets: seq<Chain>, node: Node)
    ensures node in All(buckets) <==> exists b :: 0 <= b < |buckets| && node in buckets[b]
  {
    if buckets != [] {
      AllMember(buckets[1..], node);
      assert buckets == [buckets[0]] + buckets[1..];
    }
  }

  lemma {:induction false} AllUpdate(buckets: seq<Chain>, b: nat, chain: Chain)
    requires b < |buckets|
    ensures All(buckets[b := chain]) + multiset(buckets[b]) == All(buckets) + multiset(chain)
  {
    if b == 0 {
      assert buckets[b := chain][1..] == buckets[1..];
    } else {
      var rest, rest' := buckets[1..], buckets[1..][b - 1 := chain];
      AllUpdate(rest, b - 1, chain);
      assert buckets[b := chain][1..] == rest' && rest[b - 1] == buckets[b];
      assert All(rest') + multiset(buckets[b]) == All(rest) + multiset(chain);
      calc {
        All(buckets[b := chain]) + multiset(buckets[b]);
        multiset(buckets[0]) + (All(rest') + multiset(buckets[b]));
        multiset(buckets[0]) + (All(rest) + multiset(chain));
      }
    }
  }

  lemma CancelCommon(a: multiset<Node>, b: multiset<Node>, c: multiset<Node>)
    requires a + c == b + c
    ensures a == b
  {
    assert a == (a + c) - c;
    assert b == (b + c) - c;
  }

  datatype Pool = Pool(buckets: seq<Chain>, count: nat, mem: Memory)

  /** The node's buffer holds `text`, closed by a NUL. */
  ghost predicate Spells(mem: Memory, node: Node, text: string) {
    node.str in mem && mem[node.str] == text + ['\0'] && node.len == |text|
  }

  /** The comparison a search makes: lengths first, then `memcmp` of that many bytes. */
  predicate Matches(mem: Memory, node: Node, text: string) {
    node.len == |text| && node.str in mem && |text| <= |mem[node.str]| && mem[node.str][..|text|] == text
  }

  /** `text` is interned at address `p`. */
  ghost predicate Has(pool: Pool, text: string, p: Ptr) {
    Node(p, |text|) in All(pool.buckets) && Spells(pool.mem, Node(p, |text|), text)
  }

  ghost predicate Interned(pool: Pool, text: string) {
    exists p :: Has(pool, text, p)
  }

  /** Every node spells some text and sits in the bucket that text is masked to. */
  ghost predicate Placed(buckets: seq<Chain>, mem: Memory, hash: string -> nat) {
    forall b, i :: 0 <= b < |buckets| && 0 <= i < |buckets[b]| ==> PlacedAt(buckets[b][i], b, |buckets|, mem, hash)
  }

  ghost predicate PlacedAt(node: Node, b: nat, capacity: nat, mem: Memory, hash: string -> nat) {
    0 < capacity && exists text :: Spells(mem, node, text) && Index(hash, text, capacity) == b
  }

  /** No text is held by two nodes. */
  ghost predicate OneNodePerText(all: multiset<Node>, mem: Memory) {
    && (forall node :: all[node] <= 1)
    && (forall n1, n2, text :: n1 in all && n2 in all && Spells(mem, n1, text) && Spells(mem, n2, text) ==> n1 == n2)
  }

  ghost predicate PoolOk(pool: Pool, hash: string -> nat) {
    && PowerOfTwo(|pool.buckets|)
    && Placed(pool.buckets, pool.mem, hash)
    && OneNodePerText(All(pool.buckets), pool.mem)
    && pool.count == |All(pool.buckets)|
  }

  ghost predicate LightlyLoaded(pool: Pool) {
    pool.count <= |pool.buckets| * 3 / 4
  }

  /** A table of twice the size with the very same nodes, each in its new bucket. */
  ghost predicate Rehashed(old_: seq<Chain>, new_: seq<Chain>, mem: Memory, hash: string -> nat) {
    |new_| == 2 * |old_| && All(new_) == All(old_) && Placed(new_, mem, hash)
  }

  lemma SpellsOnce(mem: Memory, node: Node, a: string, b: string)
    requires Spells(mem, node, a) && Spells(mem, node, b)
    ensures a == b
  {
    assert a == (a + ['\0'])[..|a|];
    assert b == (b + ['\0'])[..|b|];
  }

  /** What a node in its place matches is what it spells. */
  lemma MatchMeansSpells(mem: Memory, node: Node, text: string, b: nat, capacity: nat, hash: string -> nat)
    requires PlacedAt(node, b, capacity, mem, hash)
    ensures Matches(mem, node, text) <==> Spells(mem, node, text)
  {
    var t :| Spells(mem, node, t) && Index(hash, t, capacity) == b;
    assert t == (t + ['\0'])[..|t|];
    if Spells(mem, node, text) {
      assert text == (text + ['\0'])[..|text|];
    }
  }

  /** A scan that finds no match in the text's bucket proves it is nowhere in the pool. */
  lemma MissIsSound(pool: Pool, hash: string -> nat, text: string)
    requires PoolOk(pool, hash)
    requires var b := Index(hash, text, |pool.buckets|);
             b < |pool.buckets| && forall i :: 0 <= i < |pool.buckets[b]| ==> !Matches(pool.mem, pool.buckets[b][i], text)
    ensures !Interned(pool, text)
  {
    if p :| Has(pool, text, p) {
      var node := Node(p, |text|);
      AllMember(pool.buckets, node);
      var b :| 0 <= b < |pool.buckets| && node in pool.buckets[b];
      var i :| 0 <= i < |pool.buckets[b]| && pool.buckets[b][i] == node;
      assert PlacedAt(pool.buckets[b][i], b, |pool.buckets|, pool.mem, hash);
      var t :| Spells(pool.mem, node, t) && Index(hash, t, |pool.buckets|) == b;
      SpellsOnce(pool.mem, node, t, text);
      MatchMeansSpells(pool.mem, node, text, b, |pool.buckets|, hash);
      assert false;
    }
  }

  /** A match in a bucket is where the text is interned. */
  lemma HitIsSound(pool: Pool, hash: string -> nat, text: string, b: nat, i: nat)
    requires PoolOk(pool, hash) && b < |pool.buckets| && i < |pool.buckets[b]|
    requires Matches(pool.mem, pool.buckets[b][i], text)
    ensures Has(pool, text, pool.buckets[b][i].str)
  {
    var node := pool.buckets[b][i];
    assert PlacedAt(node, b, |pool.buckets|, pool.mem, hash);
    MatchMeansSpells(pool.mem, node, text, b, |pool.buckets|, hash);
    AllMember(pool.buckets, node);
  }

  lemma NodesAreSpelled(pool: Pool, hash: string -> nat, node: Node)
    requires PoolOk(pool, hash) && node in All(pool.buckets)
    ensures node.str in pool.mem && exists text :: Spells(pool.mem, node, text)
  {
    AllMember(pool.buckets, node);
    var b :| 0 <= b < |pool.buckets| && node in pool.buckets[b];
    var i :| 0 <= i < |pool.buckets[b]| && pool.buckets[b][i] == node;
    assert PlacedAt(pool.buckets[b][i], b, |pool.buckets|, pool.mem, hash);
  }

  /** The pool after a new node for `text` at the fresh address `p` is linked in front of its chain. */
  ghost function Linked(pool: Pool, hash: string -> nat, text: string, p: Ptr): Pool
    requires 0 < |pool.buckets| && Index(hash, text, |pool.buckets|) < |pool.buckets|
  {
    var b := Index(hash, text, |pool.buckets|);
    Pool(pool.buckets[b := [Node(p, |text|)] + pool.buckets[b]], pool.count + 1, pool.mem[p := text + ['\0']])
  }

  lemma LinkKeepsPool(pool: Pool, hash: string -> nat, text: string, p: Ptr)
    requires PoolOk(pool, hash) && !Interned(pool, text) && p !in pool.mem
    ensures Index(hash, text, |pool.buckets|) < |pool.buckets|
    ensures var pool' := Linked(pool, hash, text, p);
            && All(pool'.buckets) == All(pool.buckets) + multiset{Node(p, |text|)}
            && PoolOk(pool', hash) && Has(pool', text, p)
            && forall t, q :: Has(pool, t, q) ==> Has(pool', t, q)
  {
    IndexInRange(hash, text, |pool.buckets|);
    var b := Index(hash, text, |pool.buckets|);
    var node := Node(p, |text|);
    var pool' := Linked(pool, hash, text, p);
    AllUpdate(pool.buckets, b, [node] + pool.buckets[b]);
    assert multiset([node] + pool.buckets[b]) == multiset{node} + multiset(pool.buckets[b]);
    CancelCommon(All(pool'.buckets), All(pool.buckets) + multiset{node}, multiset(pool.buckets[b]));
    forall n, t | n in All(pool.buckets)
      ensures Spells(pool.mem, n, t) <==> Spells(pool'.mem, n, t)
      ensures n.str != p
      ensures Spells(pool.mem, n, t) ==> t != text
    {
      NodesAreSpelled(pool, hash, n);
      if Spells(pool.mem, n, text) { assert Has(pool, text, n.str); }
    }
    assert Spells(pool'.mem, node, text);
    LinkKeepsPlaced(pool, hash, text, p);
    LinkKeepsUnique(All(pool.buckets), pool.mem, pool'.mem, node, text);
  }

  lemma LinkKeepsPlaced(pool: Pool, hash: string -> nat, text: string, p: Ptr)
    requires PoolOk(pool, hash) && p !in pool.mem && Index(hash, text, |pool.buckets|) < |pool.buckets|
    ensures Placed(Linked(pool, hash, text, p).buckets, Linked(pool, hash, text, p).mem, hash)
  {
    var pool' := Linked(pool, hash, text, p);
    var home := Index(hash, text, |pool.buckets|);
    forall b, i | 0 <= b < |pool'.buckets| && 0 <= i < |pool'.buckets[b]|
      ensures PlacedAt(pool'.buckets[b][i], b, |pool'.buckets|, pool'.mem, hash)
    {
      var n := pool'.buckets[b][i];
      if b == home && i == 0 {
        assert Spells(pool'.mem, n, text);
      } else {
        assert n == pool.buckets[b][if b == home then i - 1 else i];
        var t :| Spells(pool.mem, n, t) && Index(hash, t, |pool.buckets|) == b;
        assert Spells(pool'.mem, n, t);
      }
    }
  }

  lemma LinkKeepsUnique(all: multiset<Node>, mem: Memory, mem': Memory, node: Node, text: string)
    requires OneNodePerText(all, mem) && node !in all
    requires forall n, t :: n in all ==> (Spells(mem', n, t) <==> Spells(mem, n, t)) && !(Spells(mem, n, t) && t == text)
    requires Spells(mem', node, text)
    ensures OneNodePerText(all + multiset{node}, mem')
  {
    forall n1, n2, t | n1 in all + multiset{node} && n2 in all + multiset{node} && Spells(mem', n1, t) && Spells(mem', n2, t)
      ensures n1 == n2
    {
      if n1 == node { SpellsOnce(mem', node, t, text); }
      if n2 == node { SpellsOnce(mem', node, t, text); }
    }
  }

  /** Doubling the table keeps the pool and everything interned in it. */
  lemma RehashKeepsPool(pool: Pool, hash: string -> nat, buckets: seq<Chain>)
    requires PoolOk(pool, hash) && Rehashed(pool.buckets, buckets, pool.mem, hash)
    ensures PoolOk(pool.(buckets := buckets), hash)
    ensures forall text, p :: Has(pool.(buckets := buckets), text, p) <==> Has(pool, text, p)
  {
    var k: nat :| |pool.buckets| == Pow2(k);
    assert |buckets| == Pow2(k + 1);
  }
}
