/** Parsed JSON documents: a tree laid out in preorder in one array of 16-byte cells, where
    a container's cell holds the number of its children and the byte length of its whole
    encoding. */
module JsonFlat {
  import opened Basics

  datatype Tree =
    | Scalar
    | Text(text: string)
    | Arr(items: seq<Tree>)
    | Obj(members: seq<Member>)

  datatype Member = Member(key: string, value: Tree)

  datatype Kind = KScalar | KText | KArr | KObj

  /** Type and length from the tag, and the payload: a byte offset for containers, a text for strings. */
  datatype Cell = Cell(kind: Kind, len: nat, ofs: nat, text: string)

  const CELL: nat := 16

  // ---------------------------------------------------------------------- encoding

  function Enc(t: Tree): (s: seq<Cell>)
    ensures 1 <= |s|
    decreases t, 1
  {
    match t
    case Scalar => [Cell(KScalar, 0, 0, "")]
    case Text(text) => [TextCell(text)]
    case Arr(items) => [Cell(KArr, |items|, CELL * (1 + |EncAll(items)|), "")] + EncAll(items)
    case Obj(members) => [Cell(KObj, |members|, CELL * (1 + |EncMembers(members)|), "")] + EncMembers(members)
  }

  function TextCell(text: string): Cell {
    Cell(KText, |text|, 0, text)
  }

  function EncAll(ts: seq<Tree>): seq<Cell>
    decreases ts, 0
  {
    if ts == [] then [] else EncAll(ts[..|ts| - 1]) + Enc(ts[|ts| - 1])
  }

  function EncMembers(ms: seq<Member>): seq<Cell>
    decreases ms, 0
  {
    if ms == [] then []
    else
      var last := ms[|ms| - 1];
      EncMembers(ms[..|ms| - 1]) + ([TextCell(last.key)] + Enc(last.value))
  }

  /** The encoding of `t` starts at position `p` of the document. */
  ghost predicate At(doc: seq<Cell>, p: nat, t: Tree) {
    p + |Enc(t)| <= |doc| && doc[p..p + |Enc(t)|] == Enc(t)
  }

  /** Where child `i` of the container at `p` starts. */
  ghost function ChildPos(p: nat, items: seq<Tree>, i: nat): nat
    requires i <= |items|
  {
    p + 1 + |EncAll(items[..i])|
  }

  /** Where the key of member `i` of the container at `p` is. */
  ghost function MemberPos(p: nat, members: seq<Member>, i: nat): nat
    requires i <= |members|
  {
    p + 1 + |EncMembers(members[..i])|
  }

  // ------------------------------------------------------- the accessors of the library

  predicate IsContainer(c: Cell) {
    c.kind == KArr || c.kind == KObj
  }

  /** `unsafe_yyjson_arr_is_flat`. */
  predicate IsFlat(c: Cell) {
    c.len * CELL + CELL == c.ofs
  }

  /** `unsafe_yyjson_get_next`, in cells. */
  function Next(doc: seq<Cell>, p: nat): nat
    requires p < |doc|
  {
    p + (if IsContainer(doc[p]) then doc[p].ofs else CELL) / CELL
  }

  /** `unsafe_yyjson_equals_strn`. */
  predicate EqualsText(c: Cell, key: string) {
    c.len == |key| && c.text == key
  }

  // ------------------------------------------------------------------------ geometry

  lemma NextSkipsValue(doc: seq<Cell>, p: nat, t: Tree)
    requires At(doc, p, t)
    ensures p < |doc| && doc[p] == Enc(t)[0] && Next(doc, p) == p + |Enc(t)|
  {
    assert doc[p] == doc[p..p + |Enc(t)|][0];
  }

  lemma {:induction false} EncAllPrefix(ts: seq<Tree>, i: nat)
    requires i < |ts|
    ensures EncAll(ts[..i + 1]) == EncAll(ts[..i]) + Enc(ts[i])
    ensures |EncAll(ts[..i])| + |Enc(ts[i])| <= |EncAll(ts)|
    ensures EncAll(ts)[|EncAll(ts[..i])|..|EncAll(ts[..i])| + |Enc(ts[i])|] == Enc(ts[i])
    decreases |ts|
  {
    assert ts[..i + 1][..i] == ts[..i];
    if i + 1 == |ts| {
      assert ts[..i + 1] == ts;
    } else {
      var front := ts[..|ts| - 1];
      EncAllPrefix(front, i);
      assert front[..i] == ts[..i] && front[i] == ts[i];
    }
  }

  lemma {:induction false} EncMembersPrefix(ms: seq<Member>, i: nat)
    requires i < |ms|
    ensures EncMembers(ms[..i + 1]) == EncMembers(ms[..i]) + ([TextCell(ms[i].key)] + Enc(ms[i].value))
    ensures |EncMembers(ms[..i])| + 1 + |Enc(ms[i].value)| <= |EncMembers(ms)|
    ensures EncMembers(ms)[|EncMembers(ms[..i])|..|EncMembers(ms[..i])| + 1 + |Enc(ms[i].value)|]
            == [TextCell(ms[i].key)] + Enc(ms[i].value)
    decreases |ms|
  {
    assert ms[..i + 1][..i] == ms[..i];
    if i + 1 == |ms| {
      assert ms[..i + 1] == ms;
    } else {
      var front := ms[..|ms| - 1];
      EncMembersPrefix(front, i);
      assert front[..i] == ms[..i] && front[i] == ms[i];
    }
  }

  /** A piece of the body of the encoding at `p` is a piece of the document. */
  lemma PieceOfBody(doc: seq<Cell>, p: nat, head: Cell, body: seq<Cell>, a: nat, n: nat)
    requires p + 1 + |body| <= |doc| && doc[p..p + 1 + |body|] == [head] + body && a + n <= |body|
    ensures doc[p + 1 + a..p + 1 + a + n] == body[a..a + n]
  {
    var e, x, y := [head] + body, doc[p + 1 + a..p + 1 + a + n], body[a..a + n];
    forall i | 0 <= i < n ensures x[i] == y[i] {
      assert x[i] == doc[p + 1 + a + i] == doc[p..p + |e|][1 + a + i] == e[1 + a + i];
    }
  }

  /** Each child of an array lies where the sizes in front of it say, and the next one behind it. */
  lemma ChildIsThere(doc: seq<Cell>, p: nat, items: seq<Tree>, i: nat)
    requires At(doc, p, Arr(items)) && i < |items|
    ensures At(doc, ChildPos(p, items, i), items[i])
    ensures ChildPos(p, items, i + 1) == ChildPos(p, items, i) + |Enc(items[i])|
  {
    EncAllPrefix(items, i);
    var head, body := Enc(Arr(items))[0], EncAll(items);
    assert Enc(Arr(items)) == [head] + body;
    PieceOfBody(doc, p, head, body, |EncAll(items[..i])|, |Enc(items[i])|);
  }

  lemma MemberIsThere(doc: seq<Cell>, p: nat, ms: seq<Member>, i: nat)
    requires At(doc, p, Obj(ms)) && i < |ms|
    ensures var q := MemberPos(p, ms, i);
            q < |doc| && doc[q] == TextCell(ms[i].key) && At(doc, q + 1, ms[i].value)
    ensures MemberPos(p, ms, i + 1) == MemberPos(p, ms, i) + 1 + |Enc(ms[i].value)|
  {
    EncMembersPrefix(ms, i);
    var head, body := Enc(Obj(ms))[0], EncMembers(ms);
    assert Enc(Obj(ms)) == [head] + body;
    MemberInBody(doc, p, head, body, |EncMembers(ms[..i])|, TextCell(ms[i].key), Enc(ms[i].value));
  }

  lemma MemberInBody(doc: seq<Cell>, p: nat, head: Cell, body: seq<Cell>, a: nat, key: Cell, value: seq<Cell>)
    requires p + 1 + |body| <= |doc| && doc[p..p + 1 + |body|] == [head] + body
    requires a + 1 + |value| <= |body| && body[a..a + 1 + |value|] == [key] + value
    ensures doc[p + 1 + a] == key && doc[p + 1 + a + 1..p + 1 + a + 1 + |value|] == value
  {
    PieceOfBody(doc, p, head, body, a, 1 + |value|);
    HeadAndRest(doc, p + 1 + a, key, value);
  }

  lemma HeadAndRest(doc: seq<Cell>, q: nat, head: Cell, rest: seq<Cell>)
    requires q + 1 + |rest| <= |doc| && doc[q..q + 1 + |rest|] == [head] + rest
    ensures doc[q] == head && doc[q + 1..q + 1 + |rest|] == rest
  {
    assert doc[q] == doc[q..q + 1 + |rest|][0];
    assert doc[q + 1..q + 1 + |rest|] == doc[q..q + 1 + |rest|][1..];
  }

  // ------------------------------------------------------------------- flat arrays

  lemma {:induction false} AllSizesOne(ts: seq<Tree>)
    ensures |ts| <= |EncAll(ts)|
    ensures |EncAll(ts)| == |ts| <==> forall i :: 0 <= i < |ts| ==> |Enc(ts[i])| == 1
  {
    if ts != [] {
      var front := ts[..|ts| - 1];
      AllSizesOne(front);
      assert forall i :: 0 <= i < |front| ==> front[i] == ts[i];
    }
  }

  /** The flat test holds exactly when every child takes one cell. */
  lemma FlatMeansOneCellEach(doc: seq<Cell>, p: nat, items: seq<Tree>)
    requires At(doc, p, Arr(items))
    ensures IsFlat(doc[p]) <==> forall i :: 0 <= i < |items| ==> |Enc(items[i])| == 1
  {
    NextSkipsValue(doc, p, Arr(items));
    AllSizesOne(items);
  }

  lemma {:induction false} FlatChildPos(p: nat, items: seq<Tree>, i: nat)
    requires i <= |items| && forall j :: 0 <= j < |items| ==> |Enc(items[j])| == 1
    ensures ChildPos(p, items, i) == p + 1 + i
  {
    var ts := items[..i];
    AllSizesOne(ts);
  }

  /** `idx` steps from the first child. */
  method WalkTo(doc: seq<Cell>, first: nat, idx: nat, ghost p: nat, ghost items: seq<Tree>) returns (val: nat)
    requires At(doc, p, Arr(items)) && idx < |items| && first == p + 1
    ensures val == ChildPos(p, items, idx)
  {
    val := first;
    var i := idx;
    while i > 0
      invariant 0 <= i <= idx
      invariant val == ChildPos(p, items, idx - i)
    {
      ChildIsThere(doc, p, items, idx - i);
      NextSkipsValue(doc, val, items[idx - i]);
      i := i - 1;
      val := Next(doc, val);
    }
  }

  /** `yyjson_arr_get` at the position of any value: the shortcut for flat arrays and the walk
      both end on the child asked for. */
  method ArrGet(doc: seq<Cell>, p: nat, idx: nat, ghost t: Tree) returns (r: Option<nat>)
    requires At(doc, p, t)
    ensures r.Some? <==> t.Arr? && idx < |t.items|
    ensures r.Some? ==> r.value == ChildPos(p, t.items, idx) && At(doc, r.value, t.items[idx])
  {
    NextSkipsValue(doc, p, t);
    if doc[p].kind == KArr {
      if doc[p].len > idx {
        var val := p + 1;
        FlatMeansOneCellEach(doc, p, t.items);
        ChildIsThere(doc, p, t.items, idx);
        if IsFlat(doc[p]) {
          FlatChildPos(p, t.items, idx);
          return Some(val + idx);
        }
        val := WalkTo(doc, val, idx, p, t.items);
        return Some(val);
      }
    }
    return None;
  }

  // ---------------------------------------------------------------- object lookup

  /** One member: its key cell, its value behind it, and the step to the next member. */
  lemma MemberStep(doc: seq<Cell>, p: nat, ms: seq<Member>, i: nat, key: string)
    requires At(doc, p, Obj(ms)) && i < |ms|
    ensures var q := MemberPos(p, ms, i);
            && q + 1 < |doc| && (EqualsText(doc[q], key) <==> ms[i].key == key)
            && At(doc, q + 1, ms[i].value) && Next(doc, q + 1) == MemberPos(p, ms, i + 1)
  {
    MemberIsThere(doc, p, ms, i);
    NextSkipsValue(doc, MemberPos(p, ms, i) + 1, ms[i].value);
  }

  /** Compares the key at `c`, that of member `i`, and finds where the next one is. */
  method Inspect(doc: seq<Cell>, c: nat, key: string, ghost p: nat, ghost ms: seq<Member>, ghost i: nat)
    returns (hit: bool, next: nat)
    requires At(doc, p, Obj(ms)) && i < |ms| && c == MemberPos(p, ms, i)
    ensures (hit <==> ms[i].key == key) && next == MemberPos(p, ms, i + 1)
  {
    MemberStep(doc, p, ms, i, key);
    next := Next(doc, c + 1);
    hit := EqualsText(doc[c], key);
  }

  /** `k` is the first member with that key, or the number of members when there is none. */
  ghost predicate FirstMember(ms: seq<Member>, key: string, k: nat) {
    && k <= |ms| && (k < |ms| ==> ms[k].key == key)
    && forall i :: 0 <= i < k ==> ms[i].key != key
  }

  /** `yyjson_obj_getn` at the position of any value; `k` is the member found. */
  method ObjGetN(doc: seq<Cell>, p: nat, key: string, ghost t: Tree) returns (r: Option<nat>, ghost k: nat)
    requires At(doc, p, t)
    ensures !t.Obj? ==> r.None?
    ensures t.Obj? ==> FirstMember(t.members, key, k) && (r.Some? <==> k < |t.members|)
    ensures r.Some? ==> r.value == MemberPos(p, t.members, k) + 1 && At(doc, r.value, t.members[k].value)
  {
    k := 0;
    NextSkipsValue(doc, p, t);
    if doc[p].kind == KObj {
      var len := doc[p].len;
      var keyPos := p + 1;
      while len > 0
        invariant k + len == |t.members| && keyPos == MemberPos(p, t.members, k)
        invariant forall i :: 0 <= i < k ==> t.members[i].key != key
      {
        len := len - 1;
        MemberStep(doc, p, t.members, k, key);
        if EqualsText(doc[keyPos], key) {
          return Some(keyPos + 1), k;
        }
        keyPos := Next(doc, keyPos + 1);
        k := k + 1;
      }
    }
    return None, k;
  }

  /** An iterator over the members of the object at `obj`. */
  class ObjIter {
    var idx: nat
    const max: nat
    var cur: nat
    const obj: nat

    constructor (doc: seq<Cell>, p: nat, ghost ms: seq<Member>)
      requires At(doc, p, Obj(ms))
      ensures Ok(doc, ms) && obj == p && idx == 0
    {
      NextSkipsValue(doc, p, Obj(ms));
      idx := 0;
      max := doc[p].len;
      cur := p + 1;
      obj := p;
    }

    /** `idx` members have been passed and `cur` is where the next key is. */
    ghost predicate Ok(doc: seq<Cell>, ms: seq<Member>)
      reads this
    {
      At(doc, obj, Obj(ms)) && max == |ms| && idx <= max && cur == MemberPos(obj, ms, idx)
    }

    /** `yyjson_obj_iter_next`. */
    method Advance(doc: seq<Cell>, ghost ms: seq<Member>) returns (key: Option<nat>)
      requires Ok(doc, ms)
      modifies this
      ensures Ok(doc, ms)
      ensures key == if old(idx) < max then Some(MemberPos(obj, ms, old(idx))) else None
      ensures idx == if old(idx) < max then old(idx) + 1 else old(idx)
    {
      if idx < max {
        var k := cur;
        MemberStep(doc, obj, ms, idx, "");
        idx := idx + 1;
        cur := Next(doc, k + 1);
        return Some(k);
      }
      return None;
    }

    /** `yyjson_obj_iter_getn`: inspects the first `steps` members of the round that starts at the
        current member, or at the first when the iterator is at its end. */
    method GetN(doc: seq<Cell>, key: string, ghost ms: seq<Member>) returns (r: Option<nat>, ghost steps: nat)
      requires Ok(doc, ms)
      modifies this
      ensures Ok(doc, ms) && steps <= |ms|
      ensures r.None? ==> idx == old(idx) && cur == old(cur) && steps == |ms| && forall i :: 0 <= i < |ms| ==> ms[i].key != key
      ensures r.Some? ==>
                && 0 < steps && 0 < idx && steps - 1 == RoundIndex(Start(old(idx), max), max, idx - 1)
                && FirstOnRound(ms, key, Start(old(idx), max), idx - 1)
                && r.value == MemberPos(obj, ms, idx - 1) + 1
    {
      var i := idx;
      var m := max;
      var c := cur;
      if i == m {
        i := 0;
        c := obj + 1;
      }
      ghost var start, wrapped := i, false;
      steps := 0;
      while i < m
        invariant Ok(doc, ms) && idx == old(idx) && cur == old(cur) && start == Start(idx, max)
        invariant !wrapped ==> m == max && i == start + steps <= m && (i == m && m > 0 ==> idx == m)
        invariant wrapped ==> m == idx == start < max && i == start + steps - max && 0 <= i <= m
        invariant c == MemberPos(obj, ms, i)
        invariant Missed(ms, key, start, steps)
        decreases !wrapped, m - i
      {
        RoundOnce(start, max, steps);
        var hit, next := Inspect(doc, c, key, obj, ms, i);
        steps := steps + 1;
        i := i + 1;
        if hit {
          idx := i;
          cur := next;
          return Some(c + 1), steps;
        }
        c := next;
        if i == max && idx < max {
          i := 0;
          m := idx;
          c := obj + 1;
          wrapped := true;
        }
      }
      MissedEverywhere(ms, key, start);
      return None, steps;
    }
  }

  /** Where a lookup starts. */
  ghost function Start(idx: nat, n: nat): nat {
    if idx == n then 0 else idx
  }

  /** Member number `a` of the walk that starts at `start` and goes round once. */
  ghost function RoundAt(start: nat, n: nat, a: nat): (j: nat)
    requires start <= n && a < n
    ensures j < n
  {
    if start + a < n then start + a else start + a - n
  }

  /** Its inverse: when the walk comes to member `j`. */
  ghost function RoundIndex(start: nat, n: nat, j: nat): (a: nat)
    requires start <= n && j < n
    ensures a < n && RoundAt(start, n, a) == j
  {
    if start <= j then j - start else j + n - start
  }

  lemma RoundOnce(start: nat, n: nat, a: nat)
    requires start <= n && a < n
    ensures RoundIndex(start, n, RoundAt(start, n, a)) == a
  {
  }

  /** The first `n` members of the walk do not have the key. */
  ghost predicate Missed(ms: seq<Member>, key: string, start: nat, n: nat)
    requires start <= |ms|
  {
    n == 0 || (n <= |ms| && Missed(ms, key, start, n - 1) && ms[RoundAt(start, |ms|, n - 1)].key != key)
  }

  lemma {:induction false} MissedAt(ms: seq<Member>, key: string, start: nat, n: nat, a: nat)
    requires start <= |ms| && Missed(ms, key, start, n) && a < n
    ensures n <= |ms| && ms[RoundAt(start, |ms|, a)].key != key
  {
    if a < n - 1 { MissedAt(ms, key, start, n - 1, a); }
  }

  lemma MissedEverywhere(ms: seq<Member>, key: string, start: nat)
    requires start <= |ms| && Missed(ms, key, start, |ms|)
    ensures forall j :: 0 <= j < |ms| ==> ms[j].key != key
  {
    forall j | 0 <= j < |ms| ensures ms[j].key != key {
      MissedAt(ms, key, start, |ms|, RoundIndex(start, |ms|, j));
    }
  }

  /** `j` is the first member with that key on the walk from `start`. */
  ghost predicate FirstOnRound(ms: seq<Member>, key: string, start: nat, j: nat) {
    start <= |ms| && j < |ms| && ms[j].key == key && Missed(ms, key, start, RoundIndex(start, |ms|, j))
  }

  /** The iterator and the plain lookup find the same member exactly when the plain one is not
      behind the iterator, or no later member has the key; so always when keys are unique. */
  lemma LookupsAgreeExactly(ms: seq<Member>, key: string, start: nat, j: nat, k: nat)
    requires FirstOnRound(ms, key, start, j) && FirstMember(ms, key, k)
    ensures j == k <==> start <= k || forall i :: start <= i < |ms| ==> ms[i].key != key
    ensures (forall a, b :: 0 <= a < b < |ms| ==> ms[a].key != ms[b].key) ==> j == k
  {
    var n := |ms|;
    if j != k {
      assert k < n;
      if RoundIndex(start, n, k) < RoundIndex(start, n, j) {
        MissedAt(ms, key, start, RoundIndex(start, n, j), RoundIndex(start, n, k));
      }
    } else if k < start {
      forall i | start <= i < n ensures ms[i].key != key {
        MissedAt(ms, key, start, RoundIndex(start, n, j), RoundIndex(start, n, i));
      }
    }
  }
}
