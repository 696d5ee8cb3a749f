/** Mutable JSON objects: keys and values alternate on one cycle and the object points to its
    last key.  The iterator, both ways to delete a key, and `put`. */
module JsonObject {
  import opened Basics
  import opened JsonRing

  // -------------------------------------------------------------- the cycle of pairs

  /** The key behind pair `i`, going round. */
  ghost function SuccKey(s: seq<Pair>, i: nat): Val
    requires i < |s|
  {
    if i + 1 < |s| then s[i + 1].key else s[0].key
  }

  /** Every key points to its value and every value to the next key, the last one to the first. */
  ghost predicate PairRing(s: seq<Pair>, nodes: set<Val>)
    reads nodes`next
  {
    && (forall i {:trigger s[i]} :: 0 <= i < |s| ==> s[i].key in nodes && s[i].val in nodes)
    && (forall i {:trigger s[i].key.next} :: 0 <= i < |s| ==> s[i].key.next == s[i].val)
    && (forall i {:trigger s[i].val.next} :: 0 <= i < |s| ==> s[i].val.next == SuccKey(s, i))
  }

  /** No node occurs twice. */
  ghost predicate Apart(s: seq<Pair>) {
    && (forall i, j {:trigger s[i].key, s[j].key} :: 0 <= i < j < |s| ==> s[i].key != s[j].key)
    && (forall i, j {:trigger s[i].val, s[j].val} :: 0 <= i < j < |s| ==> s[i].val != s[j].val)
    && (forall i, j {:trigger s[i].key, s[j].val} :: 0 <= i < |s| && 0 <= j < |s| ==> s[i].key != s[j].val)
  }

  /** `x` is no key and no value from pair `i` on. */
  ghost predicate NotFrom(x: Val, s: seq<Pair>, i: nat) {
    forall j {:trigger s[j]} :: i <= j < |s| ==> s[j].key != x && s[j].val != x
  }

  /** From pair `i` on: the links of the ring, and no node twice. */
  ghost predicate CycleFrom(s: seq<Pair>, nodes: set<Val>, i: nat)
    requires i <= |s|
    reads nodes`next
    decreases |s| - i
  {
    i < |s| ==>
      && s[i].key in nodes && s[i].val in nodes && s[i].key != s[i].val
      && s[i].key.next == s[i].val && s[i].val.next == SuccKey(s, i)
      && NotFrom(s[i].key, s, i + 1) && NotFrom(s[i].val, s, i + 1)
      && CycleFrom(s, nodes, i + 1)
  }

  /** The nodes of `s`, all among `nodes`, form one cycle. */
  ghost predicate Cycle(s: seq<Pair>, nodes: set<Val>)
    reads nodes`next
  {
    CycleFrom(s, nodes, 0)
  }

  lemma OpenCycle(s: seq<Pair>, nodes: set<Val>)
    requires Cycle(s, nodes)
    ensures PairRing(s, nodes) && Apart(s)
  {
    OpenFrom(s, nodes, 0);
  }

  lemma {:induction false} OpenFrom(s: seq<Pair>, nodes: set<Val>, i: nat)
    requires i <= |s| && CycleFrom(s, nodes, i)
    ensures forall j {:trigger s[j]} :: i <= j < |s| ==>
              && s[j].key in nodes && s[j].val in nodes && s[j].key != s[j].val
              && s[j].key.next == s[j].val && s[j].val.next == SuccKey(s, j)
    ensures forall j, k :: i <= j < k < |s| ==>
              s[j].key != s[k].key && s[j].val != s[k].val && s[j].key != s[k].val && s[j].val != s[k].key
    decreases |s| - i
  {
    if i < |s| { OpenFrom(s, nodes, i + 1); }
  }

  lemma CloseCycle(s: seq<Pair>, nodes: set<Val>)
    requires PairRing(s, nodes) && Apart(s)
    ensures Cycle(s, nodes)
  {
    CloseFrom(s, nodes, 0);
  }

  lemma {:induction false} CloseFrom(s: seq<Pair>, nodes: set<Val>, i: nat)
    requires i <= |s| && PairRing(s, nodes) && Apart(s)
    ensures CycleFrom(s, nodes, i)
    decreases |s| - i
  {
    if i < |s| {
      CloseFrom(s, nodes, i + 1);
    }
  }

  /** `s` without pair `k`. */
  ghost function CutPair(s: seq<Pair>, k: nat): (r: seq<Pair>)
    requires k < |s|
    ensures |r| == |s| - 1
    ensures forall i {:trigger r[i]} :: 0 <= i < |r| ==> r[i] == if i < k then s[i] else s[i + 1]
  {
    s[..k] + s[k + 1..]
  }

  lemma CutIsApart(s: seq<Pair>, k: nat)
    requires k < |s| && Apart(s)
    ensures Apart(CutPair(s, k))
  {
    var r := CutPair(s, k);
    forall i, j | 0 <= i < |r| && 0 <= j < |r|
      ensures i < j ==> r[i].key != r[j].key && r[i].val != r[j].val
      ensures r[i].key != r[j].val
    {
      var i', j' := if i < k then i else i + 1, if j < k then j else j + 1;
      assert r[i] == s[i'] && r[j] == s[j'];
    }
  }

  /** Leading the value in front of pair `k` past it leaves the ring of the others. */
  lemma CutIsRing(s: seq<Pair>, nodes: set<Val>, k: nat)
    requires 1 < |s| && k < |s|
    requires forall i {:trigger s[i].key.next} :: 0 <= i < |s| ==> s[i].key.next == s[i].val
    requires forall i {:trigger s[i].val.next} :: 0 <= i < |s| && i != Pred(k, |s|) ==> s[i].val.next == SuccKey(s, i)
    requires s[Pred(k, |s|)].val.next == SuccKey(s, k)
    requires forall i {:trigger s[i]} :: 0 <= i < |s| ==> s[i].key in nodes && s[i].val in nodes
    ensures PairRing(CutPair(s, k), nodes)
  {
    var r := CutPair(s, k);
    forall i | 0 <= i < |r| ensures r[i].key.next == r[i].val && r[i].val.next == SuccKey(r, i) && r[i].key in nodes && r[i].val in nodes {
      var j := if i < k then i else i + 1;
      assert r[i] == s[j];
      assert s[j].key.next == s[j].val;
      assert j != Pred(k, |s|) ==> s[j].val.next == SuccKey(s, j);
    }
  }

  /** Takes pair `k` out of the cycle: the value in front of it is led past it. */
  method SkipPair(pre: Val, cur: Val, ghost s: seq<Pair>, ghost nodes: set<Val>, ghost k: nat) returns (next: Val)
    requires Cycle(s, nodes) && k < |s| && pre == s[Pred(k, |s|)].key && cur == s[k].key
    modifies nodes`next
    ensures next == SuccKey(s, k) && cur.next == s[k].val
    ensures Cycle(CutPair(s, k), nodes)
  {
    OpenCycle(s, nodes);
    ghost var p := Pred(k, |s|);
    assert s[k].key.next == s[k].val && s[k].val.next == SuccKey(s, k) && s[p].key.next == s[p].val;
    next := cur.next.next;
    pre.next.next := next;
    CutIsApart(s, k);
    if |s| > 1 {
      CutIsRing(s, nodes, k);
    }
    CloseCycle(CutPair(s, k), nodes);
  }

  /** `obj` is an object whose pointer leads to the last key of the cycle of its pairs. */
  ghost predicate ObjOk(obj: Val)
    reads obj, obj.nodes`next
  {
    && obj.kind == Obj && obj.len == |obj.pairs| && Cycle(obj.pairs, obj.nodes)
    && (obj.len > 0 ==> obj.tail == obj.pairs[obj.len - 1].key)
  }

  // ------------------------------------------------- what the operations do to the pairs

  ghost predicate HasKey(s: seq<Pair>, key: string) {
    exists i :: 0 <= i < |s| && s[i].key.str == key
  }

  /** The pairs whose key is not `key`, in order. */
  ghost function Without(s: seq<Pair>, key: string): (r: seq<Pair>)
    ensures |r| <= |s|
  {
    if s == [] then []
    else
      var last := s[|s| - 1];
      Without(s[..|s| - 1], key) + if last.key.str == key then [] else [last]
  }

  /** The value of the first pair with that key, or null. */
  ghost function FirstValue(s: seq<Pair>, key: string): Val? {
    if s == [] then null
    else
      var found, last := FirstValue(s[..|s| - 1], key), s[|s| - 1];
      if found == null && last.key.str == key then last.val else found
  }

  /** The first pair with that key gets the value `v`, later ones go. */
  ghost function Replaced(s: seq<Pair>, key: string, v: Val): (r: seq<Pair>)
    ensures |r| <= |s|
  {
    if s == [] then []
    else
      var front, last := s[..|s| - 1], s[|s| - 1];
      Replaced(front, key, v) +
      if last.key.str != key then [last] else if HasKey(front, key) then [] else [Pair(last.key, v)]
  }

  /** One more pair looked at. */
  lemma OneMore(seen: seq<Pair>, rest: seq<Pair>, key: string)
    requires rest != []
    ensures var seen' := seen + [rest[0]];
            && seen' + rest[1..] == seen + rest
            && Without(seen', key) == Without(seen, key) + (if rest[0].key.str == key then [] else [rest[0]])
            && FirstValue(seen', key) ==
               (if FirstValue(seen, key) == null && rest[0].key.str == key then rest[0].val else FirstValue(seen, key))
  {
    var seen' := seen + [rest[0]];
    assert seen'[..|seen'| - 1] == seen;
  }

  /** Pairs `done` have been dealt with, `rest` is still to come. */
  lemma CutNext(done: seq<Pair>, rest: seq<Pair>)
    requires rest != []
    ensures CutPair(done + rest, |done|) == done + rest[1..]
    ensures (done + [rest[0]]) + rest[1..] == done + rest
  {
  }

  /** `key->next->next`. */
  method KeyBehind(key: Val, ghost s: seq<Pair>, ghost nodes: set<Val>, ghost k: nat) returns (next: Val)
    requires Cycle(s, nodes) && k < |s| && key == s[k].key
    ensures next == SuccKey(s, k)
  {
    OpenCycle(s, nodes);
    assert s[k].key.next == s[k].val && s[k].val.next == SuccKey(s, k);
    next := key.next.next;
  }

  /** Takes pair `k` out of the object; if it was the last one, the object points to the one in front. */
  method TakeOut(obj: Val, prev: Val, cur: Val, last: bool, ghost k: nat) returns (val: Val)
    requires ObjOk(obj) && k < obj.len && last == (k == obj.len - 1)
    requires prev == obj.pairs[Pred(k, obj.len)].key && cur == obj.pairs[k].key
    modifies obj`tail, obj`len, obj`pairs, obj.nodes`next
    ensures ObjOk(obj) && obj.len == old(obj.len) - 1
    ensures obj.pairs == CutPair(old(obj.pairs), k)
    ensures obj.len > 0 ==> prev == obj.pairs[Pred(k, obj.len)].key
    ensures val == old(obj.pairs)[k].val
  {
    ghost var r := CutPair(obj.pairs, k);
    var next := SkipPair(prev, cur, obj.pairs, obj.nodes, k);
    val := cur.next;
    if last {
      obj.tail := prev;
    }
    obj.len := obj.len - 1;
    obj.pairs := r;
  }

  // ------------------------------------------------------------------------ iterator

  class Iter {
    var idx: nat
    var max: nat
    var cur: Val?
    var pre: Val?
    const obj: Val

    /** `yyjson_mut_obj_iter_init` on an object. */
    constructor (obj: Val)
      requires ObjOk(obj)
      ensures Ok() && this.obj == obj && idx == 0
    {
      this.obj := obj;
      idx := 0;
      max := obj.len;
      cur := if obj.len > 0 then obj.tail else null;
      pre := null;
    }

    /** `idx` pairs have been passed and `cur` is the key of the last of them, going round. */
    ghost predicate Ok()
      reads this, obj, obj.nodes`next
    {
      && ObjOk(obj) && max == obj.len && idx <= max
      && (max > 0 ==> cur == obj.pairs[Pred(idx, max)].key)
    }

    /** The pair returned last may be removed. */
    ghost predicate Fresh()
      reads this, obj, obj.nodes`next
    {
      Ok() && 0 < idx && pre == obj.pairs[Pred(idx - 1, max)].key
    }

    method Next() returns (key: Val?)
      requires Ok()
      modifies this`idx, this`cur, this`pre
      ensures Ok() && max == old(max)
      ensures key == null <==> old(idx) == max
      ensures key != null ==> idx == old(idx) + 1 && key == cur == obj.pairs[old(idx)].key && Fresh()
      ensures key == null ==> idx == old(idx)
    {
      if idx < max {
        var k := cur;
        pre := k;
        cur := KeyBehind(k, obj.pairs, obj.nodes, Pred(idx, max));
        idx := idx + 1;
        return cur;
      }
      return null;
    }

    method Remove() returns (val: Val?)
      requires Fresh()
      modifies this`idx, this`max, this`cur, obj`tail, obj`len, obj`pairs, obj.nodes`next
      ensures Ok() && idx == old(idx) - 1 && max == old(max) - 1
      ensures obj.pairs == CutPair(old(obj.pairs), idx)
      ensures val == old(obj.pairs)[idx].val
    {
      var prev := pre;
      val := TakeOut(obj, prev, cur, idx == max, idx - 1);
      idx := idx - 1;
      max := max - 1;
      cur := prev;
    }
  }

  // ---------------------------------------------------------------- delete by key

  /** The iterator stands between the pairs `done` and the pairs `rest` of its object. */
  ghost predicate Between(iter: Iter, done: seq<Pair>, rest: seq<Pair>)
    reads iter, iter.obj, iter.obj.nodes`next
  {
    iter.Ok() && iter.obj.pairs == done + rest && iter.idx == |done|
  }

  /** `key->next`. */
  method ValueAt(key: Val, ghost s: seq<Pair>, ghost nodes: set<Val>, ghost k: nat) returns (val: Val)
    requires Cycle(s, nodes) && k < |s| && key == s[k].key
    ensures val == s[k].val
  {
    OpenCycle(s, nodes);
    assert s[k].key.next == s[k].val;
    val := key.next;
  }

  lemma {:induction false} WithoutMembers(s: seq<Pair>, key: string)
    ensures forall i :: 0 <= i < |Without(s, key)| ==> Without(s, key)[i] in s && Without(s, key)[i].key.str != key
    ensures forall i :: 0 <= i < |s| && s[i].key.str != key ==> s[i] in Without(s, key)
  {
    if s != [] { WithoutMembers(s[..|s| - 1], key); }
  }

  /** One round of the delete loop: the next key, if there is one; its pair goes if the key is equal,
      and its value is remembered if it is the first. */
  method DeleteRound(iter: Iter, key: string, removed: Val?, ghost done: seq<Pair>, ghost rest: seq<Pair>)
    returns (more: bool, removed': Val?)
    requires Between(iter, done, rest)
    modifies iter, iter.obj`tail, iter.obj`len, iter.obj`pairs, iter.obj.nodes`next
    ensures more <==> rest != []
    ensures !more ==> removed' == removed && Between(iter, done, rest)
    ensures more ==> Between(iter, done + (if rest[0].key.str == key then [] else [rest[0]]), rest[1..])
                     && removed' == if removed == null && rest[0].key.str == key then rest[0].val else removed
  {
    var k := iter.Next();
    if k == null {
      return false, removed;
    }
    CutNext(done, rest);
    removed' := removed;
    if k.str == key {
      if removed == null {
        removed' := ValueAt(k, iter.obj.pairs, iter.obj.nodes, |done|);
      }
      var _ := RemoveCurrent(iter, done, rest);
    }
    return true, removed';
  }

  method RemoveCurrent(iter: Iter, ghost done: seq<Pair>, ghost rest: seq<Pair>) returns (val: Val?)
    requires iter.Fresh() && iter.obj.pairs == done + rest && rest != [] && iter.idx == |done| + 1
    modifies iter, iter.obj`tail, iter.obj`len, iter.obj`pairs, iter.obj.nodes`next
    ensures Between(iter, done + [], rest[1..]) && val == rest[0].val
  {
    CutNext(done, rest);
    assert done + [] == done;
    val := iter.Remove();
  }

  /** `yyjson_mut_obj_remove_strn`, which walks with the iterator. */
  method RemoveStrn(obj: Val, key: string) returns (removed: Val?)
    requires obj.kind == Obj ==> ObjOk(obj)
    modifies obj`tail, obj`len, obj`pairs, obj.nodes`next
    ensures obj.kind == Obj ==> ObjOk(obj) && obj.pairs == Without(old(obj.pairs), key)
    ensures removed == if obj.kind == Obj then FirstValue(old(obj.pairs), key) else null
    ensures obj.kind != Obj ==> unchanged(obj) && unchanged(old(obj.nodes))
  {
    removed := null;
    if obj.kind != Obj {
      return;
    }
    ghost var s, seen, rest := obj.pairs, [], obj.pairs;
    var iter := new Iter(obj);
    while true
      invariant fresh(iter) && iter.obj == obj && Between(iter, Without(seen, key), rest)
      invariant seen + rest == s && removed == FirstValue(seen, key)
      decreases |rest|
    {
      var more;
      more, removed := DeleteRound(iter, key, removed, Without(seen, key), rest);
      if !more {
        break;
      }
      OneMore(seen, rest, key);
      seen, rest := seen + [rest[0]], rest[1..];
    }
    assert seen == s;
  }

  /** The cycle `done + rest` with the counting loop at the start of `rest`: `pre` is the key in front
      of that place and `cur` the key behind it, going round. */
  ghost predicate Cursor(pre: Val, cur: Val, tail: Val?, done: seq<Pair>, rest: seq<Pair>, nodes: set<Val>)
    reads nodes`next
  {
    var s := done + rest;
    && Cycle(s, nodes)
    && (s != [] ==> tail == s[|s| - 1].key && pre == s[Pred(|done|, |s|)].key)
    && (rest != [] ==> cur == rest[0].key)
  }

  /** A matching pair is led past; the object's pointer moves if it was the last one. */
  method SkipMatch(obj: Val, pre: Val, cur: Val, last: bool, ghost done: seq<Pair>, ghost rest: seq<Pair>) returns (next: Val)
    requires rest != [] && Cursor(pre, cur, obj.tail, done, rest, obj.nodes) && last == (|rest| == 1)
    modifies obj`tail, obj.nodes`next
    ensures Cursor(pre, next, obj.tail, done + [], rest[1..], obj.nodes)
  {
    CutNext(done, rest);
    assert done + [] == done;
    next := SkipPair(pre, cur, done + rest, obj.nodes, |done|);
    if last {
      obj.tail := pre;
    }
  }

  method StepOver(obj: Val, cur: Val, ghost pre: Val, ghost done: seq<Pair>, ghost rest: seq<Pair>) returns (next: Val)
    requires rest != [] && Cursor(pre, cur, obj.tail, done, rest, obj.nodes)
    ensures Cursor(cur, next, obj.tail, done + [rest[0]], rest[1..], obj.nodes)
  {
    CutNext(done, rest);
    next := KeyBehind(cur, done + rest, obj.nodes, |done|);
  }

  /** `i - 1` and `i + 1` of an unsigned 64-bit counter. */
  function Down(i: nat): nat {
    if i == 0 then U64 - 1 else i - 1
  }

  function Up(i: nat): nat {
    if i == U64 - 1 then 0 else i + 1
  }

  /** One round of the counting loop, the step of its counter included. */
  method CountingRound(obj: Val, key: string, pre: Val, cur: Val, removed: Val?, i: nat, objLen: nat,
                       ghost done: seq<Pair>, ghost rest: seq<Pair>)
    returns (pre': Val, cur': Val, removed': Val?, i': nat, objLen': nat)
    requires i < objLen < U64 && i == |done| && objLen == |done| + |rest| && Cursor(pre, cur, obj.tail, done, rest, obj.nodes)
    modifies obj`tail, obj.nodes`next
    ensures Cursor(pre', cur', obj.tail, done + (if rest[0].key.str == key then [] else [rest[0]]), rest[1..], obj.nodes)
    ensures removed' == if removed == null && rest[0].key.str == key then rest[0].val else removed
    ensures rest[0].key.str == key ==> i' == i && objLen' == objLen - 1
    ensures rest[0].key.str != key ==> i' == i + 1 && objLen' == objLen
  {
    removed' := removed;
    if cur.str == key {
      if removed == null {
        removed' := ValueAt(cur, done + rest, obj.nodes, |done|);
      }
      pre' := pre;
      cur' := SkipMatch(obj, pre, cur, i + 1 == objLen, done, rest);
      i' := Down(i);
      objLen' := objLen - 1;
    } else {
      pre' := cur;
      cur' := StepOver(obj, cur, pre, done, rest);
      i', objLen' := i, objLen;
    }
    i' := Up(i');
  }

  /** `unsafe_yyjson_mut_obj_remove`, which counts pairs; its counter goes one below and comes back
      at every match, wrapping below zero for a match at the front. */
  method RemoveCounting(obj: Val, key: string) returns (removed: Val?)
    requires ObjOk(obj) && obj.len < U64
    modifies obj`tail, obj`len, obj`pairs, obj.nodes`next
    ensures ObjOk(obj) && obj.pairs == Without(old(obj.pairs), key)
    ensures removed == FirstValue(old(obj.pairs), key)
  {
    var objLen := obj.len;
    removed := null;
    if objLen == 0 {
      return;
    }
    ghost var done;
    removed, objLen, done := CountingLoop(obj, key);
    obj.len := objLen;
    obj.pairs := done;
  }

  /** The loop; the length is stored after it. */
  method CountingLoop(obj: Val, key: string) returns (removed: Val?, objLen: nat, ghost done: seq<Pair>)
    requires ObjOk(obj) && 0 < obj.len < U64
    modifies obj`tail, obj.nodes`next
    ensures Cycle(done, obj.nodes) && objLen == |done| && (objLen > 0 ==> obj.tail == done[objLen - 1].key)
    ensures done == Without(obj.pairs, key) && removed == FirstValue(obj.pairs, key)
  {
    ghost var seen, rest := [], obj.pairs;
    done := [];
    assert [] + rest == rest;
    removed, objLen := null, obj.len;
    var pre: Val := obj.tail;
    var cur := KeyBehind(pre, rest, obj.nodes, objLen - 1);
    var i: nat := 0;
    while i < objLen
      invariant i == |done| && objLen == i + |rest| && objLen < U64
      invariant Cursor(pre, cur, obj.tail, done, rest, obj.nodes)
      invariant seen + rest == obj.pairs && done == Without(seen, key) && removed == FirstValue(seen, key)
      decreases |rest|
    {
      OneMore(seen, rest, key);
      pre, cur, removed, i, objLen := CountingRound(obj, key, pre, cur, removed, i, objLen, done, rest);
      done, seen, rest := Without(seen + [rest[0]], key), seen + [rest[0]], rest[1..];
    }
    NothingLeft(pre, cur, obj.tail, done, rest, obj.nodes, seen);
  }

  lemma NothingLeft(pre: Val, cur: Val, tail: Val?, done: seq<Pair>, rest: seq<Pair>, nodes: set<Val>, seen: seq<Pair>)
    requires Cursor(pre, cur, tail, done, rest, nodes) && |rest| == 0
    ensures Cycle(done, nodes) && (|done| > 0 ==> tail == done[|done| - 1].key)
    ensures seen + rest == seen
  {
    assert done + rest == done;
  }

  // ----------------------------------------------------------------------- add, put

  lemma AppendIsCycle(s: seq<Pair>, nodes: set<Val>, p: Pair)
    requires Apart(s) && NotFrom(p.key, s, 0) && NotFrom(p.val, s, 0) && p.key != p.val
    requires forall i {:trigger s[i]} :: 0 <= i < |s| ==> s[i].key in nodes && s[i].val in nodes
    requires p.key in nodes && p.val in nodes
    requires forall i {:trigger s[i].key.next} :: 0 <= i < |s| ==> s[i].key.next == s[i].val
    requires forall i {:trigger s[i].val.next} :: 0 <= i < |s| - 1 ==> s[i].val.next == SuccKey(s, i)
    requires s != [] ==> s[|s| - 1].val.next == p.key
    requires p.key.next == p.val && p.val.next == if s == [] then p.key else s[0].key
    ensures Cycle(s + [p], nodes)
  {
    var r := s + [p];
    forall i | 0 <= i < |r| ensures r[i].key.next == r[i].val && r[i].val.next == SuccKey(r, i) {
      if i < |s| { assert r[i] == s[i] && s[i].key.next == s[i].val; }
      if i < |s| - 1 { assert s[i].val.next == SuccKey(s, i); }
    }
    CloseCycle(r, nodes);
  }

  /** `unsafe_yyjson_mut_obj_add`. */
  method Add(obj: Val, key: Val, val: Val)
    requires ObjOk(obj) && NotFrom(key, obj.pairs, 0) && NotFrom(val, obj.pairs, 0) && key != val
    modifies obj`tail, obj`len, obj`pairs, obj`nodes, obj.nodes`next, key`next, val`next
    ensures ObjOk(obj) && obj.pairs == old(obj.pairs) + [Pair(key, val)] && obj.nodes == old(obj.nodes) + {key, val}
  {
    ghost var s, nodes := obj.pairs, obj.nodes + {key, val};
    OpenCycle(s, obj.nodes);
    if obj.len > 0 {
      ghost var last := s[|s| - 1];
      assert last.key.next == last.val && last.val.next == SuccKey(s, |s| - 1);
      var prevVal := obj.tail.next;
      var nextKey := prevVal.next;
      prevVal.next := key;
      val.next := nextKey;
    } else {
      val.next := key;
    }
    key.next := val;
    AppendIsCycle(s, nodes, Pair(key, val));
    obj.tail := key;
    obj.len := obj.len + 1;
    obj.pairs := s + [Pair(key, val)];
    obj.nodes := nodes;
  }

  lemma ReplaceIsCycle(s: seq<Pair>, nodes: set<Val>, k: nat, v: Val)
    requires Apart(s) && k < |s| && NotFrom(v, s, 0)
    requires forall i {:trigger s[i]} :: 0 <= i < |s| ==> s[i].key in nodes && s[i].val in nodes
    requires v in nodes
    requires forall i {:trigger s[i].key.next} :: 0 <= i < |s| && i != k ==> s[i].key.next == s[i].val
    requires forall i {:trigger s[i].val.next} :: 0 <= i < |s| ==> s[i].val.next == SuccKey(s, i)
    requires s[k].key.next == v && v.next == SuccKey(s, k)
    ensures Cycle(s[k := Pair(s[k].key, v)], nodes)
  {
    var r := s[k := Pair(s[k].key, v)];
    forall i | 0 <= i < |r| ensures r[i].key.next == r[i].val && r[i].val.next == SuccKey(r, i) {
      if i != k { assert s[i].key.next == s[i].val && s[i].val.next == SuccKey(s, i); }
    }
    CloseCycle(r, nodes);
  }

  /** Hangs the value `v` on the key of pair `k` in place of its old value. */
  method HangValue(obj: Val, key: Val, v: Val, ghost k: nat)
    requires ObjOk(obj) && k < |obj.pairs| && key == obj.pairs[k].key && NotFrom(v, obj.pairs, 0)
    modifies obj`pairs, obj`nodes, obj.nodes`next, v`next
    ensures ObjOk(obj) && obj.pairs == old(obj.pairs)[k := Pair(key, v)] && obj.nodes == old(obj.nodes) + {v}
  {
    ghost var s := obj.pairs;
    OpenCycle(s, obj.nodes);
    assert s[k].key.next == s[k].val && s[k].val.next == SuccKey(s, k);
    v.next := key.next.next;
    key.next := v;
    ReplaceIsCycle(s, obj.nodes + {v}, k, v);
    obj.pairs := s[k := Pair(key, v)];
    obj.nodes := obj.nodes + {v};
  }

  /** What `put` makes of one pair: kept, given the new value, or dropped. */
  ghost function PutOne(p: Pair, key: string, val: Val?, replaced: bool): seq<Pair> {
    if p.key.str != key then [p] else if !replaced && val != null then [Pair(p.key, val)] else []
  }

  /** One round of the loop of `put`. */
  method PutRound(iter: Iter, key: string, val: Val?, replaced: bool, ghost done: seq<Pair>, ghost rest: seq<Pair>)
    returns (more: bool, replaced': bool)
    requires Between(iter, done, rest) && (val != null && !replaced ==> NotFrom(val, iter.obj.pairs, 0))
    modifies iter, iter.obj`tail, iter.obj`len, iter.obj`pairs, iter.obj`nodes, iter.obj.nodes`next,
             (if val == null then {} else {val})`next
    ensures more <==> rest != []
    ensures !more ==> replaced' == replaced && Between(iter, done, rest)
    ensures more ==> Between(iter, done + PutOne(rest[0], key, val, replaced), rest[1..])
                     && replaced' == (replaced || (val != null && rest[0].key.str == key))
    ensures iter.obj.nodes <= old(iter.obj.nodes) + if val == null then {} else {val}
  {
    var k := iter.Next();
    if k == null {
      return false, replaced;
    }
    CutNext(done, rest);
    replaced' := replaced;
    if k.str == key {
      if !replaced && val != null {
        replaced' := true;
        PutValue(iter, k, val, done, rest);
      } else {
        var _ := RemoveCurrent(iter, done, rest);
      }
    }
    return true, replaced';
  }

  method PutValue(iter: Iter, k: Val, val: Val, ghost done: seq<Pair>, ghost rest: seq<Pair>)
    requires iter.Fresh() && iter.obj.pairs == done + rest && rest != [] && iter.idx == |done| + 1 && k == rest[0].key
    requires NotFrom(val, iter.obj.pairs, 0)
    modifies iter.obj`pairs, iter.obj`nodes, iter.obj.nodes`next, val`next
    ensures Between(iter, done + [Pair(k, val)], rest[1..]) && iter.obj.nodes == old(iter.obj.nodes) + {val}
  {
    assert (done + rest)[|done| := Pair(k, val)] == (done + [Pair(k, val)]) + rest[1..];
    HangValue(iter.obj, k, val, |done|);
  }

  /** The pairs after `put`. */
  ghost function PutPairs(s: seq<Pair>, key: Val, val: Val?): seq<Pair> {
    if val == null then Without(s, key.str)
    else if HasKey(s, key.str) then Replaced(s, key.str, val)
    else s + [Pair(key, val)]
  }

  /** What the loop of `put` has made of the pairs seen. */
  ghost function PutSeen(seen: seq<Pair>, key: string, val: Val?): seq<Pair> {
    if val == null then Without(seen, key) else Replaced(seen, key, val)
  }

  lemma MoveOver(seen: seq<Pair>, rest: seq<Pair>)
    requires rest != []
    ensures (seen + [rest[0]]) + rest[1..] == seen + rest
  {
  }

  lemma OneMorePut(seen: seq<Pair>, rest: seq<Pair>, key: string, val: Val?)
    requires rest != []
    ensures var seen' := seen + [rest[0]];
            && PutSeen(seen', key, val) == PutSeen(seen, key, val) + PutOne(rest[0], key, val, val != null && HasKey(seen, key))
            && (HasKey(seen', key) <==> HasKey(seen, key) || rest[0].key.str == key)
  {
    var seen' := seen + [rest[0]];
    assert seen'[..|seen'| - 1] == seen && seen'[|seen|] == rest[0];
    OneMoreKey(seen, rest[0], key);
  }

  lemma OneMoreKey(seen: seq<Pair>, p: Pair, key: string)
    ensures HasKey(seen + [p], key) <==> HasKey(seen, key) || p.key.str == key
  {
    var seen' := seen + [p];
    assert seen'[|seen|] == p;
    if i :| 0 <= i < |seen| && seen[i].key.str == key {
      assert seen'[i].key.str == key;
    }
  }

  lemma {:induction false} ReplacedWithoutMatch(s: seq<Pair>, key: string, v: Val)
    requires !HasKey(s, key)
    ensures Replaced(s, key, v) == s
  {
    if s != [] {
      var front := s[..|s| - 1];
      forall i | 0 <= i < |front| ensures front[i].key.str != key {
        assert front[i] == s[i];
      }
      ReplacedWithoutMatch(front, key, v);
    }
  }

  /** The loop of `put` has been through the pairs `seen` of `seen + rest`. */
  ghost predicate PutSoFar(iter: Iter, key: string, val: Val?, replaced: bool, seen: seq<Pair>, rest: seq<Pair>)
    reads iter, iter.obj, iter.obj.nodes`next
  {
    && Between(iter, PutSeen(seen, key, val), rest)
    && (replaced <==> val != null && HasKey(seen, key))
    && (val != null && !replaced ==> PutSeen(seen, key, val) == seen && NotFrom(val, seen + rest, 0))
  }

  /** One round, with what it makes of the pairs. */
  method PutStep(iter: Iter, key: string, val: Val?, replaced: bool, ghost seen: seq<Pair>, ghost rest: seq<Pair>)
    returns (more: bool, replaced': bool)
    requires PutSoFar(iter, key, val, replaced, seen, rest)
    modifies iter, iter.obj`tail, iter.obj`len, iter.obj`pairs, iter.obj`nodes, iter.obj.nodes`next,
             (if val == null then {} else {val})`next
    ensures more <==> rest != []
    ensures !more ==> PutSoFar(iter, key, val, replaced', seen, rest)
    ensures more ==> PutSoFar(iter, key, val, replaced', seen + [rest[0]], rest[1..])
    ensures iter.obj.nodes <= old(iter.obj.nodes) + if val == null then {} else {val}
  {
    more, replaced' := PutRound(iter, key, val, replaced, PutSeen(seen, key, val), rest);
    if more {
      OneMorePut(seen, rest, key, val);
      MoveOver(seen, rest);
    }
  }

  /** The loop of `put`, with an iterator that has not started. */
  method PutEach(iter: Iter, key: string, val: Val?) returns (replaced: bool)
    requires Between(iter, [], iter.obj.pairs) && (val != null ==> NotFrom(val, iter.obj.pairs, 0))
    modifies iter, iter.obj`tail, iter.obj`len, iter.obj`pairs, iter.obj`nodes, iter.obj.nodes`next,
             (if val == null then {} else {val})`next
    ensures ObjOk(iter.obj) && iter.obj.pairs == PutSeen(old(iter.obj.pairs), key, val)
    ensures replaced <==> val != null && HasKey(old(iter.obj.pairs), key)
    ensures iter.obj.nodes <= old(iter.obj.nodes) + if val == null then {} else {val}
  {
    ghost var s, seen, rest := iter.obj.pairs, [], iter.obj.pairs;
    replaced := false;
    var more := true;
    while more
      invariant seen + rest == s && PutSoFar(iter, key, val, replaced, seen, rest) && (more || rest == [])
      invariant iter.obj.nodes <= old(iter.obj.nodes) + if val == null then {} else {val}
      decreases |rest|, more
    {
      more, replaced := PutStep(iter, key, val, replaced, seen, rest);
      if more {
        MoveOver(seen, rest);
        seen, rest := seen + [rest[0]], rest[1..];
      }
    }
    assert seen == s && PutSeen(seen, key, val) + [] == PutSeen(seen, key, val);
  }

  method PutLoop(obj: Val, key: string, val: Val?) returns (replaced: bool)
    requires ObjOk(obj) && (val != null ==> NotFrom(val, obj.pairs, 0))
    modifies obj`tail, obj`len, obj`pairs, obj`nodes, obj.nodes`next, (if val == null then {} else {val})`next
    ensures ObjOk(obj) && obj.pairs == PutSeen(old(obj.pairs), key, val)
    ensures replaced <==> val != null && HasKey(old(obj.pairs), key)
    ensures obj.nodes <= old(obj.nodes) + if val == null then {} else {val}
  {
    var iter := new Iter(obj);
    replaced := PutEach(iter, key, val);
  }

  /** `yyjson_mut_obj_put`. */
  method Put(obj: Val, key: Val, val: Val?) returns (ok: bool)
    requires obj.kind == Obj && key.kind == Str ==> ObjOk(obj)
    requires obj.kind == Obj && key.kind == Str && val != null ==> NotFrom(val, obj.pairs, 0)
    requires obj.kind == Obj && key.kind == Str && val != null && !HasKey(obj.pairs, key.str) ==>
               NotFrom(key, obj.pairs, 0) && key != val
    modifies obj`tail, obj`len, obj`pairs, obj`nodes, obj.nodes`next, key`next, (if val == null then {} else {val})`next
    ensures ok <==> obj.kind == Obj && key.kind == Str
    ensures ok ==> ObjOk(obj) && obj.pairs == PutPairs(old(obj.pairs), key, val)
    ensures !ok ==> unchanged(obj) && unchanged(old(obj.nodes))
  {
    if obj.kind != Obj || key.kind != Str {
      return false;
    }
    ghost var s := obj.pairs;
    var replaced := PutLoop(obj, key.str, val);
    if !replaced && val != null {
      ReplacedWithoutMatch(s, key.str, val);
      Add(obj, key, val);
    }
    return true;
  }
}
