/** Values of a mutable JSON document and the cycles their `next` pointers form.  A container
    keeps a pointer to the last element; the last element points to the first. */
module JsonRing {

  datatype Kind = Str | Arr | Obj | Other

  class Val {
    var next: Val?
    var tail: Val?        // the container's pointer into its cycle
    var len: nat
    const kind: Kind
    const str: string     // text of a string value

    /** The elements of an array, or the pairs of an object, in order. */
    ghost var elems: seq<Val>
    ghost var pairs: seq<Pair>
    ghost var nodes: set<Val>   // holds at least the keys and values of the pairs

    constructor (kind: Kind, str: string)
      ensures this.kind == kind && this.str == str && len == 0 && next == null && elems == [] && pairs == [] && nodes == {}
    {
      this.kind := kind;
      this.str := str;
      next := null;
      tail := null;
      len := 0;
      elems := [];
      pairs := [];
      nodes := {};
    }
  }

  /** A key and its value; in memory the key's `next` is the value. */
  datatype Pair = Pair(key: Val, val: Val)

  ghost predicate Distinct(s: seq<Val>) {
    forall i, j :: 0 <= i < j < |s| ==> s[i] != s[j]
  }

  /** The element behind position `i`, going round. */
  ghost function Succ(s: seq<Val>, i: nat): Val
    requires i < |s|
  {
    if i + 1 < |s| then s[i + 1] else s[0]
  }

  /** Every element points to the next one and the last to the first. */
  ghost predicate Ring(s: seq<Val>)
    reads s`next
  {
    forall i {:trigger s[i].next} :: 0 <= i < |s| ==> s[i].next == Succ(s, i)
  }

  /** Position in front of `k`, going round. */
  ghost function Pred(k: nat, n: nat): nat
    requires 0 < n && k <= n
  {
    if k == 0 then n - 1 else k - 1
  }

  /** The ring holds everywhere but behind position `hole`. */
  ghost predicate RingBut(s: seq<Val>, hole: nat)
    reads s`next
  {
    forall i {:trigger s[i].next} :: 0 <= i < |s| && i != hole ==> s[i].next == Succ(s, i)
  }

  // ------------------------------------------------------- operations on sequences

  ghost function Put(s: seq<Val>, k: nat, x: Val): (r: seq<Val>)
    requires k <= |s|
    ensures |r| == |s| + 1 && r[k] == x
    ensures forall i {:trigger r[i]} :: 0 <= i < k ==> r[i] == s[i]
    ensures forall i {:trigger r[i]} :: k < i < |r| ==> r[i] == s[i - 1]
  {
    s[..k] + [x] + s[k..]
  }

  ghost function Cut(s: seq<Val>, k: nat, n: nat): (r: seq<Val>)
    requires k + n <= |s|
    ensures |r| == |s| - n
    ensures forall i {:trigger r[i]} :: 0 <= i < k ==> r[i] == s[i]
    ensures forall i {:trigger r[i]} :: k <= i < |r| ==> r[i] == s[i + n]
  {
    s[..k] + s[k + n..]
  }

  ghost function Rotated(s: seq<Val>, k: nat): (r: seq<Val>)
    requires k <= |s|
    ensures |r| == |s|
    ensures forall i {:trigger r[i]} :: 0 <= i < |r| ==> r[i] == if i + k < |s| then s[i + k] else s[i + k - |s|]
  {
    s[k..] + s[..k]
  }

  // --------------------------------------------------------------- rings after a write

  lemma RingPut(s: seq<Val>, k: nat, x: Val)
    requires s != [] && k <= |s| && RingBut(s, Pred(k, |s|))
    requires s[Pred(k, |s|)].next == x && x.next == (if k < |s| then s[k] else s[0])
    ensures Ring(Put(s, k, x))
  {
    var r := Put(s, k, x);
    forall i | 0 <= i < |r| ensures r[i].next == Succ(r, i) {
      if i != k {
        var j := if i < k then i else i - 1;
        assert r[i] == s[j];
        assert j != Pred(k, |s|) ==> s[j].next == Succ(s, j);
      }
    }
  }

  lemma RingReplace(s: seq<Val>, k: nat, x: Val)
    requires |s| > 1 && k < |s| && Distinct(s) && x !in s
    requires forall i {:trigger s[i].next} :: 0 <= i < |s| && i != Pred(k, |s|) && i != k ==> s[i].next == Succ(s, i)
    requires s[Pred(k, |s|)].next == x && x.next == Succ(s, k)
    ensures Ring(s[k := x])
  {
    var r := s[k := x];
    forall i | 0 <= i < |r| ensures r[i].next == Succ(r, i) {
      if i != k {
        assert r[i] == s[i];
        assert i != Pred(k, |s|) ==> s[i].next == Succ(s, i);
      }
    }
  }

  /** Skipping `n` elements from position `k` leaves the ring of the rest. */
  lemma RingCut(s: seq<Val>, k: nat, n: nat)
    requires 0 < n < |s| && k + n <= |s|
    requires forall i {:trigger s[i].next} :: 0 <= i < |s| && i != Pred(k, |s|) && !(k <= i < k + n) ==> s[i].next == Succ(s, i)
    requires s[Pred(k, |s|)].next == if k + n < |s| then s[k + n] else s[0]
    requires !(k <= Pred(k, |s|) < k + n)
    ensures Ring(Cut(s, k, n))
  {
    var r := Cut(s, k, n);
    forall i | 0 <= i < |r| ensures r[i].next == Succ(r, i) {
      var j := if i < k then i else i + n;
      assert r[i] == s[j];
      assert j != Pred(k, |s|) ==> s[j].next == Succ(s, j);
    }
  }

  lemma RingRotate(s: seq<Val>, k: nat)
    requires Ring(s) && k <= |s|
    ensures Ring(Rotated(s, k))
  {
    var r := Rotated(s, k);
    forall i | 0 <= i < |r| ensures r[i].next == Succ(r, i) {
      var j := if i + k < |s| then i + k else i + k - |s|;
      assert r[i] == s[j];
      assert s[j].next == Succ(s, j);
    }
  }

  lemma PutDistinct(s: seq<Val>, k: nat, x: Val)
    requires Distinct(s) && x !in s && k <= |s|
    ensures Distinct(Put(s, k, x))
  {
  }

  lemma CutDistinct(s: seq<Val>, k: nat, n: nat)
    requires Distinct(s) && k + n <= |s|
    ensures Distinct(Cut(s, k, n))
  {
  }

  lemma RotatedDistinct(s: seq<Val>, k: nat)
    requires Distinct(s) && k <= |s|
    ensures Distinct(Rotated(s, k))
  {
  }
}
