/** Mutable JSON arrays: every operation on the cycle is the operation of the same name
    on the sequence of elements, for every length and index. */
module JsonArray {
  import opened JsonRing

  /** `arr` is an array whose pointer leads into the cycle of its elements. */
  ghost predicate ArrOk(arr: Val)
    reads arr, arr.elems`next
  {
    && arr.kind == Arr && arr.len == |arr.elems| && Distinct(arr.elems) && Ring(arr.elems)
    && (arr.elems != [] ==> arr.tail == arr.elems[|arr.elems| - 1])
  }

  /** The walk the operations share: `next` ends on element `idx` and `prev` on the one in front of it. */
  method Seek(tail: Val, idx: nat, ghost s: seq<Val>) returns (prev: Val, next: Val)
    requires Ring(s) && idx < |s| && tail == s[|s| - 1]
    ensures prev == s[Pred(idx, |s|)] && next == s[idx]
  {
    prev := tail;
    next := prev.next;
    var i := idx;
    while i > 0
      invariant 0 <= i <= idx
      invariant prev == s[Pred(idx - i, |s|)] && next == s[idx - i]
    {
      i := i - 1;
      prev := next;
      next := next.next;
    }
  }

  /** The walk with one pointer: `k` steps from element `from`, going round at most once. */
  method Follow(start: Val, ghost from: nat, k: nat, ghost s: seq<Val>) returns (p: Val)
    requires Ring(s) && from < |s| && k <= |s| && start == s[from]
    ensures p == s[if from + k < |s| then from + k else from + k - |s|]
  {
    p := start;
    var i := k;
    while i > 0
      invariant 0 <= i <= k
      invariant p == s[if from + (k - i) < |s| then from + (k - i) else from + (k - i) - |s|]
    {
      i := i - 1;
      p := p.next;
    }
  }

  method Insert(arr: Val, val: Val?, idx: nat) returns (ok: bool)
    requires arr.kind == Arr ==> ArrOk(arr) && (val != null ==> val !in arr.elems)
    modifies arr`tail, arr`len, arr`elems, arr.elems`next, (if val == null then {} else {val})`next
    ensures ok <==> arr.kind == Arr && val != null && idx <= old(arr.len)
    ensures ok ==> ArrOk(arr) && arr.elems == Put(old(arr.elems), idx, val)
    ensures !ok ==> unchanged(arr) && unchanged(old(arr.elems))
    ensures !ok && val != null ==> unchanged(val)
  {
    if arr.kind != Arr || val == null || idx > arr.len {
      return false;
    }
    ghost var s := arr.elems;
    var len := arr.len;
    arr.len := len + 1;
    PutDistinct(s, idx, val);
    if len == 0 {
      val.next := val;
      arr.tail := val;
    } else if idx == len {
      var prev := arr.tail;
      var next := prev.next;
      prev.next := val;
      val.next := next;
      arr.tail := val;
      RingPut(s, idx, val);
    } else {
      var prev, next := Seek(arr.tail, idx, s);
      prev.next := val;
      val.next := next;
      RingPut(s, idx, val);
    }
    arr.elems := Put(s, idx, val);
    return true;
  }

  method Append(arr: Val, val: Val?) returns (ok: bool)
    requires arr.kind == Arr ==> ArrOk(arr) && (val != null ==> val !in arr.elems)
    modifies arr`tail, arr`len, arr`elems, arr.elems`next, (if val == null then {} else {val})`next
    ensures ok <==> arr.kind == Arr && val != null
    ensures ok ==> ArrOk(arr) && arr.elems == old(arr.elems) + [val]
    ensures !ok ==> unchanged(arr) && unchanged(old(arr.elems))
    ensures !ok && val != null ==> unchanged(val)
  {
    if arr.kind != Arr || val == null {
      return false;
    }
    ghost var s := arr.elems;
    PutDistinct(s, |s|, val);
    var len := arr.len;
    arr.len := len + 1;
    if len == 0 {
      val.next := val;
    } else {
      var prev := arr.tail;
      var next := prev.next;
      prev.next := val;
      val.next := next;
      RingPut(s, |s|, val);
    }
    arr.tail := val;
    assert Put(s, |s|, val) == s + [val];
    arr.elems := s + [val];
    return true;
  }

  method Prepend(arr: Val, val: Val?) returns (ok: bool)
    requires arr.kind == Arr ==> ArrOk(arr) && (val != null ==> val !in arr.elems)
    modifies arr`tail, arr`len, arr`elems, arr.elems`next, (if val == null then {} else {val})`next
    ensures ok <==> arr.kind == Arr && val != null
    ensures ok ==> ArrOk(arr) && arr.elems == [val] + old(arr.elems)
    ensures !ok ==> unchanged(arr) && unchanged(old(arr.elems))
    ensures !ok && val != null ==> unchanged(val)
  {
    if arr.kind != Arr || val == null {
      return false;
    }
    ghost var s := arr.elems;
    PutDistinct(s, 0, val);
    var len := arr.len;
    arr.len := len + 1;
    if len == 0 {
      val.next := val;
      arr.tail := val;
    } else {
      var prev := arr.tail;
      var next := prev.next;
      prev.next := val;
      val.next := next;
      RingPut(s, 0, val);
    }
    assert Put(s, 0, val) == [val] + s;
    arr.elems := [val] + s;
    return true;
  }

  method Replace(arr: Val, idx: nat, val: Val?) returns (was: Val?)
    requires arr.kind == Arr ==> ArrOk(arr) && (val != null ==> val !in arr.elems)
    modifies arr`tail, arr`elems, arr.elems`next, (if val == null then {} else {val})`next
    ensures was != null <==> arr.kind == Arr && val != null && idx < arr.len
    ensures was != null ==> ArrOk(arr) && was == old(arr.elems)[idx] && arr.elems == old(arr.elems)[idx := val]
    ensures was == null ==> unchanged(arr) && unchanged(old(arr.elems))
    ensures was == null && val != null ==> unchanged(val)
  {
    if arr.kind != Arr || val == null || idx >= arr.len {
      return null;
    }
    ghost var s := arr.elems;
    if arr.len > 1 {
      var prev, next := Seek(arr.tail, idx, s);
      prev.next := val;
      val.next := next.next;
      if next == arr.tail {
        arr.tail := val;
      }
      RingReplace(s, idx, val);
      was := next;
    } else {
      var prev := arr.tail;
      val.next := val;
      arr.tail := val;
      was := prev;
    }
    arr.elems := s[idx := val];
  }

  method Remove(arr: Val, idx: nat) returns (was: Val?)
    requires arr.kind == Arr ==> ArrOk(arr)
    modifies arr`tail, arr`len, arr`elems, arr.elems`next
    ensures was != null <==> arr.kind == Arr && idx < old(arr.len)
    ensures was != null ==> ArrOk(arr) && was == old(arr.elems)[idx] && arr.elems == Cut(old(arr.elems), idx, 1)
    ensures was == null ==> unchanged(arr) && unchanged(old(arr.elems))
  {
    if arr.kind != Arr || idx >= arr.len {
      return null;
    }
    ghost var s := arr.elems;
    CutDistinct(s, idx, 1);
    var len := arr.len;
    arr.len := len - 1;
    if len > 1 {
      var prev, next := Seek(arr.tail, idx, s);
      prev.next := next.next;
      if next == arr.tail {
        arr.tail := prev;
      }
      RingCut(s, idx, 1);
      was := next;
    } else {
      was := arr.tail;
    }
    arr.elems := Cut(s, idx, 1);
  }

  method RemoveFirst(arr: Val) returns (was: Val?)
    requires arr.kind == Arr ==> ArrOk(arr)
    modifies arr`len, arr`elems, arr.elems`next
    ensures was != null <==> arr.kind == Arr && 0 < old(arr.len)
    ensures was != null ==> ArrOk(arr) && [was] + arr.elems == old(arr.elems)
    ensures was == null ==> unchanged(arr) && unchanged(old(arr.elems))
  {
    if arr.kind != Arr || arr.len == 0 {
      return null;
    }
    ghost var s := arr.elems;
    CutDistinct(s, 0, 1);
    var len := arr.len;
    if len > 1 {
      var prev := arr.tail;
      var next := prev.next;
      prev.next := next.next;
      RingCut(s, 0, 1);
      arr.len := len - 1;
      was := next;
    } else {
      was := arr.tail;
      arr.len := 0;
    }
    arr.elems := Cut(s, 0, 1);
  }

  method RemoveLast(arr: Val) returns (was: Val?)
    requires arr.kind == Arr ==> ArrOk(arr)
    modifies arr`tail, arr`len, arr`elems, arr.elems`next
    ensures was != null <==> arr.kind == Arr && 0 < old(arr.len)
    ensures was != null ==> ArrOk(arr) && arr.elems + [was] == old(arr.elems)
    ensures was == null ==> unchanged(arr) && unchanged(old(arr.elems))
  {
    if arr.kind != Arr || arr.len == 0 {
      return null;
    }
    ghost var s := arr.elems;
    var len := arr.len;
    CutDistinct(s, len - 1, 1);
    if len > 1 {
      var next := arr.tail.next;
      arr.len := len - 1;
      var prev := Follow(arr.tail, len - 1, len - 1, s);
      prev.next := next;
      RingCut(s, len - 1, 1);
      was := arr.tail;
      arr.tail := prev;
    } else {
      was := arr.tail;
      arr.len := 0;
    }
    arr.elems := Cut(s, len - 1, 1);
  }

  /** Links the element in front of position `idx` to the one behind the next `n`. */
  method Bypass(tail: Val, idx: nat, n: nat, ghost s: seq<Val>) returns (prev: Val)
    requires Ring(s) && Distinct(s) && 0 < n < |s| && idx + n <= |s| && tail == s[|s| - 1]
    modifies s`next
    ensures prev == s[Pred(idx, |s|)] && Ring(Cut(s, idx, n))
  {
    prev := Follow(tail, |s| - 1, idx, s);
    var next := prev.next;
    next := Follow(next, idx, n, s);
    prev.next := next;
    RingCut(s, idx, n);
  }

  /** Unlinks the `n` elements from `idx` on, when others remain. */
  method Unlink(arr: Val, idx: nat, n: nat)
    requires ArrOk(arr) && 0 < n && idx + n <= arr.len && n < arr.len
    modifies arr`tail, arr`len, arr`elems, arr.elems`next
    ensures ArrOk(arr) && arr.elems == Cut(old(arr.elems), idx, n)
  {
    ghost var s := arr.elems;
    CutDistinct(s, idx, n);
    LastAfterCut(s, idx, n);
    var tailRemoved := idx + n == arr.len;
    var prev := Bypass(arr.tail, idx, n, s);
    arr.len := arr.len - n;
    arr.elems := Cut(s, idx, n);
    if tailRemoved {
      arr.tail := prev;
    }
  }

  lemma LastAfterCut(s: seq<Val>, k: nat, n: nat)
    requires k + n <= |s| && 0 < n < |s|
    ensures Cut(s, k, n)[|s| - n - 1] == if k + n == |s| then s[Pred(k, |s|)] else s[|s| - 1]
  {
  }

  method RemoveRange(arr: Val, idx: nat, n: nat) returns (ok: bool)
    requires arr.kind == Arr ==> ArrOk(arr)
    modifies arr`tail, arr`len, arr`elems, arr.elems`next
    ensures ok <==> arr.kind == Arr && idx + n <= old(arr.len)
    ensures ok ==> ArrOk(arr) && arr.elems == Cut(old(arr.elems), idx, n)
    ensures !ok ==> unchanged(arr) && unchanged(old(arr.elems))
  {
    if arr.kind != Arr {
      return false;
    }
    var len := arr.len;
    if n > len || idx > len - n {
      return false;
    }
    if n == 0 {
      assert Cut(arr.elems, idx, 0) == arr.elems;
      return true;
    }
    if len == n {
      CutDistinct(arr.elems, idx, n);
      arr.elems := Cut(arr.elems, idx, n);
      arr.len := 0;
      return true;
    }
    Unlink(arr, idx, n);
    return true;
  }

  method Clear(arr: Val) returns (ok: bool)
    requires arr.kind == Arr ==> ArrOk(arr)
    modifies arr`len, arr`elems
    ensures ok <==> arr.kind == Arr
    ensures ok ==> ArrOk(arr) && arr.elems == []
    ensures !ok ==> unchanged(arr)
  {
    if arr.kind != Arr {
      return false;
    }
    arr.len := 0;
    arr.elems := [];
    return true;
  }

  lemma RotatedIsArray(s: seq<Val>, k: nat)
    requires Ring(s) && Distinct(s) && k < |s|
    ensures Ring(Rotated(s, k)) && Distinct(Rotated(s, k))
    ensures Rotated(s, k)[|s| - 1] == if k == 0 then s[|s| - 1] else s[k - 1]
  {
    RingRotate(s, k);
    RotatedDistinct(s, k);
  }

  /** The array points to another element of its cycle. */
  method Repoint(arr: Val, val: Val, ghost r: seq<Val>)
    requires arr.kind == Arr && arr.len == |r| && Distinct(r) && Ring(r) && r != [] && val == r[|r| - 1]
    modifies arr`tail, arr`elems
    ensures ArrOk(arr) && arr.elems == r
  {
    arr.tail := val;
    arr.elems := r;
  }

  method Rotate(arr: Val, idx: nat) returns (ok: bool)
    requires arr.kind == Arr ==> ArrOk(arr)
    modifies arr`tail, arr`elems
    ensures ok <==> arr.kind == Arr && idx < arr.len
    ensures ok ==> ArrOk(arr) && arr.elems == Rotated(old(arr.elems), idx)
    ensures !ok ==> unchanged(arr)
  {
    if arr.kind != Arr || arr.len <= idx {
      return false;
    }
    var val := Follow(arr.tail, arr.len - 1, idx, arr.elems);
    RotatedIsArray(arr.elems, idx);
    Repoint(arr, val, Rotated(arr.elems, idx));
    return true;
  }

  // ------------------------------------------------- how the operations undo each other

  lemma RemoveUndoesInsert(s: seq<Val>, k: nat, x: Val)
    requires k <= |s|
    ensures Cut(Put(s, k, x), k, 1) == s
  {
    var r := Put(s, k, x);
    forall i | 0 <= i < |s| ensures Cut(r, k, 1)[i] == s[i] {
      assert i < k ==> r[i] == s[i];
      assert i >= k ==> r[i + 1] == s[i];
    }
  }

  lemma RotateBack(s: seq<Val>, k: nat)
    requires k <= |s|
    ensures Rotated(Rotated(s, k), |s| - k) == s
  {
    var r := Rotated(s, k);
    forall i | 0 <= i < |s| ensures Rotated(r, |s| - k)[i] == s[i] {
      assert i < k ==> r[i + (|s| - k)] == s[i];
      assert i >= k ==> r[i - k] == s[i];
    }
  }
}
