/** What the object operations mean for a reader of the object: where a key is found
    afterwards, how often it occurs, and that all other pairs stay as they are. */
module JsonObjectLaws {
  import opened JsonRing
  import opened JsonObject

  /** How many pairs have that key. */
  ghost function Count(s: seq<Pair>, key: string): nat {
    if s == [] then 0 else Count(s[..|s| - 1], key) + if s[|s| - 1].key.str == key then 1 else 0
  }

  /** `k` is the position of the first pair with that key, or the length when there is none. */
  ghost predicate FirstAt(s: seq<Pair>, key: string, k: nat) {
    && k <= |s| && (k < |s| ==> s[k].key.str == key)
    && forall i :: 0 <= i < k ==> s[i].key.str != key
  }

  lemma {:induction false} WithoutConcat(a: seq<Pair>, b: seq<Pair>, key: string)
    ensures Without(a + b, key) == Without(a, key) + Without(b, key)
    ensures Count(a + b, key) == Count(a, key) + Count(b, key)
  {
    if b == [] {
      assert a + b == a;
    } else {
      var front := b[..|b| - 1];
      WithoutConcat(a, front, key);
      assert (a + b)[..|a + b| - 1] == a + front;
    }
  }

  lemma {:induction false} WithoutNothing(s: seq<Pair>, key: string)
    requires forall i :: 0 <= i < |s| ==> s[i].key.str != key
    ensures Without(s, key) == s && Count(s, key) == 0 && FirstValue(s, key) == null
  {
    if s != [] { WithoutNothing(s[..|s| - 1], key); }
  }

  /** A deleted key is nowhere. */
  lemma WithoutTwice(s: seq<Pair>, key: string)
    ensures Without(Without(s, key), key) == Without(s, key) && Count(Without(s, key), key) == 0
    ensures FirstValue(Without(s, key), key) == null
  {
    WithoutMembers(s, key);
    WithoutNothing(Without(s, key), key);
  }

  /** Deleting a key leaves lookups of any other key as they were. */
  lemma {:induction false} DeleteForgetsOnlyThatKey(s: seq<Pair>, key: string, other: string)
    requires other != key
    ensures FirstValue(Without(s, key), other) == FirstValue(s, other)
    ensures Count(Without(s, key), other) == Count(s, other)
  {
    if s != [] {
      var front, last := s[..|s| - 1], s[|s| - 1];
      DeleteForgetsOnlyThatKey(front, key, other);
      if last.key.str != key {
        assert Without(s, key)[..|Without(s, key)| - 1] == Without(front, key);
      } else {
        assert Without(s, key) == Without(front, key);
      }
    }
  }

  /** A lookup finds the value of the first pair with the key. */
  lemma {:induction false} FirstValueIsAtFirst(s: seq<Pair>, key: string, k: nat)
    requires FirstAt(s, key, k)
    ensures FirstValue(s, key) == if k < |s| then s[k].val else null
  {
    if k == |s| {
      WithoutNothing(s, key);
    } else if k == |s| - 1 {
      var front := s[..k];
      WithoutNothing(front, key);
    } else {
      var front := s[..|s| - 1];
      assert front[k] == s[k];
      FirstValueIsAtFirst(front, key, k);
    }
  }

  lemma {:induction false} ReplacedForm(s: seq<Pair>, key: string, v: Val, k: nat)
    requires FirstAt(s, key, k) && k < |s|
    ensures Replaced(s, key, v) == s[..k] + [Pair(s[k].key, v)] + Without(s[k + 1..], key)
  {
    var n := |s| - 1;
    var front := s[..n];
    if k == n {
      ReplacedWithoutMatch(front, key, v);
      assert s[k + 1..] == [];
    } else {
      assert front[k] == s[k];
      assert HasKey(front, key);
      ReplacedForm(front, key, v, k);
      LastOfTail(s, k + 1);
      assert front[..k] == s[..k];
    }
  }

  lemma LastOfTail(s: seq<Pair>, k: nat)
    requires k < |s|
    ensures var tail := s[k..];
            tail != [] && tail[..|tail| - 1] == s[..|s| - 1][k..] && tail[|tail| - 1] == s[|s| - 1]
  {
  }

  /** One matching pair between pairs that do not match. */
  lemma OneMatch(a: seq<Pair>, p: Pair, b: seq<Pair>, key: string)
    requires p.key.str == key
    requires forall i :: 0 <= i < |a| ==> a[i].key.str != key
    ensures Without(a + [p] + b, key) == a + Without(b, key)
    ensures Count(a + [p] + b, key) == 1 + Count(b, key) && FirstValue(a + [p] + b, key) == p.val
  {
    var r := a + [p] + b;
    assert FirstAt(r, key, |a|) by {
      forall i | 0 <= i < |a| ensures r[i].key.str != key { assert r[i] == a[i]; }
    }
    FirstValueIsAtFirst(r, key, |a|);
    WithoutNothing(a, key);
    WithoutConcat(a + [p], b, key);
    assert (a + [p])[..|a + [p]| - 1] == a;
  }

  /** `put` of a value under a key that is there, in `was`, for the first time: the key occurs
      exactly once, at that place, with that value; all other pairs keep their order. */
  lemma PutOverOldValue(a: seq<Pair>, was: Pair, b: seq<Pair>, key: Val, v: Val)
    requires was.key.str == key.str && forall i :: 0 <= i < |a| ==> a[i].key.str != key.str
    ensures PutPairs(a + [was] + b, key, v) == a + [Pair(was.key, v)] + Without(b, key.str)
    ensures var r := a + [Pair(was.key, v)] + Without(b, key.str);
            && Count(r, key.str) == 1 && FirstValue(r, key.str) == v
            && Without(r, key.str) == Without(a + [was] + b, key.str) == a + Without(b, key.str)
  {
    PutOverForm(a, was, b, key, v);
    WithoutTwice(b, key.str);
    OneMatch(a, Pair(was.key, v), Without(b, key.str), key.str);
    OneMatch(a, was, b, key.str);
  }

  lemma PutOverForm(a: seq<Pair>, was: Pair, b: seq<Pair>, key: Val, v: Val)
    requires was.key.str == key.str && forall i :: 0 <= i < |a| ==> a[i].key.str != key.str
    ensures PutPairs(a + [was] + b, key, v) == a + [Pair(was.key, v)] + Without(b, key.str)
  {
    var s, k := a + [was] + b, |a|;
    assert s[k] == was && s[..k] == a && s[k + 1..] == b;
    assert HasKey(s, key.str);
    assert FirstAt(s, key.str, k) by {
      forall i | 0 <= i < k ensures s[i].key.str != key.str { assert s[i] == a[i]; }
    }
    ReplacedForm(s, key.str, v, k);
  }

  /** `put` of a value under a new key: the pair comes last and everything else stays. */
  lemma PutUnderNewKey(s: seq<Pair>, key: Val, v: Val)
    requires FirstAt(s, key.str, |s|)
    ensures PutPairs(s, key, v) == s + [Pair(key, v)]
    ensures Count(PutPairs(s, key, v), key.str) == 1 && FirstValue(PutPairs(s, key, v), key.str) == v
    ensures Without(PutPairs(s, key, v), key.str) == s == Without(s, key.str)
  {
    WithoutNothing(s, key.str);
    var r := s + [Pair(key, v)];
    assert r[..|r| - 1] == s && r[|r| - 1] == Pair(key, v);
    assert !HasKey(s, key.str);
  }
}
