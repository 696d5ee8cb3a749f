/** The bound on accepted checks in any interval of one window's length cannot be improved. */
module RateLimiterBurst {
  import opened Basics
  import opened RateLimiter
  import opened RateLimiterRuns

  /** `n` times the same event, then the rest. */
  function Repeat(n: nat, ev: Event, rest: seq<Event>): seq<Event> {
    if n == 0 then rest else [ev] + Repeat(n - 1, ev, rest)
  }

  /** A window opened at the start and used up at its last moment, and the next one used up at once. */
  function Burst(k: string, w: Time, max: int): seq<Event>
    requires 1 <= max && w + 1 < U64
  {
    [Check(k, 0, w, max)] +
    Repeat(max - 1, Check(k, w, w, max), [Check(k, w + 1, w, max)] + Repeat(max - 1, Check(k, w + 1, w, max), []))
  }

  function Accepted(m: Model, evs: seq<Event>, k: string, lo: nat, hi: nat): nat {
    AcceptedIn(evs, ModelAnswers(m, evs), k, lo, hi)
  }

  lemma OneCheck(m: Model, ev: Event, rest: seq<Event>, k: string, lo: nat, hi: nat)
    requires ev.Check? && ev.key == k
    ensures Accepted(m, [ev] + rest, k, lo, hi) ==
            Accepted(ApplyModel(m, ev).0, rest, k, lo, hi) + if lo <= ev.now <= hi && ApplyModel(m, ev).1 then 1 else 0
  {
    assert ([ev] + rest)[1..] == rest;
  }

  lemma {:induction false} RepeatIsAccepted(m: Model, n: nat, ev: Event, rest: seq<Event>, k: string, lo: nat, hi: nat)
    requires ev.Check? && ev.key == k && lo <= ev.now <= hi
    requires k in m && ev.now <= m[k].start + ev.window && m[k].count + n <= ev.max
    ensures Accepted(m, Repeat(n, ev, rest), k, lo, hi) ==
            n + Accepted(m[k := Counter(m[k].start, m[k].count + n)], rest, k, lo, hi)
  {
    if n == 0 {
      assert m[k := Counter(m[k].start, m[k].count)] == m;
    } else {
      var next := m[k := Counter(m[k].start, m[k].count + 1)];
      OneCheck(m, ev, Repeat(n - 1, ev, rest), k, lo, hi);
      RepeatIsAccepted(next, n - 1, ev, rest, k, lo, hi);
      assert next[k := Counter(next[k].start, next[k].count + (n - 1))] == m[k := Counter(m[k].start, m[k].count + n)];
    }
  }

  lemma BurstIsAccepted(k: string, w: Time, max: int)
    requires 1 <= max && 1 <= w && w + 1 < U64
    ensures Accepted(map[], Burst(k, w, max), k, w, 2 * w) == 2 * max - 1
  {
    var late, last := Check(k, w, w, max), Check(k, w + 1, w, max);
    var tail := [last] + Repeat(max - 1, last, []);
    var m1: Model := map[k := Counter(0, 1)];
    var m2: Model := map[k := Counter(0, max)];
    var m3: Model := map[k := Counter(w + 1, 1)];
    OneCheck(map[], Check(k, 0, w, max), Repeat(max - 1, late, tail), k, w, 2 * w);
    assert ApplyModel(map[], Check(k, 0, w, max)).0 == m1;
    RepeatIsAccepted(m1, max - 1, late, tail, k, w, 2 * w);
    assert m1[k := Counter(0, max)] == m2;
    OneCheck(m2, last, Repeat(max - 1, last, []), k, w, 2 * w);
    assert ApplyModel(m2, last).0 == m3;
    RepeatIsAccepted(m3, max - 1, last, [], k, w, 2 * w);
  }

  // ------------------------------------------------------------------- it is a legal run

  predicate OwnCheck(ev: Event, k: string, w: Time, max: int) {
    ev.Check? && ev.key == k && ev.window == w && ev.max == max
  }

  ghost predicate OwnChecks(evs: seq<Event>, k: string, w: Time, max: int) {
    forall i :: 0 <= i < |evs| ==> OwnCheck(evs[i], k, w, max)
  }

  lemma {:induction false} RepeatIsLegal(t: Time, n: nat, ev: Event, rest: seq<Event>, k: string, w: Time, max: int)
    requires OwnCheck(ev, k, w, max) && Storable(k) && t <= ev.now
    requires LegalRun(ev.now, rest) && OwnChecks(rest, k, w, max)
    ensures OwnChecks(Repeat(n, ev, rest), k, w, max)
    ensures n > 0 || LegalRun(t, rest) ==> LegalRun(t, Repeat(n, ev, rest))
    decreases n
  {
    if n > 0 {
      RepeatIsLegal(ev.now, n - 1, ev, rest, k, w, max);
      assert Repeat(n, ev, rest)[1..] == Repeat(n - 1, ev, rest);
    }
  }

  lemma {:induction false} OwnChecksEvictNothing(s: seq<Entry>, hash: string -> nat, evs: seq<Event>, k: string, w: Time, max: int)
    requires 0 < |s| && OwnChecks(evs, k, w, max)
    ensures Undisturbed(s, hash, evs, k, w)
    decreases |evs|
  {
    if evs != [] {
      OwnChecksEvictNothing(Apply(s, hash, evs[0]).0, hash, evs[1..], k, w, max);
    }
  }

  lemma BurstIsLegal(k: string, w: Time, max: int)
    requires 1 <= max && 1 <= w && w + 1 < U64 && Storable(k)
    ensures LegalRun(0, Burst(k, w, max)) && OwnChecks(Burst(k, w, max), k, w, max)
  {
    var late, last := Check(k, w, w, max), Check(k, w + 1, w, max);
    var end := Repeat(max - 1, last, []);
    RepeatIsLegal(w + 1, max - 1, last, [], k, w, max);
    assert ([last] + end)[1..] == end;
    assert LegalRun(w, [last] + end) && LegalRun(0, [last] + end);
    RepeatIsLegal(0, max - 1, late, [last] + end, k, w, max);
    assert Burst(k, w, max)[1..] == Repeat(max - 1, late, [last] + end);
  }

  /** On every new table, for every key, limit and window of at least a millisecond, some run of checks has
      `2 * max - 1` of them accepted within one window's length. */
  lemma BoundIsReached(n: nat, hash: string -> nat, k: string, w: Time, max: int) returns (evs: seq<Event>)
    requires 0 < n && Storable(k) && 1 <= max && 1 <= w && w + 1 < U64
    ensures LegalRun(0, evs) && SteadyUse(evs, k, w, max)
    ensures Undisturbed(seq(n, _ => EMPTY), hash, evs, k, w)
    ensures AcceptedIn(evs, Answers(seq(n, _ => EMPTY), hash, evs), k, w, 2 * w) == 2 * max - 1
  {
    evs := Burst(k, w, max);
    var s := seq(n, _ => EMPTY);
    BurstIsLegal(k, w, max);
    OwnChecksEvictNothing(s, hash, evs, k, w, max);
    NewTableOk(n, hash);
    KeyRefinement(s, map[], hash, 0, evs, k, w);
    SameCount(evs, Answers(s, hash, evs), ModelAnswers(map[], evs), k, w, 2 * w);
    BurstIsAccepted(k, w, max);
  }

  // --------------------------------------------------------------- a counter just reset

  /** The window that a reset leaves open used up at its last moment, and the next one used up at once. */
  function ResetBurst(k: string, w: Time, max: int): seq<Event>
    requires 1 <= max && w + 1 < U64
  {
    Repeat(max, Check(k, w, w, max), [Check(k, w + 1, w, max)] + Repeat(max - 1, Check(k, w + 1, w, max), []))
  }

  lemma ResetBurstIsAccepted(k: string, w: Time, max: int)
    requires 1 <= max && 1 <= w && w + 1 < U64
    ensures Accepted(map[k := Counter(0, 0)], ResetBurst(k, w, max), k, w, 2 * w) == 2 * max
  {
    var late, last := Check(k, w, w, max), Check(k, w + 1, w, max);
    var m1: Model := map[k := Counter(0, 0)];
    var m2: Model := map[k := Counter(0, max)];
    var m3: Model := map[k := Counter(w + 1, 1)];
    RepeatIsAccepted(m1, max, late, [last] + Repeat(max - 1, last, []), k, w, 2 * w);
    assert m1[k := Counter(0, max)] == m2;
    OneCheck(m2, last, Repeat(max - 1, last, []), k, w, 2 * w);
    assert ApplyModel(m2, last).0 == m3;
    RepeatIsAccepted(m3, max - 1, last, [], k, w, 2 * w);
  }

  lemma ResetBurstIsLegal(t: Time, k: string, w: Time, max: int)
    requires 1 <= max && 1 <= w && w + 1 < U64 && Storable(k) && t <= w
    ensures LegalRun(t, ResetBurst(k, w, max)) && OwnChecks(ResetBurst(k, w, max), k, w, max)
  {
    var late, last := Check(k, w, w, max), Check(k, w + 1, w, max);
    var end := Repeat(max - 1, last, []);
    RepeatIsLegal(w + 1, max - 1, last, [], k, w, max);
    assert ([last] + end)[1..] == end;
    RepeatIsLegal(t, max, late, [last] + end, k, w, max);
  }

  /** From every table that holds a counter just reset, some run has `2 * max` checks accepted within one
      window's length. */
  lemma ResetBoundIsReached(s: seq<Entry>, hash: string -> nat, t: Time, k: string, w: Time, max: int) returns (evs: seq<Event>)
    requires TableOk(s, hash, t) && View(s, k) == Some(Counter(0, 0)) && t <= w
    requires Storable(k) && 1 <= max && 1 <= w && w + 1 < U64
    ensures LegalRun(t, evs) && SteadyUse(evs, k, w, max) && Undisturbed(s, hash, evs, k, w)
    ensures AcceptedIn(evs, Answers(s, hash, evs), k, w, 2 * w) == 2 * max
  {
    evs := ResetBurst(k, w, max);
    var m: Model := map[k := Counter(0, 0)];
    ResetBurstIsLegal(t, k, w, max);
    OwnChecksEvictNothing(s, hash, evs, k, w, max);
    KeyRefinement(s, m, hash, t, evs, k, w);
    SameCount(evs, Answers(s, hash, evs), ModelAnswers(m, evs), k, w, 2 * w);
    ResetBurstIsAccepted(k, w, max);
  }

  /** A check and a reset on a new table leave such a counter. */
  lemma ResetLeavesZero(n: nat, hash: string -> nat, k: string, w: Time, max: int) returns (s: seq<Entry>)
    requires 0 < n && Storable(k)
    ensures s == After(seq(n, _ => EMPTY), hash, [Check(k, 0, w, max), Reset(k)])
    ensures TableOk(s, hash, 0) && View(s, k) == Some(Counter(0, 0))
  {
    var new_ := seq(n, _ => EMPTY);
    var check, reset := Check(k, 0, w, max), Reset(k);
    NewTableOk(n, hash);
    StepKeepsTable(new_, hash, 0, check);
    var s1 := Apply(new_, hash, check).0;
    OwnCheckStep(new_, map[], hash, 0, check);
    StepKeepsTable(s1, hash, 0, reset);
    ResetStep(s1, hash, 0, k, k);
    s := Apply(s1, hash, reset).0;
    assert [check, reset][1..] == [reset] && [reset][1..] == [];
    assert After(s1, hash, [reset]) == After(s, hash, [reset][1..]);
  }
}
