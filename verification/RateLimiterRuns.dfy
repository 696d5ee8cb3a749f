/** What every run of the rate limiter keeps, and how it compares with a map that
    never forgets a key. */
module RateLimiterRuns {
  import opened Basics
  import opened RateLimiter

  datatype Event =
    | Check(key: string, now: Time, window: Time, max: int)
    | Reset(key: string)

  // ------------------------------------------------------------- the probe invariant

  /** Every slot probed from `h` before `p` is reached is occupied. */
  ghost predicate Path(s: seq<Entry>, h: nat, p: nat)
    requires h < |s| && p < |s|
  {
    forall i :: 0 <= i < Dist(h, p, |s|) ==> s[Slot(h, i, |s|)].key != ""
  }

  /** Every slot between a key's home and its own slot is occupied. */
  ghost predicate Probed(s: seq<Entry>, hash: string -> nat) {
    forall p :: 0 <= p < |s| && s[p].key != "" ==> Path(s, Home(hash, s[p].key, |s|), p)
  }

  ghost predicate NoKeyTwice(s: seq<Entry>) {
    forall p, q :: 0 <= p < |s| && 0 <= q < |s| && s[p].key == s[q].key && s[p].key != "" ==> p == q
  }

  /** Stored times are at most `t`, counts are not negative, keys fit their field. */
  ghost predicate Dated(s: seq<Entry>, t: Time) {
    forall p :: 0 <= p < |s| ==> s[p].windowStart <= t && s[p].lastAccess <= t && 0 <= s[p].count && |s[p].key| < MAX_KEY_LEN
  }

  ghost predicate TableOk(s: seq<Entry>, hash: string -> nat, t: Time) {
    0 < |s| && Probed(s, hash) && NoKeyTwice(s) && Dated(s, t)
  }

  /** Keys the field holds in full. */
  predicate Storable(key: string) {
    0 < |key| < MAX_KEY_LEN
  }

  ghost predicate Full(s: seq<Entry>) {
    forall p :: 0 <= p < |s| ==> s[p].key != ""
  }

  ghost predicate Holds(s: seq<Entry>, key: string) {
    exists p :: 0 <= p < |s| && s[p].key == key
  }

  /** Stopping at the first empty slot is sound: a stored key is always met first. */
  lemma StopFindsKey(s: seq<Entry>, hash: string -> nat, key: string, p: nat)
    requires 0 < |s| && Probed(s, hash) && NoKeyTwice(s)
    requires key != "" && p < |s| && s[p].key == key
    ensures FirstStop(s, key, Home(hash, key, |s|), 0) == Dist(Home(hash, key, |s|), p, |s|)
  {
    var h := Home(hash, key, |s|);
    var d := Dist(h, p, |s|);
    var r := FirstStop(s, key, h, 0);
    if r != d {
      assert false;
    }
  }

  /** A key that is not stored stops the probe at an empty slot, or the table is full. */
  lemma StopWithoutKey(s: seq<Entry>, key: string, h: nat)
    requires h < |s| && key != "" && !Holds(s, key)
    ensures FirstStop(s, key, h, 0) == |s| <==> Full(s)
    ensures FirstStop(s, key, h, 0) < |s| ==> s[Slot(h, FirstStop(s, key, h, 0), |s|)].key == ""
  {
    var r := FirstStop(s, key, h, 0);
    if r == |s| {
      forall p | 0 <= p < |s| ensures s[p].key != "" {
        assert Slot(h, Dist(h, p, |s|), |s|) == p;
      }
    }
  }

  /** The least recently used slot is met first of those accessed as long ago. */
  lemma {:induction false} LruIsFirst(s: seq<Entry>, h: nat, i: nat) returns (d: nat)
    requires h < |s| && i <= |s| && LeastAccess(s, h, i) < U64 - 1
    ensures d < i && LruSlot(s, h, i) == Slot(h, d, |s|)
    ensures forall j :: 0 <= j < d ==> LeastAccess(s, h, i) < s[Slot(h, j, |s|)].lastAccess
    decreases i
  {
    if s[Slot(h, i - 1, |s|)].lastAccess < LeastAccess(s, h, i - 1) {
      d := i - 1;
    } else {
      d := LruIsFirst(s, h, i - 1);
    }
  }

  /** A full table without the key and without an expired slot gives up the least recently used slot, of several
      the one probed first. */
  lemma VictimIsLeastRecentlyUsed(s: seq<Entry>, hash: string -> nat, key: string, now: Time, window: Time)
    requires 0 < |s| && key != "" && !Holds(s, key) && Full(s)
    requires forall p :: 0 <= p < |s| ==> Elapsed(now, s[p].windowStart) <= window
    ensures forall q :: 0 <= q < |s| ==>
              s[FindSlot(s, hash, key, now, window)].lastAccess <= s[q].lastAccess
    ensures var h, p := Home(hash, key, |s|), FindSlot(s, hash, key, now, window);
            s[p].lastAccess < U64 - 1 ==>
            forall q :: 0 <= q < |s| && Dist(h, q, |s|) < Dist(h, p, |s|) ==> s[p].lastAccess < s[q].lastAccess
  {
    var h := Home(hash, key, |s|);
    StopWithoutKey(s, key, h);
    var p := LruSlot(s, h, |s|);
    assert FindSlot(s, hash, key, now, window) == p;
    if LeastAccess(s, h, |s|) < U64 - 1 {
      var d := LruIsFirst(s, h, |s|);
      forall q | 0 <= q < |s| && Dist(h, q, |s|) < Dist(h, p, |s|) ensures s[p].lastAccess < s[q].lastAccess {
        assert Slot(h, Dist(h, q, |s|), |s|) == q;
      }
    }
    forall q | 0 <= q < |s| ensures s[p].lastAccess <= s[q].lastAccess {
      assert Slot(h, Dist(h, q, |s|), |s|) == q;
      assert LeastAccess(s, h, |s|) <= s[q].lastAccess;
    }
  }

  /** A full table without the key reuses an expired slot whenever there is one, the one probed first. */
  lemma ExpiredSlotIsPreferred(s: seq<Entry>, hash: string -> nat, key: string, now: Time, window: Time, p: nat)
    requires key != "" && !Holds(s, key) && Full(s)
    requires p < |s| && Elapsed(now, s[p].windowStart) > window
    ensures Elapsed(now, s[FindSlot(s, hash, key, now, window)].windowStart) > window
    ensures var h := Home(hash, key, |s|);
            Dist(h, p, |s|) >= Dist(h, FindSlot(s, hash, key, now, window), |s|)
  {
    var h := Home(hash, key, |s|);
    StopWithoutKey(s, key, h);
    assert Slot(h, Dist(h, p, |s|), |s|) == p;
  }

  /** Filling a slot at the end of its key's occupied path keeps the invariant. */
  lemma StoreKeepsTable(s: seq<Entry>, hash: string -> nat, t: Time, p: nat, e: Entry)
    requires TableOk(s, hash, t) && p < |s| && e.key != "" && Dated([e], t)
    requires Path(s, Home(hash, e.key, |s|), p)
    requires s[p].key == e.key || !Holds(s, e.key)
    ensures TableOk(s[p := e], hash, t)
  {
    var s' := s[p := e];
    assert Dated(s', t) by { assert [e][0] == e; }
    forall q | 0 <= q < |s'| && s'[q].key != "" ensures Path(s', Home(hash, s'[q].key, |s'|), q) {
      if q != p {
        assert Path(s, Home(hash, s[q].key, |s|), q);
      }
    }
  }

  /** Where a check lands: on the key when it is stored, else on an empty slot or, in a
      full table, on a victim; always with an occupied path behind it. */
  lemma WhereCheckLands(s: seq<Entry>, hash: string -> nat, key: string, now: Time, window: Time)
    requires 0 < |s| && Probed(s, hash) && NoKeyTwice(s) && key != ""
    ensures var p := FindSlot(s, hash, key, now, window);
            && (s[p].key == key <==> Holds(s, key))
            && (s[p].key != "" && s[p].key != key ==> Full(s))
            && Path(s, Home(hash, key, |s|), p)
  {
    var h := Home(hash, key, |s|);
    if q :| 0 <= q < |s| && s[q].key == key {
      StopFindsKey(s, hash, key, q);
    } else {
      StopWithoutKey(s, key, h);
    }
  }

  // -------------------------------------------------------------------------- runs

  function Apply(s: seq<Entry>, hash: string -> nat, ev: Event): (r: (seq<Entry>, bool))
    requires 0 < |s|
    ensures |r.0| == |s|
  {
    match ev
    case Check(key, now, window, max) => CheckTable(s, hash, key, now, window, max)
    case Reset(key) => (ResetTable(s, hash, key), true)
  }

  function Clock(t: Time, ev: Event): Time {
    if ev.Check? then ev.now else t
  }

  /** Sampled times never go back and every key fits its field. */
  predicate Legal(t: Time, ev: Event) {
    Storable(ev.key) && t <= Clock(t, ev)
  }

  predicate LegalRun(t: Time, evs: seq<Event>)
    decreases |evs|
  {
    evs != [] ==> Legal(t, evs[0]) && LegalRun(Clock(t, evs[0]), evs[1..])
  }

  function Answers(s: seq<Entry>, hash: string -> nat, evs: seq<Event>): (r: seq<bool>)
    requires 0 < |s|
    ensures |r| == |evs|
    decreases |evs|
  {
    if evs == [] then []
    else [Apply(s, hash, evs[0]).1] + Answers(Apply(s, hash, evs[0]).0, hash, evs[1..])
  }

  function After(s: seq<Entry>, hash: string -> nat, evs: seq<Event>): (r: seq<Entry>)
    requires 0 < |s|
    ensures |r| == |s|
    decreases |evs|
  {
    if evs == [] then s else After(Apply(s, hash, evs[0]).0, hash, evs[1..])
  }

  function ClockAfter(t: Time, evs: seq<Event>): Time
    decreases |evs|
  {
    if evs == [] then t else ClockAfter(Clock(t, evs[0]), evs[1..])
  }

  lemma StepKeepsTable(s: seq<Entry>, hash: string -> nat, t: Time, ev: Event)
    requires TableOk(s, hash, t) && Legal(t, ev)
    ensures TableOk(Apply(s, hash, ev).0, hash, Clock(t, ev))
  {
    if ev.Check? {
      WhereCheckLands(s, hash, ev.key, ev.now, ev.window);
      var p := FindSlot(s, hash, ev.key, ev.now, ev.window);
      assert TableOk(s, hash, ev.now);
      StoreKeepsTable(s, hash, ev.now, p, Apply(s, hash, ev).0[p]);
    } else if q :| 0 <= q < |s| && s[q].key == ev.key {
      StopFindsKey(s, hash, ev.key, q);
      StoreKeepsTable(s, hash, t, q, s[q].(count := 0, windowStart := 0, lastAccess := 0));
    } else {
      StopWithoutKey(s, ev.key, Home(hash, ev.key, |s|));
    }
  }

  /** The probe invariant holds in every reachable table. */
  lemma {:induction false} RunKeepsTable(s: seq<Entry>, hash: string -> nat, t: Time, evs: seq<Event>)
    requires TableOk(s, hash, t) && LegalRun(t, evs)
    ensures TableOk(After(s, hash, evs), hash, ClockAfter(t, evs))
    decreases |evs|
  {
    if evs != [] {
      StepKeepsTable(s, hash, t, evs[0]);
      RunKeepsTable(Apply(s, hash, evs[0]).0, hash, Clock(t, evs[0]), evs[1..]);
    }
  }

  lemma NewTableOk(n: nat, hash: string -> nat)
    requires 0 < n
    ensures TableOk(seq(n, _ => EMPTY), hash, 0)
  {
  }

  // ---------------------------------------------- the map that never forgets a key

  datatype Counter = Counter(start: Time, count: int)
  type Model = map<string, Counter>

  function ApplyModel(m: Model, ev: Event): (Model, bool) {
    match ev
    case Check(key, now, window, max) =>
      if key in m && now <= m[key].start + window then
        (m[key := Counter(m[key].start, m[key].count + 1)], m[key].count < max)
      else
        (m[key := Counter(now, 1)], true)
    case Reset(key) => (if key in m then m[key := Counter(0, 0)] else m, true)
  }

  function ModelAnswers(m: Model, evs: seq<Event>): (r: seq<bool>)
    ensures |r| == |evs|
    decreases |evs|
  {
    if evs == [] then [] else [ApplyModel(m, evs[0]).1] + ModelAnswers(ApplyModel(m, evs[0]).0, evs[1..])
  }

  /** What the table remembers about `key`. */
  ghost function View(s: seq<Entry>, key: string): (c: Option<Counter>)
    ensures c.Some? <==> Holds(s, key)
    ensures c.Some? ==> exists p :: 0 <= p < |s| && s[p].key == key && c.value == Counter(s[p].windowStart, s[p].count)
  {
    if Holds(s, key) then
      var p :| 0 <= p < |s| && s[p].key == key;
      Some(Counter(s[p].windowStart, s[p].count))
    else None
  }

  /** The table and the map agree on `k`, or the table has dropped a counter of `k`
      whose window of `w` is over by time `t`. */
  ghost predicate Tracks(s: seq<Entry>, m: Model, k: string, w: Time, t: Time) {
    && (k in m ==> m[k].start <= t)
    && match View(s, k)
       case Some(c) => k in m && m[k] == c
       case None => k in m ==> m[k].start + w < t
  }

  /** The check `ev` of another key takes over the slot of `k` while its window of `w` runs. */
  ghost predicate EvictsLive(s: seq<Entry>, hash: string -> nat, ev: Event, k: string, w: Time)
    requires 0 < |s|
  {
    ev.Check? && ev.key != k &&
    var p := FindSlot(s, hash, ev.key, ev.now, ev.window);
    s[p].key == k && Elapsed(ev.now, s[p].windowStart) <= w
  }

  /** Throughout the run, `k` is checked with window `w` only and never evicted while live. */
  ghost predicate Undisturbed(s: seq<Entry>, hash: string -> nat, evs: seq<Event>, k: string, w: Time)
    requires 0 < |s|
    decreases |evs|
  {
    evs != [] ==>
      && !EvictsLive(s, hash, evs[0], k, w)
      && (evs[0].Check? && evs[0].key == k ==> evs[0].window == w)
      && Undisturbed(Apply(s, hash, evs[0]).0, hash, evs[1..], k, w)
  }

  lemma ViewIs(s: seq<Entry>, p: nat)
    requires p < |s| && NoKeyTwice(s) && s[p].key != ""
    ensures View(s, s[p].key) == Some(Counter(s[p].windowStart, s[p].count))
  {
  }

  /** Writing slot `p` does not touch the view of a key that is neither its old nor its new owner. */
  lemma ViewKept(s: seq<Entry>, p: nat, e: Entry, k: string)
    requires p < |s| && NoKeyTwice(s) && NoKeyTwice(s[p := e])
    requires k != "" && s[p].key != k && e.key != k
    ensures View(s[p := e], k) == View(s, k)
  {
    var s' := s[p := e];
    if q :| 0 <= q < |s| && s[q].key == k {
      assert s'[q] == s[q];
      ViewIs(s, q);
      ViewIs(s', q);
    } else {
      forall q | 0 <= q < |s'| ensures s'[q].key != k {}
    }
  }

  lemma OwnCheckStep(s: seq<Entry>, m: Model, hash: string -> nat, t: Time, ev: Event)
    requires TableOk(s, hash, t) && Legal(t, ev) && ev.Check?
    requires Tracks(s, m, ev.key, ev.window, t)
    ensures Tracks(Apply(s, hash, ev).0, ApplyModel(m, ev).0, ev.key, ev.window, ev.now)
    ensures Apply(s, hash, ev).1 == ApplyModel(m, ev).1
  {
    StepKeepsTable(s, hash, t, ev);
    WhereCheckLands(s, hash, ev.key, ev.now, ev.window);
    var p := FindSlot(s, hash, ev.key, ev.now, ev.window);
    ViewIs(Apply(s, hash, ev).0, p);
    if s[p].key == ev.key { ViewIs(s, p); }
  }

  /** A check of another key leaves the view of `k` alone or drops an expired counter. */
  lemma OtherCheckStep(s: seq<Entry>, hash: string -> nat, t: Time, ev: Event, k: string)
    requires TableOk(s, hash, t) && Legal(t, ev) && ev.Check? && ev.key != k && k != ""
    ensures var s' := Apply(s, hash, ev).0;
            var p := FindSlot(s, hash, ev.key, ev.now, ev.window);
            if s[p].key == k then View(s', k) == None && View(s, k) == Some(Counter(s[p].windowStart, s[p].count))
            else View(s', k) == View(s, k)
  {
    StepKeepsTable(s, hash, t, ev);
    WhereCheckLands(s, hash, ev.key, ev.now, ev.window);
    var s' := Apply(s, hash, ev).0;
    var p := FindSlot(s, hash, ev.key, ev.now, ev.window);
    if s[p].key == k {
      ViewIs(s, p);
      forall q | 0 <= q < |s'| ensures s'[q].key != k {}
    } else {
      ViewKept(s, p, s'[p], k);
    }
  }

  lemma ResetStep(s: seq<Entry>, hash: string -> nat, t: Time, key: string, k: string)
    requires TableOk(s, hash, t) && Storable(key) && k != ""
    ensures View(ResetTable(s, hash, key), k) ==
            if key == k && Holds(s, k) then Some(Counter(0, 0)) else View(s, k)
  {
    StepKeepsTable(s, hash, t, Reset(key));
    var s' := ResetTable(s, hash, key);
    if q :| 0 <= q < |s| && s[q].key == key {
      StopFindsKey(s, hash, key, q);
      if key == k {
        ViewIs(s', q);
      } else {
        ViewKept(s, q, s'[q], k);
      }
    } else {
      StopWithoutKey(s, key, Home(hash, key, |s|));
    }
  }

  /** One step of table and map: agreement about `k` is kept and a check of `k` is answered alike. */
  lemma KeyStep(s: seq<Entry>, m: Model, hash: string -> nat, t: Time, ev: Event, k: string, w: Time)
    requires TableOk(s, hash, t) && Legal(t, ev) && Storable(k)
    requires Tracks(s, m, k, w, t)
    requires !EvictsLive(s, hash, ev, k, w)
    requires ev.Check? && ev.key == k ==> ev.window == w
    ensures Tracks(Apply(s, hash, ev).0, ApplyModel(m, ev).0, k, w, Clock(t, ev))
    ensures ev.key == k ==> Apply(s, hash, ev).1 == ApplyModel(m, ev).1
  {
    if ev.Reset? {
      ResetStep(s, hash, t, ev.key, k);
    } else if ev.key == k {
      OwnCheckStep(s, m, hash, t, ev);
    } else {
      OtherCheckStep(s, hash, t, ev, k);
    }
  }

  /** Over every run in which the live counter of `k` is never evicted, whatever happens to
      other keys, the answers for `k` are those of the map. */
  lemma {:induction false} KeyRefinement(
      s: seq<Entry>, m: Model, hash: string -> nat, t: Time, evs: seq<Event>, k: string, w: Time)
    requires TableOk(s, hash, t) && LegalRun(t, evs) && Storable(k)
    requires Tracks(s, m, k, w, t)
    requires Undisturbed(s, hash, evs, k, w)
    ensures forall i :: 0 <= i < |evs| && evs[i].key == k ==> Answers(s, hash, evs)[i] == ModelAnswers(m, evs)[i]
    decreases |evs|
  {
    if evs != [] {
      StepKeepsTable(s, hash, t, evs[0]);
      KeyStep(s, m, hash, t, evs[0], k, w);
      var rest := evs[1..];
      KeyRefinement(Apply(s, hash, evs[0]).0, ApplyModel(m, evs[0]).0, hash, Clock(t, evs[0]), rest, k, w);
      forall i | 0 <= i < |evs| && evs[i].key == k
        ensures Answers(s, hash, evs)[i] == ModelAnswers(m, evs)[i]
      {
        if i > 0 { assert rest[i - 1] == evs[i]; }
      }
    }
  }

  // ------------------------------------------------------ one window for everybody

  /** Every check uses window `w` and, when it needs a slot of a full table, finds an expired one. */
  ghost predicate RoomThroughout(s: seq<Entry>, hash: string -> nat, evs: seq<Event>, w: Time)
    requires 0 < |s|
    decreases |evs|
  {
    evs != [] ==>
      && (evs[0].Check? ==>
            && evs[0].window == w
            && (Full(s) && !Holds(s, evs[0].key) ==>
                  exists p :: 0 <= p < |s| && Elapsed(evs[0].now, s[p].windowStart) > w))
      && RoomThroughout(Apply(s, hash, evs[0]).0, hash, evs[1..], w)
  }

  lemma {:induction false} RoomMeansUndisturbed(
      s: seq<Entry>, hash: string -> nat, t: Time, evs: seq<Event>, k: string, w: Time)
    requires TableOk(s, hash, t) && LegalRun(t, evs) && Storable(k)
    requires RoomThroughout(s, hash, evs, w)
    ensures Undisturbed(s, hash, evs, k, w)
    decreases |evs|
  {
    if evs != [] {
      var ev := evs[0];
      if ev.Check? {
        WhereCheckLands(s, hash, ev.key, ev.now, w);
        if Full(s) && !Holds(s, ev.key) {
          var p :| 0 <= p < |s| && Elapsed(ev.now, s[p].windowStart) > w;
          ExpiredSlotIsPreferred(s, hash, ev.key, ev.now, w, p);
        }
      }
      StepKeepsTable(s, hash, t, ev);
      RoomMeansUndisturbed(Apply(s, hash, ev).0, hash, Clock(t, ev), evs[1..], k, w);
    }
  }

  /** With one window and room throughout, a table of any size answers a whole run from the
      start exactly as the unbounded map does, for every hash function. */
  lemma TableRefinesMap(n: nat, hash: string -> nat, evs: seq<Event>, w: Time)
    requires 0 < n && LegalRun(0, evs)
    requires RoomThroughout(seq(n, _ => EMPTY), hash, evs, w)
    ensures Answers(seq(n, _ => EMPTY), hash, evs) == ModelAnswers(map[], evs)
  {
    var s := seq(n, _ => EMPTY);
    NewTableOk(n, hash);
    forall i | 0 <= i < |evs| ensures Answers(s, hash, evs)[i] == ModelAnswers(map[], evs)[i] {
      LegalKey(0, evs, i);
      RoomMeansUndisturbed(s, hash, 0, evs, evs[i].key, w);
      KeyRefinement(s, map[], hash, 0, evs, evs[i].key, w);
    }
  }

  lemma {:induction false} LegalKey(t: Time, evs: seq<Event>, i: nat)
    requires LegalRun(t, evs) && i < |evs|
    ensures Storable(evs[i].key)
    decreases |evs|
  {
    if i > 0 { LegalKey(Clock(t, evs[0]), evs[1..], i - 1); }
  }

  /** The condition is exact: after any check of another key, table and map answer all further
      checks of `k` at that moment alike if and only if that check did not evict `k` while live. */
  lemma AgreementLostExactlyByEviction(
      s: seq<Entry>, m: Model, hash: string -> nat, t: Time, ev: Event, k: string, w: Time)
    requires TableOk(s, hash, t) && Legal(t, ev) && ev.Check? && Storable(k) && ev.key != k
    requires Tracks(s, m, k, w, t)
    ensures (forall max :: Apply(Apply(s, hash, ev).0, hash, Check(k, ev.now, w, max)).1
                        == ApplyModel(ApplyModel(m, ev).0, Check(k, ev.now, w, max)).1)
            <==> !EvictsLive(s, hash, ev, k, w)
  {
    StepKeepsTable(s, hash, t, ev);
    var s', m' := Apply(s, hash, ev).0, ApplyModel(m, ev).0;
    if EvictsLive(s, hash, ev, k, w) {
      OtherCheckStep(s, hash, t, ev, k);
      var next := Check(k, ev.now, w, m[k].count);
      WhereCheckLands(s', hash, k, ev.now, w);
      assert Apply(s', hash, next).1 != ApplyModel(m', next).1;
    } else {
      KeyStep(s, m, hash, t, ev, k, w);
      forall max ensures Apply(s', hash, Check(k, ev.now, w, max)).1 == ApplyModel(m', Check(k, ev.now, w, max)).1 {
        OwnCheckStep(s', m', hash, ev.now, Check(k, ev.now, w, max));
      }
    }
  }

  /** Two checks with limit 1 on a new table: the second is refused exactly when the key is stored whole. */
  lemma LimitedExactlyWhenStoredWhole(n: nat, hash: string -> nat, key: string, now: Time, window: Time)
    requires 0 < n
    ensures Answers(seq(n, _ => EMPTY), hash, [Check(key, now, window, 1), Check(key, now, window, 1)])
            == [true, |key| >= MAX_KEY_LEN]
  {
    var s := seq(n, _ => EMPTY);
    var ev := Check(key, now, window, 1);
    var h := Home(hash, key, n);
    assert FindSlot(s, hash, key, now, window) == h;
    var s' := Apply(s, hash, ev).0;
    assert s' == s[h := s'[h]];
    assert |key| < MAX_KEY_LEN ==> FindSlot(s', hash, key, now, window) == h;
    assert Answers(s', hash, [ev]) == [|key| >= MAX_KEY_LEN] + Answers(Apply(s', hash, ev).0, hash, [ev][1..]);
    assert [ev, ev][1..] == [ev];
  }

  predicate ShortKeys(s: seq<Entry>) {
    forall p :: 0 <= p < |s| ==> |s[p].key| < MAX_KEY_LEN
  }

  lemma StepKeepsShortKeys(s: seq<Entry>, hash: string -> nat, ev: Event)
    requires 0 < |s| && ShortKeys(s)
    ensures ShortKeys(Apply(s, hash, ev).0)
    ensures ev.Check? && MAX_KEY_LEN <= |ev.key| ==> Apply(s, hash, ev).1
  {
  }

  /** A key of 64 or more characters is stored cut short and never found again: in every run, on every table,
      each of its checks is accepted, whatever the window and the limit. */
  lemma {:induction false} LongKeyIsNeverLimited(s: seq<Entry>, hash: string -> nat, evs: seq<Event>, i: nat)
    requires 0 < |s| && ShortKeys(s) && i < |evs| && evs[i].Check? && MAX_KEY_LEN <= |evs[i].key|
    ensures Answers(s, hash, evs)[i]
    decreases |evs|
  {
    StepKeepsShortKeys(s, hash, evs[0]);
    if i > 0 {
      LongKeyIsNeverLimited(Apply(s, hash, evs[0]).0, hash, evs[1..], i - 1);
    }
  }

  /** Event `i` of the run is a check of `key` that is refused. */
  ghost predicate RefusedAt(s: seq<Entry>, hash: string -> nat, key: string, evs: seq<Event>, i: nat)
    requires 0 < |s|
  {
    i < |evs| && evs[i].Check? && evs[i].key == key && !Answers(s, hash, evs)[i]
  }

  /** On every new table, a key is refused in some run if and only if it is stored whole. */
  lemma LimitedExactlyWhenShort(s: seq<Entry>, hash: string -> nat, key: string)
    requires 0 < |s| && s == seq(|s|, _ => EMPTY)
    ensures (exists evs, i :: RefusedAt(s, hash, key, evs, i)) <==> |key| < MAX_KEY_LEN
  {
    if |key| < MAX_KEY_LEN {
      var ev := Check(key, 0, 0, 1);
      LimitedExactlyWhenStoredWhole(|s|, hash, key, 0, 0);
      assert RefusedAt(s, hash, key, [ev, ev], 1);
    } else {
      forall evs: seq<Event>, i: nat ensures !RefusedAt(s, hash, key, evs, i) {
        if i < |evs| && evs[i].Check? && evs[i].key == key { LongKeyIsNeverLimited(s, hash, evs, i); }
      }
    }
  }

  // ------------------------------------------------------------- bounds over time

  /** How many checks of `k` sampled in `[lo, hi]` the run accepts. */
  function AcceptedIn(evs: seq<Event>, answers: seq<bool>, k: string, lo: nat, hi: nat): nat
    requires |answers| == |evs|
  {
    if evs == [] then 0
    else
      (if evs[0].Check? && evs[0].key == k && lo <= evs[0].now <= hi && answers[0] then 1 else 0)
      + AcceptedIn(evs[1..], answers[1..], k, lo, hi)
  }

  /** `k` is never reset and always checked with the same window and limit. */
  predicate SteadyUse(evs: seq<Event>, k: string, w: Time, max: int) {
    forall i :: 0 <= i < |evs| && evs[i].key == k ==> evs[i].Check? && evs[i].window == w && evs[i].max == max
  }

  function Min(a: int, b: int): int {
    if a < b then a else b
  }

  /** What has been accepted so far, `got`, fits the counter of `k`.  `z` is 1 when every counted
      window opened with a check. */
  predicate Earned(m: Model, k: string, t: Time, w: Time, max: int, lo: nat, z: nat, got: nat) {
    && got <= 2 * max - z
    && (t < lo ==> got == 0)
    && (k !in m ==> got == 0)
    && (k in m ==> m[k].start <= t && z <= m[k].count)
    && (k in m && t <= lo + w ==>
          if m[k].start < lo then got <= Min(m[k].count, max) - z
          else got <= max - z + Min(m[k].count, max))
  }

  lemma {:induction false} ModelBound(
      m: Model, t: Time, evs: seq<Event>, k: string, w: Time, max: int, lo: nat, z: nat, got: nat)
    requires 1 <= max && z <= 1 && LegalRun(t, evs) && SteadyUse(evs, k, w, max)
    requires Earned(m, k, t, w, max, lo, z, got)
    ensures got + AcceptedIn(evs, ModelAnswers(m, evs), k, lo, lo + w) <= 2 * max - z
    decreases |evs|
  {
    if evs != [] {
      var ev := evs[0];
      var m' := ApplyModel(m, ev).0;
      assert ModelAnswers(m, evs)[1..] == ModelAnswers(m', evs[1..]);
      var got' := got + if ev.Check? && ev.key == k && lo <= ev.now <= lo + w && ApplyModel(m, ev).1 then 1 else 0;
      assert Earned(m', k, Clock(t, ev), w, max, lo, z, got');
      ModelBound(m', Clock(t, ev), evs[1..], k, w, max, lo, z, got');
    }
  }

  lemma {:induction false} SameCount(evs: seq<Event>, a: seq<bool>, b: seq<bool>, k: string, lo: nat, hi: nat)
    requires |a| == |b| == |evs|
    requires forall i :: 0 <= i < |evs| && evs[i].key == k ==> a[i] == b[i]
    ensures AcceptedIn(evs, a, k, lo, hi) == AcceptedIn(evs, b, k, lo, hi)
  {
    if evs != [] {
      SameCount(evs[1..], a[1..], b[1..], k, lo, hi);
    }
  }

  /** The map that knows only what the table knows about `k`. */
  ghost function Snapshot(s: seq<Entry>, k: string): (m: Model)
    ensures forall w, t :: Dated(s, t) ==> Tracks(s, m, k, w, t)
  {
    match View(s, k)
    case Some(c) => map[k := c]
    case None => map[]
  }

  /** Every closed interval as long as the window contains at most `2 * max` accepted checks of
      `k`, and one less unless the run starts on a counter that was just reset. */
  lemma SlidingBound(s: seq<Entry>, hash: string -> nat, t: Time, evs: seq<Event>, k: string, w: Time, max: int, lo: nat)
    requires TableOk(s, hash, t) && LegalRun(t, evs) && Storable(k) && 1 <= max
    requires SteadyUse(evs, k, w, max) && Undisturbed(s, hash, evs, k, w)
    ensures AcceptedIn(evs, Answers(s, hash, evs), k, lo, lo + w) <= 2 * max
    ensures (View(s, k).Some? ==> 1 <= View(s, k).value.count) ==>
              AcceptedIn(evs, Answers(s, hash, evs), k, lo, lo + w) <= 2 * max - 1
  {
    var m := Snapshot(s, k);
    assert Tracks(s, m, k, w, t);
    KeyRefinement(s, m, hash, t, evs, k, w);
    SameCount(evs, Answers(s, hash, evs), ModelAnswers(m, evs), k, lo, lo + w);
    ModelBound(m, t, evs, k, w, max, lo, 0, 0);
    if View(s, k).Some? ==> 1 <= View(s, k).value.count {
      ModelBound(m, t, evs, k, w, max, lo, 1, 0);
    }
  }

  /** How many accepted checks of `k` are counted in the window that began at `start`. */
  ghost function AcceptedInWindow(s: seq<Entry>, hash: string -> nat, evs: seq<Event>, k: string, start: Time): nat
    requires 0 < |s|
    decreases |evs|
  {
    if evs == [] then 0
    else
      var (s', ok) := Apply(s, hash, evs[0]);
      (if evs[0].Check? && evs[0].key == k && ok && View(s', k).Some? && View(s', k).value.start == start then 1 else 0)
      + AcceptedInWindow(s', hash, evs[1..], k, start)
  }

  /** A single counting window accepts at most `max` checks, less those it had counted before. */
  lemma {:induction false} WindowBound(
      s: seq<Entry>, m: Model, hash: string -> nat, t: Time, evs: seq<Event>, k: string, w: Time, max: int, start: Time)
    requires TableOk(s, hash, t) && LegalRun(t, evs) && Storable(k) && 1 <= max
    requires SteadyUse(evs, k, w, max) && Undisturbed(s, hash, evs, k, w)
    requires Tracks(s, m, k, w, t) && (k in m ==> 0 <= m[k].count)
    ensures AcceptedInWindow(s, hash, evs, k, start) <= max
    ensures k in m && m[k].start == start ==> AcceptedInWindow(s, hash, evs, k, start) <= max - Min(m[k].count, max)
    ensures k in m && m[k].start > start ==> AcceptedInWindow(s, hash, evs, k, start) == 0
    decreases |evs|
  {
    if evs != [] {
      StepKeepsTable(s, hash, t, evs[0]);
      KeyStep(s, m, hash, t, evs[0], k, w);
      WindowBound(Apply(s, hash, evs[0]).0, ApplyModel(m, evs[0]).0, hash, Clock(t, evs[0]), evs[1..], k, w, max, start);
    }
  }
}
