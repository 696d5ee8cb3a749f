/** What `lastAccess` means: in every run it is the time of the key's last check, so eviction really takes the
    key that has gone unused for longest. */
module RateLimiterAccess {
  import opened Basics
  import opened RateLimiter
  import opened RateLimiterRuns

  /** When the key was last checked, as the events alone tell; 0 before its first check and from a reset on. */
  function LastUse(evs: seq<Event>, key: string): Time {
    if evs == [] then 0
    else
      var ev := evs[|evs| - 1];
      if ev.key != key then LastUse(evs[..|evs| - 1], key) else if ev.Check? then ev.now else 0
  }

  function NewTable(n: nat): (s: seq<Entry>)
    ensures |s| == n && forall p :: 0 <= p < n ==> s[p] == EMPTY
  {
    seq(n, _ => EMPTY)
  }

  /** The table after the run, and the one its last event works on. */
  lemma {:induction false} AfterLast(s: seq<Entry>, hash: string -> nat, t: Time, evs: seq<Event>)
    requires 0 < |s| && evs != [] && LegalRun(t, evs)
    ensures var front := evs[..|evs| - 1];
            && LegalRun(t, front) && Legal(ClockAfter(t, front), evs[|evs| - 1])
            && After(s, hash, evs) == Apply(After(s, hash, front), hash, evs[|evs| - 1]).0
    decreases |evs|
  {
    if |evs| > 1 {
      AfterLast(Apply(s, hash, evs[0]).0, hash, Clock(t, evs[0]), evs[1..]);
      assert evs[1..][..|evs| - 2] == evs[..|evs| - 1][1..];
    }
  }

  /** A check dates the slot of its key and leaves every other slot alone. */
  lemma CheckDatesItsKey(s: seq<Entry>, hash: string -> nat, t: Time, ev: Event, p: nat)
    requires TableOk(s, hash, t) && Legal(t, ev) && ev.Check? && p < |s|
    ensures var s' := Apply(s, hash, ev).0;
            if p == FindSlot(s, hash, ev.key, ev.now, ev.window) then s'[p].key == ev.key && s'[p].lastAccess == ev.now
            else s'[p] == s[p] && s[p].key != ev.key
  {
    WhereCheckLands(s, hash, ev.key, ev.now, ev.window);
  }

  /** A reset undates the slot of its key and leaves every other slot alone. */
  lemma ResetUndatesItsKey(s: seq<Entry>, hash: string -> nat, t: Time, ev: Event, p: nat)
    requires TableOk(s, hash, t) && Legal(t, ev) && ev.Reset? && p < |s|
    ensures var s' := Apply(s, hash, ev).0;
            if s[p].key == ev.key then s'[p] == Entry(ev.key, 0, 0, 0) else s'[p] == s[p]
  {
    if s[p].key == ev.key {
      StopFindsKey(s, hash, ev.key, p);
    } else if q :| 0 <= q < |s| && s[q].key == ev.key {
      StopFindsKey(s, hash, ev.key, q);
    } else {
      StopWithoutKey(s, ev.key, Home(hash, ev.key, |s|));
    }
  }

  /** In every run from a new table, the last access of each stored key is the time of its last check. */
  lemma {:induction false} AccessIsLastUse(n: nat, hash: string -> nat, evs: seq<Event>, p: nat)
    requires p < n && LegalRun(0, evs)
    ensures var e := After(NewTable(n), hash, evs)[p]; e.key != "" ==> e.lastAccess == LastUse(evs, e.key)
    decreases |evs|
  {
    if evs != [] {
      var front, ev := evs[..|evs| - 1], evs[|evs| - 1];
      AfterLast(NewTable(n), hash, 0, evs);
      AccessIsLastUse(n, hash, front, p);
      NewTableOk(n, hash);
      RunKeepsTable(NewTable(n), hash, 0, front);
      var s := After(NewTable(n), hash, front);
      if ev.Check? {
        CheckDatesItsKey(s, hash, ClockAfter(0, front), ev, p);
      } else {
        ResetUndatesItsKey(s, hash, ClockAfter(0, front), ev, p);
      }
    }
  }

  /** In every run from a new table: a check that finds the table full, its key missing and nothing expired takes
      the slot of a key that no stored key was last checked before; all others stay. */
  lemma VictimWasUnusedLongest(n: nat, hash: string -> nat, evs: seq<Event>, ev: Event, q: nat)
    requires q < n && LegalRun(0, evs) && ev.Check? && Legal(ClockAfter(0, evs), ev)
    requires var s := After(NewTable(n), hash, evs);
             Full(s) && !Holds(s, ev.key) && forall p :: 0 <= p < |s| ==> Elapsed(ev.now, s[p].windowStart) <= ev.window
    ensures var s := After(NewTable(n), hash, evs);
            var victim := FindSlot(s, hash, ev.key, ev.now, ev.window);
            && LastUse(evs, s[victim].key) <= LastUse(evs, s[q].key)
            && Apply(s, hash, ev).0[victim].key == ev.key
            && (q != victim ==> Apply(s, hash, ev).0[q] == s[q])
  {
    var s := After(NewTable(n), hash, evs);
    var victim := FindSlot(s, hash, ev.key, ev.now, ev.window);
    NewTableOk(n, hash);
    RunKeepsTable(NewTable(n), hash, 0, evs);
    VictimIsLeastRecentlyUsed(s, hash, ev.key, ev.now, ev.window);
    AccessIsLastUse(n, hash, evs, victim);
    AccessIsLastUse(n, hash, evs, q);
    CheckDatesItsKey(s, hash, ClockAfter(0, evs), ev, victim);
    CheckDatesItsKey(s, hash, ClockAfter(0, evs), ev, q);
  }
}
