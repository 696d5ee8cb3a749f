/** The in-memory rate limiter: a fixed table with linear probing, reuse of expired
    slots and eviction of the least recently used one.  The table is compared with an
    unbounded map from key to counter. */
module RateLimiter {
  import opened Basics

  const MAX_KEY_LEN: nat := 64

  type Time = t: nat | t < U64

  datatype Entry = Entry(key: string, windowStart: Time, count: int, lastAccess: Time)

  /** A slot as `calloc` leaves it. */
  const EMPTY := Entry("", 0, 0, 0)

  /** `now - start` in unsigned 64-bit arithmetic. */
  function Elapsed(now: Time, start: Time): (d: Time)
    ensures start <= now ==> d == now - start
  {
    (now - start) % U64
  }

  /** The key as `sso_strlcpy` stores it in a 64-byte field. */
  function Stored(key: string): (r: string)
    ensures r <= key && |r| == if |key| <= 63 then |key| else 63
  {
    if |key| < MAX_KEY_LEN then key else key[..MAX_KEY_LEN - 1]
  }

  // ---------------------------------------------------------------- probe positions

  /** The `i`-th slot probed from home slot `h` in a table of `n` slots. */
  function Slot(h: nat, i: nat, n: nat): (p: nat)
    requires h < n && i < n
    ensures p < n
  {
    if h + i < n then h + i else h + i - n
  }

  lemma SlotIsRemainder(h: nat, i: nat, n: nat)
    requires h < n && i < n
    ensures (h + i) % n == Slot(h, i, n)
  {
    if h + i < n { DivMod(0, n, h + i); } else { DivMod(1, n, h + i - n); }
  }

  /** How many steps from home slot `h` slot `p` is. */
  function Dist(h: nat, p: nat, n: nat): (i: nat)
    requires h < n && p < n
    ensures i < n && Slot(h, i, n) == p
    ensures forall j :: 0 <= j < n && Slot(h, j, n) == p ==> j == i
  {
    if h <= p then p - h else p + n - h
  }

  function Home(hash: string -> nat, key: string, n: nat): (h: nat)
    requires 0 < n
    ensures h < n
  {
    hash(key) % n
  }

  // ------------------------------------------------------ what one probe looks for

  /** First probe that meets an empty slot or the key itself; `|s|` when there is none. */
  function FirstStop(s: seq<Entry>, key: string, h: nat, i: nat): (r: nat)
    requires h < |s| && i <= |s|
    ensures i <= r <= |s|
    ensures r < |s| ==> s[Slot(h, r, |s|)].key == "" || s[Slot(h, r, |s|)].key == key
    ensures forall j :: i <= j < r ==> s[Slot(h, j, |s|)].key != "" && s[Slot(h, j, |s|)].key != key
    decreases |s| - i
  {
    if i == |s| then |s|
    else if s[Slot(h, i, |s|)].key == "" || s[Slot(h, i, |s|)].key == key then i
    else FirstStop(s, key, h, i + 1)
  }

  /** First probe that meets a slot whose window has run out; `|s|` when there is none. */
  function FirstExpired(s: seq<Entry>, now: Time, window: Time, h: nat, i: nat): (r: nat)
    requires h < |s| && i <= |s|
    ensures i <= r <= |s|
    ensures r < |s| ==> Elapsed(now, s[Slot(h, r, |s|)].windowStart) > window
    ensures forall j :: i <= j < r ==> Elapsed(now, s[Slot(h, j, |s|)].windowStart) <= window
    decreases |s| - i
  {
    if i == |s| then |s|
    else if Elapsed(now, s[Slot(h, i, |s|)].windowStart) > window then i
    else FirstExpired(s, now, window, h, i + 1)
  }

  /** Least last-access time among the first `i` probes, `2^64 - 1` when there are none. */
  function LeastAccess(s: seq<Entry>, h: nat, i: nat): (t: Time)
    requires h < |s| && i <= |s|
    ensures forall j :: 0 <= j < i ==> t <= s[Slot(h, j, |s|)].lastAccess
  {
    if i == 0 then U64 - 1
    else
      var e := s[Slot(h, i - 1, |s|)];
      if e.lastAccess < LeastAccess(s, h, i - 1) then e.lastAccess else LeastAccess(s, h, i - 1)
  }

  /** The slot that holds it: the earliest in probe order, slot 0 when no slot is below `2^64 - 1`. */
  function LruSlot(s: seq<Entry>, h: nat, i: nat): (p: nat)
    requires h < |s| && i <= |s|
    ensures p < |s|
    ensures LeastAccess(s, h, i) < U64 - 1 ==> s[p].lastAccess == LeastAccess(s, h, i)
  {
    if i == 0 then 0
    else
      var p := Slot(h, i - 1, |s|);
      if s[p].lastAccess < LeastAccess(s, h, i - 1) then p else LruSlot(s, h, i - 1)
  }

  /** One probe more. */
  lemma LruStep(s: seq<Entry>, h: nat, i: nat)
    requires h < |s| && i < |s|
    ensures var p, least := Slot(h, i, |s|), LeastAccess(s, h, i);
            && LeastAccess(s, h, i + 1) == (if s[p].lastAccess < least then s[p].lastAccess else least)
            && LruSlot(s, h, i + 1) == if s[p].lastAccess < least then p else LruSlot(s, h, i)
  {
  }

  lemma ScanStep(s: seq<Entry>, key: string, now: Time, window: Time, h: nat, i: nat)
    requires h < |s| && i < |s|
    ensures var e := s[Slot(h, i, |s|)];
            && (e.key != "" && e.key != key ==> FirstStop(s, key, h, i) == FirstStop(s, key, h, i + 1))
            && FirstExpired(s, now, window, h, i)
               == if Elapsed(now, e.windowStart) > window then i else FirstExpired(s, now, window, h, i + 1)
  {
  }

  /** The slot a check of `key` works on, as three separate scans. */
  function FindSlot(s: seq<Entry>, hash: string -> nat, key: string, now: Time, window: Time): (p: nat)
    requires 0 < |s|
    ensures p < |s|
  {
    var h := Home(hash, key, |s|);
    var stop := FirstStop(s, key, h, 0);
    if stop < |s| then Slot(h, stop, |s|)
    else
      var expired := FirstExpired(s, now, window, h, 0);
      if expired < |s| then Slot(h, expired, |s|) else LruSlot(s, h, |s|)
  }

  // -------------------------------------------------------------- table transitions

  function CheckTable(s: seq<Entry>, hash: string -> nat, key: string, now: Time, window: Time, max: int)
    : (r: (seq<Entry>, bool))
    requires 0 < |s|
    ensures |r.0| == |s|
  {
    var p := FindSlot(s, hash, key, now, window);
    if s[p].key == key then
      if Elapsed(now, s[p].windowStart) <= window then
        (s[p := s[p].(count := s[p].count + 1, lastAccess := now)], s[p].count + 1 <= max)
      else
        (s[p := s[p].(windowStart := now, count := 1, lastAccess := now)], true)
    else
      (s[p := Entry(Stored(key), now, 1, now)], true)
  }

  function ResetTable(s: seq<Entry>, hash: string -> nat, key: string): (r: seq<Entry>)
    requires 0 < |s|
    ensures |r| == |s|
  {
    var h := Home(hash, key, |s|);
    var stop := FirstStop(s, key, h, 0);
    if stop < |s| && s[Slot(h, stop, |s|)].key != "" then
      var p := Slot(h, stop, |s|);
      s[p := s[p].(count := 0, windowStart := 0, lastAccess := 0)]
    else s
  }

  // ------------------------------------------------------------ the imperative table

  class Table {
    var entries: array<Entry>
    const hash: string -> nat

    ghost predicate Valid()
      reads this
    {
      0 < entries.Length
    }

    /** `rate_limiter_create`: refused for a table of no entries. */
    static method Create(maxEntries: nat, hash: string -> nat) returns (t: Table?)
      ensures t == null <==> maxEntries == 0
      ensures t != null ==> fresh(t) && t.Valid() && fresh(t.entries) && t.hash == hash
      ensures t != null ==> t.entries[..] == seq(maxEntries, _ => EMPTY)
    {
      if maxEntries == 0 {
        return null;
      }
      t := new Table(maxEntries, hash);
    }

    constructor (maxEntries: nat, hash: string -> nat)
      requires 0 < maxEntries
      ensures Valid() && fresh(entries) && this.hash == hash
      ensures entries[..] == seq(maxEntries, _ => EMPTY)
    {
      this.hash := hash;
      entries := new Entry[maxEntries](_ => EMPTY);
    }

    /** One pass over the probe sequence computes what the three scans of `FindSlot` do. */
    method FindOrEvict(key: string, now: Time, window: Time) returns (slot: nat)
      requires Valid()
      ensures slot < entries.Length
      ensures slot == FindSlot(entries[..], hash, key, now, window)
    {
      var max := entries.Length;
      ghost var s := entries[..];
      var idx := hash(key) % max;
      var candidate := max;
      var candidateExpired := false;
      var lruIdx := 0;
      var minAccess: Time := U64 - 1;
      var i := 0;
      while i < max
        invariant 0 <= i <= max
        invariant FirstStop(s, key, idx, 0) == FirstStop(s, key, idx, i)
        invariant candidateExpired ==>
                    FirstExpired(s, now, window, idx, 0) < i &&
                    candidate == Slot(idx, FirstExpired(s, now, window, idx, 0), max)
        invariant !candidateExpired ==>
                    FirstExpired(s, now, window, idx, 0) == FirstExpired(s, now, window, idx, i)
        invariant minAccess == LeastAccess(s, idx, i) && lruIdx == LruSlot(s, idx, i)
      {
        var probe := (idx + i) % max;
        SlotIsRemainder(idx, i, max);
        ScanStep(s, key, now, window, idx, i);
        LruStep(s, idx, i);
        var e := entries[probe];
        if e.key == "" {
          return probe;
        }
        if e.key == key {
          return probe;
        }
        if !candidateExpired && Elapsed(now, e.windowStart) > window {
          candidate := probe;
          candidateExpired := true;
        }
        if e.lastAccess < minAccess {
          minAccess := e.lastAccess;
          lruIdx := probe;
        }
        i := i + 1;
      }
      return if candidateExpired then candidate else lruIdx;
    }

    /** `rate_limiter_check` at sampled time `now`; `ok` is false for SSO_ERR_RATE_LIMIT. */
    method Check(key: string, now: Time, window: Time, max: int) returns (ok: bool)
      requires Valid()
      modifies entries
      ensures (entries[..], ok) == CheckTable(old(entries[..]), hash, key, now, window, max)
    {
      var idx := FindOrEvict(key, now, window);
      var entry := entries[idx];
      if entry.key == key {
        entry := entry.(lastAccess := now);
        if Elapsed(now, entry.windowStart) <= window {
          entry := entry.(count := entry.count + 1);
          entries[idx] := entry;
          return entry.count <= max;
        }
        entries[idx] := entry.(windowStart := now, count := 1);
        return true;
      }
      entries[idx] := Entry(Stored(key), now, 1, now);
      return true;
    }

    /** `rate_limiter_reset`. */
    method Reset(key: string)
      requires Valid()
      modifies entries
      ensures entries[..] == ResetTable(old(entries[..]), hash, key)
    {
      ghost var s := entries[..];
      var idx := hash(key) % entries.Length;
      var probe := idx;
      var i := 0;
      while i < entries.Length && entries[probe].key != ""
        invariant 0 <= i <= entries.Length && probe < entries.Length
        invariant i < entries.Length ==> probe == Slot(idx, i, entries.Length)
        invariant entries[..] == s
        invariant FirstStop(s, key, idx, 0) == FirstStop(s, key, idx, i)
      {
        if entries[probe].key == key {
          entries[probe] := entries[probe].(count := 0, windowStart := 0, lastAccess := 0);
          return;
        }
        i := i + 1;
        if i < entries.Length { SlotIsRemainder(idx, i, entries.Length); }
        probe := (idx + i) % entries.Length;
      }
    }
  }
}
