/** Any number of threads interning strings at once.  A call is a read-locked walk, a gap
    without any lock, and a write-locked walk followed by a possible resize and the
    insertion; walks advance one node per step, so steps of different threads interleave
    wherever the lock lets them. */
module InternConcurrency {
  import opened Basics
  import opened InternPool
  import opened InternCells
  import opened InternTable

  type Tid = nat

  datatype Pc =
    | Idle
    | Scan(text: string, idx: nat, pos: nat)     // walking a chain under the read lock
    | Gap(text: string)                          // read lock released, write lock not yet taken
    | Recheck(text: string, idx: nat, pos: nat)  // walking a chain under the write lock
    | Missed(text: string)                       // second walk over, resize not yet decided
    | Ready(text: string)                        // about to allocate and link the node

  datatype Result = Result(text: string, p: Ptr)

  datatype State = State(
    pool: Pool,
    pcs: map<Tid, Pc>,
    readers: set<Tid>,
    writer: Option<Tid>,
    results: seq<Result>,   // every non-NULL pointer returned so far, with the text asked for
    growthFailed: bool)     // some `calloc` of a larger table has failed

  datatype Step =
    | Call(t: Tid, text: string)
    | ScanHit(t: Tid)
    | ScanNext(t: Tid)
    | ScanEnd(t: Tid)
    | TakeWrite(t: Tid)
    | RecheckHit(t: Tid)
    | RecheckNext(t: Tid)
    | RecheckEnd(t: Tid)
    | NoGrowth(t: Tid)
    | GrowthFails(t: Tid)
    | Growth(t: Tid, buckets: seq<Chain>)
    | Link(t: Tid, p: Ptr)
    | OutOfMemory(t: Tid)

  function At(st: State, t: Tid): Pc {
    if t in st.pcs then st.pcs[t] else Idle
  }

  predicate Crowded(pool: Pool) {
    pool.count >= |pool.buckets| * 3 / 4
  }

  /** A walker stands on a node of the current table. */
  predicate OnNode(pool: Pool, idx: nat, pos: nat) {
    idx < |pool.buckets| && pos < |pool.buckets[idx]|
  }

  predicate PastEnd(pool: Pool, idx: nat, pos: nat) {
    idx < |pool.buckets| && pos == |pool.buckets[idx]|
  }

  ghost predicate Enabled(st: State, step: Step, hash: string -> nat) {
    var pc := At(st, step.t);
    match step
    case Call(_, _) => pc.Idle? && st.writer.None? && 0 < |st.pool.buckets|
    case ScanHit(_) => pc.Scan? && OnNode(st.pool, pc.idx, pc.pos) && Matches(st.pool.mem, st.pool.buckets[pc.idx][pc.pos], pc.text)
    case ScanNext(_) => pc.Scan? && OnNode(st.pool, pc.idx, pc.pos) && !Matches(st.pool.mem, st.pool.buckets[pc.idx][pc.pos], pc.text)
    case ScanEnd(_) => pc.Scan? && PastEnd(st.pool, pc.idx, pc.pos)
    case TakeWrite(_) => pc.Gap? && st.writer.None? && st.readers == {} && 0 < |st.pool.buckets|
    case RecheckHit(_) => pc.Recheck? && OnNode(st.pool, pc.idx, pc.pos) && Matches(st.pool.mem, st.pool.buckets[pc.idx][pc.pos], pc.text)
    case RecheckNext(_) => pc.Recheck? && OnNode(st.pool, pc.idx, pc.pos) && !Matches(st.pool.mem, st.pool.buckets[pc.idx][pc.pos], pc.text)
    case RecheckEnd(_) => pc.Recheck? && PastEnd(st.pool, pc.idx, pc.pos)
    case NoGrowth(_) => pc.Missed? && !Crowded(st.pool)
    case GrowthFails(_) => pc.Missed? && Crowded(st.pool)
    case Growth(_, buckets) => pc.Missed? && Crowded(st.pool) && Rehashed(st.pool.buckets, buckets, st.pool.mem, hash)
    case Link(_, p) => pc.Ready? && p !in st.pool.mem && 0 < |st.pool.buckets| && Index(hash, pc.text, |st.pool.buckets|) < |st.pool.buckets|
    case OutOfMemory(_) => pc.Ready?
  }

  ghost function Do(st: State, step: Step, hash: string -> nat): State
    requires Enabled(st, step, hash)
  {
    var t := step.t;
    var pc := At(st, t);
    match step
    case Call(_, text) =>
      st.(pcs := st.pcs[t := Scan(text, Index(hash, text, |st.pool.buckets|), 0)], readers := st.readers + {t})
    case ScanHit(_) =>
      st.(pcs := st.pcs[t := Idle], readers := st.readers - {t},
          results := st.results + [Result(pc.text, st.pool.buckets[pc.idx][pc.pos].str)])
    case ScanNext(_) => st.(pcs := st.pcs[t := Scan(pc.text, pc.idx, pc.pos + 1)])
    case ScanEnd(_) => st.(pcs := st.pcs[t := Gap(pc.text)], readers := st.readers - {t})
    case TakeWrite(_) =>
      st.(pcs := st.pcs[t := Recheck(pc.text, Index(hash, pc.text, |st.pool.buckets|), 0)], writer := Some(t))
    case RecheckHit(_) =>
      st.(pcs := st.pcs[t := Idle], writer := None,
          results := st.results + [Result(pc.text, st.pool.buckets[pc.idx][pc.pos].str)])
    case RecheckNext(_) => st.(pcs := st.pcs[t := Recheck(pc.text, pc.idx, pc.pos + 1)])
    case RecheckEnd(_) => st.(pcs := st.pcs[t := Missed(pc.text)])
    case NoGrowth(_) => st.(pcs := st.pcs[t := Ready(pc.text)])
    case GrowthFails(_) => st.(pcs := st.pcs[t := Ready(pc.text)], growthFailed := true)
    case Growth(_, buckets) =>
      st.(pcs := st.pcs[t := Ready(pc.text)], pool := st.pool.(buckets := buckets))
    case Link(_, p) =>
      st.(pcs := st.pcs[t := Idle], writer := None, pool := Linked(st.pool, hash, pc.text, p),
          results := st.results + [Result(pc.text, p)])
    case OutOfMemory(_) => st.(pcs := st.pcs[t := Idle], writer := None)
  }

  // --------------------------------------------------------------------- invariant

  /** A walker is in the right bucket of the current table and has passed no match. */
  ghost predicate WalkOk(pool: Pool, hash: string -> nat, text: string, idx: nat, pos: nat) {
    && 0 < |pool.buckets| && idx == Index(hash, text, |pool.buckets|) < |pool.buckets|
    && pos <= |pool.buckets[idx]| && NoneBefore(pool.buckets[idx], pos, pool.mem, text)
  }

  /** None of the first `pos` nodes matches. */
  ghost predicate NoneBefore(chain: Chain, pos: nat, mem: Memory, text: string)
    requires pos <= |chain|
  {
    pos == 0 || (!Matches(mem, chain[pos - 1], text) && NoneBefore(chain, pos - 1, mem, text))
  }

  lemma {:induction false} NoneBeforeMeans(chain: Chain, pos: nat, mem: Memory, text: string)
    requires pos <= |chain| && NoneBefore(chain, pos, mem, text)
    ensures forall j :: 0 <= j < pos ==> !Matches(mem, chain[j], text)
  {
    if pos > 0 { NoneBeforeMeans(chain, pos - 1, mem, text); }
  }

  ghost predicate ThreadOk(st: State, hash: string -> nat, t: Tid) {
    var pc := At(st, t);
    && (pc.Scan? <==> t in st.readers)
    && ((pc.Recheck? || pc.Missed? || pc.Ready?) <==> st.writer == Some(t))
    && (pc.Scan? || pc.Recheck? ==> WalkOk(st.pool, hash, pc.text, pc.idx, pc.pos))
    && (pc.Missed? || pc.Ready? ==> !Interned(st.pool, pc.text))
    && (pc.Ready? && !st.growthFailed ==> !Crowded(st.pool))
  }

  ghost predicate Inv(st: State, hash: string -> nat) {
    && PoolOk(st.pool, hash)
    && (st.writer.Some? ==> st.readers == {})
    && (forall t :: ThreadOk(st, hash, t))
    && (forall i :: 0 <= i < |st.results| ==> Has(st.pool, st.results[i].text, st.results[i].p))
    && (!st.growthFailed ==> LightlyLoaded(st.pool))
  }

  lemma WalkStarts(pool: Pool, hash: string -> nat, text: string)
    requires PoolOk(pool, hash)
    ensures 0 < |pool.buckets| && WalkOk(pool, hash, text, Index(hash, text, |pool.buckets|), 0)
  {
    IndexInRange(hash, text, |pool.buckets|);
  }

  /** A hit returns the one pointer of its text. */
  lemma HitKeepsInv(st: State, step: Step, hash: string -> nat)
    requires Inv(st, hash) && Enabled(st, step, hash) && (step.ScanHit? || step.RecheckHit?)
    ensures Inv(Do(st, step, hash), hash)
  {
    var st' := Do(st, step, hash);
    var pc := At(st, step.t);
    assert ThreadOk(st, hash, step.t);
    HitIsSound(st.pool, hash, pc.text, pc.idx, pc.pos);
    forall t ensures ThreadOk(st', hash, t) {
      assert ThreadOk(st, hash, t);
    }
  }

  /** A step of thread `t` that leaves the table and the results alone leaves the other threads alone. */
  lemma OthersStayOk(st: State, st': State, t: Tid, hash: string -> nat)
    requires Inv(st, hash) && st'.pool == st.pool && st'.results == st.results && (st.growthFailed ==> st'.growthFailed)
    requires forall u {:trigger At(st', u)} :: u != t ==>
               && At(st', u) == At(st, u) && (u in st'.readers <==> u in st.readers)
               && (st'.writer == Some(u) <==> st.writer == Some(u))
    requires ThreadOk(st', hash, t) && (st'.writer.Some? ==> st'.readers == {})
    ensures Inv(st', hash)
  {
    forall u ensures ThreadOk(st', hash, u) {
      assert ThreadOk(st, hash, u);
    }
  }

  /** A call takes the read lock and starts at the head of its chain. */
  lemma CallKeepsInv(st: State, step: Step, hash: string -> nat)
    requires Inv(st, hash) && Enabled(st, step, hash) && step.Call?
    ensures Inv(Do(st, step, hash), hash)
  {
    assert ThreadOk(st, hash, step.t);
    WalkStarts(st.pool, hash, step.text);
    OthersStayOk(st, Do(st, step, hash), step.t, hash);
  }

  /** A walk goes on past a node that does not match. */
  lemma NextKeepsInv(st: State, step: Step, hash: string -> nat)
    requires Inv(st, hash) && Enabled(st, step, hash) && (step.ScanNext? || step.RecheckNext?)
    ensures Inv(Do(st, step, hash), hash)
  {
    var pc := At(st, step.t);
    assert ThreadOk(st, hash, step.t);
    assert NoneBefore(st.pool.buckets[pc.idx], pc.pos + 1, st.pool.mem, pc.text);
    OthersStayOk(st, Do(st, step, hash), step.t, hash);
  }

  /** The end of the first walk gives the read lock back. */
  lemma ScanEndKeepsInv(st: State, step: Step, hash: string -> nat)
    requires Inv(st, hash) && Enabled(st, step, hash) && step.ScanEnd?
    ensures Inv(Do(st, step, hash), hash)
  {
    assert ThreadOk(st, hash, step.t);
    OthersStayOk(st, Do(st, step, hash), step.t, hash);
  }

  /** The second walk starts under the write lock. */
  lemma TakeWriteKeepsInv(st: State, step: Step, hash: string -> nat)
    requires Inv(st, hash) && Enabled(st, step, hash) && step.TakeWrite?
    ensures Inv(Do(st, step, hash), hash)
  {
    assert ThreadOk(st, hash, step.t);
    WalkStarts(st.pool, hash, At(st, step.t).text);
    OthersStayOk(st, Do(st, step, hash), step.t, hash);
  }

  /** At its end the text is known not to be interned. */
  lemma RecheckEndKeepsInv(st: State, step: Step, hash: string -> nat)
    requires Inv(st, hash) && Enabled(st, step, hash) && step.RecheckEnd?
    ensures Inv(Do(st, step, hash), hash)
  {
    var pc := At(st, step.t);
    assert ThreadOk(st, hash, step.t);
    NoneBeforeMeans(st.pool.buckets[pc.idx], pc.pos, st.pool.mem, pc.text);
    MissIsSound(st.pool, hash, pc.text);
    OthersStayOk(st, Do(st, step, hash), step.t, hash);
  }

  /** The steps behind it that neither change the table nor return a pointer. */
  lemma QuietStepKeepsInv(st: State, step: Step, hash: string -> nat)
    requires Inv(st, hash) && Enabled(st, step, hash) && (step.NoGrowth? || step.GrowthFails? || step.OutOfMemory?)
    ensures Inv(Do(st, step, hash), hash)
  {
    assert ThreadOk(st, hash, step.t);
    OthersStayOk(st, Do(st, step, hash), step.t, hash);
  }

  /** The resize runs while no walker is in the table, so none can be misled by it. */
  lemma GrowthKeepsInv(st: State, step: Step, hash: string -> nat)
    requires Inv(st, hash) && Enabled(st, step, hash) && step.Growth?
    ensures Inv(Do(st, step, hash), hash)
  {
    var st' := Do(st, step, hash);
    RehashKeepsPool(st.pool, hash, step.buckets);
    assert ThreadOk(st, hash, step.t);
    WalkStarts(st.pool, hash, "");
    forall t ensures ThreadOk(st', hash, t) {
      assert ThreadOk(st, hash, t);
    }
  }

  lemma LinkKeepsInv(st: State, step: Step, hash: string -> nat)
    requires Inv(st, hash) && Enabled(st, step, hash) && step.Link?
    ensures Inv(Do(st, step, hash), hash)
  {
    var st' := Do(st, step, hash);
    assert ThreadOk(st, hash, step.t);
    LinkKeepsPool(st.pool, hash, At(st, step.t).text, step.p);
    forall t ensures ThreadOk(st', hash, t) {
      assert ThreadOk(st, hash, t);
    }
  }

  lemma StepKeepsInv(st: State, step: Step, hash: string -> nat)
    requires Inv(st, hash) && Enabled(st, step, hash)
    ensures Inv(Do(st, step, hash), hash)
    ensures Keeps(st.pool, Do(st, step, hash).pool)
    ensures st.results <= Do(st, step, hash).results
  {
    if step.Growth? {
      GrowthKeepsInv(st, step, hash);
      RehashKeepsPool(st.pool, hash, step.buckets);
    } else if step.Link? {
      LinkKeepsInv(st, step, hash);
      assert ThreadOk(st, hash, step.t);
      LinkKeepsPool(st.pool, hash, At(st, step.t).text, step.p);
    } else if step.ScanHit? || step.RecheckHit? {
      HitKeepsInv(st, step, hash);
    } else if step.Call? {
      CallKeepsInv(st, step, hash);
    } else if step.ScanNext? || step.RecheckNext? {
      NextKeepsInv(st, step, hash);
    } else if step.ScanEnd? {
      ScanEndKeepsInv(st, step, hash);
    } else if step.TakeWrite? {
      TakeWriteKeepsInv(st, step, hash);
    } else if step.RecheckEnd? {
      RecheckEndKeepsInv(st, step, hash);
    } else {
      QuietStepKeepsInv(st, step, hash);
    }
  }

  // -------------------------------------------------------------------------- runs

  ghost function Start(): State {
    State(Pool(seq(INITIAL_CAPACITY, _ => []), 0, map[]), map[], {}, None, [], false)
  }

  /** `steps` lead from `a` to `b`. */
  ghost predicate Run(a: State, steps: seq<Step>, b: State, hash: string -> nat)
    decreases |steps|
  {
    if steps == [] then a == b
    else Enabled(a, steps[0], hash) && Run(Do(a, steps[0], hash), steps[1..], b, hash)
  }

  lemma StartIsOk(hash: string -> nat)
    ensures Inv(Start(), hash)
  {
    EmptyPoolOk(Start().pool, hash);
    NobodyIn(Start(), hash);
  }

  lemma NobodyIn(st: State, hash: string -> nat)
    requires PoolOk(st.pool, hash) && LightlyLoaded(st.pool)
    requires st.pcs == map[] && st.readers == {} && st.writer.None? && st.results == []
    ensures Inv(st, hash)
  {
    forall t ensures ThreadOk(st, hash, t) {
      assert At(st, t) == Idle;
    }
  }

  lemma EmptyPoolOk(pool: Pool, hash: string -> nat)
    requires |pool.buckets| == INITIAL_CAPACITY && pool.count == 0
    requires forall b :: 0 <= b < |pool.buckets| ==> pool.buckets[b] == []
    ensures PoolOk(pool, hash) && LightlyLoaded(pool)
  {
    NothingIn(pool.buckets);
    assert Pow2(4) == 16 && Pow2(8) == 256;
    assert Pow2(10) == INITIAL_CAPACITY;
  }

  /** Whatever was interned or returned stays where it is, with its contents, for good. */
  lemma {:induction false} RunKeepsEverything(a: State, steps: seq<Step>, b: State, hash: string -> nat)
    requires Inv(a, hash) && Run(a, steps, b, hash)
    ensures Inv(b, hash)
    ensures Keeps(a.pool, b.pool)
    ensures a.results <= b.results
    decreases |steps|
  {
    if steps != [] {
      StepKeepsInv(a, steps[0], hash);
      RunKeepsEverything(Do(a, steps[0], hash), steps[1..], b, hash);
    }
  }
}
