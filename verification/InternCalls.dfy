/** What callers get: in every interleaving each call that does not run out of memory is answered with the
    pointer of its own text, and no call is ever stuck. */
module InternCalls {
  import opened Basics
  import opened InternPool
  import opened InternConcurrency

  // ---------------------------------------------------------------- pointers and texts

  lemma OnePointerPerText(pool: Pool, hash: string -> nat, a: Result, b: Result)
    requires PoolOk(pool, hash) && Has(pool, a.text, a.p) && Has(pool, b.text, b.p)
    ensures a.p == b.p <==> a.text == b.text
  {
    if a.p == b.p {
      assert a.text == (a.text + ['\0'])[..|a.text|];
      assert b.text == (b.text + ['\0'])[..|b.text|];
      assert |a.text| + 1 == |pool.mem[a.p]| == |b.text| + 1;
    }
  }

  lemma ResultsAreTexts(st: State, hash: string -> nat)
    requires Inv(st, hash)
    ensures forall i, j :: 0 <= i < |st.results| && 0 <= j < |st.results| ==>
              (st.results[i].p == st.results[j].p <==> st.results[i].text == st.results[j].text)
    ensures forall i :: 0 <= i < |st.results| ==>
              st.results[i].p in st.pool.mem && st.pool.mem[st.results[i].p] == st.results[i].text + ['\0']
  {
    forall i, j | 0 <= i < |st.results| && 0 <= j < |st.results|
      ensures st.results[i].p == st.results[j].p <==> st.results[i].text == st.results[j].text
    {
      OnePointerPerText(st.pool, hash, st.results[i], st.results[j]);
    }
  }

  /** In every interleaving of any number of callers, two returned pointers are equal exactly
      when the texts asked for are, each pointer holds its text, and the table is at most
      three quarters full as long as no growth has failed. */
  lemma PointersAreTexts(steps: seq<Step>, st: State, hash: string -> nat)
    requires Run(Start(), steps, st, hash)
    ensures forall i, j :: 0 <= i < |st.results| && 0 <= j < |st.results| ==>
              (st.results[i].p == st.results[j].p <==> st.results[i].text == st.results[j].text)
    ensures forall i :: 0 <= i < |st.results| ==>
              st.results[i].p in st.pool.mem && st.pool.mem[st.results[i].p] == st.results[i].text + ['\0']
    ensures !st.growthFailed ==> LightlyLoaded(st.pool)
  {
    StartIsOk(hash);
    RunKeepsEverything(Start(), steps, st, hash);
    ResultsAreTexts(st, hash);
  }

  predicate ReturnsPointer(step: Step) {
    step.ScanHit? || step.RecheckHit? || step.Link?
  }

  // ------------------------------------------------------------- as the steps alone tell

  /** The calls under way, each with the text asked for. */
  function CallStep(calls: map<Tid, string>, step: Step): map<Tid, string> {
    if step.Call? then calls[step.t := step.text]
    else if ReturnsPointer(step) || step.OutOfMemory? then calls - {step.t}
    else calls
  }

  function Calls(steps: seq<Step>): map<Tid, string> {
    if steps == [] then map[] else CallStep(Calls(steps[..|steps| - 1]), steps[|steps| - 1])
  }

  /** The texts of the calls that have ended with a pointer, in the order they ended. */
  function Answered(steps: seq<Step>): seq<string> {
    if steps == [] then []
    else
      var front, step := steps[..|steps| - 1], steps[|steps| - 1];
      Answered(front) + if ReturnsPointer(step) && step.t in Calls(front) then [Calls(front)[step.t]] else []
  }

  ghost predicate GrowthFailed(steps: seq<Step>) {
    exists i :: 0 <= i < |steps| && steps[i].GrowthFails?
  }

  // --------------------------------------------------------------------- as it turns out

  function Texts(results: seq<Result>): seq<string> {
    if results == [] then [] else Texts(results[..|results| - 1]) + [results[|results| - 1].text]
  }

  ghost predicate InCall(st: State, calls: map<Tid, string>, t: Tid) {
    (t in calls <==> !At(st, t).Idle?) && (t in calls ==> At(st, t).text == calls[t])
  }

  /** The threads are in exactly these calls. */
  ghost predicate InCalls(st: State, calls: map<Tid, string>) {
    forall t :: InCall(st, calls, t)
  }

  /** Only the thread that takes a step moves. */
  lemma OthersStand(st: State, step: Step, hash: string -> nat, calls: map<Tid, string>, t: Tid)
    requires Enabled(st, step, hash) && InCall(st, calls, t) && t != step.t
    ensures InCall(Do(st, step, hash), CallStep(calls, step), t)
  {
    assert At(Do(st, step, hash), t) == At(st, t);
  }

  lemma StepKeepsCall(st: State, step: Step, hash: string -> nat, calls: map<Tid, string>)
    requires Enabled(st, step, hash) && InCall(st, calls, step.t)
    ensures InCall(Do(st, step, hash), CallStep(calls, step), step.t)
  {
  }

  lemma StepAnswersCall(st: State, step: Step, hash: string -> nat, calls: map<Tid, string>)
    requires Enabled(st, step, hash) && InCall(st, calls, step.t)
    ensures !ReturnsPointer(step) ==> Do(st, step, hash).results == st.results
    ensures ReturnsPointer(step) ==> step.t in calls && Texts(Do(st, step, hash).results) == Texts(st.results) + [calls[step.t]]
    ensures Do(st, step, hash).growthFailed <==> st.growthFailed || step.GrowthFails?
  {
    if ReturnsPointer(step) {
      assert Do(st, step, hash).results[..|st.results|] == st.results;
    }
  }

  /** The last step of a run. */
  lemma {:induction false} RunUpTo(a: State, steps: seq<Step>, b: State, hash: string -> nat) returns (c: State)
    requires Run(a, steps, b, hash) && steps != []
    ensures Run(a, steps[..|steps| - 1], c, hash)
    ensures Enabled(c, steps[|steps| - 1], hash) && Do(c, steps[|steps| - 1], hash) == b
    decreases |steps|
  {
    if |steps| == 1 {
      c := a;
    } else {
      c := RunUpTo(Do(a, steps[0], hash), steps[1..], b, hash);
      assert steps[1..][..|steps| - 2] == steps[..|steps| - 1][1..];
    }
  }

  lemma OneMoreStep(steps: seq<Step>)
    requires steps != []
    ensures GrowthFailed(steps) <==> GrowthFailed(steps[..|steps| - 1]) || steps[|steps| - 1].GrowthFails?
  {
    var front := steps[..|steps| - 1];
    if i :| 0 <= i < |steps| && steps[i].GrowthFails? && i < |front| {
      assert front[i].GrowthFails?;
    }
  }

  /** In every interleaving the pointers returned are, one for one and in order, those of the calls that ended
      other than by a failed allocation, each for the text its call asked for; a thread is at rest exactly when
      its calls have ended; and a growth counts as failed exactly when one has. */
  lemma {:induction false} EveryCallIsAnswered(steps: seq<Step>, st: State, hash: string -> nat)
    requires Run(Start(), steps, st, hash)
    ensures Texts(st.results) == Answered(steps)
    ensures InCalls(st, Calls(steps))
    ensures st.growthFailed <==> GrowthFailed(steps)
    decreases |steps|
  {
    if steps != [] {
      var c := RunUpTo(Start(), steps, st, hash);
      var front, step := steps[..|steps| - 1], steps[|steps| - 1];
      EveryCallIsAnswered(front, c, hash);
      assert InCall(c, Calls(front), step.t);
      forall t ensures InCall(st, Calls(steps), t) {
        assert InCall(c, Calls(front), t);
        if t == step.t { StepKeepsCall(c, step, hash, Calls(front)); } else { OthersStand(c, step, hash, Calls(front), t); }
      }
      StepAnswersCall(c, step, hash, Calls(front));
      OneMoreStep(steps);
    }
  }

  lemma Reachable(steps: seq<Step>, st: State, hash: string -> nat)
    requires Run(Start(), steps, st, hash)
    ensures Inv(st, hash) && InCalls(st, Calls(steps))
  {
    StartIsOk(hash);
    RunKeepsEverything(Start(), steps, st, hash);
    EveryCallIsAnswered(steps, st, hash);
  }

  /** A call that ends in a hit returns the pointer its text is interned at. */
  lemma HitReturnsPointer(steps: seq<Step>, st: State, step: Step, hash: string -> nat) returns (p: Ptr)
    requires Run(Start(), steps, st, hash) && Enabled(st, step, hash) && (step.ScanHit? || step.RecheckHit?)
    ensures step.t in Calls(steps) && Has(st.pool, Calls(steps)[step.t], p)
    ensures Do(st, step, hash).results == st.results + [Result(Calls(steps)[step.t], p)]
  {
    Reachable(steps, st, hash);
    assert InCall(st, Calls(steps), step.t);
    var pc := At(st, step.t);
    assert ThreadOk(st, hash, step.t);
    HitIsSound(st.pool, hash, pc.text, pc.idx, pc.pos);
    p := st.pool.buckets[pc.idx][pc.pos].str;
  }

  /** A call runs out of memory, or makes a new pointer, only when its text is not interned. */
  lemma NullOnlyForNewText(steps: seq<Step>, st: State, step: Step, hash: string -> nat)
    requires Run(Start(), steps, st, hash) && Enabled(st, step, hash) && (step.OutOfMemory? || step.Link?)
    ensures step.t in Calls(steps) && !Interned(st.pool, Calls(steps)[step.t])
  {
    Reachable(steps, st, hash);
    assert InCall(st, Calls(steps), step.t) && ThreadOk(st, hash, step.t);
  }

  /** What thread `u` does next. */
  lemma NextStep(st: State, u: Tid, hash: string -> nat) returns (step: Step)
    requires Inv(st, hash) && !At(st, u).Idle?
    requires At(st, u).Gap? ==> st.writer.None? && st.readers == {}
    ensures Enabled(st, step, hash) && !step.Call? && step.t == u
  {
    assert ThreadOk(st, hash, u);
    match At(st, u) {
      case Scan(text, idx, pos) =>
        step := if PastEnd(st.pool, idx, pos) then ScanEnd(u)
                else if Matches(st.pool.mem, st.pool.buckets[idx][pos], text) then ScanHit(u) else ScanNext(u);
      case Gap(_) => step := TakeWrite(u);
      case Recheck(text, idx, pos) =>
        step := if PastEnd(st.pool, idx, pos) then RecheckEnd(u)
                else if Matches(st.pool.mem, st.pool.buckets[idx][pos], text) then RecheckHit(u) else RecheckNext(u);
      case Missed(_) => step := if Crowded(st.pool) then GrowthFails(u) else NoGrowth(u);
      case Ready(_) => step := OutOfMemory(u);
    }
  }

  /** No call is ever stuck: a thread in a call can go on, or one that holds the lock it waits for can. */
  lemma NeverStuck(steps: seq<Step>, st: State, hash: string -> nat, t: Tid) returns (step: Step)
    requires Run(Start(), steps, st, hash) && t in Calls(steps)
    ensures Enabled(st, step, hash) && !step.Call?
    ensures step.t == t || (At(st, t).Gap? && (st.writer == Some(step.t) || step.t in st.readers))
  {
    Reachable(steps, st, hash);
    assert InCall(st, Calls(steps), t);
    var u := t;
    if At(st, t).Gap? {
      if st.writer.Some? {
        u := st.writer.value;
      } else if v :| v in st.readers {
        u := v;
      }
    }
    assert ThreadOk(st, hash, u);
    step := NextStep(st, u, hash);
  }

  /** What a thread may do of its own accord: call when it is at rest and nobody writes; after a miss, grow the
      table exactly when it is three quarters full; and link a new node at any address not in use. */
  lemma WhatIsAllowed(steps: seq<Step>, st: State, hash: string -> nat, t: Tid, text: string, p: Ptr, buckets: seq<Chain>)
    requires Run(Start(), steps, st, hash)
    ensures Enabled(st, Call(t, text), hash) <==> t !in Calls(steps) && st.writer.None?
    ensures At(st, t).Missed? ==>
              var crowded := |st.pool.buckets| * 3 / 4 <= st.pool.count;
              && (Enabled(st, NoGrowth(t), hash) <==> !crowded) && (Enabled(st, GrowthFails(t), hash) <==> crowded)
              && (Enabled(st, Growth(t, buckets), hash) <==>
                  crowded && Rehashed(st.pool.buckets, buckets, st.pool.mem, hash))
    ensures At(st, t).Ready? ==> (Enabled(st, Link(t, p), hash) <==> p !in st.pool.mem)
  {
    Reachable(steps, st, hash);
    assert InCall(st, Calls(steps), t) && ThreadOk(st, hash, t);
    WalkStarts(st.pool, hash, text);
    if At(st, t).Ready? { WalkStarts(st.pool, hash, At(st, t).text); }
  }
}
