/** Producers, batching workers, start and shutdown of the span exporter, interleaved at their locked
    sections.  A producer looks at the running flag without the lock and enqueues later; a worker takes a batch
    under the lock and sends it without. */
module SpanExporter {
  import opened SpanQueue

  type Span = nat
  type Tid = nat

  datatype Worker =
    | Collecting          // before or inside its locked section
    | Sending(k: nat)     // sending batch `k`, lock released
    | Exited

  datatype State = State(
    queue: seq<Span>,
    running: bool,
    pending: map<Tid, Span>,    // producers past the unlocked check
    workers: seq<Worker>,
    batches: seq<seq<Span>>,    // every batch taken so far, in the order of the lock
    unsent: map<nat, nat>,      // the batches being sent, each with its worker
    accepted: seq<Span>,        // every span queued so far, in order
    dropped: seq<Span>)

  datatype Step =
    | Arrive(t: Tid, span: Span)
    | Enqueue(t: Tid)
    | Collect(w: nat)
    | SendDone(w: nat)
    | Init
    | Stop

  predicate Enabled(st: State, step: Step) {
    match step
    case Arrive(t, _) => st.running && t !in st.pending
    case Enqueue(t) => t in st.pending
    case Collect(w) => w < |st.workers| && st.workers[w].Collecting? && (BATCH_SIZE <= |st.queue| || !st.running)
    case SendDone(w) => w < |st.workers| && st.workers[w].Sending?
    case Init => true
    case Stop => true
  }

  function Do(st: State, step: Step): State
    requires Enabled(st, step)
  {
    match step
    case Arrive(t, span) => st.(pending := st.pending[t := span])
    case Enqueue(t) =>
      var span := st.pending[t];
      var st' := st.(pending := st.pending - {t}, queue := Enqueued(st.queue, span));
      if |st.queue| < MAX_QUEUE then st'.(accepted := st.accepted + [span]) else st'.(dropped := st.dropped + [span])
    case Collect(w) =>
      var n := BatchLength(|st.queue|);
      if n == 0 then st.(workers := st.workers[w := Exited])
      else st.(queue := st.queue[n..], batches := st.batches + [st.queue[..n]],
               workers := st.workers[w := Sending(|st.batches|)], unsent := st.unsent[|st.batches| := w])
    case SendDone(w) => st.(workers := st.workers[w := Collecting], unsent := st.unsent - {st.workers[w].k})
    case Init => if st.running then st else st.(running := true, workers := st.workers + [Collecting])
    case Stop => st.(running := false)
  }

  const START: State := State([], false, map[], [], [], map[], [], [])

  // --------------------------------------------------------------------- conservation

  function Flat(batches: seq<seq<Span>>): seq<Span> {
    if batches == [] then [] else Flat(batches[..|batches| - 1]) + batches[|batches| - 1]
  }

  /** Batches and the queue are the accepted spans in order. */
  ghost predicate Conserved(st: State) {
    Flat(st.batches) + st.queue == st.accepted && |st.queue| <= MAX_QUEUE
  }

  /** A batch that is not sent is in the hands of one worker. */
  ghost predicate InHand(st: State) {
    && (forall k :: k in st.unsent ==>
          k < |st.batches| && st.unsent[k] < |st.workers| && st.workers[st.unsent[k]] == Sending(k))
    && (forall w :: 0 <= w < |st.workers| && st.workers[w].Sending? ==>
          st.workers[w].k in st.unsent && st.unsent[st.workers[w].k] == w)
  }

  ghost predicate Inv(st: State) {
    Conserved(st) && InHand(st)
  }

  lemma BatchTaken(batches: seq<seq<Span>>, queue: seq<Span>, n: nat)
    requires n <= |queue|
    ensures Flat(batches + [queue[..n]]) + queue[n..] == Flat(batches) + queue
  {
    var taken := queue[..n];
    assert (batches + [taken])[..|batches|] == batches && (batches + [taken])[|batches|] == taken;
    assert queue == taken + queue[n..];
    assert Flat(batches) + taken + queue[n..] == Flat(batches) + (taken + queue[n..]);
  }

  lemma SpanAdded(front: seq<Span>, queue: seq<Span>, span: Span)
    ensures front + (queue + [span]) == (front + queue) + [span]
  {
  }

  lemma StepConserves(st: State, step: Step)
    requires Conserved(st) && Enabled(st, step)
    ensures Conserved(Do(st, step))
  {
    match step {
      case Enqueue(t) => SpanAdded(Flat(st.batches), st.queue, st.pending[t]);
      case Collect(_) => BatchTaken(st.batches, st.queue, BatchLength(|st.queue|));
      case _ =>
    }
  }

  /** A worker that takes a batch is the only one with it. */
  lemma CollectKeepsInHand(st: State, w: nat)
    requires InHand(st) && Enabled(st, Collect(w))
    ensures InHand(Do(st, Collect(w)))
  {
    var st' := Do(st, Collect(w));
    forall v | 0 <= v < |st'.workers| && st'.workers[v].Sending?
      ensures st'.workers[v].k in st'.unsent && st'.unsent[st'.workers[v].k] == v
    {
      if v != w { assert st'.workers[v] == st.workers[v]; }
    }
  }

  lemma SendDoneKeepsInHand(st: State, w: nat)
    requires InHand(st) && Enabled(st, SendDone(w))
    ensures InHand(Do(st, SendDone(w)))
  {
    var st' := Do(st, SendDone(w));
    forall v | 0 <= v < |st'.workers| && st'.workers[v].Sending?
      ensures st'.workers[v].k in st'.unsent && st'.unsent[st'.workers[v].k] == v
    {
      assert v != w && st'.workers[v] == st.workers[v];
    }
  }

  lemma StepKeepsInHand(st: State, step: Step)
    requires InHand(st) && Enabled(st, step)
    ensures InHand(Do(st, step))
  {
    match step {
      case Collect(w) => CollectKeepsInHand(st, w);
      case SendDone(w) => SendDoneKeepsInHand(st, w);
      case Arrive(_, _) => assert Do(st, step).unsent == st.unsent && Do(st, step).workers == st.workers;
      case Enqueue(_) => assert Do(st, step).unsent == st.unsent && Do(st, step).workers == st.workers;
      case Init => assert Do(st, step).unsent == st.unsent;
      case Stop => assert Do(st, step).unsent == st.unsent && Do(st, step).workers == st.workers;
    }
  }

  /** A span is only ever dropped by finding the queue full. */
  lemma DropsOnlyWhenFull(st: State, step: Step)
    requires Conserved(st) && Enabled(st, step)
    ensures Do(st, step).dropped != st.dropped ==> step.Enqueue? && |st.queue| == 1024
    ensures step.Enqueue? && |st.queue| < 1024 ==> Do(st, step).accepted == st.accepted + [st.pending[step.t]]
  {
  }

  /** A worker that is not sending takes a batch exactly when 128 spans are queued or the exporter is stopped. */
  lemma CollectsWhenDue(st: State, w: nat)
    requires w < |st.workers| && st.workers[w] == Collecting
    ensures Enabled(st, Collect(w)) <==> 128 <= |st.queue| || !st.running
  {
  }

  /** What it takes are the oldest spans, 128 of them or all; with none queued it leaves. */
  lemma CollectTakesOldest(st: State, w: nat)
    requires Enabled(st, Collect(w))
    ensures var st' := Do(st, Collect(w));
            if st.queue == [] then st'.batches == st.batches && st'.workers[w] == Exited
            else exists batch ::
              && st'.batches == st.batches + [batch] && st.queue == batch + st'.queue && st'.workers[w] == Sending(|st.batches|)
              && 1 <= |batch| <= 128 && (|batch| < 128 ==> st'.queue == [])
  {
    if st.queue != [] {
      var n := BatchLength(|st.queue|);
      assert st.queue == st.queue[..n] + st.queue[n..];
      assert Do(st, Collect(w)).batches == st.batches + [st.queue[..n]];
    }
  }

  /** A start that finds the exporter stopped adds one worker; started again, it changes nothing; nor does a
      second stop. */
  lemma StartAndStopOnce(st: State)
    ensures !st.running ==> Do(st, Init) == st.(running := true, workers := st.workers + [Collecting])
    ensures Do(st, Init).running && Do(Do(st, Init), Init) == Do(st, Init)
    ensures Enabled(st, Stop) && !Do(st, Stop).running && Do(Do(st, Stop), Stop) == Do(st, Stop)
    ensures st.running ==> Do(Do(st, Stop), Init).workers == st.workers + [Collecting]
  {
  }

  // --------------------------------------------------------------------------- runs

  ghost predicate Run(a: State, steps: seq<Step>, b: State)
    decreases |steps|
  {
    if steps == [] then a == b else Enabled(a, steps[0]) && Run(Do(a, steps[0]), steps[1..], b)
  }

  /** Acceptance order is never revised, and batches once taken stay as they are. */
  lemma {:induction false} RunKeepsInv(a: State, steps: seq<Step>, b: State)
    requires Inv(a) && Run(a, steps, b)
    ensures Inv(b) && a.accepted <= b.accepted && a.batches <= b.batches
    decreases |steps|
  {
    if steps != [] {
      StepConserves(a, steps[0]);
      StepKeepsInHand(a, steps[0]);
      RunKeepsInv(Do(a, steps[0]), steps[1..], b);
    }
  }

  /** In every interleaving, the batches in the order taken and then the queue are the accepted spans in the
      order accepted; and every batch is sent, or in the hands of exactly one worker. */
  lemma NothingIsLost(steps: seq<Step>, st: State)
    requires Run(START, steps, st)
    ensures Flat(st.batches) + st.queue == st.accepted && |st.queue| <= MAX_QUEUE
    ensures InHand(st)
  {
    RunKeepsInv(START, steps, st);
  }

  ghost predicate AllExited(st: State) {
    forall w :: 0 <= w < |st.workers| ==> st.workers[w] == Exited
  }

  /** A worker that leaves has seen the queue empty with the exporter stopped: all that was accepted before
      that locked section is in batches, and those not sent yet are another worker's. */
  lemma ExitLeavesNothingQueued(steps: seq<Step>, st: State, w: nat)
    requires Run(START, steps, st) && Enabled(st, Collect(w)) && Do(st, Collect(w)).workers[w] == Exited
    ensures !st.running && st.queue == [] && st.accepted == Flat(st.batches)
    ensures forall k :: k in st.unsent ==> st.unsent[k] != w && st.unsent[k] < |st.workers| && st.workers[st.unsent[k]] == Sending(k)
  {
    NothingIsLost(steps, st);
  }

  // ------------------------------------------------------------- every span once

  /** The producers past the check, each with its span, as the steps alone tell. */
  function WaitingStep(waiting: map<Tid, Span>, step: Step): map<Tid, Span> {
    match step
    case Arrive(t, span) => waiting[t := span]
    case Enqueue(t) => waiting - {t}
    case _ => waiting
  }

  function Waiting(waiting: map<Tid, Span>, steps: seq<Step>): map<Tid, Span>
    decreases |steps|
  {
    if steps == [] then waiting else Waiting(WaitingStep(waiting, steps[0]), steps[1..])
  }

  /** The spans of the producers that have got to the queue. */
  function Entered(waiting: map<Tid, Span>, steps: seq<Step>): multiset<Span>
    decreases |steps|
  {
    if steps == [] then multiset{}
    else
      var step := steps[0];
      (if step.Enqueue? && step.t in waiting then multiset{waiting[step.t]} else multiset{})
      + Entered(WaitingStep(waiting, step), steps[1..])
  }

  ghost function Counted(st: State): multiset<Span> {
    multiset(st.accepted) + multiset(st.dropped)
  }

  lemma OneMoreSpan(s: seq<Span>, span: Span)
    ensures multiset(s + [span]) == multiset(s) + multiset{span}
  {
  }

  lemma EnqueueCounts(st: State, t: Tid)
    requires Enabled(st, Enqueue(t))
    ensures Counted(Do(st, Enqueue(t))) == Counted(st) + multiset{st.pending[t]}
  {
    OneMoreSpan(st.accepted, st.pending[t]);
    OneMoreSpan(st.dropped, st.pending[t]);
  }

  lemma StepCounts(st: State, step: Step)
    requires Enabled(st, step)
    ensures Do(st, step).pending == WaitingStep(st.pending, step)
    ensures Counted(Do(st, step)) == Counted(st) + if step.Enqueue? then multiset{st.pending[step.t]} else multiset{}
  {
    if step.Enqueue? {
      EnqueueCounts(st, step.t);
    } else {
      assert Do(st, step).accepted == st.accepted && Do(st, step).dropped == st.dropped;
    }
  }

  lemma {:induction false} RunCounts(a: State, steps: seq<Step>, b: State)
    requires Run(a, steps, b)
    ensures b.pending == Waiting(a.pending, steps) && Counted(b) == Counted(a) + Entered(a.pending, steps)
    decreases |steps|
  {
    if steps != [] {
      StepCounts(a, steps[0]);
      RunCounts(Do(a, steps[0]), steps[1..], b);
    }
  }

  /** In every interleaving, each span a producer brings to the queue is accepted once or dropped once, and a
      producer is on its way in exactly from its arrival to then. */
  lemma EverySpanOnce(steps: seq<Step>, st: State)
    requires Run(START, steps, st)
    ensures multiset(st.accepted) + multiset(st.dropped) == Entered(map[], steps)
    ensures st.pending == Waiting(map[], steps)
  {
    RunCounts(START, steps, st);
  }

  /** With no worker left, every batch has been sent, so what is accepted and not sent is what is queued. */
  lemma UnsentIsQueued(st: State)
    requires Inv(st) && AllExited(st)
    ensures st.unsent == map[]
    ensures st.accepted == Flat(st.batches) <==> st.queue == []
  {
    if k :| k in st.unsent {
      assert false;
    }
  }

  /** A producer that looked at the flag before the shutdown can still queue a span when the worker has gone;
      it stays queued. */
  lemma LateSpanStaysQueued(t: Tid, span: Span) returns (steps: seq<Step>, st: State)
    ensures Run(START, steps, st) && AllExited(st) && st.accepted == [span] && Flat(st.batches) == []
  {
    steps := [Init, Arrive(t, span), Stop, Collect(0), Enqueue(t)];
    var a := Do(START, Init);
    var b := Do(a, Arrive(t, span));
    var c := Do(b, Stop);
    var d := Do(c, Collect(0));
    st := Do(d, Enqueue(t));
    assert Run(d, [Enqueue(t)], st);
    assert [Collect(0), Enqueue(t)][1..] == [Enqueue(t)];
    assert Run(c, [Collect(0), Enqueue(t)], st);
    assert [Stop, Collect(0), Enqueue(t)][1..] == [Collect(0), Enqueue(t)];
    assert Run(b, [Stop, Collect(0), Enqueue(t)], st);
    assert [Arrive(t, span), Stop, Collect(0), Enqueue(t)][1..] == [Stop, Collect(0), Enqueue(t)];
    assert Run(a, [Arrive(t, span), Stop, Collect(0), Enqueue(t)], st);
    assert steps[1..] == [Arrive(t, span), Stop, Collect(0), Enqueue(t)];
  }

  // ----------------------------------------------------------------------- shutdown

  /** Stopped, and no producer on its way in. */
  predicate Quiet(st: State) {
    !st.running && st.pending == map[]
  }

  predicate WorkerStep(step: Step) {
    step.Collect? || step.SendDone?
  }

  function Weight(w: Worker): nat {
    match w
    case Exited => 0
    case Collecting => 1
    case Sending(_) => 2
  }

  function WeightOf(ws: seq<Worker>): nat {
    if ws == [] then 0 else WeightOf(ws[..|ws| - 1]) + Weight(ws[|ws| - 1])
  }

  function Work(st: State): nat {
    3 * |st.queue| + WeightOf(st.workers)
  }

  lemma {:induction false} WeightUpdate(ws: seq<Worker>, w: nat, x: Worker)
    requires w < |ws|
    ensures WeightOf(ws[w := x]) == WeightOf(ws) - Weight(ws[w]) + Weight(x)
  {
    var n := |ws| - 1;
    if w < n {
      WeightUpdate(ws[..n], w, x);
      assert ws[w := x][..n] == ws[..n][w := x];
    } else {
      assert ws[w := x][..n] == ws[..n];
    }
  }

  /** Once stopped, every worker step is progress. */
  lemma WorkDecreases(st: State, step: Step)
    requires !st.running && Enabled(st, step) && WorkerStep(step)
    ensures !Do(st, step).running && Do(st, step).pending == st.pending && Work(Do(st, step)) < Work(st)
  {
    WeightUpdate(st.workers, step.w, Do(st, step).workers[step.w]);
  }

  /** A worker that has not left is never stuck. */
  lemma NeverStuck(st: State, w: nat) returns (step: Step)
    requires !st.running && w < |st.workers| && st.workers[w] != Exited
    ensures WorkerStep(step) && step.w == w && Enabled(st, step)
  {
    step := if st.workers[w].Sending? then SendDone(w) else Collect(w);
  }

  ghost predicate OnlyWorkers(steps: seq<Step>) {
    forall i :: 0 <= i < |steps| ==> WorkerStep(steps[i])
  }

  /** Some worker is left to empty the queue, or it is empty. */
  ghost predicate Served(st: State) {
    AllExited(st) ==> st.queue == []
  }

  lemma {:induction false} WorkersRunDown(a: State, steps: seq<Step>, b: State)
    requires !a.running && Run(a, steps, b) && OnlyWorkers(steps)
    ensures !b.running && b.pending == a.pending && |steps| + Work(b) <= Work(a)
    ensures Served(a) ==> Served(b)
    decreases |steps|
  {
    if steps != [] {
      var c := Do(a, steps[0]);
      WorkDecreases(a, steps[0]);
      if c.workers[steps[0].w] != Exited { assert !AllExited(c); }
      WorkersRunDown(c, steps[1..], b);
    }
  }

  /** After a shutdown that finds a worker and no late producer, the workers stop after at most `Work` steps;
      when none can go on, all have left and every accepted span has been sent. */
  lemma ShutdownDrains(before: seq<Step>, a: State, steps: seq<Step>, b: State)
    requires Run(START, before, a) && Quiet(a) && !AllExited(a)
    requires Run(a, steps, b) && OnlyWorkers(steps)
    ensures |steps| <= Work(a)
    ensures AllExited(b) || exists step :: WorkerStep(step) && Enabled(b, step)
    ensures AllExited(b) ==> b.queue == [] && b.unsent == map[] && b.accepted == Flat(b.batches) == a.accepted
  {
    RunKeepsInv(START, before, a);
    RunKeepsInv(a, steps, b);
    WorkersRunDown(a, steps, b);
    WorkersAcceptNothing(a, steps, b);
    if !AllExited(b) {
      var w :| 0 <= w < |b.workers| && b.workers[w] != Exited;
      var step := NeverStuck(b, w);
    } else {
      UnsentIsQueued(b);
    }
  }

  lemma {:induction false} WorkersAcceptNothing(a: State, steps: seq<Step>, b: State)
    requires Run(a, steps, b) && OnlyWorkers(steps)
    ensures a.accepted == b.accepted
    decreases |steps|
  {
    if steps != [] {
      WorkersAcceptNothing(Do(a, steps[0]), steps[1..], b);
    }
  }

  // ------------------------------------------------- when a shutdown sends everything

  ghost predicate NoInit(steps: seq<Step>) {
    forall i :: 0 <= i < |steps| ==> !steps[i].Init?
  }

  /** However the run goes on, as long as the exporter is not started again: once no worker is left, every span
      ever accepted has been sent. */
  ghost predicate AlwaysSent(a: State) {
    forall steps, b :: Run(a, steps, b) && NoInit(steps) && AllExited(b) ==> b.accepted == Flat(b.batches) && b.unsent == map[]
  }

  /** A stopped exporter that no producer is on its way into keeps being served. */
  lemma {:induction false} QuietStaysServed(a: State, steps: seq<Step>, b: State)
    requires Quiet(a) && Served(a) && Run(a, steps, b) && NoInit(steps)
    ensures Served(b)
    decreases |steps|
  {
    if steps != [] {
      var c := Do(a, steps[0]);
      if WorkerStep(steps[0]) && c.workers[steps[0].w] != Exited { assert !AllExited(c); }
      QuietStaysServed(c, steps[1..], b);
    }
  }

  /** The workers of a stopped exporter can all leave. */
  lemma {:induction false} DriveOut(a: State) returns (steps: seq<Step>, b: State)
    requires !a.running
    ensures Run(a, steps, b) && OnlyWorkers(steps) && AllExited(b)
    decreases Work(a)
  {
    if AllExited(a) {
      steps, b := [], a;
    } else {
      var w :| 0 <= w < |a.workers| && a.workers[w] != Exited;
      var step := NeverStuck(a, w);
      WorkDecreases(a, step);
      var rest;
      rest, b := DriveOut(Do(a, step));
      steps := [step] + rest;
      assert steps[1..] == rest;
    }
  }

  lemma {:induction false} OneMoreStep(a: State, steps: seq<Step>, b: State, step: Step)
    requires Run(a, steps, b) && Enabled(b, step)
    ensures Run(a, steps + [step], Do(b, step))
    decreases |steps|
  {
    if steps == [] {
      assert [step][1..] == [];
    } else {
      OneMoreStep(Do(a, steps[0]), steps[1..], b, step);
      assert (steps + [step])[1..] == steps[1..] + [step];
    }
  }

  /** A producer on its way in can come last. */
  lemma LateSpanIsNotSent(a: State, t: Tid) returns (steps: seq<Step>, b: State)
    requires Inv(a) && !a.running && Served(a) && t in a.pending
    ensures Run(a, steps, b) && NoInit(steps) && AllExited(b)
    ensures b.accepted == Flat(b.batches) + [a.pending[t]]
  {
    var front, c := DriveOut(a);
    WorkersRunDown(a, front, c);
    RunKeepsInv(a, front, c);
    OneMoreStep(a, front, c, Enqueue(t));
    steps, b := front + [Enqueue(t)], Do(c, Enqueue(t));
  }

  /** A stopped exporter sends every accepted span, whatever the interleaving, if and only if no producer is on
      its way in and, should no worker be left, nothing is queued. */
  lemma SentExactlyWithoutLateProducers(before: seq<Step>, a: State)
    requires Run(START, before, a) && !a.running
    ensures AlwaysSent(a) <==> a.pending == map[] && (AllExited(a) ==> a.queue == [])
  {
    RunKeepsInv(START, before, a);
    if Quiet(a) && Served(a) {
      forall steps, b | Run(a, steps, b) && NoInit(steps) && AllExited(b)
        ensures b.accepted == Flat(b.batches) && b.unsent == map[]
      {
        RunKeepsInv(a, steps, b);
        QuietStaysServed(a, steps, b);
        UnsentIsQueued(b);
      }
    } else if !Served(a) {
      UnsentIsQueued(a);
      assert Run(a, [], a);
    } else {
      var t :| t in a.pending;
      var steps, b := LateSpanIsNotSent(a, t);
    }
  }

  /** At a shutdown that finds a worker: if and only if no producer is on its way in. */
  lemma ShutdownSendsAll(before: seq<Step>, a: State)
    requires Run(START, before, a) && !a.running && !AllExited(a)
    ensures AlwaysSent(a) <==> a.pending == map[]
  {
    SentExactlyWithoutLateProducers(before, a);
  }
}
