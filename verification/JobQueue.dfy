/**
 * The job queue: one producer, a pool of workers and one consumer over bounded channels.
 * Jobs may finish in any order; their outputs are consumed in the order of the pushes.
 */
module JobQueue {

  // What the producer is going to call.
  datatype Command<I> = Push(job: I) | Flush

  // A queued job and the number of its one-shot channel; the k-th push uses channel k.
  datatype Job<I> = Job(id: nat, input: I)

  // The content of a one-shot channel: an output, and (as history) the input it came from.
  datatype Output<I, O> = Output(input: I, value: O)

  datatype Completion = Completion(id: nat) | Sync

  datatype ProducerPc = Ready | SendingCompletion(id: nat) | AwaitingSync

  datatype Worker<I> = Idle | Running(job: Job<I>)

  datatype Consumer = Receiving | Waiting(id: nat) | Acknowledging

  datatype State<I, O> = State(
    program: seq<Command<I>>,
    producer: ProducerPc,
    pushed: seq<I>,
    jobs: seq<Job<I>>,
    workers: seq<Worker<I>>,
    slots: map<nat, Output<I, O>>,
    completions: seq<Completion>,
    consumer: Consumer,
    sync: nat,
    consumed: seq<Output<I, O>>
  )

  // One channel operation of one task.
  datatype Action<O> =
    | SendJob | SendCompletion | SendSync | ReceiveSync      // producer
    | TakeJob(worker: nat) | Finish(worker: nat, value: O)   // workers
    | Receive | Consume | Acknowledge                        // consumer

  ghost function Initial<I, O>(workers: nat, program: seq<Command<I>>): State<I, O> {
    State(program, Ready, [], [], seq(workers, _ => Idle), map[], [], Receiving, 0, [])
  }

  // The channels hold `num_workers` jobs, `2 * num_workers + 1` completions and one acknowledgement.
  ghost predicate Enabled<I, O>(s: State<I, O>, a: Action<O>) {
    match a
    case SendJob => s.producer == Ready && s.program != [] && s.program[0].Push? && |s.jobs| < |s.workers|
    case SendCompletion => s.producer.SendingCompletion? && |s.completions| < 2 * |s.workers| + 1
    case SendSync =>
      s.producer == Ready && s.program != [] && s.program[0].Flush? && |s.completions| < 2 * |s.workers| + 1
    case ReceiveSync => s.producer == AwaitingSync && s.sync > 0
    case TakeJob(w) => w < |s.workers| && s.workers[w].Idle? && s.jobs != []
    case Finish(w, _) => w < |s.workers| && s.workers[w].Running?
    case Receive => s.consumer == Receiving && s.completions != []
    case Consume => s.consumer.Waiting? && s.consumer.id in s.slots
    case Acknowledge => s.consumer == Acknowledging && s.sync < 1
  }

  ghost function Next<I, O>(s: State<I, O>, a: Action<O>): State<I, O>
    requires Enabled(s, a)
  {
    match a
    case SendJob =>
      s.(program := s.program[1..], producer := SendingCompletion(|s.pushed|), pushed := s.pushed + [s.program[0].job],
         jobs := s.jobs + [Job(|s.pushed|, s.program[0].job)])
    case SendCompletion =>
      s.(producer := Ready, completions := s.completions + [Completion(s.producer.id)])
    case SendSync =>
      s.(program := s.program[1..], producer := AwaitingSync, completions := s.completions + [Sync])
    case ReceiveSync => s.(producer := Ready, sync := s.sync - 1)
    case TakeJob(w) => s.(jobs := s.jobs[1..], workers := s.workers[w := Running(s.jobs[0])])
    case Finish(w, v) =>
      var job := s.workers[w].job;
      s.(workers := s.workers[w := Idle], slots := s.slots[job.id := Output(job.input, v)])
    case Receive =>
      s.(completions := s.completions[1..],
         consumer := if s.completions[0].Sync? then Acknowledging else Waiting(s.completions[0].id))
    case Consume => s.(consumer := Receiving, consumed := s.consumed + [s.slots[s.consumer.id]])
    case Acknowledge => s.(consumer := Receiving, sync := s.sync + 1)
  }

  ghost predicate Runs<I, O>(s: State<I, O>, run: seq<Action<O>>)
    decreases |run|
  {
    |run| == 0 || (Enabled(s, run[0]) && Runs(Next(s, run[0]), run[1..]))
  }

  ghost function After<I, O>(s: State<I, O>, run: seq<Action<O>>): State<I, O>
    requires Runs(s, run)
    decreases |run|
  {
    if |run| == 0 then s else After(Next(s, run[0]), run[1..])
  }

  // ---- The invariant ----

  // The jobs in the queue are the last ones pushed; started jobs come before them.
  ghost function Started<I, O>(s: State<I, O>): int { |s.pushed| - |s.jobs| }

  // Completions announced to the consumer, and the next one it will see.
  ghost function Announced<I, O>(s: State<I, O>): int {
    |s.pushed| - if s.producer.SendingCompletion? then 1 else 0
  }

  ghost function Upcoming<I, O>(s: State<I, O>): int {
    |s.consumed| + if s.consumer.Waiting? then 1 else 0
  }

  ghost predicate JobsInv<I, O>(s: State<I, O>) {
    && 0 <= Started(s) && |s.jobs| <= |s.workers|
    && forall i :: 0 <= i < |s.jobs| ==> s.jobs[i] == Job(Started(s) + i, s.pushed[Started(s) + i])
  }

  ghost predicate WorkersInv<I, O>(s: State<I, O>) {
    && (forall w :: 0 <= w < |s.workers| && s.workers[w].Running? ==>
          var job := s.workers[w].job;
          job.id < Started(s) && job.id < |s.pushed| && job.input == s.pushed[job.id] && job.id !in s.slots)
    && (forall v, w :: 0 <= v < w < |s.workers| && s.workers[v].Running? && s.workers[w].Running? ==>
          s.workers[v].job.id != s.workers[w].job.id)
  }

  ghost predicate OnWorker<I>(workers: seq<Worker<I>>, id: nat) {
    exists w :: 0 <= w < |workers| && workers[w].Running? && workers[w].job.id == id
  }

  // Every started job is with a worker or has its output in its slot.
  ghost predicate SlotsInv<I, O>(s: State<I, O>) {
    && (forall id :: id in s.slots ==> id < Started(s) <= |s.pushed| && s.slots[id].input == s.pushed[id])
    && (forall id: nat :: id < Started(s) ==> id in s.slots || OnWorker(s.workers, id))
  }

  ghost predicate SyncPending<I, O>(s: State<I, O>) {
    s.producer == AwaitingSync && s.consumer != Acknowledging && s.sync == 0
  }

  // The completions channel holds the announced jobs not yet seen, in order, and a Sync last.
  ghost predicate CompletionsInv<I, O>(s: State<I, O>) {
    && Upcoming(s) <= Announced(s)
    && (s.producer.SendingCompletion? ==> s.producer.id == Announced(s))
    && |s.completions| == Announced(s) - Upcoming(s) + (if SyncPending(s) then 1 else 0) <= 2 * |s.workers| + 1
    && (forall i :: 0 <= i < Announced(s) - Upcoming(s) ==> s.completions[i] == Completion(Upcoming(s) + i))
    && (SyncPending(s) ==> s.completions[|s.completions| - 1] == Sync)
  }

  ghost predicate ConsumerInv<I, O>(s: State<I, O>) {
    && (s.consumer.Waiting? ==> s.consumer.id == |s.consumed|)
    && (s.producer != AwaitingSync ==> s.consumer != Acknowledging && s.sync == 0)
    && (s.producer == AwaitingSync && !SyncPending(s) ==>
          |s.consumed| == |s.pushed| && !s.consumer.Waiting? && (s.sync == 1 <==> s.consumer != Acknowledging))
    && s.sync <= 1
    && |s.consumed| <= |s.pushed|
    && (forall i :: 0 <= i < |s.consumed| ==> i in s.slots && s.consumed[i] == s.slots[i])
  }

  ghost predicate Inv<I, O>(s: State<I, O>) {
    && |s.workers| >= 1
    && JobsInv(s) && WorkersInv(s) && SlotsInv(s) && CompletionsInv(s) && ConsumerInv(s)
  }

  lemma InitialInv<I, O>(workers: nat, program: seq<Command<I>>)
    requires workers >= 1
    ensures Inv<I, O>(Initial(workers, program))
  {
  }

  lemma OnWorkerUpdate<I>(workers: seq<Worker<I>>, w: nat, x: Worker<I>, id: nat)
    requires w < |workers| && OnWorker(workers, id)
    requires !(workers[w].Running? && workers[w].job.id == id)
    ensures OnWorker(workers[w := x], id)
  {
    var v :| 0 <= v < |workers| && workers[v].Running? && workers[v].job.id == id;
    assert workers[w := x][v] == workers[v];
  }

  lemma PushStep<I, O>(s: State<I, O>, a: Action<O>)
    requires Inv(s) && Enabled(s, a) && (a.SendJob? || a.SendCompletion?)
    ensures Inv(Next(s, a))
  {
  }

  lemma SyncStep<I, O>(s: State<I, O>, a: Action<O>)
    requires Inv(s) && Enabled(s, a) && (a.SendSync? || a.ReceiveSync?)
    ensures Inv(Next(s, a))
  {
  }

  lemma TakeJobStep<I, O>(s: State<I, O>, a: Action<O>)
    requires Inv(s) && Enabled(s, a) && a.TakeJob?
    ensures Inv(Next(s, a))
  {
    var s' := Next(s, a);
    var job := s.jobs[0];
    assert s'.workers[a.worker] == Running(job) && job.id == Started(s);
    forall id: nat | id < Started(s') ensures id in s'.slots || OnWorker(s'.workers, id) {
      if id != job.id && id !in s.slots {
        OnWorkerUpdate(s.workers, a.worker, Running(job), id);
      }
    }
  }

  lemma FinishStep<I, O>(s: State<I, O>, a: Action<O>)
    requires Inv(s) && Enabled(s, a) && a.Finish?
    ensures Inv(Next(s, a))
  {
    var s' := Next(s, a);
    forall id: nat | id < Started(s') ensures id in s'.slots || OnWorker(s'.workers, id) {
      if id !in s'.slots {
        OnWorkerUpdate(s.workers, a.worker, Idle, id);
      }
    }
  }

  lemma ReceiveStep<I, O>(s: State<I, O>, a: Action<O>)
    requires Inv(s) && Enabled(s, a) && a.Receive?
    ensures Inv(Next(s, a))
  {
    var s' := Next(s, a);
    assert CompletionsInv(s') && ConsumerInv(s');
  }

  lemma ConsumeStep<I, O>(s: State<I, O>, a: Action<O>)
    requires Inv(s) && Enabled(s, a) && a.Consume?
    ensures Inv(Next(s, a))
  {
  }

  lemma AcknowledgeStep<I, O>(s: State<I, O>, a: Action<O>)
    requires Inv(s) && Enabled(s, a) && a.Acknowledge?
    ensures Inv(Next(s, a))
  {
  }

  lemma StepInv<I, O>(s: State<I, O>, a: Action<O>)
    requires Inv(s) && Enabled(s, a)
    ensures Inv(Next(s, a))
  {
    match a
    case TakeJob(_) => TakeJobStep(s, a);
    case Finish(_, _) => FinishStep(s, a);
    case SendJob => PushStep(s, a);
    case SendCompletion => PushStep(s, a);
    case SendSync => SyncStep(s, a);
    case ReceiveSync => SyncStep(s, a);
    case Receive => ReceiveStep(s, a);
    case Consume => ConsumeStep(s, a);
    case Acknowledge => AcknowledgeStep(s, a);
  }

  lemma {:induction false} RunInv<I, O>(s: State<I, O>, run: seq<Action<O>>)
    requires Inv(s) && Runs(s, run)
    ensures Inv(After(s, run))
    decreases |run|
  {
    if |run| > 0 {
      StepInv(s, run[0]);
      RunInv(Next(s, run[0]), run[1..]);
    }
  }

  ghost predicate Reachable<I, O>(workers: nat, program: seq<Command<I>>, run: seq<Action<O>>) {
    workers >= 1 && Runs(Initial<I, O>(workers, program), run)
  }

  lemma ReachableInv<I, O>(workers: nat, program: seq<Command<I>>, run: seq<Action<O>>)
    requires Reachable(workers, program, run)
    ensures Inv(After(Initial<I, O>(workers, program), run))
  {
    InitialInv<I, O>(workers, program);
    RunInv(Initial(workers, program), run);
  }

  // ---- Order, barrier, bound ----

  // In every interleaving the outputs consumed so far are those of the first jobs pushed: the
  // k-th one was computed, by some worker, from the input of the k-th push.
  lemma ConsumedInPushOrder<I, O>(workers: nat, program: seq<Command<I>>, run: seq<Action<O>>)
    requires Reachable(workers, program, run)
    ensures var s := After(Initial<I, O>(workers, program), run);
            && |s.consumed| <= |s.pushed|
            && forall k :: 0 <= k < |s.consumed| ==>
                 s.consumed[k].input == s.pushed[k] && k in s.slots && s.consumed[k] == s.slots[k]
  {
    ReachableInv(workers, program, run);
  }

  // When `flush` returns, every job pushed before it has been consumed.
  lemma FlushIsABarrier<I, O>(workers: nat, program: seq<Command<I>>, run: seq<Action<O>>)
    requires Reachable(workers, program, run)
    requires Enabled(After(Initial<I, O>(workers, program), run), ReceiveSync)
    ensures var s := After(Initial<I, O>(workers, program), run);
            |s.consumed| == |s.pushed| && s.completions == [] && s.jobs == []
            && forall w :: 0 <= w < |s.workers| ==> s.workers[w].Idle?
  {
    ReachableInv(workers, program, run);
    var s := After(Initial<I, O>(workers, program), run);
    assert |s.consumed| == |s.pushed|;
    assert forall id: nat :: id < |s.pushed| ==> id in s.slots;
    assert Started(s) !in s.slots;
  }

  lemma BoundedBacklog<I, O>(workers: nat, program: seq<Command<I>>, run: seq<Action<O>>)
    requires Reachable(workers, program, run)
    ensures var s := After(Initial<I, O>(workers, program), run);
            |s.pushed| - |s.consumed| <= 2 * workers + 3
  {
    ReachableInv(workers, program, run);
    WorkersConstant(Initial<I, O>(workers, program), run);
  }

  lemma {:induction false} WorkersConstant<I, O>(s: State<I, O>, run: seq<Action<O>>)
    requires Runs(s, run)
    ensures |After(s, run).workers| == |s.workers|
    decreases |run|
  {
    if |run| > 0 { WorkersConstant(Next(s, run[0]), run[1..]); }
  }

  lemma {:induction false} OneMore<I, O>(s: State<I, O>, run: seq<Action<O>>, a: Action<O>)
    requires Runs(s, run) && Enabled(After(s, run), a)
    ensures Runs(s, run + [a]) && After(s, run + [a]) == Next(After(s, run), a)
    decreases |run|
  {
    if |run| == 0 {
      assert run + [a] == [a] && [a][1..] == [];
    } else {
      assert (run + [a])[1..] == run[1..] + [a];
      OneMore(Next(s, run[0]), run[1..], a);
    }
  }

  // k jobs are pushed, done and announced, of which the consumer has received the first.
  ghost predicate Filled<I, O>(s: State<I, O>, k: nat, workers: nat) {
    && s.producer == Ready && |s.pushed| == k && |s.jobs| == 0 && |s.consumed| == 0
    && |s.workers| == workers && workers > 0 && s.workers[0].Idle?
    && s.consumer.Waiting? && |s.completions| == k - 1
    && forall i :: 0 <= i < |s.program| ==> s.program[i].Push?
  }

  // A run fills the channel with k of the jobs of the program.
  ghost predicate Fills<I, O>(workers: nat, program: seq<Command<I>>, run: seq<Action<O>>, k: nat) {
    var s := Initial<I, O>(workers, program);
    Runs(s, run) && Filled(After(s, run), k, workers) && |After(s, run).program| == |program| - k
  }

  // One more job is pushed and done, and can be announced while the channel has room.
  lemma OneMoreJob<I, O>(workers: nat, program: seq<Command<I>>, run: seq<Action<O>>, v: O, k: nat)
    returns (more: seq<Action<O>>)
    requires Fills(workers, program, run, k) && k < |program| && k <= 2 * workers + 1
    ensures Fills(workers, program, more, k + 1)
  {
    var s := Initial<I, O>(workers, program);
    hide Runs, After;
    more := run;
    OneMore(s, more, SendJob);
    more := more + [SendJob];
    OneMore(s, more, TakeJob(0));
    more := more + [TakeJob(0)];
    OneMore(s, more, Finish(0, v));
    more := more + [Finish(0, v)];
    OneMore(s, more, SendCompletion);
    more := more + [SendCompletion];
  }

  lemma FirstJob<I, O>(workers: nat, program: seq<Command<I>>, v: O) returns (run: seq<Action<O>>)
    requires workers >= 1 && |program| > 0 && forall i :: 0 <= i < |program| ==> program[i].Push?
    ensures Fills(workers, program, run, 1)
  {
    var s := Initial<I, O>(workers, program);
    run := [];
    assert Runs(s, run) && After(s, run) == s;
    hide Runs, After;
    OneMore(s, run, SendJob);
    run := run + [SendJob];
    OneMore(s, run, TakeJob(0));
    run := run + [TakeJob(0)];
    OneMore(s, run, Finish(0, v));
    run := run + [Finish(0, v)];
    OneMore(s, run, SendCompletion);
    run := run + [SendCompletion];
    OneMore(s, run, Receive);
    run := run + [Receive];
  }

  lemma {:induction false} Fill<I, O>(workers: nat, program: seq<Command<I>>, v: O, k: nat)
    returns (run: seq<Action<O>>)
    requires workers >= 1 && 1 <= k <= 2 * workers + 2 && k < |program|
    requires forall i :: 0 <= i < |program| ==> program[i].Push?
    ensures Fills(workers, program, run, k)
    decreases k
  {
    if k == 1 {
      run := FirstJob(workers, program, v);
    } else {
      run := Fill(workers, program, v, k - 1);
      hide Fills;
      run := OneMoreJob(workers, program, run, v, k - 1);
    }
  }

  // The bound is reached: the consumer has taken the first completion and not yet its output, the
  // channel is full, and the producer waits to announce one more job.
  lemma BacklogIsReached<I, O>(workers: nat, x: I, v: O) returns (program: seq<Command<I>>, run: seq<Action<O>>)
    requires workers >= 1
    ensures Reachable(workers, program, run)
    ensures var s := After(Initial<I, O>(workers, program), run);
            |s.pushed| - |s.consumed| == 2 * workers + 3
  {
    program := seq(2 * workers + 3, _ => Push(x));
    var s := Initial<I, O>(workers, program);
    run := Fill(workers, program, v, 2 * workers + 2);
    OneMore(s, run, SendJob);
    run := run + [SendJob];
  }

  // Somebody still holds the receiving end of channel `id`.
  ghost predicate ReceiverAlive<I, O>(s: State<I, O>, id: nat) {
    || s.producer == SendingCompletion(id)
    || Completion(id) in s.completions
    || s.consumer == Waiting(id)
  }

  // A worker's result is never refused, so no worker leaves its loop.
  lemma WorkersNeverStop<I, O>(workers: nat, program: seq<Command<I>>, run: seq<Action<O>>, w: nat)
    requires Reachable(workers, program, run)
    requires w < |After(Initial<I, O>(workers, program), run).workers|
    requires After(Initial<I, O>(workers, program), run).workers[w].Running?
    ensures var s := After(Initial<I, O>(workers, program), run); ReceiverAlive(s, s.workers[w].job.id)
  {
    ReachableInv(workers, program, run);
    var s := After(Initial<I, O>(workers, program), run);
    var id := s.workers[w].job.id;
    assert id >= |s.consumed|;
    if id >= Upcoming(s) && id < Announced(s) {
      assert s.completions[id - Upcoming(s)] == Completion(id);
    }
  }

  // ---- Progress ----

  // Everything called, everything pushed and consumed, all channels empty.
  ghost predicate Final<I, O>(s: State<I, O>) {
    && s.program == [] && s.producer == Ready
    && s.jobs == [] && s.completions == [] && s.consumer == Receiving
    && (forall w :: 0 <= w < |s.workers| ==> s.workers[w].Idle?)
    && |s.consumed| == |s.pushed|
  }

  // An action that is enabled in a state that is not final; `o` stands for a worker's output.
  ghost function SomeAction<I, O>(s: State<I, O>, o: O): Action<O>
  {
    if w :| 0 <= w < |s.workers| && s.workers[w].Running? then Finish(w, o)
    else if |s.jobs| > 0 then TakeJob(0)
    else if s.consumer.Waiting? then Consume
    else if s.consumer == Acknowledging then Acknowledge
    else if |s.completions| > 0 then Receive
    else match s.producer
      case SendingCompletion(_) => SendCompletion
      case AwaitingSync => ReceiveSync
      case Ready => if s.program != [] && s.program[0].Flush? then SendSync else SendJob
  }

  lemma Progress<I, O>(s: State<I, O>, o: O)
    requires Inv(s)
    ensures Final(s) || Enabled(s, SomeAction(s, o))
  {
    if forall w :: 0 <= w < |s.workers| ==> !s.workers[w].Running? {
      forall id: nat | id < Started(s) ensures id in s.slots {
        assert !OnWorker(s.workers, id);
      }
    }
  }

  // No reachable state is a deadlock.
  lemma DeadlockFree<I, O>(workers: nat, program: seq<Command<I>>, run: seq<Action<O>>, o: O)
    requires Reachable(workers, program, run)
    ensures var s := After(Initial<I, O>(workers, program), run);
            !Final(s) ==> exists a :: Enabled(s, a)
  {
    ReachableInv(workers, program, run);
    Progress(After(Initial<I, O>(workers, program), run), o);
  }

  // ---- Termination ----

  // Channel operations still to come: six for a push, four for a flush.
  ghost function ProgramWork<I>(program: seq<Command<I>>): nat {
    if |program| == 0 then 0 else (if program[0].Push? then 6 else 4) + ProgramWork(program[1..])
  }

  ghost function Busy<I>(workers: seq<Worker<I>>): nat {
    if |workers| == 0 then 0 else (if workers[0].Running? then 1 else 0) + Busy(workers[1..])
  }

  ghost function Work<I, O>(s: State<I, O>): nat {
    ProgramWork(s.program)
    + (match s.producer case Ready => 0 case SendingCompletion(_) => 3 case AwaitingSync => 1)
    + 2 * |s.jobs| + Busy(s.workers) + 2 * |s.completions|
    + (if s.consumer == Receiving then 0 else 1)
  }

  lemma {:induction false} BusyUpdate<I>(workers: seq<Worker<I>>, w: nat, x: Worker<I>)
    requires w < |workers|
    ensures Busy(workers[w := x]) + (if workers[w].Running? then 1 else 0)
         == Busy(workers) + (if x.Running? then 1 else 0)
  {
    if w == 0 {
      assert workers[w := x][1..] == workers[1..];
    } else {
      BusyUpdate(workers[1..], w - 1, x);
      assert workers[w := x][1..] == workers[1..][w - 1 := x];
    }
  }

  lemma StepWork<I, O>(s: State<I, O>, a: Action<O>)
    requires Enabled(s, a)
    ensures Work(Next(s, a)) == Work(s) - 1
  {
    if a.TakeJob? { BusyUpdate(s.workers, a.worker, Running(s.jobs[0])); }
    if a.Finish? { BusyUpdate(s.workers, a.worker, Idle); }
  }

  lemma {:induction false} RunWork<I, O>(s: State<I, O>, run: seq<Action<O>>)
    requires Runs(s, run)
    ensures |run| + Work(After(s, run)) == Work(s)
    decreases |run|
  {
    if |run| > 0 {
      StepWork(s, run[0]);
      RunWork(Next(s, run[0]), run[1..]);
    }
  }

  // The jobs a program pushes, in order.
  ghost function Jobs<I>(program: seq<Command<I>>): seq<I> {
    if |program| == 0 then [] else (if program[0].Push? then [program[0].job] else []) + Jobs(program[1..])
  }

  lemma {:induction false} RunPushes<I, O>(s: State<I, O>, run: seq<Action<O>>)
    requires Runs(s, run)
    ensures After(s, run).pushed + Jobs(After(s, run).program) == s.pushed + Jobs(s.program)
    decreases |run|
  {
    if |run| > 0 { RunPushes(Next(s, run[0]), run[1..]); }
  }

  lemma {:induction false} NoneBusy<I>(workers: seq<Worker<I>>)
    requires forall w :: 0 <= w < |workers| ==> workers[w].Idle?
    ensures Busy(workers) == 0
  {
    if |workers| > 0 { NoneBusy(workers[1..]); }
  }

  // Every run ends: no run is longer than six operations a push and four a flush, a run of
  // exactly that length has consumed the output of every job of the program in order, and a
  // shorter one can be continued.
  lemma EveryRunEnds<I, O>(workers: nat, program: seq<Command<I>>, run: seq<Action<O>>, o: O)
    requires Reachable(workers, program, run)
    ensures |run| <= ProgramWork(program)
    ensures |run| == ProgramWork(program) <==> Final(After(Initial<I, O>(workers, program), run))
    ensures var s := After(Initial<I, O>(workers, program), run);
            Final(s) ==> |s.consumed| == |Jobs(program)|
                         && forall k :: 0 <= k < |s.consumed| ==> s.consumed[k].input == Jobs(program)[k]
    ensures |run| < ProgramWork(program) ==> exists a :: Enabled(After(Initial<I, O>(workers, program), run), a)
  {
    var s0 := Initial<I, O>(workers, program);
    NoneBusy(s0.workers);
    RunWork(s0, run);
    RunPushes(s0, run);
    var s := After(s0, run);
    ReachableInv(workers, program, run);
    Progress(s, o);
    if Final(s) {
      NoneBusy(s.workers);
      assert s.pushed == s.pushed + Jobs<I>([]) == [] + Jobs(program) == Jobs(program);
    } else {
      StepWork(s, SomeAction(s, o));
    }
  }

  // ---- The results ----

  // In the run every worker finishes a job with what f makes of its input.
  ghost predicate Works<I, O>(s: State<I, O>, run: seq<Action<O>>, f: I -> O)
    requires Runs(s, run)
    decreases |run|
  {
    |run| > 0 ==>
      && (run[0].Finish? ==> run[0].value == f(s.workers[run[0].worker].job.input))
      && Works(Next(s, run[0]), run[1..], f)
  }

  ghost predicate Computed<I, O>(s: State<I, O>, f: I -> O) {
    && (forall id :: id in s.slots ==> s.slots[id].value == f(s.slots[id].input))
    && forall k :: 0 <= k < |s.consumed| ==> s.consumed[k].value == f(s.consumed[k].input)
  }

  lemma {:induction false} RunComputes<I, O>(s: State<I, O>, run: seq<Action<O>>, f: I -> O)
    requires Runs(s, run) && Works(s, run, f) && Computed(s, f)
    ensures Computed(After(s, run), f)
    decreases |run|
  {
    if |run| > 0 { RunComputes(Next(s, run[0]), run[1..], f); }
  }

  // The consumer gets the results of the jobs: the k-th value is what f makes of the input of the
  // k-th push, and in the end there is one for every job of the program.
  lemma ConsumedAreResults<I, O>(workers: nat, program: seq<Command<I>>, run: seq<Action<O>>, f: I -> O, o: O)
    requires Reachable(workers, program, run) && Works(Initial<I, O>(workers, program), run, f)
    ensures var s := After(Initial<I, O>(workers, program), run);
            && |s.consumed| <= |s.pushed|
            && (forall k :: 0 <= k < |s.consumed| ==> s.consumed[k].value == f(s.pushed[k]))
            && (Final(s) ==>
                  && |s.consumed| == |Jobs(program)|
                  && forall k :: 0 <= k < |s.consumed| ==> s.consumed[k].value == f(Jobs(program)[k]))
  {
    var s := After(Initial<I, O>(workers, program), run);
    RunComputes(Initial<I, O>(workers, program), run, f);
    ConsumedInPushOrder(workers, program, run);
    EveryRunEnds(workers, program, run, o);
    hide Reachable, Runs, After, Works, Jobs, ProgramWork;
    assert forall k :: 0 <= k < |s.consumed| ==> s.consumed[k].value == f(s.consumed[k].input);
  }
}
