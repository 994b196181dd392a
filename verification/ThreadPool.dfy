/** Running a set of named tasks on a thread pool and collecting their results. */
module ThreadPool {

  // Task names are only compared for equality.
  type Name = nat

  // A task is a name and what its closure is going to return.
  datatype Outcome<E> = Succeed | Fail(error: E)

  datatype Task<E> = Task(name: Name, outcome: Outcome<E>)

  // Where a submitted task is: in the pool's queue, on a thread (claimed, then running, then
  // about to send its result), in the channel, received, or cancelled (never run nor reported).
  datatype Status = Queued | Claimed | Running | Sending | Sent | Received | Cancelled

  datatype Collector<E> = Collecting | Returned(result: Outcome<E>) | Panicked

  // |status| tasks have been submitted; the first `taken` of them have left the pool's queue.
  datatype State<E> = State(
    status: seq<Status>,
    taken: nat,
    cancel: bool,
    channel: seq<nat>,
    names: seq<Name>,
    collector: Collector<E>
  )

  // One step of the submitting loop, of the thread that has a task, or of the collector.
  datatype Action = Submit | Claim | LoadCancel(task: nat) | RunTask(task: nat) | Send(task: nat) | Receive | Join

  ghost function Initial<E>(): State<E> { State([], 0, false, [], [], Collecting) }

  ghost predicate OnThread(st: Status) { st == Claimed || st == Running || st == Sending }

  // Threads in use.
  ghost function Busy(status: seq<Status>): nat {
    if |status| == 0 then 0 else Busy(status[..|status| - 1]) + if OnThread(status[|status| - 1]) then 1 else 0
  }

  ghost predicate At<E>(tasks: seq<Task<E>>, s: State<E>, i: nat, stage: Status) {
    i < |s.status| <= |tasks| && s.status[i] == stage
  }

  // The collector is in its loop once everything is submitted, until no name is left.
  ghost predicate Enabled<E>(threads: nat, tasks: seq<Task<E>>, s: State<E>, a: Action) {
    match a
    case Submit => s.collector == Collecting && |s.status| < |tasks|
    case Claim => s.taken < |s.status| && Busy(s.status) < threads
    case LoadCancel(i) => At(tasks, s, i, Claimed)
    case RunTask(i) => At(tasks, s, i, Running)
    case Send(i) => At(tasks, s, i, Sending)
    case Receive => s.collector == Collecting && |s.status| == |tasks| && s.names != []
                    && s.channel != [] && s.channel[0] < |s.status|
    case Join => s.collector == Collecting && |s.status| == |tasks| && s.names == []
                 && s.taken == |s.status| && Busy(s.status) == 0
  }

  // The first position of a name, as `position` finds it; |names| when it is not there.
  function Position(names: seq<Name>, name: Name): (p: nat)
    ensures p <= |names| && name !in names[..p]
    ensures p < |names| ==> names[p] == name
    ensures name in names ==> p < |names|
  {
    if |names| == 0 then 0
    else if names[0] == name then 0
    else 1 + Position(names[1..], name)
  }

  // `swap_remove`: the last element takes the place of the removed one.
  function SwapRemove(names: seq<Name>, p: nat): (r: seq<Name>)
    requires p < |names|
    ensures multiset(r) == multiset(names) - multiset{names[p]}
  {
    var n := |names| - 1;
    assert names == names[..n] + [names[n]];
    if p == n then names[..n]
    else
      assert names[..n] == names[..p] + [names[p]] + names[p + 1..n];
      assert names[..n][p := names[n]] == names[..p] + [names[n]] + names[p + 1..n];
      names[..n][p := names[n]]
  }

  // The collector handles the result of task i: an error is returned at once, a success takes
  // its name off the list, and a name that is not on the list fails the `unwrap`.
  ghost function Collect<E>(tasks: seq<Task<E>>, s: State<E>, i: nat): State<E>
    requires i < |tasks|
  {
    if tasks[i].outcome.Fail? then s.(collector := Returned(tasks[i].outcome))
    else
      var p := Position(s.names, tasks[i].name);
      if p < |s.names| then s.(names := SwapRemove(s.names, p)) else s.(collector := Panicked)
  }

  ghost function Next<E>(threads: nat, tasks: seq<Task<E>>, s: State<E>, a: Action): State<E>
    requires Enabled(threads, tasks, s, a)
  {
    match a
    case Submit => s.(status := s.status + [Queued], names := s.names + [tasks[|s.status|].name])
    case Claim => s.(status := s.status[s.taken := Claimed], taken := s.taken + 1)
    case LoadCancel(i) => s.(status := s.status[i := if s.cancel then Cancelled else Running])
    case RunTask(i) => s.(status := s.status[i := Sending], cancel := s.cancel || tasks[i].outcome.Fail?)
    case Send(i) => s.(status := s.status[i := Sent], channel := s.channel + [i])
    case Receive =>
      var i := s.channel[0];
      Collect(tasks, s.(channel := s.channel[1..], status := s.status[i := Received]), i)
    case Join => s.(collector := Returned(Succeed))
  }

  // ---- The invariant ----

  // How many submitted tasks of this name have not had their result received.
  ghost function Outstanding<E>(tasks: seq<Task<E>>, status: seq<Status>, name: Name): nat
    requires |status| <= |tasks|
  {
    if |status| == 0 then 0
    else
      var n := |status| - 1;
      Outstanding(tasks, status[..n], name) + if status[n] != Received && tasks[n].name == name then 1 else 0
  }

  lemma {:induction false} OutstandingUpdate<E>(tasks: seq<Task<E>>, status: seq<Status>, i: nat, x: Status, name: Name)
    requires i < |status| <= |tasks| && status[i] != Received
    ensures Outstanding(tasks, status, name)
         == Outstanding(tasks, status[i := x], name) + if x == Received && tasks[i].name == name then 1 else 0
    decreases |status|
  {
    var n := |status| - 1;
    if i == n {
      assert status[i := x][..n] == status[..n];
    } else {
      OutstandingUpdate(tasks, status[..n], i, x, name);
      assert status[i := x][..n] == status[..n][i := x];
    }
  }

  // The first `taken` tasks have left the queue, and the channel holds each sent result once.
  ghost predicate PlacesInv(status: seq<Status>, taken: nat, channel: seq<nat>) {
    && taken <= |status|
    && (forall i :: 0 <= i < |status| ==> (status[i] == Queued <==> i >= taken))
    && (forall a :: 0 <= a < |channel| ==> channel[a] < |status| && status[channel[a]] == Sent)
    && (forall a, b :: 0 <= a < b < |channel| ==> channel[a] != channel[b])
    && (forall i :: 0 <= i < |status| && status[i] == Sent ==> i in channel)
  }

  // `names` lists exactly the submitted tasks whose result has not been received.
  ghost predicate NamesInv<E>(tasks: seq<Task<E>>, status: seq<Status>, names: seq<Name>)
    requires |status| <= |tasks|
  {
    forall name :: multiset(names)[name] == Outstanding(tasks, status, name)
  }

  ghost predicate Failing<E>(tasks: seq<Task<E>>, status: seq<Status>, i: int) {
    && 0 <= i < |status| <= |tasks| && tasks[i].outcome.Fail?
    && (status[i] == Sending || status[i] == Sent)
  }

  // While the collector is at work, the cancel flag means that an error is on its way to it,
  // and only tasks that succeeded have been received.
  ghost predicate CancelInv<E>(tasks: seq<Task<E>>, status: seq<Status>, cancel: bool)
    requires |status| <= |tasks|
  {
    && (cancel ==> exists i :: Failing(tasks, status, i))
    && (forall i :: Failing(tasks, status, i) ==> cancel)
    && (forall i :: 0 <= i < |status| && status[i] == Received ==> tasks[i].outcome == Succeed)
    && (forall i :: 0 <= i < |status| && status[i] == Cancelled ==> cancel)
  }

  // After Ok every task was received and succeeded; after an error a task was received that
  // failed with it, and the rest is cancelled.
  ghost predicate ReturnInv<E>(tasks: seq<Task<E>>, status: seq<Status>, cancel: bool, result: Outcome<E>) {
    match result
    case Succeed =>
      |status| == |tasks| && forall i :: 0 <= i < |tasks| ==> status[i] == Received && tasks[i].outcome == Succeed
    case Fail(e) =>
      cancel && exists i :: 0 <= i < |status| <= |tasks| && status[i] == Received && tasks[i].outcome == Fail(e)
  }

  ghost predicate CollectorInv<E>(tasks: seq<Task<E>>, s: State<E>)
    requires |s.status| <= |tasks|
  {
    match s.collector
    case Collecting => NamesInv(tasks, s.status, s.names) && CancelInv(tasks, s.status, s.cancel)
    case Returned(result) => ReturnInv(tasks, s.status, s.cancel, result)
    case Panicked => false
  }

  ghost predicate Inv<E>(tasks: seq<Task<E>>, s: State<E>) {
    |s.status| <= |tasks| && PlacesInv(s.status, s.taken, s.channel) && CollectorInv(tasks, s)
  }

  // ---- A task moves on a thread, and is not received ----

  lemma MovePlaces(status: seq<Status>, taken: nat, channel: seq<nat>, i: nat, x: Status)
    requires PlacesInv(status, taken, channel) && i < |status|
    requires status[i] != Queued && status[i] != Sent && x != Queued && x != Sent
    ensures PlacesInv(status[i := x], taken, channel)
  {
  }

  lemma ClaimPlaces(status: seq<Status>, taken: nat, channel: seq<nat>)
    requires PlacesInv(status, taken, channel) && taken < |status|
    ensures status[taken] == Queued && PlacesInv(status[taken := Claimed], taken + 1, channel)
  {
  }

  lemma SendPlaces(status: seq<Status>, taken: nat, channel: seq<nat>, i: nat)
    requires PlacesInv(status, taken, channel) && i < |status| && status[i] == Sending
    ensures PlacesInv(status[i := Sent], taken, channel + [i])
  {
    assert (channel + [i])[|channel|] == i;
  }

  lemma MoveNames<E>(tasks: seq<Task<E>>, status: seq<Status>, names: seq<Name>, i: nat, x: Status)
    requires i < |status| <= |tasks| && status[i] != Received && x != Received && NamesInv(tasks, status, names)
    ensures NamesInv(tasks, status[i := x], names)
  {
    forall name ensures Outstanding(tasks, status[i := x], name) == Outstanding(tasks, status, name) {
      OutstandingUpdate(tasks, status, i, x, name);
    }
  }

  ghost predicate Reporting(st: Status) { st == Sending || st == Sent }

  // Moves that leave the flag alone.
  lemma MoveCancel<E>(tasks: seq<Task<E>>, status: seq<Status>, cancel: bool, i: nat, x: Status)
    requires i < |status| <= |tasks| && CancelInv(tasks, status, cancel)
    requires Reporting(status[i]) == Reporting(x) && x != Received && (x == Cancelled ==> cancel)
    ensures CancelInv(tasks, status[i := x], cancel)
  {
    var status' := status[i := x];
    if cancel {
      var j :| Failing(tasks, status, j);
      assert Failing(tasks, status', j);
    }
    assert forall j :: Failing(tasks, status', j) ==> Failing(tasks, status, j);
  }

  // The task returns, and sets the flag if it failed.
  lemma RunCancel<E>(tasks: seq<Task<E>>, status: seq<Status>, cancel: bool, i: nat)
    requires i < |status| <= |tasks| && CancelInv(tasks, status, cancel) && status[i] == Running
    ensures CancelInv(tasks, status[i := Sending], cancel || tasks[i].outcome.Fail?)
  {
    var status' := status[i := Sending];
    assert forall j :: Failing(tasks, status, j) ==> Failing(tasks, status', j);
    assert tasks[i].outcome.Fail? ==> Failing(tasks, status', i);
    assert forall j :: Failing(tasks, status', j) && j != i ==> Failing(tasks, status, j);
  }

  lemma MoveReturned<E>(tasks: seq<Task<E>>, status: seq<Status>, cancel: bool, result: Outcome<E>, i: nat, x: Status,
                        more: bool)
    requires i < |status| <= |tasks| && ReturnInv(tasks, status, cancel, result) && status[i] != Received
    ensures ReturnInv(tasks, status[i := x], cancel || more, result)
  {
    if result.Fail? {
      var j :| 0 <= j < |status| && status[j] == Received && tasks[j].outcome == result;
      assert status[i := x][j] == Received;
    }
  }

  // ---- Every step keeps the invariant ----

  lemma SubmitNames<E>(tasks: seq<Task<E>>, status: seq<Status>, names: seq<Name>)
    requires |status| < |tasks| && NamesInv(tasks, status, names)
    ensures NamesInv(tasks, status + [Queued], names + [tasks[|status|].name])
  {
    assert (status + [Queued])[..|status|] == status;
  }

  lemma SubmitStep<E>(threads: nat, tasks: seq<Task<E>>, s: State<E>)
    requires Inv(tasks, s) && Enabled(threads, tasks, s, Submit)
    ensures Inv(tasks, Next(threads, tasks, s, Submit))
  {
    var status' := s.status + [Queued];
    SubmitNames(tasks, s.status, s.names);
    assert forall i :: Failing(tasks, s.status, i) <==> Failing(tasks, status', i);
    assert CancelInv(tasks, status', s.cancel);
  }

  lemma ClaimStep<E>(threads: nat, tasks: seq<Task<E>>, s: State<E>)
    requires Inv(tasks, s) && Enabled(threads, tasks, s, Claim)
    ensures Inv(tasks, Next(threads, tasks, s, Claim))
  {
    hide PlacesInv, NamesInv, CancelInv, ReturnInv, Busy;
    ClaimPlaces(s.status, s.taken, s.channel);
    match s.collector
    case Collecting =>
      MoveNames(tasks, s.status, s.names, s.taken, Claimed);
      MoveCancel(tasks, s.status, s.cancel, s.taken, Claimed);
    case Returned(result) => MoveReturned(tasks, s.status, s.cancel, result, s.taken, Claimed, false);
  }

  lemma LoadCancelStep<E>(threads: nat, tasks: seq<Task<E>>, s: State<E>, i: nat)
    requires Inv(tasks, s) && Enabled(threads, tasks, s, LoadCancel(i))
    ensures Inv(tasks, Next(threads, tasks, s, LoadCancel(i)))
  {
    hide PlacesInv, NamesInv, CancelInv, ReturnInv, Busy;
    var x := if s.cancel then Cancelled else Running;
    MovePlaces(s.status, s.taken, s.channel, i, x);
    match s.collector
    case Collecting =>
      MoveNames(tasks, s.status, s.names, i, x);
      MoveCancel(tasks, s.status, s.cancel, i, x);
    case Returned(result) => MoveReturned(tasks, s.status, s.cancel, result, i, x, false);
  }

  lemma RunTaskStep<E>(threads: nat, tasks: seq<Task<E>>, s: State<E>, i: nat)
    requires Inv(tasks, s) && Enabled(threads, tasks, s, RunTask(i))
    ensures Inv(tasks, Next(threads, tasks, s, RunTask(i)))
  {
    hide PlacesInv, NamesInv, CancelInv, ReturnInv, Busy;
    MovePlaces(s.status, s.taken, s.channel, i, Sending);
    match s.collector
    case Collecting =>
      MoveNames(tasks, s.status, s.names, i, Sending);
      RunCancel(tasks, s.status, s.cancel, i);
    case Returned(result) => MoveReturned(tasks, s.status, s.cancel, result, i, Sending, tasks[i].outcome.Fail?);
  }

  lemma SendStep<E>(threads: nat, tasks: seq<Task<E>>, s: State<E>, i: nat)
    requires Inv(tasks, s) && Enabled(threads, tasks, s, Send(i))
    ensures Inv(tasks, Next(threads, tasks, s, Send(i)))
  {
    hide PlacesInv, NamesInv, CancelInv, ReturnInv, Busy;
    SendPlaces(s.status, s.taken, s.channel, i);
    match s.collector
    case Collecting =>
      MoveNames(tasks, s.status, s.names, i, Sent);
      MoveCancel(tasks, s.status, s.cancel, i, Sent);
    case Returned(result) => MoveReturned(tasks, s.status, s.cancel, result, i, Sent, false);
  }

  lemma ReceivePlaces(status: seq<Status>, taken: nat, channel: seq<nat>)
    requires PlacesInv(status, taken, channel) && |channel| > 0
    ensures channel[0] < |status| && status[channel[0]] == Sent
    ensures PlacesInv(status[channel[0] := Received], taken, channel[1..])
  {
    var status' := status[channel[0] := Received];
    forall i | 0 <= i < |status'| && status'[i] == Sent ensures i in channel[1..] {
      assert i in channel && i != channel[0];
    }
  }

  lemma ReceiveNames<E>(tasks: seq<Task<E>>, status: seq<Status>, names: seq<Name>, i: nat)
    requires i < |status| <= |tasks| && status[i] != Received && NamesInv(tasks, status, names)
    ensures tasks[i].name in names
    ensures NamesInv(tasks, status[i := Received], SwapRemove(names, Position(names, tasks[i].name)))
  {
    OutstandingUpdate(tasks, status, i, Received, tasks[i].name);
    assert tasks[i].name in multiset(names);
    var names' := SwapRemove(names, Position(names, tasks[i].name));
    forall name ensures multiset(names')[name] == Outstanding(tasks, status[i := Received], name) {
      OutstandingUpdate(tasks, status, i, Received, name);
    }
  }

  lemma ReceiveCancel<E>(tasks: seq<Task<E>>, status: seq<Status>, cancel: bool, i: nat)
    requires i < |status| <= |tasks| && CancelInv(tasks, status, cancel) && status[i] == Sent
    ensures tasks[i].outcome == Succeed ==> CancelInv(tasks, status[i := Received], cancel)
    ensures tasks[i].outcome.Fail? ==> cancel
  {
    assert tasks[i].outcome.Fail? ==> Failing(tasks, status, i);
    var status' := status[i := Received];
    if cancel && tasks[i].outcome == Succeed {
      var j :| Failing(tasks, status, j);
      assert Failing(tasks, status', j);
    }
    assert forall j :: Failing(tasks, status', j) ==> Failing(tasks, status, j);
  }

  lemma ReceiveStep<E>(threads: nat, tasks: seq<Task<E>>, s: State<E>)
    requires Inv(tasks, s) && Enabled(threads, tasks, s, Receive)
    ensures Inv(tasks, Next(threads, tasks, s, Receive))
  {
    hide PlacesInv, NamesInv, CancelInv, Busy;
    var i := s.channel[0];
    ReceivePlaces(s.status, s.taken, s.channel);
    ReceiveCancel(tasks, s.status, s.cancel, i);
    ReceiveNames(tasks, s.status, s.names, i);
    assert s.status[i := Received][i] == Received;
  }

  // No name left means that every task has been received.
  lemma {:induction false} NoneOutstanding<E>(tasks: seq<Task<E>>, status: seq<Status>)
    requires |status| <= |tasks| && forall name :: Outstanding(tasks, status, name) == 0
    ensures forall i :: 0 <= i < |status| ==> status[i] == Received
  {
    forall i | 0 <= i < |status| ensures status[i] == Received {
      if status[i] != Received {
        OutstandingUpdate(tasks, status, i, Received, tasks[i].name);
      }
    }
  }

  lemma JoinStep<E>(threads: nat, tasks: seq<Task<E>>, s: State<E>)
    requires Inv(tasks, s) && Enabled(threads, tasks, s, Join)
    ensures Inv(tasks, Next(threads, tasks, s, Join))
  {
    NoneOutstanding(tasks, s.status);
  }

  lemma StepInv<E>(threads: nat, tasks: seq<Task<E>>, s: State<E>, a: Action)
    requires Inv(tasks, s) && Enabled(threads, tasks, s, a)
    ensures Inv(tasks, Next(threads, tasks, s, a))
  {
    match a
    case Submit => SubmitStep(threads, tasks, s);
    case Claim => ClaimStep(threads, tasks, s);
    case LoadCancel(i) => LoadCancelStep(threads, tasks, s, i);
    case RunTask(i) => RunTaskStep(threads, tasks, s, i);
    case Send(i) => SendStep(threads, tasks, s, i);
    case Receive => ReceiveStep(threads, tasks, s);
    case Join => JoinStep(threads, tasks, s);
  }

  // ---- Runs ----

  ghost predicate Runs<E>(threads: nat, tasks: seq<Task<E>>, s: State<E>, run: seq<Action>)
    decreases |run|
  {
    || |run| == 0
    || (Enabled(threads, tasks, s, run[0]) && Runs(threads, tasks, Next(threads, tasks, s, run[0]), run[1..]))
  }

  ghost function After<E>(threads: nat, tasks: seq<Task<E>>, s: State<E>, run: seq<Action>): State<E>
    requires Runs(threads, tasks, s, run)
    decreases |run|
  {
    if |run| == 0 then s else After(threads, tasks, Next(threads, tasks, s, run[0]), run[1..])
  }

  lemma {:induction false} RunInv<E>(threads: nat, tasks: seq<Task<E>>, s: State<E>, run: seq<Action>)
    requires Inv(tasks, s) && Runs(threads, tasks, s, run)
    ensures Inv(tasks, After(threads, tasks, s, run))
    decreases |run|
  {
    if |run| > 0 {
      StepInv(threads, tasks, s, run[0]);
      RunInv(threads, tasks, Next(threads, tasks, s, run[0]), run[1..]);
    }
  }

  ghost predicate AllSucceed<E>(tasks: seq<Task<E>>) {
    forall i :: 0 <= i < |tasks| ==> tasks[i].outcome == Succeed
  }

  // In every interleaving: the call never panics; it returns Ok only when every task ran and
  // succeeded, and then always; and an error it returns is that of a task that ran.
  lemma ResultIsRight<E>(threads: nat, tasks: seq<Task<E>>, run: seq<Action>)
    requires Runs(threads, tasks, Initial<E>(), run)
    ensures var s := After(threads, tasks, Initial<E>(), run);
            && s.collector != Panicked
            && (s.collector.Returned? ==>
                  && (s.collector.result == Succeed <==> AllSucceed(tasks))
                  && (s.collector.result == Succeed ==>
                        |s.status| == |tasks| && forall i :: 0 <= i < |tasks| ==> s.status[i] == Received)
                  && (s.collector.result.Fail? ==>
                        exists i :: 0 <= i < |s.status| <= |tasks| && s.status[i] == Received
                                    && tasks[i].outcome == s.collector.result))
  {
    RunInv(threads, tasks, Initial<E>(), run);
  }

  // While the collector is at work `names` is, with repetitions, the list of the names of the
  // submitted tasks whose result it has not received.
  lemma NamesAreOutstanding<E>(threads: nat, tasks: seq<Task<E>>, run: seq<Action>, name: Name)
    requires Runs(threads, tasks, Initial<E>(), run)
    requires After(threads, tasks, Initial<E>(), run).collector == Collecting
    ensures var s := After(threads, tasks, Initial<E>(), run);
            |s.status| <= |tasks| && multiset(s.names)[name] == Outstanding(tasks, s.status, name)
  {
    RunInv(threads, tasks, Initial<E>(), run);
  }

  // ---- How many tasks run at once ----

  lemma {:induction false} BusyUpdate(status: seq<Status>, i: nat, x: Status)
    requires i < |status|
    ensures Busy(status[i := x]) + (if OnThread(status[i]) then 1 else 0)
         == Busy(status) + if OnThread(x) then 1 else 0
    decreases |status|
  {
    var n := |status| - 1;
    if i == n {
      assert status[i := x][..n] == status[..n];
    } else {
      BusyUpdate(status[..n], i, x);
      assert status[i := x][..n] == status[..n][i := x];
    }
  }

  lemma StepBusy<E>(threads: nat, tasks: seq<Task<E>>, s: State<E>, a: Action)
    requires Inv(tasks, s) && Enabled(threads, tasks, s, a) && Busy(s.status) <= threads
    ensures Busy(Next(threads, tasks, s, a).status) <= threads
  {
    var s' := Next(threads, tasks, s, a);
    match a
    case Submit => assert s'.status[..|s.status|] == s.status;
    case Claim => BusyUpdate(s.status, s.taken, Claimed);
    case LoadCancel(i) => BusyUpdate(s.status, i, s'.status[i]);
    case RunTask(i) => BusyUpdate(s.status, i, Sending);
    case Send(i) => BusyUpdate(s.status, i, Sent);
    case Receive => BusyUpdate(s.status, s.channel[0], Received);
    case Join =>
  }

  lemma {:induction false} RunBusy<E>(threads: nat, tasks: seq<Task<E>>, s: State<E>, run: seq<Action>)
    requires Inv(tasks, s) && Runs(threads, tasks, s, run) && Busy(s.status) <= threads
    ensures Busy(After(threads, tasks, s, run).status) <= threads
    decreases |run|
  {
    if |run| > 0 {
      StepInv(threads, tasks, s, run[0]);
      StepBusy(threads, tasks, s, run[0]);
      RunBusy(threads, tasks, Next(threads, tasks, s, run[0]), run[1..]);
    }
  }

  // Never more tasks are on threads than there are threads.
  lemma AtMostThreads<E>(threads: nat, tasks: seq<Task<E>>, run: seq<Action>)
    requires Runs(threads, tasks, Initial<E>(), run)
    ensures Busy(After(threads, tasks, Initial<E>(), run).status) <= threads
  {
    RunBusy(threads, tasks, Initial<E>(), run);
  }

  // ---- Which error is returned ----

  // The tasks whose results are sent in a run, in the order of the sends.
  ghost function Sends(run: seq<Action>): seq<nat> {
    if |run| == 0 then [] else (if run[0].Send? then [run[0].task] else []) + Sends(run[1..])
  }

  // Of the results sent so far the first r are received: successes all of them while the collector
  // works, and the last one the error once it has returned that.
  ghost predicate History<E>(tasks: seq<Task<E>>, channel: seq<nat>, collector: Collector<E>, sent: seq<nat>, r: nat) {
    && r <= |sent| && channel == sent[r..] && (forall q :: 0 <= q < |sent| ==> sent[q] < |tasks|)
    && (collector == Collecting ==> forall q :: 0 <= q < r ==> tasks[sent[q]].outcome == Succeed)
    && (collector.Returned? && collector.result.Fail? ==>
          && r > 0 && tasks[sent[r - 1]].outcome == collector.result
          && forall q :: 0 <= q < r - 1 ==> tasks[sent[q]].outcome == Succeed)
  }

  lemma SendHistory<E>(tasks: seq<Task<E>>, channel: seq<nat>, collector: Collector<E>, sent: seq<nat>, r: nat, i: nat)
    requires History(tasks, channel, collector, sent, r) && i < |tasks|
    ensures History(tasks, channel + [i], collector, sent + [i], r)
  {
    assert (sent + [i])[r..] == sent[r..] + [i];
  }

  // One more result is received, of which the collector makes `next`.
  lemma ReceiveHistory<E>(tasks: seq<Task<E>>, channel: seq<nat>, sent: seq<nat>, r: nat, next: Collector<E>)
    requires History(tasks, channel, Collecting, sent, r) && |channel| > 0 && channel[0] < |tasks|
    requires var outcome := tasks[channel[0]].outcome;
             if outcome.Fail? then next == Returned(outcome) else next == Collecting || next == Panicked
    ensures History(tasks, channel[1..], next, sent, r + 1)
  {
    assert sent[r..][1..] == sent[r + 1..] && channel[0] == sent[r];
  }

  lemma StepHistory<E>(threads: nat, tasks: seq<Task<E>>, s: State<E>, a: Action, sent: seq<nat>, r: nat)
    returns (more: seq<nat>, r': nat)
    requires |s.status| <= |tasks| && Enabled(threads, tasks, s, a) && History(tasks, s.channel, s.collector, sent, r)
    ensures more == if a.Send? then [a.task] else []
    ensures var s' := Next(threads, tasks, s, a); History(tasks, s'.channel, s'.collector, sent + more, r')
  {
    hide Busy, Position, SwapRemove;
    more, r' := [], r;
    assert sent + more == sent;
    match a
    case Send(i) =>
      more := [i];
      SendHistory(tasks, s.channel, s.collector, sent, r, i);
    case Receive =>
      r' := r + 1;
      ReceiveHistory(tasks, s.channel, sent, r, Next(threads, tasks, s, a).collector);
    case _ =>
  }

  lemma {:induction false} RunHistory<E>(threads: nat, tasks: seq<Task<E>>, s: State<E>, run: seq<Action>,
                                         sent: seq<nat>, r: nat) returns (r': nat)
    requires Inv(tasks, s) && Runs(threads, tasks, s, run) && History(tasks, s.channel, s.collector, sent, r)
    ensures var s' := After(threads, tasks, s, run); History(tasks, s'.channel, s'.collector, sent + Sends(run), r')
    decreases |run|
  {
    hide Inv, History, Enabled, Next;
    if |run| == 0 {
      assert sent + Sends(run) == sent;
      r' := r;
    } else {
      var more;
      StepInv(threads, tasks, s, run[0]);
      SmallStatus(tasks, s);
      more, r' := StepHistory(threads, tasks, s, run[0], sent, r);
      r' := RunHistory(threads, tasks, Next(threads, tasks, s, run[0]), run[1..], sent + more, r');
      assert sent + more + Sends(run[1..]) == sent + (more + Sends(run[1..]));
    }
  }

  lemma SmallStatus<E>(tasks: seq<Task<E>>, s: State<E>)
    requires Inv(tasks, s)
    ensures |s.status| <= |tasks|
  {
  }

  // An error returned is that of the first failure that was sent.
  lemma ErrorIsFirstSent<E>(threads: nat, tasks: seq<Task<E>>, run: seq<Action>) returns (p: nat)
    requires Runs(threads, tasks, Initial<E>(), run)
    requires var s := After(threads, tasks, Initial<E>(), run); s.collector.Returned? && s.collector.result.Fail?
    ensures p < |Sends(run)| && forall q :: 0 <= q <= p ==> Sends(run)[q] < |tasks|
    ensures tasks[Sends(run)[p]].outcome == After(threads, tasks, Initial<E>(), run).collector.result
    ensures forall q :: 0 <= q < p ==> tasks[Sends(run)[q]].outcome == Succeed
  {
    var r := RunHistory(threads, tasks, Initial<E>(), run, [], 0);
    assert [] + Sends(run) == Sends(run);
    p := r - 1;
  }

  // Task i has not passed its check of the cancel flag, or has found it set.
  ghost predicate NeverRun<E>(s: State<E>, i: nat) {
    i < |s.status| && (s.status[i] == Queued || s.status[i] == Claimed || s.status[i] == Cancelled)
  }

  lemma StepNeverRuns<E>(threads: nat, tasks: seq<Task<E>>, s: State<E>, a: Action, i: nat)
    requires Inv(tasks, s) && Enabled(threads, tasks, s, a) && s.cancel && NeverRun(s, i)
    ensures Next(threads, tasks, s, a).cancel && NeverRun(Next(threads, tasks, s, a), i)
  {
    if a.Receive? { ReceivePlaces(s.status, s.taken, s.channel); }
  }

  lemma {:induction false} RunNeverRuns<E>(threads: nat, tasks: seq<Task<E>>, s: State<E>, run: seq<Action>, i: nat)
    requires Inv(tasks, s) && Runs(threads, tasks, s, run) && s.cancel && NeverRun(s, i)
    ensures NeverRun(After(threads, tasks, s, run), i)
    decreases |run|
  {
    if |run| > 0 {
      StepInv(threads, tasks, s, run[0]);
      StepNeverRuns(threads, tasks, s, run[0], i);
      RunNeverRuns(threads, tasks, Next(threads, tasks, s, run[0]), run[1..], i);
    }
  }

  // Once an error is returned, a task that is not yet running never runs.
  lemma ErrorCancelsTheRest<E>(threads: nat, tasks: seq<Task<E>>, run: seq<Action>, more: seq<Action>, i: nat)
    requires Runs(threads, tasks, Initial<E>(), run)
    requires var s := After(threads, tasks, Initial<E>(), run);
             s.collector.Returned? && s.collector.result.Fail? && NeverRun(s, i) && Runs(threads, tasks, s, more)
    ensures NeverRun(After(threads, tasks, After(threads, tasks, Initial<E>(), run), more), i)
  {
    RunInv(threads, tasks, Initial<E>(), run);
    RunNeverRuns(threads, tasks, After(threads, tasks, Initial<E>(), run), more, i);
  }

  // ---- Progress and termination ----

  lemma {:induction false} BusyOne(status: seq<Status>)
    ensures Busy(status) > 0 ==> exists i :: 0 <= i < |status| && OnThread(status[i])
    ensures Busy(status) == 0 ==> forall i :: 0 <= i < |status| ==> !OnThread(status[i])
  {
    if |status| > 0 {
      var n := |status| - 1;
      BusyOne(status[..n]);
      if Busy(status[..n]) > 0 {
        var i :| 0 <= i < n && OnThread(status[..n][i]);
        assert OnThread(status[i]);
      } else if Busy(status) > 0 {
        assert OnThread(status[n]);
      }
    }
  }

  ghost predicate CanStep<E>(threads: nat, tasks: seq<Task<E>>, s: State<E>) {
    exists a :: Enabled(threads, tasks, s, a)
  }

  // Until the call returns some step is possible: in particular, once a task has failed or been
  // cancelled, the collector cannot wait for ever.
  lemma Progress<E>(threads: nat, tasks: seq<Task<E>>, s: State<E>)
    requires threads >= 1 && Inv(tasks, s) && s.collector == Collecting
    ensures CanStep(threads, tasks, s)
  {
    BusyOne(s.status);
    if |s.status| < |tasks| {
      assert Enabled(threads, tasks, s, Submit);
    } else if Busy(s.status) > 0 {
      var i :| 0 <= i < |s.status| && OnThread(s.status[i]);
      assert Enabled(threads, tasks, s, LoadCancel(i)) || Enabled(threads, tasks, s, RunTask(i))
             || Enabled(threads, tasks, s, Send(i));
    } else if s.taken < |s.status| {
      assert Enabled(threads, tasks, s, Claim);
    } else if |s.names| == 0 {
      assert Enabled(threads, tasks, s, Join);
    } else {
      IdleHasMessage(tasks, s);
      assert Enabled(threads, tasks, s, Receive);
    }
  }

  // With every thread idle and a name still listed, a result is waiting in the channel.
  lemma IdleHasMessage<E>(tasks: seq<Task<E>>, s: State<E>)
    requires Inv(tasks, s) && s.collector == Collecting && |s.status| == |tasks| == s.taken && s.names != []
    requires forall i :: 0 <= i < |s.status| ==> !OnThread(s.status[i])
    ensures s.channel != []
  {
    assert s.names[0] in multiset(s.names);
    if forall i :: 0 <= i < |s.status| ==> s.status[i] == Received {
      AllReceived(tasks, s.status, s.names[0]);
    } else {
      var i :| 0 <= i < |s.status| && s.status[i] != Received;
      assert s.status[i] == Sent || s.status[i] == Cancelled;
      if s.cancel {
        var j :| Failing(tasks, s.status, j);
        assert j in s.channel;
      }
    }
  }

  lemma {:induction false} AllReceived<E>(tasks: seq<Task<E>>, status: seq<Status>, name: Name)
    requires |status| <= |tasks| && forall i :: 0 <= i < |status| ==> status[i] == Received
    ensures Outstanding(tasks, status, name) == 0
  {
    if |status| > 0 { AllReceived(tasks, status[..|status| - 1], name); }
  }

  // Steps a task still has ahead of it.
  ghost function Ahead(st: Status): nat {
    match st
    case Queued => 5 case Claimed => 4 case Running => 3 case Sending => 2 case Sent => 1
    case Received => 0 case Cancelled => 0
  }

  ghost function AheadAll(status: seq<Status>): nat {
    if |status| == 0 then 0 else AheadAll(status[..|status| - 1]) + Ahead(status[|status| - 1])
  }

  ghost function Work<E>(tasks: seq<Task<E>>, s: State<E>): int {
    6 * (|tasks| - |s.status|) + AheadAll(s.status) + if s.collector == Collecting then 1 else 0
  }

  lemma {:induction false} AheadUpdate(status: seq<Status>, i: nat, x: Status)
    requires i < |status|
    ensures AheadAll(status[i := x]) + Ahead(status[i]) == AheadAll(status) + Ahead(x)
  {
    var n := |status| - 1;
    if i == n {
      assert status[i := x][..n] == status[..n];
    } else {
      AheadUpdate(status[..n], i, x);
      assert status[i := x][..n] == status[..n][i := x];
    }
  }

  lemma StepWork<E>(threads: nat, tasks: seq<Task<E>>, s: State<E>, a: Action)
    requires Inv(tasks, s) && Enabled(threads, tasks, s, a)
    ensures Work(tasks, Next(threads, tasks, s, a)) < Work(tasks, s)
  {
    hide Busy, PlacesInv, CollectorInv, Position, SwapRemove;
    var s' := Next(threads, tasks, s, a);
    match a
    case Submit => assert s'.status[..|s.status|] == s.status;
    case Claim =>
      ClaimPlaces(s.status, s.taken, s.channel);
      AheadUpdate(s.status, s.taken, Claimed);
    case Receive =>
      ReceivePlaces(s.status, s.taken, s.channel);
      AheadUpdate(s.status, s.channel[0], Received);
    case Join =>
    case LoadCancel(i) => AheadUpdate(s.status, i, s'.status[i]);
    case RunTask(i) => AheadUpdate(s.status, i, Sending);
    case Send(i) => AheadUpdate(s.status, i, Sent);
  }

  lemma {:induction false} RunWork<E>(threads: nat, tasks: seq<Task<E>>, s: State<E>, run: seq<Action>)
    requires Inv(tasks, s) && Runs(threads, tasks, s, run)
    ensures |run| <= Work(tasks, s)
    ensures |After(threads, tasks, s, run).status| <= |tasks|
    decreases |run|
  {
    if |run| > 0 {
      StepWork(threads, tasks, s, run[0]);
      StepInv(threads, tasks, s, run[0]);
      RunWork(threads, tasks, Next(threads, tasks, s, run[0]), run[1..]);
    }
  }

  // Every run ends, after at most six steps a task and one more, and it ends with a return.
  lemma AlwaysReturns<E>(threads: nat, tasks: seq<Task<E>>, run: seq<Action>)
    requires threads >= 1 && Runs(threads, tasks, Initial<E>(), run)
    ensures |run| <= 6 * |tasks| + 1
    ensures var s := After(threads, tasks, Initial<E>(), run);
            !CanStep(threads, tasks, s) ==> s.collector.Returned?
  {
    RunWork(threads, tasks, Initial<E>(), run);
    RunInv(threads, tasks, Initial<E>(), run);
    var s := After(threads, tasks, Initial<E>(), run);
    if s.collector == Collecting { Progress(threads, tasks, s); }
  }
}
