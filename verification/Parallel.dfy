/**
 The parallel runner: the caller pushes tasks to a pool of five workers, then receives their errors
 from an unbuffered channel that a third goroutine closes once the wait group is back at zero. Every
 interleaving is a sequence of the atomic steps below. There is no cancellation, tasks return, and an
 Invoke blocks while all workers are busy.
 */
module Parallel {
  import opened Wrappers

  datatype Task = Returns | Fails(error: string)

  /** A pool worker and the index of its task. */
  datatype Worker =
    | Idle
    | Assigned(task: nat)
    | Running(task: nat)
    | Sending(task: nat)
    | Finishing(task: nat)
    | Returning(task: nat)

  /** Where the goroutine of `run` is. */
  datatype Phase = Popping | Invoking(task: nat) | Receiving | Over

  /** The goroutine that waits for the group and closes the channel. */
  datatype Closer = Unstarted | Waiting | Woken | Closed

  datatype State = State(
    popped: nat,
    phase: Phase,
    workers: seq<Worker>,
    group: int,
    closer: Closer,
    errs: seq<string>,
    ran: seq<nat>,
    handled: Option<seq<string>>,
    panicked: bool)

  const WORKERS: nat := 5

  function Init(): State {
    State(0, Popping, seq(WORKERS, _ => Idle), 0, Unstarted, [], [], None, false)
  }

  datatype Step =
    | Pop
    | Invoke(worker: nat)
    | Start(worker: nat)
    | Return(worker: nat)
    | Send(worker: nat)
    | Done(worker: nat)
    | Release(worker: nat)
    | Wake
    | Close
    | End

  /** A send waits for the receiver; on a closed channel it does not wait, it panics. */
  predicate Enabled(tasks: seq<Task>, s: State, step: Step) {
    match step
    case Pop => s.phase.Popping?
    case Invoke(w) => s.phase.Invoking? && w < |s.workers| && s.workers[w].Idle?
    case Start(w) => w < |s.workers| && s.workers[w].Assigned?
    case Return(w) => w < |s.workers| && s.workers[w].Running?
    case Send(w) => w < |s.workers| && s.workers[w].Sending? && (s.phase.Receiving? || s.closer.Closed?)
    case Done(w) => w < |s.workers| && s.workers[w].Finishing?
    case Release(w) => w < |s.workers| && s.workers[w].Returning?
    case Wake => s.closer.Waiting? && s.group == 0
    case Close => s.closer.Woken?
    case End => s.phase.Receiving? && s.closer.Closed?
  }

  predicate TaskFails(tasks: seq<Task>, i: nat) {
    i < |tasks| && tasks[i].Fails?
  }

  function Next(tasks: seq<Task>, s: State, step: Step): State
    requires Enabled(tasks, s, step)
  {
    match step
    case Pop =>
      if s.popped < |tasks| then s.(popped := s.popped + 1, group := s.group + 1, phase := Invoking(s.popped))
      else s.(phase := Receiving, closer := Waiting)
    case Invoke(w) => s.(phase := Popping, workers := s.workers[w := Assigned(s.phase.task)])
    case Start(w) =>
      s.(workers := s.workers[w := Running(s.workers[w].task)], ran := s.ran + [s.workers[w].task])
    case Return(w) =>
      var i := s.workers[w].task;
      s.(workers := s.workers[w := if TaskFails(tasks, i) then Sending(i) else Finishing(i)])
    case Send(w) =>
      if s.closer.Closed? || !TaskFails(tasks, s.workers[w].task) then s.(panicked := true)
      else s.(errs := s.errs + [tasks[s.workers[w].task].error], workers := s.workers[w := Finishing(s.workers[w].task)])
    case Done(w) =>
      s.(group := s.group - 1, workers := s.workers[w := Returning(s.workers[w].task)], panicked := s.panicked || s.group < 1)
    case Release(w) => s.(workers := s.workers[w := Idle])
    case Wake => s.(closer := Woken)
    case Close => s.(closer := Closed)
    case End => s.(phase := Over, handled := if |s.errs| > 0 then Some(s.errs) else None)
  }

  function Run(tasks: seq<Task>, steps: seq<Step>): Option<State> {
    if steps == [] then Some(Init())
    else
      match Run(tasks, steps[..|steps| - 1])
      case None => None
      case Some(s) =>
        if Enabled(tasks, s, steps[|steps| - 1]) then Some(Next(tasks, s, steps[|steps| - 1])) else None
  }

  // Sums over the workers

  function Sum(workers: seq<Worker>, f: Worker -> nat): nat {
    if workers == [] then 0 else f(workers[0]) + Sum(workers[1..], f)
  }

  lemma {:induction false} SumUpdate(workers: seq<Worker>, f: Worker -> nat, w: nat, x: Worker)
    requires w < |workers|
    ensures Sum(workers[w := x], f) + f(workers[w]) == Sum(workers, f) + f(x)
  {
    if w == 0 {
      assert workers[w := x][1..] == workers[1..];
    } else {
      assert workers[w := x][1..] == workers[1..][w - 1 := x];
      SumUpdate(workers[1..], f, w - 1, x);
    }
  }

  lemma {:induction false} SumAll(workers: seq<Worker>, f: Worker -> nat, n: nat)
    requires forall w | 0 <= w < |workers| :: f(workers[w]) == n
    ensures Sum(workers, f) == |workers| * n
  {
    if workers != [] {
      SumAll(workers[1..], f, n);
    }
  }

  /** With every worker counting at most one and some worker counting none, the sum is below the number of workers. */
  lemma {:induction false} SumBelow(workers: seq<Worker>, f: Worker -> nat)
    requires forall x: Worker :: f(x) <= 1
    ensures Sum(workers, f) <= |workers|
    ensures (exists w | 0 <= w < |workers| :: f(workers[w]) == 0) ==> Sum(workers, f) < |workers|
  {
    if workers != [] {
      SumBelow(workers[1..], f);
      assert forall w | 0 < w < |workers| :: workers[w] == workers[1..][w - 1];
    }
  }

  /** The worker's task still has its wg.Done to come. */
  function Counted(x: Worker): nat {
    if x.Idle? || x.Returning? then 0 else 1
  }

  /** Steps the worker has to go. */
  function Ahead(x: Worker): nat {
    match x
    case Idle => 0
    case Returning(_) => 1
    case Finishing(_) => 2
    case Sending(_) => 3
    case Running(_) => 4
    case Assigned(_) => 5
  }

  /** The worker has or will have an error to send. */
  predicate HoldsError(tasks: seq<Task>, x: Worker) {
    (x.Assigned? || x.Running? || x.Sending?) && TaskFails(tasks, x.task)
  }

  function Holds(tasks: seq<Task>): Worker -> nat {
    (x: Worker) => if HoldsError(tasks, x) then 1 else 0
  }

  /** The worker has or will have this very error to send. */
  function Owes(tasks: seq<Task>, error: string): Worker -> nat {
    (x: Worker) => if HoldsError(tasks, x) && tasks[x.task].error == error then 1 else 0
  }

  /** The worker has yet to start this very task. */
  function ToStart(i: nat): Worker -> nat {
    (x: Worker) => if x.Assigned? && x.task == i then 1 else 0
  }

  /** How many of the first n tasks fail. */
  function Failing(tasks: seq<Task>, n: nat): nat {
    if n == 0 then 0 else Failing(tasks, n - 1) + if TaskFails(tasks, n - 1) then 1 else 0
  }

  /** The errors of the first n tasks, in task order. */
  function Raised(tasks: seq<Task>, n: nat): seq<string> {
    if n == 0 then []
    else Raised(tasks, n - 1) + if TaskFails(tasks, n - 1) then [tasks[n - 1].error] else []
  }

  /** The counts are those of the failing tasks. */
  lemma {:induction false} FailingExactly(tasks: seq<Task>, n: nat)
    requires n <= |tasks|
    ensures Failing(tasks, n) == |set i | 0 <= i < n && tasks[i].Fails?|
  {
    if n > 0 {
      FailingExactly(tasks, n - 1);
      var before := set i | 0 <= i < n - 1 && tasks[i].Fails?;
      assert (set i | 0 <= i < n && tasks[i].Fails?) == if tasks[n - 1].Fails? then before + {n - 1} else before;
    }
  }

  lemma {:induction false} RaisedExactly(tasks: seq<Task>, n: nat, e: string)
    requires n <= |tasks|
    ensures multiset(Raised(tasks, n))[e] == |set i | 0 <= i < n && tasks[i] == Fails(e)|
  {
    if n > 0 {
      RaisedExactly(tasks, n - 1, e);
      RaisersStep(tasks, n, e);
      RaisedStep(tasks, n);
      hide Raised;
      if tasks[n - 1].Fails? {
        CountSnoc(Raised(tasks, n - 1), tasks[n - 1].error, e);
      }
    }
  }

  lemma RaisedStep(tasks: seq<Task>, n: nat)
    requires 0 < n <= |tasks|
    ensures Raised(tasks, n) ==
      if tasks[n - 1].Fails? then Raised(tasks, n - 1) + [tasks[n - 1].error] else Raised(tasks, n - 1)
  {
  }

  lemma RaisersStep(tasks: seq<Task>, n: nat, e: string)
    requires 0 < n <= |tasks|
    ensures |set i | 0 <= i < n && tasks[i] == Fails(e)| ==
            |set i | 0 <= i < n - 1 && tasks[i] == Fails(e)| + if tasks[n - 1] == Fails(e) then 1 else 0
  {
    var before := set i | 0 <= i < n - 1 && tasks[i] == Fails(e);
    assert (set i | 0 <= i < n && tasks[i] == Fails(e)) == if tasks[n - 1] == Fails(e) then before + {n - 1} else before;
  }

  /** The tasks ahead of the last one. */
  lemma FailingAhead(tasks: seq<Task>)
    ensures Failing(tasks, if tasks == [] then 0 else |tasks| - 1) == |set i | 0 <= i < |tasks| - 1 && tasks[i].Fails?|
  {
    var ahead := set i | 0 <= i < |tasks| - 1 && tasks[i].Fails?;
    if tasks != [] {
      FailingExactly(tasks, |tasks| - 1);
    } else {
      assert ahead == {};
    }
  }

  /** How often the error was received, and how often it was raised by the tasks handed over. */
  function Received(s: State, e: string): nat {
    multiset(s.errs)[e]
  }

  function RaisedBy(tasks: seq<Task>, n: nat, e: string): nat {
    multiset(Raised(tasks, n))[e]
  }

  /** How many tasks the pool has taken. */
  function Handed(s: State): nat
    requires s.phase.Invoking? ==> s.popped > 0
  {
    if s.phase.Invoking? then s.popped - 1 else s.popped
  }

  ghost predicate Pushing(s: State) {
    s.phase.Popping? || s.phase.Invoking?
  }

  ghost predicate Shape(tasks: seq<Task>, s: State) {
    && |s.workers| == WORKERS
    && s.popped <= |tasks|
    && (s.phase.Invoking? ==> s.phase.task + 1 == s.popped)
    && (!Pushing(s) ==> s.popped == |tasks|)
    && (s.closer.Unstarted? <==> Pushing(s))
    && (s.phase.Over? ==> s.closer.Closed?)
    && (forall w | 0 <= w < |s.workers| && s.workers[w].Sending? :: TaskFails(tasks, s.workers[w].task))
    && s.handled == (if s.phase.Over? && |s.errs| > 0 then Some(s.errs) else None)
  }

  /** The wait group counts the tasks on their way; once woken, the closer finds none. */
  ghost predicate GroupRight(s: State) {
    && s.group == Sum(s.workers, Counted) + (if s.phase.Invoking? then 1 else 0)
    && (s.closer.Woken? || s.closer.Closed? ==> s.group == 0)
  }

  /** Errors are conserved: received, owed by a worker, or of tasks not handed over yet. */
  ghost predicate ErrorsConserved(tasks: seq<Task>, s: State)
    requires Shape(tasks, s)
  {
    forall e :: Received(s, e) + Sum(s.workers, Owes(tasks, e)) == RaisedBy(tasks, Handed(s), e)
  }

  /** Tasks handed over have run once or are about to start. */
  ghost predicate RunsConserved(tasks: seq<Task>, s: State)
    requires Shape(tasks, s)
  {
    forall i: nat :: multiset(s.ran)[i] + Sum(s.workers, ToStart(i)) == if i < Handed(s) then 1 else 0
  }

  /** While pushing, every failing task handed over keeps a worker, and every hand-over found a free one. */
  ghost predicate RoomLeft(tasks: seq<Task>, s: State)
    requires Shape(tasks, s)
  {
    && (Pushing(s) ==> Failing(tasks, Handed(s)) == Sum(s.workers, Holds(tasks)))
    && (Handed(s) > 0 ==> Failing(tasks, Handed(s) - 1) < WORKERS)
  }

  ghost predicate Inv(tasks: seq<Task>, s: State) {
    && Shape(tasks, s)
    && GroupRight(s)
    && ErrorsConserved(tasks, s)
    && RunsConserved(tasks, s)
    && RoomLeft(tasks, s)
    && !s.panicked
  }

  lemma InitInv(tasks: seq<Task>)
    ensures Inv(tasks, Init())
  {
    var s := Init();
    SumAll(s.workers, Counted, 0);
    SumAll(s.workers, Holds(tasks), 0);
    forall e {
      SumAll(s.workers, Owes(tasks, e), 0);
    }
    forall i: nat {
      SumAll(s.workers, ToStart(i), 0);
    }
  }

  predicate ByWorker(step: Step) {
    !step.Pop? && !step.Wake? && !step.Close? && !step.End?
  }

  /** A worker's step changes that worker alone. */
  lemma OneWorkerMoves(tasks: seq<Task>, s: State, step: Step)
    requires Enabled(tasks, s, step)
    ensures ByWorker(step) ==> step.worker < |s.workers| && step.worker < |Next(tasks, s, step).workers|
    ensures
      var t := Next(tasks, s, step);
      if ByWorker(step) then t.workers == s.workers[step.worker := t.workers[step.worker]] else t.workers == s.workers
  {
  }

  /** The channel is closed only when every task is done, so nobody is left to send or to finish. */
  lemma ClosedMeansDone(tasks: seq<Task>, s: State, w: nat)
    requires Shape(tasks, s) && GroupRight(s) && w < |s.workers| && Counted(s.workers[w]) == 1
    ensures s.group >= 1 && !s.closer.Woken? && !s.closer.Closed?
  {
    SumUpdate(s.workers, Counted, w, Idle);
  }

  lemma ShapeKept(tasks: seq<Task>, s: State, step: Step)
    requires Shape(tasks, s) && GroupRight(s) && Enabled(tasks, s, step)
    ensures Shape(tasks, Next(tasks, s, step))
    ensures !s.panicked ==> !Next(tasks, s, step).panicked
  {
    if step.Send? || step.Done? {
      ClosedMeansDone(tasks, s, step.worker);
    }
  }

  lemma GroupKept(tasks: seq<Task>, s: State, step: Step)
    requires Shape(tasks, s) && GroupRight(s) && Enabled(tasks, s, step)
    ensures GroupRight(Next(tasks, s, step))
  {
    var t := Next(tasks, s, step);
    OneWorkerMoves(tasks, s, step);
    if ByWorker(step) {
      SumUpdate(s.workers, Counted, step.worker, t.workers[step.worker]);
      if !step.Release? && !step.Invoke? {
        ClosedMeansDone(tasks, s, step.worker);
      }
    }
  }

  lemma ErrorsKept(tasks: seq<Task>, s: State, step: Step)
    requires Shape(tasks, s) && GroupRight(s) && Enabled(tasks, s, step)
    requires ErrorsConserved(tasks, s)
    requires Shape(tasks, Next(tasks, s, step))
    ensures ErrorsConserved(tasks, Next(tasks, s, step))
  {
    var t := Next(tasks, s, step);
    forall e
      ensures Received(t, e) + Sum(t.workers, Owes(tasks, e)) == RaisedBy(tasks, Handed(t), e)
    {
      assert Received(s, e) + Sum(s.workers, Owes(tasks, e)) == RaisedBy(tasks, Handed(s), e);
      hide ErrorsConserved;
      ErrorKept(tasks, s, step, e);
    }
  }

  lemma CountSnoc(s: seq<string>, x: string, e: string)
    ensures multiset(s + [x])[e] == multiset(s)[e] + if x == e then 1 else 0
  {
  }

  lemma RaisedNext(tasks: seq<Task>, n: nat, e: string)
    requires n < |tasks|
    ensures RaisedBy(tasks, n + 1, e) ==
            RaisedBy(tasks, n, e) + if TaskFails(tasks, n) && tasks[n].error == e then 1 else 0
  {
    if TaskFails(tasks, n) {
      CountSnoc(Raised(tasks, n), tasks[n].error, e);
    } else {
      assert Raised(tasks, n) + [] == Raised(tasks, n);
    }
  }

  lemma ErrorKept(tasks: seq<Task>, s: State, step: Step, e: string)
    requires Shape(tasks, s) && GroupRight(s) && Enabled(tasks, s, step)
    requires Shape(tasks, Next(tasks, s, step))
    requires Received(s, e) + Sum(s.workers, Owes(tasks, e)) == RaisedBy(tasks, Handed(s), e)
    ensures
      var t := Next(tasks, s, step);
      Received(t, e) + Sum(t.workers, Owes(tasks, e)) == RaisedBy(tasks, Handed(t), e)
  {
    hide Shape, GroupRight, Enabled, Next, Received, RaisedBy, Sum, Owes, TaskFails;
    var t := Next(tasks, s, step);
    OneWorkerMoves(tasks, s, step);
    ReceivedStep(tasks, s, step, e);
    HandedStep(tasks, s, step);
    if ByWorker(step) {
      OwesStep(tasks, s, step, e);
      SumUpdate(s.workers, Owes(tasks, e), step.worker, t.workers[step.worker]);
      if step.Invoke? {
        RaisedNext(tasks, Handed(s), e);
      }
    }
  }

  lemma HandedStep(tasks: seq<Task>, s: State, step: Step)
    requires Shape(tasks, s) && Enabled(tasks, s, step)
    ensures (Next(tasks, s, step).phase.Invoking? ==> Next(tasks, s, step).popped > 0)
    ensures Handed(Next(tasks, s, step)) == Handed(s) + if step.Invoke? then 1 else 0
    ensures step.Invoke? ==> s.phase.task == Handed(s) < |tasks|
  {
  }

  /** A worker comes to owe its task's error when it takes the task, and no longer does once it has sent it. */
  lemma OwesStep(tasks: seq<Task>, s: State, step: Step, e: string)
    requires Shape(tasks, s) && GroupRight(s) && Enabled(tasks, s, step) && ByWorker(step)
    ensures
      var x, y := s.workers[step.worker], Next(tasks, s, step).workers[step.worker];
      if step.Invoke? then
        && Owes(tasks, e)(x) == 0
        && Owes(tasks, e)(y) ==
           if TaskFails(tasks, s.phase.task) && tasks[s.phase.task].error == e then 1 else 0
      else Owes(tasks, e)(y) == if step.Send? then 0 else Owes(tasks, e)(x)
  {
    if step.Send? {
      ClosedMeansDone(tasks, s, step.worker);
    }
  }

  /** Only a send changes what was received, by the error it sends. */
  lemma ReceivedStep(tasks: seq<Task>, s: State, step: Step, e: string)
    requires Shape(tasks, s) && GroupRight(s) && Enabled(tasks, s, step)
    ensures Received(Next(tasks, s, step), e) ==
            Received(s, e) + if step.Send? then Owes(tasks, e)(s.workers[step.worker]) else 0
  {
    if step.Send? {
      ClosedMeansDone(tasks, s, step.worker);
      CountSnoc(s.errs, tasks[s.workers[step.worker].task].error, e);
    }
  }

  /** A task waits for its start from the hand-over on, until the start adds it to those that ran. */
  lemma StartStep(tasks: seq<Task>, s: State, step: Step, i: nat)
    requires Shape(tasks, s) && Enabled(tasks, s, step)
    ensures multiset(Next(tasks, s, step).ran)[i] ==
            multiset(s.ran)[i] + if step.Start? then ToStart(i)(s.workers[step.worker]) else 0
    ensures ByWorker(step) ==>
      var x, y := s.workers[step.worker], Next(tasks, s, step).workers[step.worker];
      ToStart(i)(y) == if step.Invoke? then (if i == Handed(s) then 1 else 0) else if step.Start? then 0 else ToStart(i)(x)
    ensures step.Invoke? ==> ToStart(i)(s.workers[step.worker]) == 0
  {
    if step.Start? {
      assert multiset(s.ran + [s.workers[step.worker].task]) == multiset(s.ran) + multiset{s.workers[step.worker].task};
    }
  }

  lemma RunKept(tasks: seq<Task>, s: State, step: Step, i: nat)
    requires Shape(tasks, s) && Enabled(tasks, s, step)
    requires multiset(s.ran)[i] + Sum(s.workers, ToStart(i)) == if i < Handed(s) then 1 else 0
    requires Shape(tasks, Next(tasks, s, step))
    ensures
      var t := Next(tasks, s, step);
      multiset(t.ran)[i] + Sum(t.workers, ToStart(i)) == if i < Handed(t) then 1 else 0
  {
    hide Shape, Enabled, Next, Sum, ToStart;
    var t := Next(tasks, s, step);
    OneWorkerMoves(tasks, s, step);
    HandedStep(tasks, s, step);
    StartStep(tasks, s, step, i);
    if ByWorker(step) {
      SumUpdate(s.workers, ToStart(i), step.worker, t.workers[step.worker]);
    }
  }

  lemma RunsKept(tasks: seq<Task>, s: State, step: Step)
    requires Shape(tasks, s) && Enabled(tasks, s, step)
    requires RunsConserved(tasks, s)
    requires Shape(tasks, Next(tasks, s, step))
    ensures RunsConserved(tasks, Next(tasks, s, step))
  {
    hide Enabled, Next, Sum, ToStart;
    forall i: nat
      ensures
        var t := Next(tasks, s, step);
        multiset(t.ran)[i] + Sum(t.workers, ToStart(i)) == if i < Handed(t) then 1 else 0
    {
      RunKept(tasks, s, step, i);
    }
  }

  /** While tasks are handed over, only a hand-over changes how many workers hold an error. */
  lemma HoldsStep(tasks: seq<Task>, s: State, step: Step)
    requires Shape(tasks, s) && Enabled(tasks, s, step) && ByWorker(step) && Pushing(s)
    ensures
      var x, y := s.workers[step.worker], Next(tasks, s, step).workers[step.worker];
      if step.Invoke? then Holds(tasks)(x) == 0 && Holds(tasks)(y) == if TaskFails(tasks, s.phase.task) then 1 else 0
      else Holds(tasks)(y) == Holds(tasks)(x)
  {
  }

  /** Steps other than the hand-over neither begin nor resume handing over. */
  lemma PushingStep(tasks: seq<Task>, s: State, step: Step)
    requires Shape(tasks, s) && Enabled(tasks, s, step)
    ensures Pushing(Next(tasks, s, step)) ==> Pushing(s)
    ensures step.Invoke? ==> Pushing(s)
  {
  }

  /** A hand-over finds a free worker, so fewer workers than there are hold an error. */
  lemma InvokeHasRoom(tasks: seq<Task>, s: State, step: Step)
    requires Shape(tasks, s) && RoomLeft(tasks, s) && Enabled(tasks, s, step) && step.Invoke?
    ensures Failing(tasks, Handed(s)) < WORKERS
  {
    assert Holds(tasks)(s.workers[step.worker]) == 0;
    SumBelow(s.workers, Holds(tasks));
  }

  lemma RoomKept(tasks: seq<Task>, s: State, step: Step)
    requires Shape(tasks, s) && GroupRight(s) && Enabled(tasks, s, step)
    requires RoomLeft(tasks, s)
    requires Shape(tasks, Next(tasks, s, step))
    ensures RoomLeft(tasks, Next(tasks, s, step))
  {
    var t := Next(tasks, s, step);
    OneWorkerMoves(tasks, s, step);
    HandedStep(tasks, s, step);
    PushingStep(tasks, s, step);
    if step.Invoke? {
      InvokeHasRoom(tasks, s, step);
    }
    hide Shape, GroupRight, Enabled, Next, Sum, Holds, Pushing, TaskFails;
    if ByWorker(step) && Pushing(s) {
      HoldsStep(tasks, s, step);
      SumUpdate(s.workers, Holds(tasks), step.worker, t.workers[step.worker]);
    }
  }

  /** Every step of every interleaving keeps the invariant. */
  lemma StepKeeps(tasks: seq<Task>, s: State, step: Step)
    requires Inv(tasks, s) && Enabled(tasks, s, step)
    ensures Inv(tasks, Next(tasks, s, step))
  {
    ShapeKept(tasks, s, step);
    GroupKept(tasks, s, step);
    ErrorsKept(tasks, s, step);
    RunsKept(tasks, s, step);
    RoomKept(tasks, s, step);
  }

  lemma {:induction false} InvHolds(tasks: seq<Task>, steps: seq<Step>)
    requires Run(tasks, steps).Some?
    ensures Inv(tasks, Run(tasks, steps).value)
  {
    if steps == [] {
      InitInv(tasks);
    } else {
      var last := |steps| - 1;
      InvHolds(tasks, steps[..last]);
      StepKeeps(tasks, Run(tasks, steps[..last]).value, steps[last]);
    }
  }

  /** No run panics: nobody sends on the closed channel, and the wait group never goes below zero. */
  lemma NeverPanics(tasks: seq<Task>, steps: seq<Step>)
    requires Run(tasks, steps).Some?
    ensures !Run(tasks, steps).value.panicked && Run(tasks, steps).value.group >= 0
  {
    InvHolds(tasks, steps);
  }

  // Every run ends

  function Left(phase: Phase): nat {
    match phase
    case Popping => 2
    case Invoking(_) => 8
    case Receiving => 1
    case Over => 0
  }

  function CloserLeft(closer: Closer): nat {
    match closer
    case Unstarted => 3
    case Waiting => 2
    case Woken => 1
    case Closed => 0
  }

  /** Steps a run can still take. */
  function Measure(tasks: seq<Task>, s: State): int {
    7 * (|tasks| - s.popped) + Left(s.phase) + CloserLeft(s.closer) + Sum(s.workers, Ahead)
  }

  /** A worker's step takes it one further, a hand-over sets it five steps before its end. */
  lemma AheadStep(tasks: seq<Task>, s: State, step: Step)
    requires Shape(tasks, s) && GroupRight(s) && Enabled(tasks, s, step) && ByWorker(step)
    ensures
      var x, y := s.workers[step.worker], Next(tasks, s, step).workers[step.worker];
      if step.Invoke? then Ahead(x) == 0 && Ahead(y) == 5 else Ahead(y) < Ahead(x)
  {
    if step.Send? {
      ClosedMeansDone(tasks, s, step.worker);
    }
  }

  /** What else of the measure a step changes. */
  lemma RestStep(tasks: seq<Task>, s: State, step: Step)
    requires Shape(tasks, s) && Enabled(tasks, s, step)
    ensures
      var t := Next(tasks, s, step);
      var before, after :=
        7 * (|tasks| - s.popped) + Left(s.phase) + CloserLeft(s.closer),
        7 * (|tasks| - t.popped) + Left(t.phase) + CloserLeft(t.closer);
      && 0 <= after && t.popped <= |tasks|
      && if step.Invoke? then after == before - 6 else if ByWorker(step) then after == before else after < before
  {
  }

  lemma StepGoesDown(tasks: seq<Task>, s: State, step: Step)
    requires Shape(tasks, s) && GroupRight(s) && Enabled(tasks, s, step)
    ensures 0 <= Measure(tasks, Next(tasks, s, step)) < Measure(tasks, s)
  {
    var t := Next(tasks, s, step);
    OneWorkerMoves(tasks, s, step);
    RestStep(tasks, s, step);
    if ByWorker(step) {
      AheadStep(tasks, s, step);
    }
    hide Shape, GroupRight, Enabled, Next, Sum, Ahead, Left, CloserLeft;
    if ByWorker(step) {
      SumUpdate(s.workers, Ahead, step.worker, t.workers[step.worker]);
    }
  }

  /** No interleaving runs on for ever: a run of n tasks has at most 7n + 5 steps. */
  lemma {:induction false} RunsAreShort(tasks: seq<Task>, steps: seq<Step>)
    requires Run(tasks, steps).Some?
    ensures |steps| + Measure(tasks, Run(tasks, steps).value) <= 7 * |tasks| + 5
    ensures |steps| <= 7 * |tasks| + 5
  {
    if steps == [] {
      SumAll(Init().workers, Ahead, 0);
    } else {
      var last := |steps| - 1;
      RunsAreShort(tasks, steps[..last]);
      InvHolds(tasks, steps[..last]);
      StepGoesDown(tasks, Run(tasks, steps[..last]).value, steps[last]);
    }
  }

  // Where runs end

  ghost predicate Terminal(tasks: seq<Task>, s: State) {
    forall step :: !Enabled(tasks, s, step)
  }

  lemma {:induction false} FailingGrows(tasks: seq<Task>, m: nat, n: nat)
    requires m <= n
    ensures Failing(tasks, m) <= Failing(tasks, n)
  {
    if m < n {
      FailingGrows(tasks, m, n - 1);
    }
  }

  /** A run that cannot go on and is not over waits in Invoke while five workers wait to send. */
  lemma StuckInInvoke(tasks: seq<Task>, s: State)
    requires Inv(tasks, s) && Terminal(tasks, s) && !s.phase.Over?
    ensures s.phase.Invoking?
    ensures Sum(s.workers, Holds(tasks)) == WORKERS
  {
    hide ErrorsConserved, RunsConserved, RoomLeft;
    forall w | 0 <= w < WORKERS
      ensures s.workers[w].Idle? || s.workers[w].Sending?
    {
      NoWorkerStep(tasks, s, w);
    }
    assert !Enabled(tasks, s, Pop) && !Enabled(tasks, s, Wake) && !Enabled(tasks, s, Close) && !Enabled(tasks, s, End);
    if s.phase.Receiving? {
      forall w | 0 <= w < WORKERS
        ensures Counted(s.workers[w]) == 0
      {
        assert !Enabled(tasks, s, Send(w));
      }
      SumAll(s.workers, Counted, 0);
    } else {
      forall w | 0 <= w < WORKERS
        ensures Holds(tasks)(s.workers[w]) == 1
      {
        assert !Enabled(tasks, s, Invoke(w));
      }
      SumAll(s.workers, Holds(tasks), 1);
    }
  }

  lemma NoWorkerStep(tasks: seq<Task>, s: State, w: nat)
    requires Terminal(tasks, s) && w < |s.workers|
    ensures s.workers[w].Idle? || s.workers[w].Sending?
  {
    assert !Enabled(tasks, s, Start(w)) && !Enabled(tasks, s, Return(w));
    assert !Enabled(tasks, s, Done(w)) && !Enabled(tasks, s, Release(w));
  }

  lemma FinishesByCount(tasks: seq<Task>, steps: seq<Step>)
    requires Run(tasks, steps).Some? && Terminal(tasks, Run(tasks, steps).value)
    ensures Run(tasks, steps).value.phase.Over? <==> Failing(tasks, if tasks == [] then 0 else |tasks| - 1) < WORKERS
  {
    InvHolds(tasks, steps);
    var s := Run(tasks, steps).value;
    hide ErrorsConserved, RunsConserved, GroupRight, Run;
    if !s.phase.Over? {
      StuckInInvoke(tasks, s);
      FailingGrows(tasks, Handed(s), |tasks| - 1);
    }
  }

  /**
   Every interleaving that can go no further has finished exactly when fewer than five tasks ahead
   of the last one fail; otherwise it hangs.
   */
  lemma FinishesExactly(tasks: seq<Task>, steps: seq<Step>)
    requires Run(tasks, steps).Some? && Terminal(tasks, Run(tasks, steps).value)
    ensures Run(tasks, steps).value.phase.Over? <==> |set i | 0 <= i < |tasks| - 1 && tasks[i].Fails?| < 5
  {
    hide Run, Terminal, Failing;
    FinishesByCount(tasks, steps);
    FailingAhead(tasks);
  }

  /** The run can go no further and is not over. */
  ghost predicate Hangs(tasks: seq<Task>, steps: seq<Step>) {
    && Run(tasks, steps).Some?
    && Terminal(tasks, Run(tasks, steps).value)
    && !Run(tasks, steps).value.phase.Over?
  }

  /** Any run can be taken to an end. */
  lemma {:induction false} RunToTheEnd(tasks: seq<Task>, steps: seq<Step>) returns (whole: seq<Step>)
    requires Run(tasks, steps).Some?
    ensures Run(tasks, whole).Some? && Terminal(tasks, Run(tasks, whole).value)
    decreases 7 * |tasks| + 5 - |steps|
  {
    if Terminal(tasks, Run(tasks, steps).value) {
      whole := steps;
    } else {
      var step :| Enabled(tasks, Run(tasks, steps).value, step);
      var longer := steps + [step];
      assert longer[..|steps|] == steps;
      RunsAreShort(tasks, longer);
      whole := RunToTheEnd(tasks, longer);
    }
  }

  /** Some interleaving hangs exactly when five or more of the tasks ahead of the last one fail. */
  lemma HangsExactly(tasks: seq<Task>)
    ensures (exists steps :: Hangs(tasks, steps)) <==> |set i | 0 <= i < |tasks| - 1 && tasks[i].Fails?| >= 5
  {
    hide Terminal, Enabled, Failing;
    if steps :| Hangs(tasks, steps) {
      FinishesExactly(tasks, steps);
    }
    var whole := RunToTheEnd(tasks, []);
    FinishesExactly(tasks, whole);
    assert !Run(tasks, whole).value.phase.Over? ==> Hangs(tasks, whole);
  }

  /** With fewer than five failing tasks no interleaving hangs. */
  lemma FewFailuresNeverHang(tasks: seq<Task>, steps: seq<Step>)
    requires Run(tasks, steps).Some? && Terminal(tasks, Run(tasks, steps).value)
    requires |set i | 0 <= i < |tasks| && tasks[i].Fails?| < 5
    ensures Run(tasks, steps).value.phase.Over?
  {
    FailingExactly(tasks, |tasks|);
    FailingGrows(tasks, if tasks == [] then 0 else |tasks| - 1, |tasks|);
    FinishesByCount(tasks, steps);
  }

  /** A finished run has run every task once, and its handler has got exactly the raised errors, if any. */
  lemma FinishedRunIsComplete(tasks: seq<Task>, steps: seq<Step>)
    requires Run(tasks, steps).Some? && Run(tasks, steps).value.phase.Over?
    ensures forall i: nat :: multiset(Run(tasks, steps).value.ran)[i] == if i < |tasks| then 1 else 0
    ensures
      match Run(tasks, steps).value.handled
      case Some(errs) =>
        errs != [] && forall e :: multiset(errs)[e] == |set i | 0 <= i < |tasks| && tasks[i] == Fails(e)|
      case None => forall i | 0 <= i < |tasks| :: tasks[i].Returns?
  {
    InvHolds(tasks, steps);
    var s := Run(tasks, steps).value;
    hide Run, RoomLeft;
    forall w | 0 <= w < |s.workers|
      ensures Counted(s.workers[w]) == 0
    {
      if Counted(s.workers[w]) == 1 {
        ClosedMeansDone(tasks, s, w);
      }
    }
    hide GroupRight;
    forall i: nat
      ensures multiset(s.ran)[i] == if i < |tasks| then 1 else 0
    {
      assert forall w | 0 <= w < |s.workers| :: Counted(s.workers[w]) == 0 ==> ToStart(i)(s.workers[w]) == 0;
      SumAll(s.workers, ToStart(i), 0);
    }
    forall e
      ensures Received(s, e) == RaisedBy(tasks, |tasks|, e)
    {
      assert forall w | 0 <= w < |s.workers| :: Counted(s.workers[w]) == 0 ==> Owes(tasks, e)(s.workers[w]) == 0;
      SumAll(s.workers, Owes(tasks, e), 0);
    }
    assert forall e :: multiset(s.errs)[e] == Received(s, e) && multiset(Raised(tasks, |tasks|))[e] == RaisedBy(tasks, |tasks|, e);
    SameErrors(s.errs, Raised(tasks, |tasks|));
    forall e
      ensures multiset(Raised(tasks, |tasks|))[e] == |set i | 0 <= i < |tasks| && tasks[i] == Fails(e)|
    {
      RaisedExactly(tasks, |tasks|, e);
    }
    NothingRaised(tasks, |tasks|);
  }

  lemma {:induction false} NothingRaised(tasks: seq<Task>, n: nat)
    requires n <= |tasks|
    ensures Raised(tasks, n) == [] <==> forall i | 0 <= i < n :: tasks[i].Returns?
  {
    if n > 0 {
      NothingRaised(tasks, n - 1);
    }
  }

  lemma SameErrors(a: seq<string>, b: seq<string>)
    requires forall e :: multiset(a)[e] == multiset(b)[e]
    ensures multiset(a) == multiset(b) && (a == [] <==> b == [])
  {
    assert a != [] ==> multiset(a)[a[0]] > 0;
    assert b != [] ==> multiset(b)[b[0]] > 0;
  }

  /** What a caller may hand in: a function of one of the two kinds, nothing, or some other value. */
  datatype Item = Nil | Other | Fn(task: Task)

  /** The functions among what was handed in: the tasks of a run. */
  function TasksOf(items: seq<Item>): (tasks: seq<Task>)
    ensures |tasks| <= |items|
  {
    if items == [] then []
    else TasksOf(items[..|items| - 1]) + if items[|items| - 1].Fn? then [items[|items| - 1].task] else []
  }

  /** The tasks are the functions at ascending places, none left out. */
  ghost predicate ArePlaces(items: seq<Item>, tasks: seq<Task>, places: seq<nat>) {
    && |places| == |tasks|
    && (forall i: nat :: i in places <==> i < |items| && items[i].Fn?)
    && (forall k | 0 <= k < |places| :: places[k] < |items| && items[places[k]] == Fn(tasks[k]))
    && (forall j, k | 0 <= j < k < |places| :: places[j] < places[k])
  }

  lemma {:induction false} TasksInOrder(items: seq<Item>) returns (places: seq<nat>)
    ensures ArePlaces(items, TasksOf(items), places)
  {
    if items == [] {
      places := [];
    } else {
      hide ArePlaces;
      var last := |items| - 1;
      places := TasksInOrder(items[..last]);
      PlacesSnoc(items[..last], items[last], TasksOf(items[..last]), places);
      assert items == items[..last] + [items[last]];
      if items[last].Fn? {
        places := places + [last];
      } else {
        assert TasksOf(items) == TasksOf(items[..last]);
      }
    }
  }

  lemma PlacesSnoc(items: seq<Item>, x: Item, tasks: seq<Task>, places: seq<nat>)
    requires ArePlaces(items, tasks, places)
    ensures if x.Fn? then ArePlaces(items + [x], tasks + [x.task], places + [|items|]) else ArePlaces(items + [x], tasks, places)
  {
    assert forall k | 0 <= k < |places| :: places[k] in places;
    if x.Fn? {
      var more := places + [|items|];
      forall i: nat
        ensures i in more <==> i < |items| + 1 && (items + [x])[i].Fn?
      {
        assert i in more <==> i in places || i == |items|;
      }
    }
  }

  class TaskList {
    var list: seq<Task>

    constructor ()
      ensures list == []
    {
      list := [];
    }

    /** Anything that is not a function of the two kinds is dropped silently. */
    method Push(fn: Item)
      modifies this
      ensures list == old(list) + if fn.Fn? then [fn.task] else []
    {
      match fn
      case Nil =>
      case Other =>
      case Fn(task) => list := list + [task];
    }

    /** Tasks leave in the order they were pushed; nothing is returned only when none is left. */
    method Pop() returns (next: Option<Task>)
      modifies this
      ensures next == None <==> old(list) == []
      ensures old(list) == (if next == None then [] else [next.value]) + list
    {
      if |list| == 0 {
        return None;
      }
      next := Some(list[0]);
      list := list[1..];
    }
  }

  /**
   Pushing, then popping n times as a run does: the first n functions among what was pushed come
   out in order, which is what a run counts as popped, and nothing exactly when they are used up.
   */
  method PushThenPop(items: seq<Item>, n: nat) returns (popped: seq<Task>, exhausted: bool)
    ensures popped == TasksOf(items)[..if n <= |TasksOf(items)| then n else |TasksOf(items)|]
    ensures exhausted <==> n > |TasksOf(items)|
  {
    var tasks := new TaskList();
    for i := 0 to |items|
      invariant fresh(tasks) && tasks.list == TasksOf(items[..i])
    {
      assert items[..i + 1][..i] == items[..i];
      tasks.Push(items[i]);
    }
    assert items[..|items|] == items;
    popped, exhausted := [], false;
    ghost var all := tasks.list;
    for i := 0 to n
      invariant fresh(tasks) && all == popped + tasks.list
      invariant |popped| == if i <= |all| then i else |all|
      invariant exhausted <==> i > |all|
    {
      var next := tasks.Pop();
      if next == None {
        exhausted := true;
      } else {
        popped := popped + [next.value];
      }
    }
  }
}
