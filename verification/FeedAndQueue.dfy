/**
 The block feed joined to the work queue: each publication of the subscriber is one attempt to
 enqueue, whose error the subscriber ignores, and a worker looks at the mark once it stored its block.
 */
module FeedAndQueue {
  import F = BlockFeed
  import Q = WorkerQueue

  datatype State = State(feed: F.State, queue: Q.State)

  /** A step of the feed, with the queue's answer if it publishes, or one of the queue and its workers. */
  datatype Step = FeedStep(step: F.Step, enqueued: bool) | QueueStep(work: Q.Step)

  ghost predicate NextStep(s: State, t: State, step: Step) {
    match step
    case FeedStep(PublishStep, enqueued) =>
      && F.NextStep(s.feed, t.feed, F.PublishStep)
      && t.queue == Q.PublishOn(s.queue, s.feed.sub.loop.i, enqueued)
    case FeedStep(ReadMarkStep(block), _) =>
      block in s.queue.stored && t.feed == F.ReadMark(s.feed, block) && t.queue == s.queue
    case FeedStep(step, _) => F.NextStep(s.feed, t.feed, step) && t.queue == s.queue
    case QueueStep(step) => !step.Publish? && Q.NextStep(s.queue, t.queue, step) && t.feed == s.feed
  }

  ghost predicate Behaviour(trace: seq<State>, steps: seq<Step>, mark: nat) {
    && |trace| == |steps| + 1
    && F.Init(trace[0].feed, mark) && trace[0].queue == Q.EMPTY
    && forall i | 0 <= i < |steps| :: NextStep(trace[i], trace[i + 1], steps[i])
  }

  lemma StepAt(trace: seq<State>, steps: seq<Step>, mark: nat, k: nat)
    requires Behaviour(trace, steps, mark) && k < |steps|
    ensures |trace| == |steps| + 1 && NextStep(trace[k], trace[k + 1], steps[k])
  {
    hide NextStep;
  }

  // What the two keep together

  /** Blocks are stored only after they were accepted, and accepted only after they were published. */
  ghost predicate Within(s: State) {
    && (forall b | b in s.queue.stored :: b in s.queue.accepted)
    && (forall b | b in s.queue.accepted :: b in s.feed.published)
  }

  ghost predicate Inv(s: State, lo: nat, hi: nat) {
    F.Inv(s.feed, lo, hi) && Q.Inv(s.queue) && Within(s)
  }

  lemma WorkingIsAccepted(q: Q.State, block: nat)
    requires Q.Inv(q) && block in q.working
    ensures block in q.accepted
  {
    assert q.accepted[block] == q.queued[block] + q.working[block] + q.finished[block] + q.lost[block];
  }

  lemma QueueWithin(s: State, t: State, step: Q.Step)
    requires Within(s) && Q.Inv(s.queue) && NextStep(s, t, QueueStep(step))
    ensures Within(t)
  {
    if step.Work? {
      WorkingIsAccepted(s.queue, step.block);
    }
  }

  lemma PublishWithin(s: State, t: State, enqueued: bool)
    requires Within(s) && NextStep(s, t, FeedStep(F.PublishStep, enqueued))
    ensures Within(t)
  {
  }

  /** What a worker stored was published, so its look at the mark is a step of the feed. */
  lemma WorkersFillPublished(s: State, t: State, step: Step)
    requires Within(s) && NextStep(s, t, step) && step.FeedStep?
    ensures F.NextStep(s.feed, t.feed, step.step)
  {
  }

  lemma FeedKeepsPublished(s: F.State, t: F.State, step: F.Step)
    requires F.NextStep(s, t, step)
    ensures s.published <= t.published
  {
  }

  lemma StepKeeps(s: State, t: State, step: Step, lo: nat, hi: nat) returns (hi': nat)
    requires Inv(s, lo, hi) && NextStep(s, t, step)
    ensures Inv(t, lo, hi')
  {
    match step
    case QueueStep(q) =>
      hi' := hi;
      QueueWithin(s, t, q);
      hide F.Inv, Q.Inv, Within, Q.NextStep;
      Q.StepKeeps(s.queue, t.queue, q);
    case FeedStep(f, enqueued) =>
      WorkersFillPublished(s, t, step);
      FeedKeepsPublished(s.feed, t.feed, f);
      if f.PublishStep? {
        PublishWithin(s, t, enqueued);
        Q.PublishKeeps(s.queue, s.feed.sub.loop.i, enqueued);
      }
      hide F.Inv, Q.Inv, F.NextStep, Q.PublishOn;
      hi' := F.StepKeeps(s.feed, t.feed, f, lo, hi);
  }

  lemma InitInv(s: State, mark: nat)
    requires F.Init(s.feed, mark) && s.queue == Q.EMPTY
    ensures Inv(s, mark, mark)
  {
    F.InitInv(s.feed, mark);
    Q.EmptyInv();
  }

  lemma {:induction false} InvHolds(trace: seq<State>, steps: seq<Step>, mark: nat, k: nat) returns (hi: nat)
    requires Behaviour(trace, steps, mark) && k < |trace|
    ensures Inv(trace[k], mark, hi)
  {
    hide Inv, NextStep;
    if k == 0 {
      InitInv(trace[0], mark);
      hi := mark;
    } else {
      var before := InvHolds(trace, steps, mark, k - 1);
      StepAt(trace, steps, mark, k - 1);
      hide Behaviour;
      hi := StepKeeps(trace[k - 1], trace[k], steps[k - 1], mark, before);
    }
  }

  /**
   In every run of both, the published blocks are safe as they are for the feed alone, only published
   blocks are ever accepted or stored, and without failed enqueues each accepted one is queued, worked
   on or stored.
   */
  lemma JointIsSafe(trace: seq<State>, steps: seq<Step>, mark: nat, k: nat)
    requires Behaviour(trace, steps, mark) && k < |trace|
    ensures F.Safe(trace[k].feed, mark) && Within(trace[k])
    ensures var q := trace[k].queue; q.accepted == q.queued + q.working + q.finished + q.lost
    ensures forall b | b in trace[k].queue.accepted && b !in trace[k].queue.lost ::
      b in trace[k].queue.queued || b in trace[k].queue.working || b in trace[k].queue.stored
  {
    var hi := InvHolds(trace, steps, mark, k);
    hide Behaviour;
    F.InvIsSafe(trace[k].feed, mark, hi);
    hide F.Inv, F.Safe;
    var q := trace[k].queue;
    assert q.accepted == q.queued + q.working + q.finished + q.lost;
  }

  // Publications of one block

  /** Step j publishes the block. */
  ghost predicate Publishes(trace: seq<State>, steps: seq<Step>, j: nat, block: nat) {
    && j < |steps| && j < |trace|
    && steps[j].FeedStep? && steps[j].step.PublishStep?
    && trace[j].feed.sub.loop.At? && trace[j].feed.sub.loop.i == block
  }

  ghost predicate Restarts(steps: seq<Step>, j: nat) {
    j < |steps| && steps[j].FeedStep? && steps[j].step.RestartStep?
  }

  /** Step j begins a subscriber run by reading the mark. */
  ghost predicate ReadsMark(trace: seq<State>, steps: seq<Step>, j: nat) {
    && j < |steps| && j < |trace|
    && steps[j].FeedStep? && steps[j].step.WakeStep? && trace[j].feed.sub.lastBlock == 0
  }

  lemma RunOfStep(s: State, t: State, step: Step)
    requires NextStep(s, t, step) && !(step.FeedStep? && step.step.RestartStep?)
    ensures s.feed.sub.run <= t.feed.sub.run
    ensures step.FeedStep? && step.step.PublishStep? ==>
      s.feed.sub.loop.At? && t.feed.sub.run == s.feed.sub.run + [s.feed.sub.loop.i]
  {
  }

  /** Until a restart the list of published blocks only grows. */
  lemma {:induction false} RunGrows(trace: seq<State>, steps: seq<Step>, mark: nat, i: nat, j: nat)
    requires Behaviour(trace, steps, mark) && i <= j < |trace|
    requires forall r: nat | i <= r < j :: !Restarts(steps, r)
    ensures trace[i].feed.sub.run <= trace[j].feed.sub.run
    decreases j
  {
    hide NextStep;
    if i < j {
      RunGrows(trace, steps, mark, i, j - 1);
      StepAt(trace, steps, mark, j - 1);
      assert !Restarts(steps, j - 1);
      RunOfStep(trace[j - 1], trace[j], steps[j - 1]);
    }
  }

  /** Whatever became of it in the queue, a positive block is published once in a subscriber run. */
  lemma PublishedOncePerRun(trace: seq<State>, steps: seq<Step>, mark: nat, i: nat, j: nat, block: nat)
    requires Behaviour(trace, steps, mark) && i < j < |steps|
    requires Publishes(trace, steps, i, block) && Publishes(trace, steps, j, block)
    requires forall r: nat | i < r < j :: !Restarts(steps, r)
    ensures block == 0
  {
    StepAt(trace, steps, mark, i);
    StepAt(trace, steps, mark, j);
    RunOfStep(trace[i], trace[i + 1], steps[i]);
    RunOfStep(trace[j], trace[j + 1], steps[j]);
    RunGrows(trace, steps, mark, i + 1, j);
    var hi := InvHolds(trace, steps, mark, j + 1);
    hide Behaviour, NextStep;
    var run, n, m := trace[j + 1].feed.sub.run, |trace[i].feed.sub.run|, |trace[j].feed.sub.run|;
    assert trace[i + 1].feed.sub.run[n] == block;
    assert run[n] == block && run[m] == block && n < m;
  }

  /** The current run read the mark at or below its position. */
  ghost predicate StartedBelow(trace: seq<State>, steps: seq<Step>, k: nat, block: nat) {
    exists r: nat :: r < k && ReadsMark(trace, steps, r) && trace[r].feed.mark <= block &&
      forall q: nat | r < q < k :: !Restarts(steps, q)
  }

  /** Where a run stands is at or above the mark it began with. */
  ghost predicate Grounded(trace: seq<State>, steps: seq<Step>, k: nat)
    requires k < |trace|
  {
    var sub := trace[k].feed.sub;
    && (sub.loop.At? ==> StartedBelow(trace, steps, k, sub.loop.i))
    && (sub.lastBlock > 0 ==> StartedBelow(trace, steps, k, sub.lastBlock))
  }

  lemma StartedBelowLater(trace: seq<State>, steps: seq<Step>, k: nat, block: nat, more: nat)
    requires StartedBelow(trace, steps, k, block) && block <= more && k < |steps| && !Restarts(steps, k)
    ensures StartedBelow(trace, steps, k + 1, more)
  {
    hide Restarts;
    var r: nat :| r < k && ReadsMark(trace, steps, r) && trace[r].feed.mark <= block &&
      forall q: nat | r < q < k :: !Restarts(steps, q);
    assert forall q: nat | r < q < k + 1 :: !Restarts(steps, q);
  }

  lemma StartsHere(trace: seq<State>, steps: seq<Step>, k: nat, block: nat)
    requires ReadsMark(trace, steps, k) && trace[k].feed.mark <= block
    ensures StartedBelow(trace, steps, k + 1, block)
  {
  }

  /** How a step that is no restart moves the subscriber. */
  lemma SubOfStep(s: State, t: State, step: Step)
    requires NextStep(s, t, step) && !(step.FeedStep? && step.step.RestartStep?)
    ensures
      var a, b := s.feed.sub, t.feed.sub;
      if step.FeedStep? && step.step.PublishStep? then
        a.loop.At? && b.lastBlock == a.loop.i && b.loop == F.At(a.loop.i + 1)
      else if step.FeedStep? && step.step.WakeStep? then
        b.lastBlock == a.lastBlock &&
        (b.loop.At? ==> b.loop.i == if a.lastBlock > 0 then a.lastBlock + 1 else s.feed.mark)
      else b.lastBlock == a.lastBlock && (b.loop.At? ==> b.loop == a.loop)
  {
  }

  lemma FreshIsGrounded(trace: seq<State>, steps: seq<Step>, k: nat)
    requires k < |trace| && trace[k].feed.sub == F.FRESH
    ensures Grounded(trace, steps, k)
  {
  }

  lemma GroundedStep(trace: seq<State>, steps: seq<Step>, mark: nat, k: nat)
    requires Behaviour(trace, steps, mark) && k < |steps| && Grounded(trace, steps, k)
    ensures Grounded(trace, steps, k + 1)
  {
    StepAt(trace, steps, mark, k);
    if Restarts(steps, k) {
      FreshIsGrounded(trace, steps, k + 1);
    } else {
      SubOfStep(trace[k], trace[k + 1], steps[k]);
      hide Behaviour, NextStep, StartedBelow;
      var a, b := trace[k].feed.sub, trace[k + 1].feed.sub;
      if b.lastBlock > 0 {
        StartedBelowLater(trace, steps, k, b.lastBlock, b.lastBlock);
      }
      if b.loop.At? {
        if ReadsMark(trace, steps, k) {
          StartsHere(trace, steps, k, b.loop.i);
        } else {
          StartedBelowLater(trace, steps, k, if a.loop.At? then a.loop.i else a.lastBlock, b.loop.i);
        }
      }
    }
  }

  lemma {:induction false} AlwaysGrounded(trace: seq<State>, steps: seq<Step>, mark: nat, k: nat)
    requires Behaviour(trace, steps, mark) && k < |trace|
    ensures Grounded(trace, steps, k)
  {
    hide NextStep, Grounded;
    if k == 0 {
      FreshIsGrounded(trace, steps, 0);
    } else {
      AlwaysGrounded(trace, steps, mark, k - 1);
      GroundedStep(trace, steps, mark, k - 1);
    }
  }

  /** Every publication is of a block at or above the mark its own subscriber run began with. */
  lemma PublishedFromMark(trace: seq<State>, steps: seq<Step>, mark: nat, j: nat, block: nat)
    requires Behaviour(trace, steps, mark) && Publishes(trace, steps, j, block)
    ensures StartedBelow(trace, steps, j, block)
  {
    AlwaysGrounded(trace, steps, mark, j);
  }

  lemma AcceptedOfStep(s: State, t: State, step: Step, block: nat)
    requires NextStep(s, t, step) && block !in s.queue.accepted
    ensures block in t.queue.accepted ==> step.FeedStep? && step.step.PublishStep? && s.feed.sub.loop == F.At(block)
  {
  }

  /** A block is accepted by a publication of it only. */
  lemma {:induction false} AcceptedByPublication(trace: seq<State>, steps: seq<Step>, mark: nat, i: nat, k: nat, block: nat)
    requires Behaviour(trace, steps, mark) && i <= k < |trace| && block !in trace[i].queue.accepted
    requires forall j: nat | i <= j < k :: !Publishes(trace, steps, j, block)
    ensures block !in trace[k].queue.accepted
    decreases k
  {
    hide NextStep;
    if i < k {
      AcceptedByPublication(trace, steps, mark, i, k - 1, block);
      StepAt(trace, steps, mark, k - 1);
      AcceptedOfStep(trace[k - 1], trace[k], steps[k - 1], block);
      assert !Publishes(trace, steps, k - 1, block);
    }
  }

  /**
   A positive block whose publication was dropped stays out: it is not published again in that run,
   and unless a later run reads a mark at or below it, it is never accepted and never stored.
   */
  lemma DroppedStaysOut(trace: seq<State>, steps: seq<Step>, mark: nat, i: nat, k: nat, block: nat)
    requires Behaviour(trace, steps, mark) && i < k < |trace|
    requires Publishes(trace, steps, i, block) && block > 0 && block !in trace[i + 1].queue.accepted
    requires forall r: nat | i < r < k && ReadsMark(trace, steps, r) :: trace[r].feed.mark > block
    ensures forall j: nat | i < j < k :: !Publishes(trace, steps, j, block)
    ensures block !in trace[k].queue.accepted && block !in trace[k].queue.stored
  {
    hide NextStep, Restarts, ReadsMark, Publishes;
    forall j: nat | i < j < k
      ensures !Publishes(trace, steps, j, block)
    {
      NotPublishedAgain(trace, steps, mark, i, k, j, block);
    }
    AcceptedByPublication(trace, steps, mark, i + 1, k, block);
    JointIsSafe(trace, steps, mark, k);
  }

  lemma NotPublishedAgain(trace: seq<State>, steps: seq<Step>, mark: nat, i: nat, k: nat, j: nat, block: nat)
    requires Behaviour(trace, steps, mark) && i < j < k < |trace| && Publishes(trace, steps, i, block) && block > 0
    requires forall r: nat | i < r < k && ReadsMark(trace, steps, r) :: trace[r].feed.mark > block
    ensures !Publishes(trace, steps, j, block)
  {
    if forall r: nat | i < r < j :: !Restarts(steps, r) {
      if Publishes(trace, steps, j, block) {
        PublishedOncePerRun(trace, steps, mark, i, j, block);
      }
    } else {
      var q: nat :| i < q < j && Restarts(steps, q);
      NoLowStart(trace, steps, q, k, j, block);
      if Publishes(trace, steps, j, block) {
        PublishedFromMark(trace, steps, mark, j, block);
      }
    }
  }

  lemma NoLowStart(trace: seq<State>, steps: seq<Step>, i: nat, k: nat, j: nat, block: nat)
    requires i < j < k < |trace| && Restarts(steps, i)
    requires forall r: nat | i < r < k && ReadsMark(trace, steps, r) :: trace[r].feed.mark > block
    ensures !StartedBelow(trace, steps, j, block)
  {
    assert !ReadsMark(trace, steps, i);
    forall r: nat | r < j && ReadsMark(trace, steps, r) && forall q: nat | r < q < j :: !Restarts(steps, q)
      ensures trace[r].feed.mark > block
    {
    }
  }

  // A hole

  lemma OneState(mark: nat) returns (trace: seq<State>)
    ensures Behaviour(trace, [], mark) && trace == [State(F.State(F.FRESH, mark, multiset{}, {}, {}), Q.EMPTY)]
  {
    trace := [State(F.State(F.FRESH, mark, multiset{}, {}, {}), Q.EMPTY)];
  }

  lemma AndThen(trace: seq<State>, steps: seq<Step>, mark: nat, step: Step, t: State)
    returns (longer: seq<State>, more: seq<Step>)
    requires Behaviour(trace, steps, mark) && trace != [] && NextStep(trace[|trace| - 1], t, step)
    ensures Behaviour(longer, more, mark) && longer == trace + [t] && more == steps + [step]
  {
    hide NextStep;
    longer, more := trace + [t], steps + [step];
    forall i | 0 <= i < |more|
      ensures NextStep(longer[i], longer[i + 1], more[i])
    {
      if i < |steps| {
        assert NextStep(trace[i], trace[i + 1], steps[i]);
      }
    }
  }

  /** Two blocks published from the mark on, the first of them dropped and the second accepted. */
  lemma FirstDropped(mark: nat) returns (trace: seq<State>, steps: seq<Step>)
    ensures Behaviour(trace, steps, mark) && trace != []
    ensures trace[|trace| - 1] == State(
      F.State(F.Subscriber(mark + 1, mark + 3, false, false, F.At(mark + 2), false, [mark, mark + 1]),
              mark, multiset{}, {mark, mark + 1}, {mark + 3}),
      Q.PublishOn(Q.PublishOn(Q.EMPTY, mark, false), mark + 1, true))
  {
    hide Behaviour, Q.PublishOn;
    var heads: set<nat> := {mark + 3};
    var sub := F.FRESH.(finalized := mark + 3);
    var q1 := Q.PublishOn(Q.EMPTY, mark, false);
    steps := [];
    trace := OneState(mark);
    trace, steps := AndThen(trace, steps, mark, FeedStep(F.HeadStep(mark + 3), false),
      State(F.State(sub.(sending := true), mark, multiset{}, {}, heads), Q.EMPTY));
    trace, steps := AndThen(trace, steps, mark, FeedStep(F.SignalStep, false),
      State(F.State(sub.(newHead := true), mark, multiset{}, {}, heads), Q.EMPTY));
    trace, steps := AndThen(trace, steps, mark, FeedStep(F.WakeStep, false),
      State(F.State(sub.(loop := F.At(mark)), mark, multiset{}, {}, heads), Q.EMPTY));
    trace, steps := AndThen(trace, steps, mark, FeedStep(F.PublishStep, false),
      State(F.State(F.Subscriber(mark, mark + 3, false, false, F.At(mark + 1), false, [mark]),
                    mark, multiset{}, {mark}, heads), q1));
    trace, steps := AndThen(trace, steps, mark, FeedStep(F.PublishStep, true),
      State(F.State(F.Subscriber(mark + 1, mark + 3, false, false, F.At(mark + 2), false, [mark, mark + 1]),
                    mark, multiset{}, {mark, mark + 1}, heads), Q.PublishOn(q1, mark + 1, true)));
  }

  /**
   A hole can form at every mark: the block at the mark was published and dropped, the one above it
   was stored and raised the mark past the hole, and the subscriber has restarted.
   */
  lemma HoleCanForm(mark: nat) returns (trace: seq<State>, steps: seq<Step>)
    ensures Behaviour(trace, steps, mark) && trace != []
    ensures var s := trace[|trace| - 1];
      && mark in s.feed.published && mark !in s.queue.accepted && mark !in s.queue.stored
      && s.feed.sub == F.FRESH && s.feed.mark > mark
  {
    hide Behaviour;
    trace, steps := FirstDropped(mark);
    var s, b := trace[|trace| - 1], mark + 1;
    var working := s.queue.(queued := multiset{}, working := multiset{b});
    var filled := Q.WorkOn(working, b, Q.Filled, true);
    trace, steps := AndThen(trace, steps, mark, QueueStep(Q.Receive(b)), s.(queue := working));
    trace, steps := AndThen(trace, steps, mark, QueueStep(Q.Work(b, Q.Filled, true)), s.(queue := filled));
    var raising := s.feed.(saving := multiset{b});
    trace, steps := AndThen(trace, steps, mark, FeedStep(F.ReadMarkStep(b), false), State(raising, filled));
    var raised := s.feed.(mark := b);
    trace, steps := AndThen(trace, steps, mark, FeedStep(F.WriteMarkStep(b), false), State(raised, filled));
    trace, steps := AndThen(trace, steps, mark, FeedStep(F.RestartStep, false), State(raised.(sub := F.FRESH), filled));
  }
}
