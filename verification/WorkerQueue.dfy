/** The block queue: rate-limited publishing, workers that fill blocks, and re-enqueueing on error. */
module WorkerQueue {

  /**
   Messages are block numbers. `accepted` counts the messages the queue has taken, `finished` those
   whose worker ended without an error and `lost` those whose re-enqueue failed, as its error is
   ignored. `limited` are the live keys of the rate limiter and `refused` the blocks whose first
   enqueue failed.
   */
  datatype State = State(
    queued: multiset<nat>, working: multiset<nat>, stored: set<nat>, limited: set<nat>,
    accepted: multiset<nat>, finished: multiset<nat>, lost: multiset<nat>, refused: set<nat>)

  const EMPTY := State(multiset{}, multiset{}, {}, {}, multiset{}, multiset{}, multiset{}, {})

  /** What a fill did: skipped a stored block, stored it, or failed before or after storing it. */
  datatype Outcome = Skipped | Filled | FailedBefore | FailedAfter

  datatype Step =
    | Publish(block: nat, enqueued: bool)
    | Expire(block: nat)
    | Receive(block: nat)
    | Work(block: nat, outcome: Outcome, requeued: bool)

  /** Publishing: a live key drops the message; otherwise the key is set before the enqueue is tried. */
  function PublishOn(s: State, block: nat, enqueued: bool): State {
    if block in s.limited then s
    else if enqueued then
      s.(limited := s.limited + {block}, queued := s.queued + multiset{block}, accepted := s.accepted + multiset{block})
    else
      s.(limited := s.limited + {block}, refused := s.refused + {block})
  }

  /** The end of a worker: an error puts the message back, if the queue takes it. */
  function WorkOn(s: State, block: nat, outcome: Outcome, requeued: bool): State {
    var s' := s.(working := s.working - multiset{block},
                 stored := if outcome == Filled || outcome == FailedAfter then s.stored + {block} else s.stored);
    if outcome == Skipped || outcome == Filled then s'.(finished := s'.finished + multiset{block})
    else if requeued then s'.(queued := s'.queued + multiset{block})
    else s'.(lost := s'.lost + multiset{block})
  }

  predicate NextStep(s: State, t: State, step: Step) {
    match step
    case Publish(block, enqueued) => t == PublishOn(s, block, enqueued)
    case Expire(block) => t == s.(limited := s.limited - {block})
    case Receive(block) =>
      block in s.queued &&
      t == s.(queued := s.queued - multiset{block}, working := s.working + multiset{block})
    case Work(block, outcome, requeued) =>
      block in s.working && (outcome == Skipped ==> block in s.stored) &&
      t == WorkOn(s, block, outcome, requeued)
  }

  ghost predicate Behaviour(trace: seq<State>, steps: seq<Step>) {
    && |trace| == |steps| + 1
    && trace[0] == EMPTY
    && forall i | 0 <= i < |steps| :: NextStep(trace[i], trace[i + 1], steps[i])
  }

  ghost predicate Inv(s: State) {
    && (forall b :: s.accepted[b] == s.queued[b] + s.working[b] + s.finished[b] + s.lost[b])
    && (forall b | b in s.finished :: b in s.stored)
    && (forall b | b in s.limited :: b in s.accepted || b in s.refused)
  }

  lemma PublishKeeps(s: State, block: nat, enqueued: bool)
    requires Inv(s)
    ensures Inv(PublishOn(s, block, enqueued))
    ensures PublishOn(s, block, enqueued).lost == s.lost
    ensures enqueued ==> PublishOn(s, block, enqueued).refused == s.refused
  {
  }

  /** A worker's message moves to one place. */
  lemma WorkMoves(s: State, block: nat, outcome: Outcome, requeued: bool, b: nat)
    requires block in s.working
    requires s.accepted[b] == s.queued[b] + s.working[b] + s.finished[b] + s.lost[b]
    ensures var t := WorkOn(s, block, outcome, requeued);
      t.accepted[b] == t.queued[b] + t.working[b] + t.finished[b] + t.lost[b]
  {
    assert b == block ==> s.working[b] > 0;
  }

  lemma WorkStores(s: State, block: nat, outcome: Outcome, requeued: bool)
    requires (forall b | b in s.finished :: b in s.stored) && (outcome == Skipped ==> block in s.stored)
    ensures var t := WorkOn(s, block, outcome, requeued);
      && (forall b | b in t.finished :: b in t.stored)
      && t.accepted == s.accepted && t.limited == s.limited && t.refused == s.refused
      && (!EnqueueFails(Work(block, outcome, requeued)) ==> t.lost == s.lost)
  {
  }

  lemma WorkKeeps(s: State, block: nat, outcome: Outcome, requeued: bool)
    requires Inv(s) && block in s.working && (outcome == Skipped ==> block in s.stored)
    ensures Inv(WorkOn(s, block, outcome, requeued))
    ensures WorkOn(s, block, outcome, requeued).refused == s.refused
    ensures !EnqueueFails(Work(block, outcome, requeued)) ==> WorkOn(s, block, outcome, requeued).lost == s.lost
  {
    hide WorkOn;
    WorkStores(s, block, outcome, requeued);
    forall b
      ensures var t := WorkOn(s, block, outcome, requeued);
        t.accepted[b] == t.queued[b] + t.working[b] + t.finished[b] + t.lost[b]
    {
      WorkMoves(s, block, outcome, requeued, b);
    }
  }

  lemma StepKeeps(s: State, t: State, step: Step)
    requires Inv(s) && NextStep(s, t, step)
    ensures Inv(t)
    ensures !EnqueueFails(step) ==> t.lost == s.lost && t.refused == s.refused
  {
    hide PublishOn, WorkOn;
    match step
    case Publish(block, enqueued) => PublishKeeps(s, block, enqueued);
    case Work(block, outcome, requeued) => WorkKeeps(s, block, outcome, requeued);
    case _ =>
  }

  /** A step whose enqueue or re-enqueue was not taken by the queue. */
  predicate EnqueueFails(step: Step) {
    match step
    case Publish(_, enqueued) => !enqueued
    case Work(_, outcome, requeued) => !requeued && (outcome == FailedBefore || outcome == FailedAfter)
    case _ => false
  }

  lemma EmptyInv()
    ensures Inv(EMPTY)
  {
  }

  lemma {:induction false} InvHolds(trace: seq<State>, steps: seq<Step>, k: nat)
    requires Behaviour(trace, steps) && k < |trace|
    ensures Inv(trace[k])
    ensures (forall i | 0 <= i < k :: !EnqueueFails(steps[i])) ==> trace[k].lost == multiset{} && trace[k].refused == {}
  {
    hide NextStep, Inv, EnqueueFails;
    if k == 0 {
      EmptyInv();
    } else {
      InvHolds(trace, steps, k - 1);
      assert NextStep(trace[k - 1], trace[k - 1 + 1], steps[k - 1]);
      StepKeeps(trace[k - 1], trace[k], steps[k - 1]);
    }
  }

  /**
   Every accepted message is accounted for in every reachable state: it is queued, being worked on,
   finished, or was lost to a failed re-enqueue. A block with no lost message is queued, being
   worked on or stored.
   */
  lemma NothingAcceptedIsLost(trace: seq<State>, steps: seq<Step>, k: nat)
    requires Behaviour(trace, steps) && k < |trace|
    ensures var s := trace[k];
      && s.accepted == s.queued + s.working + s.finished + s.lost
      && (forall b | b in s.accepted && b !in s.lost :: b in s.queued || b in s.working || b in s.stored)
      && ((forall i | 0 <= i < k :: !EnqueueFails(steps[i])) ==>
            forall b | b in s.accepted :: b in s.queued || b in s.working || b in s.stored)
  {
    InvHolds(trace, steps, k);
    var s := trace[k];
    assert s.accepted == s.queued + s.working + s.finished + s.lost;
  }

  /** Step i publishes the block and finds no live key. */
  ghost predicate Opens(trace: seq<State>, steps: seq<Step>, i: nat, block: nat) {
    && i < |steps| && i < |trace|
    && steps[i].Publish? && steps[i].block == block && block !in trace[i].limited
  }

  /** How many of the first k steps enqueue the block. */
  ghost function TakenBy(trace: seq<State>, steps: seq<Step>, k: nat, block: nat): nat {
    if k == 0 then 0
    else TakenBy(trace, steps, k - 1, block) +
         if Opens(trace, steps, k - 1, block) && steps[k - 1].enqueued then 1 else 0
  }

  predicate FailsToRequeue(step: Step, block: nat) {
    step.Work? && step.block == block && EnqueueFails(step)
  }

  /** How many of the first k steps end a worker of the block in a re-enqueue that fails. */
  function LostBy(steps: seq<Step>, k: nat, block: nat): nat
    requires k <= |steps|
  {
    if k == 0 then 0 else LostBy(steps, k - 1, block) + if FailsToRequeue(steps[k - 1], block) then 1 else 0
  }

  lemma StepCounts(s: State, t: State, step: Step, block: nat)
    requires NextStep(s, t, step)
    ensures t.accepted[block] ==
            s.accepted[block] + if step.Publish? && step.block == block && block !in s.limited && step.enqueued then 1 else 0
    ensures t.lost[block] == s.lost[block] + if FailsToRequeue(step, block) then 1 else 0
  {
  }

  /** Messages are accepted by the publications that enqueue them and lost by the re-enqueues that fail. */
  lemma {:induction false} CountsByStep(trace: seq<State>, steps: seq<Step>, k: nat, block: nat)
    requires Behaviour(trace, steps) && k < |trace|
    ensures trace[k].accepted[block] == TakenBy(trace, steps, k, block)
    ensures trace[k].lost[block] == LostBy(steps, k, block)
  {
    hide NextStep;
    if k > 0 {
      CountsByStep(trace, steps, k - 1, block);
      assert NextStep(trace[k - 1], trace[k - 1 + 1], steps[k - 1]);
      StepCounts(trace[k - 1], trace[k], steps[k - 1], block);
    }
  }

  lemma {:induction false} TakenByNone(trace: seq<State>, steps: seq<Step>, k: nat, block: nat)
    requires k <= |steps|
    ensures TakenBy(trace, steps, k, block) == 0 <==>
            forall i: nat | i < k && Opens(trace, steps, i, block) :: !steps[i].enqueued
  {
    if k > 0 {
      hide Opens;
      TakenByNone(trace, steps, k - 1, block);
    }
  }

  /** A live key was set by some publication. */
  lemma {:induction false} LiveKeyWasOpened(trace: seq<State>, steps: seq<Step>, k: nat, block: nat)
    requires Behaviour(trace, steps) && k < |trace| && block in trace[k].limited
    ensures exists i: nat :: i < k && Opens(trace, steps, i, block)
  {
    if k > 0 {
      assert NextStep(trace[k - 1], trace[k - 1 + 1], steps[k - 1]);
      if block in trace[k - 1].limited {
        LiveKeyWasOpened(trace, steps, k - 1, block);
      } else {
        assert Opens(trace, steps, k - 1, block);
      }
    }
  }

  /**
   A publication under a live key is dropped, and the block it is for was never accepted exactly when
   every publication that set its key so far failed to enqueue; there was at least one.
   */
  lemma LimiterDropsExactly(trace: seq<State>, steps: seq<Step>, k: nat, block: nat, enqueued: bool)
    requires Behaviour(trace, steps) && k < |trace| && block in trace[k].limited
    ensures PublishOn(trace[k], block, enqueued) == trace[k]
    ensures block !in trace[k].accepted <==>
            forall i: nat | i < k && Opens(trace, steps, i, block) :: !steps[i].enqueued
    ensures exists i: nat :: i < k && Opens(trace, steps, i, block)
  {
    hide Opens;
    LiveKeyWasOpened(trace, steps, k, block);
    CountsByStep(trace, steps, k, block);
    TakenByNone(trace, steps, k, block);
  }

  /** The block is not queued, not worked on and not stored. */
  predicate Nowhere(s: State, block: nat) {
    block !in s.queued && block !in s.working && block !in s.stored
  }

  /**
   An accepted block is nowhere exactly when it is not stored and each of its accepted messages was
   lost to a re-enqueue that failed.
   */
  lemma AcceptedVanishesExactly(trace: seq<State>, steps: seq<Step>, k: nat, block: nat)
    requires Behaviour(trace, steps) && k < |trace| && block in trace[k].accepted
    ensures Nowhere(trace[k], block) <==>
            block !in trace[k].stored && LostBy(steps, k, block) == TakenBy(trace, steps, k, block)
  {
    hide TakenBy;
    InvHolds(trace, steps, k);
    CountsByStep(trace, steps, k, block);
  }

  /** It does happen: the error of the re-enqueue is ignored, and the message is gone. */
  lemma AcceptedCanVanish(block: nat) returns (trace: seq<State>, steps: seq<Step>)
    ensures Behaviour(trace, steps)
    ensures steps == [Publish(block, true), Receive(block), Work(block, FailedBefore, false)]
    ensures block in trace[3].accepted && Nowhere(trace[3], block)
  {
    steps := [Publish(block, true), Receive(block), Work(block, FailedBefore, false)];
    var s1 := PublishOn(EMPTY, block, true);
    var s2 := s1.(queued := s1.queued - multiset{block}, working := s1.working + multiset{block});
    trace := [EMPTY, s1, s2, WorkOn(s2, block, FailedBefore, false)];
    assert NextStep(EMPTY, s1, steps[0]) && NextStep(s1, s2, steps[1]);
    assert NextStep(s2, trace[3], steps[2]);
  }

  /** The second kind does occur: after a failed enqueue the next publication is dropped unaccepted. */
  lemma FailedEnqueueBlocksRetry(block: nat) returns (trace: seq<State>, steps: seq<Step>)
    ensures Behaviour(trace, steps)
    ensures steps == [Publish(block, false), Publish(block, true)]
    ensures block !in trace[2].accepted && block !in trace[2].queued
  {
    steps := [Publish(block, false), Publish(block, true)];
    var s1 := PublishOn(EMPTY, block, false);
    trace := [EMPTY, s1, PublishOn(s1, block, true)];
  }
}
