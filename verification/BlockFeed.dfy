/**
 The feed of finalized blocks: a subscriber that publishes block numbers, workers that fill blocks
 and race to raise a stored mark, and restarts that resume from the mark.
 */
module BlockFeed {
  import opened Wrappers

  const WAITING: nat := 2

  /** Where the publishing loop stands. */
  datatype Loop = Idle | At(i: nat)

  /** One run of the subscriber. `run` lists what it has published. */
  datatype Subscriber = Subscriber(
    lastBlock: nat, finalized: nat, newHead: bool, sending: bool, loop: Loop, stopped: bool, run: seq<nat>)

  const FRESH := Subscriber(0, 0, false, false, Idle, false, [])

  /** A finalized head arrives: the number is kept, then the loop is signalled. */
  function SeeHead(s: Subscriber, head: nat): Subscriber {
    s.(finalized := head, sending := true)
  }

  /** The signal is a channel of capacity one. */
  function Signal(s: Subscriber): Subscriber
    requires s.sending && !s.newHead
  {
    s.(sending := false, newHead := true)
  }

  /** The loop takes a signal and chooses where to start; with no head known the subscriber ends. */
  function Wake(s: Subscriber, mark: nat): Subscriber
    requires s.newHead && s.loop.Idle? && !s.stopped
  {
    if s.finalized == 0 then s.(newHead := false, stopped := true)
    else s.(newHead := false, loop := At(if s.lastBlock > 0 then s.lastBlock + 1 else mark))
  }

  predicate MayPublish(s: Subscriber) {
    s.loop.At? && s.loop.i + WAITING <= s.finalized
  }

  /** One turn of the publishing loop. */
  function Publish(s: Subscriber): Subscriber
    requires MayPublish(s)
  {
    s.(lastBlock := s.loop.i, loop := At(s.loop.i + 1), run := s.run + [s.loop.i])
  }

  /** The loop ends when the next block is too close to the head. */
  function Finish(s: Subscriber): Subscriber
    requires s.loop.At? && !MayPublish(s)
  {
    s.(loop := Idle)
  }

  /** A waiting signal goes through as soon as the channel is empty. */
  function Unblock(s: Subscriber): Subscriber {
    if s.sending && !s.newHead then Signal(s) else s
  }

  /** A head that arrives, if one does. While an earlier signal waits it is left unread. */
  function Arrive(s: Subscriber, head: Option<nat>): Subscriber {
    if head == None || s.sending then s else Unblock(SeeHead(s, head.value))
  }

  /** How many more heads can be taken before the loop wakes again. */
  function Room(s: Subscriber): nat {
    (if s.sending then 0 else 1) + if s.newHead then 0 else 1
  }

  /** The publishing loop run to its end, while heads arrive between its turns. */
  function Turn(s: Subscriber, arrives: nat -> Option<nat>, k: nat): Subscriber
    requires s.sending ==> s.newHead
    decreases Room(s), if s.loop.At? && s.finalized >= s.loop.i then s.finalized - s.loop.i else 0
  {
    if MayPublish(s) then Turn(Arrive(Publish(s), arrives(k)), arrives, k + 1)
    else if s.loop.At? then Finish(s)
    else s
  }

  /**
   The whole system. `saving` are the blocks whose workers have read a lower mark and are about to
   overwrite it; `published` and `heads` are histories over all runs.
   */
  datatype State = State(sub: Subscriber, mark: nat, saving: multiset<nat>, published: set<nat>, heads: set<nat>)

  predicate Init(s: State, mark: nat) {
    s == State(FRESH, mark, multiset{}, {}, {})
  }

  datatype Step =
    | HeadStep(head: nat)
    | SignalStep
    | WakeStep
    | PublishStep
    | FinishStep
    | RestartStep
    | ReadMarkStep(block: nat)
    | WriteMarkStep(block: nat)
    | WorkerDiesStep(block: nat)

  /** A worker reads the mark: below its block it is about to be overwritten. */
  function ReadMark(s: State, block: nat): State {
    if block > s.mark then s.(saving := s.saving + multiset{block}) else s
  }

  /** What each atomic step may do. Workers fill published blocks only. */
  predicate NextStep(s: State, t: State, step: Step) {
    match step
    case HeadStep(head) => !s.sub.sending && t == s.(sub := SeeHead(s.sub, head), heads := s.heads + {head})
    case SignalStep => s.sub.sending && !s.sub.newHead && t == s.(sub := Signal(s.sub))
    case WakeStep => s.sub.newHead && s.sub.loop.Idle? && !s.sub.stopped && t == s.(sub := Wake(s.sub, s.mark))
    case PublishStep =>
      MayPublish(s.sub) && t == s.(sub := Publish(s.sub), published := s.published + {s.sub.loop.i})
    case FinishStep => s.sub.loop.At? && !MayPublish(s.sub) && t == s.(sub := Finish(s.sub))
    case RestartStep => t == s.(sub := FRESH)
    case ReadMarkStep(block) =>
      block in s.published && t == ReadMark(s, block)
    case WriteMarkStep(block) =>
      block in s.saving && t == s.(mark := block, saving := s.saving - multiset{block})
    case WorkerDiesStep(block) => block in s.saving && t == s.(saving := s.saving - multiset{block})
  }

  ghost predicate Next(s: State, t: State) {
    exists step :: NextStep(s, t, step)
  }

  /** A run of the system from an initial mark. */
  ghost predicate Behaviour(trace: seq<State>, mark: nat) {
    && trace != []
    && Init(trace[0], mark)
    && forall i | 0 <= i < |trace| - 1 :: Next(trace[i], trace[i + 1])
  }

  /** Exactly the numbers from lo up to and not including hi. */
  ghost predicate IsInterval(s: set<nat>, lo: nat, hi: nat) {
    forall n: nat :: n in s <==> lo <= n < hi
  }

  /** Some head seen so far is WAITING blocks above n. */
  ghost predicate Settled(n: nat, heads: set<nat>) {
    exists h | h in heads :: n + WAITING <= h
  }

  /** Within a run, whatever follows a published positive number is greater. */
  ghost predicate NoRepeats(run: seq<nat>) {
    forall j, k | 0 <= j < k < |run| && run[j] > 0 :: run[j] < run[k]
  }

  ghost predicate Safe(s: State, lo: nat) {
    && (exists hi: nat :: lo <= hi && IsInterval(s.published, lo, hi))
    && (forall n | n in s.published :: Settled(n, s.heads))
    && NoRepeats(s.sub.run)
  }

  /** What every step keeps: published blocks are the interval [lo, hi), and every position refers to it. */
  ghost predicate Inv(s: State, lo: nat, hi: nat) {
    && lo <= hi
    && IsInterval(s.published, lo, hi)
    && (s.mark == lo || s.mark in s.published)
    && (forall n | n in s.saving :: n in s.published)
    && (s.sub.lastBlock > 0 ==> s.sub.lastBlock in s.published)
    && (s.sub.loop.At? ==> lo <= s.sub.loop.i <= hi)
    && (s.sub.loop.At? && s.sub.lastBlock > 0 ==> s.sub.loop.i > s.sub.lastBlock)
    && (forall k | 0 <= k < |s.sub.run| :: s.sub.run[k] <= s.sub.lastBlock && s.sub.run[k] in s.published)
    && (s.sub.finalized == 0 || s.sub.finalized in s.heads)
    && (forall n | n in s.published :: Settled(n, s.heads))
    && NoRepeats(s.sub.run)
  }

  /** Publishing extends the interval by one at most. */
  lemma PublishKeeps(s: State, t: State, lo: nat, hi: nat) returns (hi': nat)
    requires Inv(s, lo, hi) && NextStep(s, t, PublishStep)
    ensures Inv(t, lo, hi')
  {
    var i := s.sub.loop.i;
    hi' := if i == hi then hi + 1 else hi;
    assert s.sub.finalized in s.heads;
    forall n | n in t.published
      ensures Settled(n, t.heads)
    {
      if n == i {
        assert n + WAITING <= s.sub.finalized;
      } else {
        assert Settled(n, s.heads);
      }
    }
  }

  /** More heads settle no less. */
  lemma StillSettled(s: State, t: State)
    requires t.published == s.published && s.heads <= t.heads
    requires forall n | n in s.published :: Settled(n, s.heads)
    ensures forall n | n in t.published :: Settled(n, t.heads)
  {
    forall n | n in t.published
      ensures Settled(n, t.heads)
    {
      assert Settled(n, s.heads);
      var h :| h in s.heads && n + WAITING <= h;
      assert h in t.heads;
    }
  }

  lemma OtherStep(s: State, t: State, step: Step)
    requires NextStep(s, t, step) && step != PublishStep
    ensures t.published == s.published && s.heads <= t.heads
  {
  }

  lemma StepKeeps(s: State, t: State, step: Step, lo: nat, hi: nat) returns (hi': nat)
    requires Inv(s, lo, hi) && NextStep(s, t, step)
    ensures Inv(t, lo, hi')
  {
    if step == PublishStep {
      hi' := PublishKeeps(s, t, lo, hi);
    } else {
      hide Settled, IsInterval;
      hi' := hi;
      OtherStep(s, t, step);
      StillSettled(s, t);
    }
  }

  /**
   In every run of the system, whatever the interleaving and the restarts, the published blocks
   form a gap-free interval from the initial mark, each at least WAITING below a head that was
   seen, and no subscriber run publishes a positive number twice.
   */
  lemma {:induction false} FeedIsSafe(trace: seq<State>, mark: nat, k: nat) returns (hi: nat)
    requires Behaviour(trace, mark) && k < |trace|
    ensures Inv(trace[k], mark, hi) && Safe(trace[k], mark)
    ensures forall n: nat :: n in trace[k].published <==> mark <= n < hi
    ensures forall n | n in trace[k].published :: exists h :: h in trace[k].heads && n + 2 <= h
    ensures var run := trace[k].sub.run; forall i, j | 0 <= i < j < |run| && run[i] > 0 :: run[i] < run[j]
  {
    if k == 0 {
      hi := mark;
      InitInv(trace[0], mark);
    } else {
      var before := FeedIsSafe(trace, mark, k - 1);
      var step := StepOf(trace, mark, k);
      hide Behaviour, NextStep, Inv, Safe;
      hi := StepKeeps(trace[k - 1], trace[k], step, mark, before);
    }
    hide Behaviour, Inv, Safe;
    InvIsSafe(trace[k], mark, hi);
  }

  lemma InitInv(s: State, mark: nat)
    requires Init(s, mark)
    ensures Inv(s, mark, mark)
  {
  }

  /** The step that leads to a state of a run. */
  lemma StepOf(trace: seq<State>, mark: nat, k: nat) returns (step: Step)
    requires Behaviour(trace, mark) && 0 < k < |trace|
    ensures NextStep(trace[k - 1], trace[k], step)
  {
    hide NextStep;
    assert Next(trace[k - 1], trace[k - 1 + 1]);
    step :| NextStep(trace[k - 1], trace[k], step);
  }

  lemma InvIsSafe(s: State, lo: nat, hi: nat)
    requires Inv(s, lo, hi)
    ensures Safe(s, lo)
    ensures forall n: nat :: n in s.published <==> lo <= n < hi
    ensures forall n | n in s.published :: exists h :: h in s.heads && n + 2 <= h
    ensures forall i, j | 0 <= i < j < |s.sub.run| && s.sub.run[i] > 0 :: s.sub.run[i] < s.sub.run[j]
  {
    assert lo <= hi && IsInterval(s.published, lo, hi);
    forall n | n in s.published
      ensures exists h :: h in s.heads && n + 2 <= h
    {
      assert Settled(n, s.heads);
    }
  }

  /** The mark is lowered exactly by a write of a block below it, of a worker that read the mark before others raised it. */
  lemma MarkLoweredExactly(s: State, t: State, step: Step)
    requires NextStep(s, t, step)
    ensures t.mark < s.mark <==> step.WriteMarkStep? && step.block < s.mark
  {
  }

  lemma Extends(trace: seq<State>, mark: nat, t: State, step: Step)
    requires Behaviour(trace, mark) && NextStep(trace[|trace| - 1], t, step)
    ensures Behaviour(trace + [t], mark)
  {
    hide NextStep;
    var more := trace + [t];
    assert Next(trace[|trace| - 1], t);
    forall i | 0 <= i < |more| - 1
      ensures Next(more[i], more[i + 1])
    {
      if i < |trace| - 1 {
        assert Next(trace[i], trace[i + 1]);
      }
    }
  }

  /** A subscriber that has published three blocks from the mark on. */
  lemma ThreePublished(mark: nat) returns (trace: seq<State>)
    ensures Behaviour(trace, mark) && trace != []
    ensures trace[|trace| - 1] ==
      State(Subscriber(mark + 2, mark + 4, false, false, At(mark + 3), false, [mark, mark + 1, mark + 2]),
            mark, multiset{}, {mark, mark + 1, mark + 2}, {mark + 4})
  {
    hide Behaviour;
    var heads: set<nat> := {mark + 4};
    trace := OneState(mark);
    trace := AndThen(trace, mark, HeadStep(mark + 4), State(FRESH.(finalized := mark + 4, sending := true), mark, multiset{}, {}, heads));
    trace := AndThen(trace, mark, SignalStep, State(FRESH.(finalized := mark + 4, newHead := true), mark, multiset{}, {}, heads));
    trace := AndThen(trace, mark, WakeStep, State(FRESH.(finalized := mark + 4, loop := At(mark)), mark, multiset{}, {}, heads));
    trace := AndThen(trace, mark, PublishStep,
      State(Subscriber(mark, mark + 4, false, false, At(mark + 1), false, [mark]), mark, multiset{}, {mark}, heads));
    trace := AndThen(trace, mark, PublishStep,
      State(Subscriber(mark + 1, mark + 4, false, false, At(mark + 2), false, [mark, mark + 1]), mark, multiset{}, {mark, mark + 1}, heads));
    trace := AndThen(trace, mark, PublishStep,
      State(Subscriber(mark + 2, mark + 4, false, false, At(mark + 3), false, [mark, mark + 1, mark + 2]),
            mark, multiset{}, {mark, mark + 1, mark + 2}, heads));
  }

  lemma OneState(mark: nat) returns (trace: seq<State>)
    ensures Behaviour(trace, mark) && trace == [State(FRESH, mark, multiset{}, {}, {})]
  {
    trace := [State(FRESH, mark, multiset{}, {}, {})];
  }

  lemma AndThen(before: seq<State>, mark: nat, step: Step, t: State) returns (trace: seq<State>)
    requires Behaviour(before, mark) && before != [] && NextStep(before[|before| - 1], t, step)
    ensures Behaviour(trace, mark) && trace == before + [t]
  {
    Extends(before, mark, t, step);
    trace := before + [t];
  }

  /** It happens from every initial mark: of two workers that read it, the later write is the lower one. */
  lemma MarkCanBeLowered(mark: nat) returns (trace: seq<State>)
    ensures Behaviour(trace, mark) && |trace| > 2
    ensures trace[|trace| - 2].mark == mark + 2 && trace[|trace| - 1].mark == mark + 1
  {
    hide Behaviour;
    trace := ThreePublished(mark);
    var s := trace[|trace| - 1];
    trace := AndThen(trace, mark, ReadMarkStep(mark + 1), s.(saving := multiset{mark + 1}));
    trace := AndThen(trace, mark, ReadMarkStep(mark + 2), s.(saving := multiset{mark + 1, mark + 2}));
    trace := AndThen(trace, mark, WriteMarkStep(mark + 2), s.(mark := mark + 2, saving := multiset{mark + 1}));
    trace := AndThen(trace, mark, WriteMarkStep(mark + 1), s.(mark := mark + 1, saving := multiset{}));
  }

  /** Block 0 is the exception: as 0 stands for no last block, one run can publish it twice. */
  lemma ZeroCanRepeat() returns (trace: seq<State>)
    ensures Behaviour(trace, 0)
    ensures trace[|trace| - 1].sub.run == [0, 0]
  {
    var s0 := State(FRESH, 0, multiset{}, {}, {});
    var s1 := s0.(sub := SeeHead(s0.sub, 2), heads := {2});
    var s2 := s1.(sub := Signal(s1.sub));
    var s3 := s2.(sub := Wake(s2.sub, 0));
    var s4 := s3.(sub := Publish(s3.sub), published := {0});
    var s5 := s4.(sub := Finish(s4.sub));
    var s6 := s5.(sub := SeeHead(s5.sub, 2));
    var s7 := s6.(sub := Signal(s6.sub));
    var s8 := s7.(sub := Wake(s7.sub, 0));
    var s9 := s8.(sub := Publish(s8.sub));
    trace := [s0, s1, s2, s3, s4, s5, s6, s7, s8, s9];
    assert NextStep(s0, s1, HeadStep(2));
    assert NextStep(s1, s2, SignalStep);
    assert NextStep(s2, s3, WakeStep);
    assert NextStep(s3, s4, PublishStep);
    assert NextStep(s4, s5, FinishStep);
    assert s6.heads == s5.heads + {2};
    assert NextStep(s5, s6, HeadStep(2));
    assert NextStep(s6, s7, SignalStep);
    assert NextStep(s7, s8, WakeStep);
    assert s9.published == s8.published + {0};
    assert NextStep(s8, s9, PublishStep);
  }

  /** Some number stands twice in the list. */
  ghost predicate Repeats(run: seq<nat>) {
    exists j, k | 0 <= j < k < |run| :: run[j] == run[k]
  }

  /** Some run of the system from the mark takes one subscriber run to publish a number twice. */
  ghost predicate CanRepeat(mark: nat) {
    exists trace: seq<State>, k: nat :: Behaviour(trace, mark) && k < |trace| && Repeats(trace[k].sub.run)
  }

  /** A subscriber run can publish a number twice exactly when the initial mark is 0. */
  lemma RepeatsExactly(mark: nat)
    ensures CanRepeat(mark) <==> mark == 0
  {
    hide Behaviour;
    if mark > 0 && CanRepeat(mark) {
      var trace: seq<State>, k: nat :| Behaviour(trace, mark) && k < |trace| && Repeats(trace[k].sub.run);
      var hi := FeedIsSafe(trace, mark, k);
      PositiveNeverRepeats(trace[k], mark, hi);
    }
    if mark == 0 {
      var trace := ZeroCanRepeat();
      var run := trace[|trace| - 1].sub.run;
      assert run[0] == run[1];
      assert Repeats(run);
    }
  }

  lemma PositiveNeverRepeats(s: State, lo: nat, hi: nat)
    requires Inv(s, lo, hi) && lo > 0
    ensures !Repeats(s.sub.run)
  {
    forall j, k | 0 <= j < k < |s.sub.run|
      ensures s.sub.run[j] != s.sub.run[k]
    {
      assert s.sub.run[j] in s.published;
    }
  }

  /** The numbers from lo up to and not including hi. */
  function Numbers(lo: nat, hi: nat): (r: seq<nat>)
    ensures |r| == if lo <= hi then hi - lo else 0
    ensures forall k | 0 <= k < |r| :: r[k] == lo + k
    decreases hi
  {
    if hi <= lo then [] else Numbers(lo, hi - 1) + [hi - 1]
  }

  /** `run` goes on behind `before` with the consecutive numbers from lo. */
  ghost predicate GoesOnFrom(before: seq<nat>, run: seq<nat>, lo: nat) {
    before <= run && forall i | |before| <= i < |run| :: run[i] == lo + (i - |before|)
  }

  /** The heads that arrive behind the first k blocks and are taken, when no more than `room` can be. */
  function Heads(arrives: nat -> Option<nat>, k: nat, room: nat): (r: seq<nat>)
    ensures |r| <= room
  {
    if k == 0 then []
    else
      var before := Heads(arrives, k - 1, room);
      if |before| < room && arrives(k - 1).Some? then before + [arrives(k - 1).value] else before
  }

  /** The last of the heads is kept, and each of them is a pending signal more. */
  ghost predicate HeadsTaken(before: Subscriber, heads: seq<nat>, after: Subscriber) {
    && after.finalized == (if heads == [] then before.finalized else heads[|heads| - 1])
    && Room(after) == Room(before) - |heads|
    && (after.sending ==> after.newHead)
  }

  lemma HeadsMean(before: Subscriber, heads: seq<nat>, after: Subscriber)
    requires !before.sending && HeadsTaken(before, heads, after)
    ensures Room(before) == if before.newHead then 1 else 2
    ensures after.finalized == if heads == [] then before.finalized else heads[|heads| - 1]
    ensures after.sending <==> |heads| == Room(before)
    ensures after.newHead <==> before.newHead || heads != []
  {
  }

  lemma NoHeads(s: Subscriber, arrives: nat -> Option<nat>)
    requires s.sending ==> s.newHead
    ensures HeadsTaken(s, Heads(arrives, 0, Room(s)), s)
  {
  }

  lemma HeadsStep(before: Subscriber, s: Subscriber, t: Subscriber, arrives: nat -> Option<nat>, k: nat)
    requires (s.sending ==> s.newHead) && HeadsTaken(before, Heads(arrives, k, Room(before)), s)
    requires HeadsTaken(s, if !s.sending && arrives(k).Some? then [arrives(k).value] else [], t)
    ensures HeadsTaken(before, Heads(arrives, k + 1, Room(before)), t)
  {
  }

  /** The subscriber as an object: its fields and the two routines that update them. */
  class SubscribeService {
    /** Whether the channel holds a signal. */
    var newFinHead: bool
    /** Whether the parser waits to send another one. */
    var sending: bool
    var lastBlock: nat
    var finalizedBlockNum: nat
    var stopped: bool
    /** The block messages handed to the queue, in order. */
    var run: seq<nat>

    function Get(): Subscriber
      reads this
    {
      Subscriber(lastBlock, finalizedBlockNum, newFinHead, sending, Idle, stopped, run)
    }

    constructor ()
      ensures Get() == FRESH
    {
      newFinHead, sending, lastBlock, finalizedBlockNum, stopped, run := false, false, 0, 0, false, [];
    }

    /**
     The parser on a finalized head: the number is overwritten, and a signal is pending afterwards.
     While an earlier one is unread the parser waits, and takes no other head.
     */
    method OnFinalizedHead(head: nat)
      requires !sending
      modifies this
      ensures Get() == Arrive(old(Get()), Some(head))
      ensures newFinHead && (sending <==> old(newFinHead))
    {
      finalizedBlockNum := head;
      if newFinHead {
        sending := true;
      } else {
        newFinHead := true;
      }
    }

    /** Where the loop starts: behind the last published block, or at the mark. */
    function Start(mark: nat): nat
      reads this
    {
      if lastBlock > 0 then lastBlock + 1 else mark
    }

    /** One block of the loop, and a head that arrives behind it, if one does. */
    method PublishOne(block: nat, head: Option<nat>)
      requires (sending ==> newFinHead) && block + WAITING <= finalizedBlockNum
      modifies this
      ensures Get().(loop := At(block + 1)) == Arrive(Publish(old(Get()).(loop := At(block))), head)
      ensures run == old(run) + [block] && lastBlock == block
      ensures HeadsTaken(old(Get()), if !old(sending) && head.Some? then [head.value] else [], Get())
      ensures stopped == old(stopped) && (sending ==> newFinHead)
      ensures Room(Get()) < old(Room(Get())) || (Room(Get()) == old(Room(Get())) && finalizedBlockNum == old(finalizedBlockNum))
    {
      run := run + [block];
      lastBlock := block;
      if !sending && head != None {
        OnFinalizedHead(head.value);
      }
    }

    /**
     One turn of the fetch loop, with heads arriving between its steps: it publishes a stretch of
     blocks from its start, in order and once, until the next one is too close to the newest head.
     */
    method FetchBlocks(mark: nat, arrives: nat -> Option<nat>) returns (next: nat)
      requires newFinHead && !stopped
      modifies this
      ensures Get() == Turn(Unblock(Wake(old(Get()), mark)), arrives, 0)
      ensures stopped <==> old(finalizedBlockNum) == 0
      ensures next >= old(Start(mark)) && run == old(run) + Numbers(old(Start(mark)), next)
      ensures lastBlock == if old(Start(mark)) < next then next - 1 else old(lastBlock)
      ensures !stopped ==> next + 2 > finalizedBlockNum
      ensures old(Start(mark)) == if old(lastBlock) > 0 then old(lastBlock) + 1 else mark
      ensures GoesOnFrom(old(run), run, old(Start(mark)))
      ensures
        var room := if old(sending) then 1 else 2;
        var heads := Heads(arrives, next - old(Start(mark)), room);
        && finalizedBlockNum == (if heads == [] then old(finalizedBlockNum) else heads[|heads| - 1])
        && (sending <==> !stopped && |heads| == room)
        && (newFinHead <==> old(sending) || heads != [])
    {
      hide Numbers, Turn, Arrive, Room, GoesOnFrom, Heads, HeadsTaken;
      next := Start(mark);
      newFinHead := false;
      if sending {
        sending, newFinHead := false, true;
      }
      if finalizedBlockNum == 0 {
        stopped := true;
        NoNumbers(next);
        Stretch(run, next, next);
        NoHeads(Get(), arrives);
        HeadsMean(Get(), Heads(arrives, 0, Room(Get())), Get());
        TurnEnds(Get(), arrives, 0);
        return;
      }
      ghost var woken := Get();
      next := PublishFrom(next, arrives);
      HeadsMean(woken, Heads(arrives, next - old(Start(mark)), Room(woken)), Get());
      Stretch(old(run), old(Start(mark)), next);
    }

    /** The publishing loop. */
    method PublishFrom(start: nat, arrives: nat -> Option<nat>) returns (next: nat)
      requires !stopped && (sending ==> newFinHead)
      modifies this
      ensures Get() == Turn(old(Get()).(loop := At(start)), arrives, 0)
      ensures !stopped && next >= start && run == old(run) + Numbers(start, next)
      ensures lastBlock == if start < next then next - 1 else old(lastBlock)
      ensures next + WAITING > finalizedBlockNum
      ensures HeadsTaken(old(Get()), Heads(arrives, next - start, Room(old(Get()))), Get())
    {
      hide Numbers, Turn, Arrive, Room, Publish, Heads, HeadsTaken;
      next := start;
      var k := 0;
      NoNumbers(start);
      NoHeads(Get(), arrives);
      while next + WAITING <= finalizedBlockNum
        invariant start <= next && !stopped && (sending ==> newFinHead)
        invariant run == old(run) + Numbers(start, next)
        invariant lastBlock == if start < next then next - 1 else old(lastBlock)
        invariant k == next - start && HeadsTaken(old(Get()), Heads(arrives, k, Room(old(Get()))), Get())
        invariant Turn(old(Get()).(loop := At(start)), arrives, 0) == Turn(Get().(loop := At(next)), arrives, k)
        decreases Room(Get()), finalizedBlockNum - next
      {
        TurnGoesOn(Get().(loop := At(next)), arrives, k);
        NumbersSnoc(start, next + 1);
        ghost var before := Get();
        PublishOne(next, arrives(k));
        HeadsStep(old(Get()), before, Get(), arrives, k);
        next := next + 1;
        k := k + 1;
      }
      TurnEnds(Get().(loop := At(next)), arrives, k);
    }
  }

  lemma TurnGoesOn(s: Subscriber, arrives: nat -> Option<nat>, k: nat)
    requires (s.sending ==> s.newHead) && MayPublish(s)
    ensures Turn(s, arrives, k) == Turn(Arrive(Publish(s), arrives(k)), arrives, k + 1)
  {
  }

  lemma TurnEnds(s: Subscriber, arrives: nat -> Option<nat>, k: nat)
    requires (s.sending ==> s.newHead) && !MayPublish(s)
    ensures Turn(s, arrives, k) == if s.loop.At? then Finish(s) else s
  {
  }

  /** A list with a stretch of numbers behind it. */
  lemma Stretch(before: seq<nat>, lo: nat, hi: nat)
    ensures GoesOnFrom(before, before + Numbers(lo, hi), lo)
  {
  }

  lemma NoNumbers(n: nat)
    ensures Numbers(n, n) == []
  {
  }

  lemma NumbersSnoc(lo: nat, hi: nat)
    requires lo < hi
    ensures Numbers(lo, hi) == Numbers(lo, hi - 1) + [hi - 1]
  {
  }
}
