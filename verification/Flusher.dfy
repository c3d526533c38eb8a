/** The retry queue under concurrency: any number of threads push and trim while one
    flusher pops, sends and puts back (crates/stmp2log/src/retry.rs and pipeline.rs).
    Each step is what one thread does between two points where another may run. */
module Flusher {
  import opened Wrappers
  import opened Retry

  /** A thread that pushes or trims: after its change to the queue it counts what it
      evicted, and a push then notifies the flusher. */
  datatype Thread = Idle | Counting(evicted: nat, notifies: bool) | Notifying

  /** Where the flusher stands in its loop. */
  datatype Phase = Checking | WaitingForWork | BackingOff | Flushing | Sending(p: Pending)

  datatype Sys = Sys(
    queue: seq<Pending>, work: bool, up: bool, dropped: nat,
    threads: seq<Thread>, phase: Phase, delay: nat, sentInPass: nat,
    // What happened to every alert so far.
    pushed: nat, sent: seq<Pending>, gaveUp: seq<Pending>, evicted: seq<Pending>)

  datatype Step =
    | PushInsert(thread: nat, at: int, attempts: nat, error: string, max: nat)
    | TrimEvict(thread: nat, max: nat)
    | CountDropped(thread: nat)
    | NotifyWork(thread: nat)
    | KickWork
    | NotifyUp
    | Check
    | TakeWork
    | Elapse
    | TakeUp
    | PopNext
    | Finish(verdict: Verdict)

  predicate ThreadIs(s: Sys, i: nat, t: Thread) {
    i < |s.threads| && s.threads[i] == t
  }

  predicate Enabled(s: Sys, step: Step) {
    match step
    case PushInsert(i, _, _, _, _) => ThreadIs(s, i, Idle)
    case TrimEvict(i, _) => ThreadIs(s, i, Idle)
    case CountDropped(i) => i < |s.threads| && s.threads[i].Counting?
    case NotifyWork(i) => ThreadIs(s, i, Notifying)
    case KickWork => true
    case NotifyUp => true
    case Check => s.phase.Checking?
    case TakeWork => s.phase.WaitingForWork? && s.work
    case Elapse => s.phase.BackingOff?
    case TakeUp => s.phase.BackingOff? && s.up
    case PopNext => s.phase.Flushing?
    case Finish(_) => s.phase.Sending?
  }

  /** The end of a pass: the delay doubles only if the pass stalled without a success. */
  function EndPass(s: Sys, stalled: bool): Sys {
    s.(phase := Checking, sentInPass := 0,
       delay := if stalled && s.sentInPass == 0 then NextDelay(s.delay) else FIRST_DELAY)
  }

  function Next(s: Sys, step: Step): Sys
    requires Enabled(s, step)
  {
    match step
    case PushInsert(i, at, attempts, error, max) =>
      var inserted := InsertByTime(s.queue, Pending(s.pushed, at, attempts, error));
      var (left, out) := Evict(inserted, max);
      s.(queue := left, pushed := s.pushed + 1, evicted := s.evicted + out,
         threads := s.threads[i := Counting(|out|, true)])
    case TrimEvict(i, max) =>
      var (left, out) := Evict(s.queue, max);
      s.(queue := left, evicted := s.evicted + out, threads := s.threads[i := Counting(|out|, false)])
    case CountDropped(i) =>
      s.(dropped := s.dropped + s.threads[i].evicted,
         threads := s.threads[i := if s.threads[i].notifies then Notifying else Idle])
    case NotifyWork(i) => s.(work := true, threads := s.threads[i := Idle])
    case KickWork => s.(work := true)
    case NotifyUp => s.(up := true)
    case Check => s.(phase := if s.queue == [] then WaitingForWork else BackingOff)
    case TakeWork => s.(work := false, delay := FIRST_DELAY, phase := BackingOff)
    case Elapse => s.(phase := Flushing)
    case TakeUp => s.(up := false, phase := Flushing)
    case PopNext =>
      if s.queue == [] then EndPass(s, false)
      else s.(queue := s.queue[1..], phase := Sending(Tried(s.queue[0])))
    case Finish(verdict) =>
      var p := s.phase.p;
      match verdict
      case Sent => s.(phase := Flushing, sentInPass := s.sentInPass + 1, sent := s.sent + [p])
      case Later(e) => EndPass(s.(queue := [p.(error := e)] + s.queue), true)
      case GiveUp => s.(phase := Flushing, gaveUp := s.gaveUp + [p])
  }

  function Start(threads: nat): Sys {
    Sys([], false, false, 0, seq(threads, i => Idle), Checking, FIRST_DELAY, 0,
        0, [], [], [])
  }

  ghost predicate Reaches(threads: nat, steps: seq<Step>, s: Sys) {
    if steps == [] then s == Start(threads)
    else exists s0 :: Reaches(threads, steps[..|steps| - 1], s0) && Steps(s0, Last(steps), s)
  }

  predicate Steps(s: Sys, step: Step, t: Sys) {
    Enabled(s, step) && t == Next(s, step)
  }

  // ----- every alert is accounted for -----

  /** How often an alert occurs in a list. */
  function Count(q: seq<Pending>, id: nat): nat {
    if q == [] then 0 else Count(q[..|q| - 1], id) + (if q[|q| - 1].id == id then 1 else 0)
  }

  function InFlight(s: Sys): seq<Pending> {
    if s.phase.Sending? then [s.phase.p] else []
  }

  /** Every alert ever pushed is in exactly one place, once. */
  ghost predicate Accounted(s: Sys) {
    forall id: nat :: Places(s, id) == if id < s.pushed then 1 else 0
  }

  function Places(s: Sys, id: nat): nat {
    Count(s.queue, id) + Count(InFlight(s), id) + Count(s.sent, id) + Count(s.gaveUp, id) + Count(s.evicted, id)
  }

  lemma {:induction false} CountConcat(a: seq<Pending>, b: seq<Pending>, id: nat)
    ensures Count(a + b, id) == Count(a, id) + Count(b, id)
  {
    if b == [] {
      assert a + b == a;
    } else {
      CountConcat(a, b[..|b| - 1], id);
      assert (a + b)[..|a + b| - 1] == a + b[..|b| - 1];
    }
  }

  lemma CountOne(p: Pending, id: nat)
    ensures Count([p], id) == if p.id == id then 1 else 0
  {
    assert [p][..0] == [];
    assert Count([], id) == 0;
  }

  lemma CountAppended(q: seq<Pending>, p: Pending, id: nat)
    ensures Count(q + [p], id) == Count(q, id) + (if p.id == id then 1 else 0)
    ensures Count([p] + q, id) == Count(q, id) + (if p.id == id then 1 else 0)
  {
    CountOne(p, id);
    CountConcat(q, [p], id);
    CountConcat([p], q, id);
  }

  lemma CountInserted(q: seq<Pending>, p: Pending, id: nat)
    ensures Count(InsertByTime(q, p), id) == Count(q, id) + (if p.id == id then 1 else 0)
  {
    var pos := Slot(q, p.at);
    CountAppended(q[..pos], p, id);
    CountConcat(q[..pos] + [p], q[pos..], id);
    CountConcat(q[..pos], q[pos..], id);
    assert q == q[..pos] + q[pos..];
  }

  lemma CountSplit(q: seq<Pending>, n: nat, id: nat)
    requires n <= |q|
    ensures Count(q, id) == Count(q[..n], id) + Count(q[n..], id)
  {
    CountConcat(q[..n], q[n..], id);
    assert q == q[..n] + q[n..];
  }

  lemma CountEvicted(q: seq<Pending>, max: nat, gone: seq<Pending>, id: nat)
    ensures var (left, out) := Evict(q, max);
      Count(left, id) + Count(gone + out, id) == Count(q, id) + Count(gone, id)
  {
    CountSplit(q, Excess(q, max), id);
    CountConcat(gone, Evict(q, max).1, id);
  }

  lemma PlacesStep(s: Sys, step: Step, id: nat)
    requires Enabled(s, step)
    ensures Places(Next(s, step), id) == Places(s, id) + (if step.PushInsert? && id == s.pushed then 1 else 0)
  {
    match step
    case PushInsert(i, at, attempts, error, max) =>
      var p := Pending(s.pushed, at, attempts, error);
      CountInserted(s.queue, p, id);
      CountEvicted(InsertByTime(s.queue, p), max, s.evicted, id);
    case TrimEvict(i, max) => CountEvicted(s.queue, max, s.evicted, id);
    case PopNext =>
      if s.queue != [] {
        CountAppended(s.queue[1..], s.queue[0], id);
        CountOne(Tried(s.queue[0]), id);
        assert s.queue == [s.queue[0]] + s.queue[1..];
      }
    case Finish(verdict) =>
      CountOne(s.phase.p, id);
      match verdict {
        case Sent => CountAppended(s.sent, s.phase.p, id);
        case Later(e) => CountAppended(s.queue, s.phase.p.(error := e), id);
        case GiveUp => CountAppended(s.gaveUp, s.phase.p, id);
      }
    case _ =>
  }

  lemma AccountedStep(s: Sys, step: Step)
    requires Accounted(s) && Enabled(s, step)
    ensures Accounted(Next(s, step))
  {
    forall id: nat ensures Places(Next(s, step), id) == if id < Next(s, step).pushed then 1 else 0 {
      PlacesStep(s, step, id);
    }
  }

  // ----- the dropped counter -----

  function Uncounted(threads: seq<Thread>): nat {
    if threads == [] then 0
    else
      Uncounted(threads[..|threads| - 1]) +
      (if threads[|threads| - 1].Counting? then threads[|threads| - 1].evicted else 0)
  }

  function Weight(t: Thread): nat {
    if t.Counting? then t.evicted else 0
  }

  lemma {:induction false} UncountedUpdate(threads: seq<Thread>, i: nat, t: Thread)
    requires i < |threads|
    ensures Uncounted(threads[i := t]) + Weight(threads[i]) == Uncounted(threads) + Weight(t)
  {
    var init := threads[..|threads| - 1];
    if i < |threads| - 1 {
      UncountedUpdate(init, i, t);
      assert threads[i := t][..|threads| - 1] == init[i := t];
    } else {
      assert threads[i := t][..|threads| - 1] == init;
    }
  }

  /** The counter lags behind the evictions only by what threads have yet to add. */
  ghost predicate Counted(s: Sys) {
    s.dropped + Uncounted(s.threads) == |s.evicted|
  }

  lemma CountedStep(s: Sys, step: Step)
    requires Counted(s) && Enabled(s, step)
    ensures Counted(Next(s, step))
  {
    var t := Next(s, step);
    match step
    case PushInsert(i, at, attempts, error, max) =>
      UncountedUpdate(s.threads, i, t.threads[i]);
    case TrimEvict(i, max) =>
      UncountedUpdate(s.threads, i, t.threads[i]);
    case CountDropped(i) => UncountedUpdate(s.threads, i, t.threads[i]);
    case NotifyWork(i) => UncountedUpdate(s.threads, i, Idle);
    case _ =>
  }

  // ----- no lost wake-up -----

  /** Some push has inserted its entry and has yet to notify. */
  ghost predicate WakeUpComing(threads: seq<Thread>) {
    exists i :: 0 <= i < |threads| && (threads[i].Notifying? || (threads[i].Counting? && threads[i].notifies))
  }

  ghost predicate NoLostWakeUp(s: Sys) {
    s.phase.WaitingForWork? && s.queue != [] ==> s.work || WakeUpComing(s.threads)
  }

  lemma WakeUpStep(s: Sys, step: Step)
    requires NoLostWakeUp(s) && Enabled(s, step)
    ensures NoLostWakeUp(Next(s, step))
  {
    var t := Next(s, step);
    if t.phase.WaitingForWork? && t.queue != [] && !t.work {
      match step
      case PushInsert(i, at, attempts, error, max) =>
        assert t.threads[i].Counting? && t.threads[i].notifies;
      case TrimEvict(i, max) =>
        assert s.queue != [];
        var j :| 0 <= j < |s.threads| && (s.threads[j].Notifying? || (s.threads[j].Counting? && s.threads[j].notifies));
        assert t.threads[j] == s.threads[j];
      case CountDropped(i) =>
        var j :| 0 <= j < |s.threads| && (s.threads[j].Notifying? || (s.threads[j].Counting? && s.threads[j].notifies));
        assert t.threads[j].Notifying? || t.threads[j] == s.threads[j];
      case _ =>
    }
  }

  /** Whenever something waits in the queue, somebody can take a step that brings the
      flusher closer to it. */
  ghost predicate CanProgress(s: Sys) {
    exists step :: Enabled(s, step) &&
      (step.CountDropped? || step.NotifyWork? || step.Check? || step.TakeWork? || step.Elapse? || step.PopNext? || step.Finish?)
  }

  lemma StateIsNotStuck(s: Sys)
    requires NoLostWakeUp(s) && s.queue != []
    ensures CanProgress(s)
  {
    match s.phase
    case Checking => assert Enabled(s, Check);
    case WaitingForWork =>
      if s.work {
        assert Enabled(s, TakeWork);
      } else {
        var i :| 0 <= i < |s.threads| && (s.threads[i].Notifying? || (s.threads[i].Counting? && s.threads[i].notifies));
        if s.threads[i].Notifying? {
          assert Enabled(s, NotifyWork(i));
        } else {
          assert Enabled(s, CountDropped(i));
        }
      }
    case BackingOff => assert Enabled(s, Elapse);
    case Flushing => assert Enabled(s, PopNext);
    case Sending(_) => assert Enabled(s, Finish(Sent));
  }

  // ----- limits -----

  ghost predicate DelayOk(s: Sys) {
    FIRST_DELAY <= s.delay <= MAX_DELAY
  }

  lemma DelayStep(s: Sys, step: Step)
    requires DelayOk(s) && Enabled(s, step)
    ensures DelayOk(Next(s, step))
  {
  }

  function InFlightCount(s: Sys): nat {
    if s.phase.Sending? then 1 else 0
  }

  /** Under a fixed limit, at most one entry more than the limit is in memory. */
  ghost predicate Bounded(s: Sys, limit: nat) {
    |s.queue| + InFlightCount(s) <= limit + 1 && (s.phase.Sending? ==> |s.queue| <= limit)
  }

  predicate UsesLimit(step: Step, limit: nat) {
    (step.PushInsert? ==> step.max == limit) && (step.TrimEvict? ==> step.max == limit)
  }

  lemma BoundedStep(s: Sys, step: Step, limit: nat)
    requires limit > 0 && Bounded(s, limit) && Enabled(s, step) && UsesLimit(step, limit)
    ensures Bounded(Next(s, step), limit)
  {
  }

  // ----- all of it, over every run -----

  lemma StartHolds(threads: nat)
    ensures var s := Start(threads); Accounted(s) && Counted(s) && NoLostWakeUp(s) && DelayOk(s)
  {
    NobodyCounting(seq(threads, i => Idle));
  }

  lemma {:induction false} RunsKeep(threads: nat, steps: seq<Step>, s: Sys)
    requires Reaches(threads, steps, s)
    ensures Accounted(s) && Counted(s) && NoLostWakeUp(s) && DelayOk(s)
  {
    if steps == [] {
      StartHolds(threads);
    } else {
      var last := Last(steps);
      var s0 :| Reaches(threads, steps[..|steps| - 1], s0) && Steps(s0, last, s);
      RunsKeep(threads, steps[..|steps| - 1], s0);
      AccountedStep(s0, last);
      CountedStep(s0, last);
      WakeUpStep(s0, last);
      DelayStep(s0, last);
    }
  }

  lemma {:induction false} RunsStayBounded(threads: nat, steps: seq<Step>, s: Sys, limit: nat)
    requires Reaches(threads, steps, s) && limit > 0
    requires forall i :: 0 <= i < |steps| ==> UsesLimit(steps[i], limit)
    ensures Bounded(s, limit)
  {
    if steps != [] {
      var last := Last(steps);
      var s0 :| Reaches(threads, steps[..|steps| - 1], s0) && Steps(s0, last, s);
      RunsStayBounded(threads, steps[..|steps| - 1], s0, limit);
      BoundedStep(s0, last, limit);
    }
  }

  /** Under every interleaving, an alert that was pushed is in exactly one of: the
      queue, the flusher's hands, sent, given up, evicted; and it is there once. */
  lemma EveryAlertIsInOnePlace(threads: nat, steps: seq<Step>, s: Sys, id: nat)
    requires Reaches(threads, steps, s)
    ensures Count(s.queue, id) + Count(InFlight(s), id) + Count(s.sent, id) + Count(s.gaveUp, id)
            + Count(s.evicted, id) == if id < s.pushed then 1 else 0
  {
    RunsKeep(threads, steps, s);
    assert Places(s, id) == if id < s.pushed then 1 else 0;
  }

  /** Once no thread is in the middle of a push or trim, the counter is exact. */
  lemma DroppedCountsEvictions(threads: nat, steps: seq<Step>, s: Sys)
    requires Reaches(threads, steps, s)
    ensures s.dropped <= |s.evicted|
    ensures (forall i :: 0 <= i < |s.threads| ==> !s.threads[i].Counting?) ==> s.dropped == |s.evicted|
  {
    RunsKeep(threads, steps, s);
    if forall i :: 0 <= i < |s.threads| ==> !s.threads[i].Counting? {
      NobodyCounting(s.threads);
    }
  }

  lemma {:induction false} NobodyCounting(threads: seq<Thread>)
    requires forall i :: 0 <= i < |threads| ==> !threads[i].Counting?
    ensures Uncounted(threads) == 0
  {
    if threads != [] {
      NobodyCounting(threads[..|threads| - 1]);
    }
  }

  /** No wake-up is lost: in every reachable state with a non-empty queue, a flusher
      that waits for work has its permit or a push about to give it one, and some
      thread can take a step towards the next pass. */
  lemma NeverStuck(threads: nat, steps: seq<Step>, s: Sys)
    requires Reaches(threads, steps, s) && s.queue != []
    ensures s.phase.WaitingForWork? ==> s.work || WakeUpComing(s.threads)
    ensures CanProgress(s)
    ensures FIRST_DELAY <= s.delay <= MAX_DELAY
  {
    RunsKeep(threads, steps, s);
    StateIsNotStuck(s);
  }

  // ----- the delay between passes -----

  /** How many passes in a row got nothing sent, and how many entries this one got sent. */
  datatype Tally = Tally(failures: nat, sent: nat)

  /** A pass ends at the first entry that still fails or with the queue empty, and one that got
      something sent is no failure. An idle flusher starts afresh. */
  function Tallied(s: Sys, step: Step, tally: Tally): Tally {
    if step.TakeWork? then tally.(failures := 0)
    else if step.PopNext? && s.queue == [] then Tally(0, 0)
    else if step.Finish? && step.verdict.Sent? then tally.(sent := tally.sent + 1)
    else if step.Finish? && step.verdict.Later? then Tally(if tally.sent == 0 then tally.failures + 1 else 0, 0)
    else tally
  }

  ghost predicate ReachesWith(threads: nat, steps: seq<Step>, s: Sys, tally: Tally) {
    if steps == [] then s == Start(threads) && tally == Tally(0, 0)
    else
      exists s0, t0 ::
        ReachesWith(threads, steps[..|steps| - 1], s0, t0) && Steps(s0, Last(steps), s)
        && tally == Tallied(s0, Last(steps), t0)
  }

  /** Every run has such a tally. */
  lemma {:induction false} RunsAreTallied(threads: nat, steps: seq<Step>, s: Sys) returns (tally: Tally)
    requires Reaches(threads, steps, s)
    ensures ReachesWith(threads, steps, s, tally)
  {
    if steps == [] {
      tally := Tally(0, 0);
    } else {
      var s0 :| Reaches(threads, steps[..|steps| - 1], s0) && Steps(s0, Last(steps), s);
      var t0 := RunsAreTallied(threads, steps[..|steps| - 1], s0);
      tally := Tallied(s0, Last(steps), t0);
    }
  }

  lemma BackoffStep(s: Sys, step: Step, tally: Tally)
    requires Enabled(s, step) && s.delay == DelayAfter(tally.failures) && s.sentInPass == tally.sent
    ensures var after, next := Next(s, step), Tallied(s, step, tally);
      after.delay == DelayAfter(next.failures) && after.sentInPass == next.sent
  {
    DelayDoubles(tally.failures);
  }

  /** The flusher waits thirty seconds before a pass, twice as long after every pass in a row
      that got nothing sent, and never longer than five minutes. */
  lemma {:induction false} BackoffIsExponential(threads: nat, steps: seq<Step>, s: Sys, tally: Tally)
    requires ReachesWith(threads, steps, s, tally)
    ensures s.delay == DelayAfter(tally.failures) && s.sentInPass == tally.sent
  {
    if steps == [] {
      DelayDoubles(0);
    } else {
      var last := Last(steps);
      var s0, t0 :| ReachesWith(threads, steps[..|steps| - 1], s0, t0) && Steps(s0, last, s)
                    && tally == Tallied(s0, last, t0);
      BackoffIsExponential(threads, steps[..|steps| - 1], s0, t0);
      BackoffStep(s0, last, t0);
    }
  }

  // ----- order -----

  /** The queue is in order, and everything in it belongs after the entry in flight. */
  ghost predicate Ordered(s: Sys) {
    && Sorted(s.queue)
    && (forall i :: 0 <= i < |s.queue| ==> s.queue[i].id < s.pushed)
    && (s.phase.Sending? ==> s.phase.p.id < s.pushed && forall i :: 0 <= i < |s.queue| ==> Before(s.phase.p, s.queue[i]))
  }

  /** The only disturbance: a push of an alert older than the one in flight. */
  predicate NotOlder(s: Sys, step: Step) {
    step.PushInsert? && s.phase.Sending? ==> step.at >= s.phase.p.at
  }

  /** The queue is full, so an alert older than all of it is evicted at once. */
  predicate CrowdedOut(s: Sys, step: Step) {
    step.PushInsert? && step.max > 0 && |s.queue| >= step.max
  }

  predicate KeepsOrder(s: Sys, step: Step) {
    NotOlder(s, step) || CrowdedOut(s, step)
  }

  lemma InsertedAfter(q: seq<Pending>, p: Pending, first: Pending)
    requires forall i :: 0 <= i < |q| ==> Before(first, q[i])
    requires Before(first, p)
    ensures forall i :: 0 <= i < |InsertByTime(q, p)| ==> Before(first, InsertByTime(q, p)[i])
  {
  }

  /** An alert older than the one in flight goes to the front. */
  lemma OldestGoesFirst(s: Sys, step: Step)
    requires Ordered(s) && step.PushInsert? && !NotOlder(s, step)
    ensures var p := Pending(s.pushed, step.at, step.attempts, step.error);
      InsertByTime(s.queue, p) == [p] + s.queue
  {
    assert Slot(s.queue, step.at) == 0;
  }

  lemma OrderedPush(s: Sys, step: Step)
    requires Ordered(s) && step.PushInsert? && Enabled(s, step) && KeepsOrder(s, step)
    ensures Ordered(Next(s, step))
  {
    if NotOlder(s, step) {
      OrderedInsert(s, step);
    } else {
      OrderedCrowdOut(s, step);
    }
  }

  lemma OrderedInsert(s: Sys, step: Step)
    requires Ordered(s) && step.PushInsert? && Enabled(s, step) && NotOlder(s, step)
    ensures Ordered(Next(s, step))
  {
    var p := Pending(s.pushed, step.at, step.attempts, step.error);
    var q := InsertByTime(s.queue, p);
    InsertKeepsSorted(s.queue, p);
    DropKeepsSorted(q, Excess(q, step.max));
    if s.phase.Sending? {
      InsertedAfter(s.queue, p, s.phase.p);
    }
  }

  lemma OrderedCrowdOut(s: Sys, step: Step)
    requires Ordered(s) && Enabled(s, step) && !NotOlder(s, step) && CrowdedOut(s, step)
    ensures Ordered(Next(s, step))
  {
    var p := Pending(s.pushed, step.at, step.attempts, step.error);
    var q := InsertByTime(s.queue, p);
    var n := Excess(q, step.max);
    OldestGoesFirst(s, step);
    assert q[n..] == s.queue[n - 1..];
    DropKeepsSorted(s.queue, n - 1);
  }

  lemma OrderedPop(s: Sys)
    requires Ordered(s) && s.phase.Flushing?
    ensures Ordered(Next(s, PopNext))
  {
    if s.queue != [] {
      DropKeepsSorted(s.queue, 1);
    }
  }

  lemma OrderedFinish(s: Sys, verdict: Verdict)
    requires Ordered(s) && s.phase.Sending?
    ensures Ordered(Next(s, Finish(verdict)))
  {
    if verdict.Later? {
      RequeueKeepsSortedIff(s.queue, s.phase.p.(error := verdict.error));
    }
  }

  lemma OrderedStep(s: Sys, step: Step)
    requires Ordered(s) && Enabled(s, step) && KeepsOrder(s, step)
    ensures Ordered(Next(s, step))
  {
    match step
    case PushInsert(_, _, _, _, _) => OrderedPush(s, step);
    case TrimEvict(i, max) => DropKeepsSorted(s.queue, Excess(s.queue, max));
    case PopNext => OrderedPop(s);
    case Finish(verdict) => OrderedFinish(s, verdict);
    case _ =>
  }

  ghost predicate ReachesUndisturbed(threads: nat, steps: seq<Step>, s: Sys) {
    if steps == [] then s == Start(threads)
    else exists s0 ::
      && ReachesUndisturbed(threads, steps[..|steps| - 1], s0)
      && Steps(s0, Last(steps), s) && KeepsOrder(s0, Last(steps))
  }

  /** The backlog goes out in the order the alerts happened, in every run in which no
      alert older than the one being sent arrives meanwhile and stays in the queue. */
  lemma {:induction false} BacklogStaysInOrder(threads: nat, steps: seq<Step>, s: Sys)
    requires ReachesUndisturbed(threads, steps, s)
    ensures Ordered(s)
  {
    if steps != [] {
      var last := Last(steps);
      var s0 :| ReachesUndisturbed(threads, steps[..|steps| - 1], s0)
        && Steps(s0, last, s) && KeepsOrder(s0, last);
      BacklogStaysInOrder(threads, steps[..|steps| - 1], s0);
      OrderedStep(s0, last);
    }
  }

  /** The condition is exact, whatever the limit: putting the alert in flight back in front
      breaks the order if and only if an older one was pushed meanwhile and found room. */
  lemma OlderPushBreaksOrderIff(s: Sys, step: Step, e: string)
    requires Ordered(s) && s.phase.Sending? && step.PushInsert? && Enabled(s, step)
    ensures var t := Next(s, step);
      Enabled(t, Finish(Later(e))) &&
      (Sorted(Next(t, Finish(Later(e))).queue) <==> KeepsOrder(s, step))
  {
    var t := Next(s, step);
    if KeepsOrder(s, step) {
      OrderedPush(s, step);
      OrderedFinish(t, Later(e));
    } else {
      OldestGoesFirst(s, step);
      var out := Next(t, Finish(Later(e))).queue;
      assert out[0].at == s.phase.p.at && out[1].at == step.at;
      assert !Before(out[0], out[1]);
    }
  }

  // ----- an undisturbed pass -----

  /** The flusher's own steps of one pass, with nobody in between. */
  function RunPass(s: Sys, send: Pending -> Verdict): Sys
    requires s.phase.Flushing?
    decreases |s.queue|
  {
    var popped := Next(s, PopNext);
    if s.queue == [] then popped
    else
      var verdict := send(popped.phase.p);
      var done := Next(popped, Finish(verdict));
      if verdict.Later? then done else RunPass(done, send)
  }

  /** A pass with nobody in between is the sequential flush: it settles as many
      entries as come before the first one that still fails. */
  lemma {:induction false} UndisturbedPass(s: Sys, send: Pending -> Verdict)
    requires s.phase.Flushing?
    ensures var t := RunPass(s, send);
      && t.phase.Checking? && t.queue == Flushed(s.queue, send)
      && |t.sent| + |t.gaveUp| == |s.sent| + |s.gaveUp| + FirstLater(s.queue, send)
    decreases |s.queue|
  {
    if s.queue != [] {
      var popped := Next(s, PopNext);
      var verdict := send(popped.phase.p);
      var done := Next(popped, Finish(verdict));
      if !verdict.Later? {
        UndisturbedPass(done, send);
        FlushedTail(s.queue, send);
      }
    }
  }

  lemma FlushedTail(q: seq<Pending>, send: Pending -> Verdict)
    requires q != [] && !send(Tried(q[0])).Later?
    ensures Flushed(q, send) == Flushed(q[1..], send) && FirstLater(q, send) == 1 + FirstLater(q[1..], send)
  {
    var k := FirstLater(q[1..], send);
    if k < |q| - 1 {
      assert q[1..][k + 1..] == q[k + 2..];
    }
  }

  /** What it leaves: the suffix from the first entry that still fails, that entry
      with one attempt more and its new error, in the same order as before. */
  lemma FlushLeavesSuffix(q: seq<Pending>, send: Pending -> Verdict)
    ensures var k := FirstLater(q, send); var left := Flushed(q, send);
      && |left| == |q| - k
      && (forall i :: 0 < i < |left| ==> left[i] == q[k + i])
      && (left != [] ==> left[0] == q[k].(attempts := q[k].attempts + 1, error := send(Tried(q[k])).error))
    ensures Sorted(q) ==> Sorted(Flushed(q, send))
  {
  }
}
