// Deferred calls (hook_call_deferred and hook_task in common/hooks.c) as a state machine:
// the hook task moves one shared access at a time, and interrupts may arm or cancel a
// call wherever the task has interrupts enabled. Time may pass between any two steps.
module HookScheduler {

  const SECOND := 1000000

  datatype Phase =
    | Boot                                      // before hook_task starts
    | Sample                                    // top of the loop
    | Calling(t: int, i: nat)                   // interrupts off: about to look at entry i
    | Running(t: int, i: nat)                   // routine i runs, interrupts on
    | Ticking(t: int)                           // about to look at the tick
    | Seconds(t: int)                           // about to look at the second
    | Planning(t: int)                          // time sampled again, next not yet scanned for
    | Scanning(t: int, i: nat, next: int)       // interrupts off: shortening next by entry i
    | Deciding(t: int, next: int)               // interrupts on again, about to sleep or not
    | Asleep(wakeAt: int, lag: int)             // in task_wait_event, called `lag` after t

  /** One arming of a deferred call, and one run of it. */
  datatype Arming = Arming(entry: int, deadline: int)
  datatype Run = Run(id: int, at: int)

  datatype State = State(
    now: int,
    phase: Phase,
    pending: bool,            // a wake event is set for the task
    until: seq<int>,          // deadline of each entry, zero when it is not armed
    tick: int,                // the tick interval of this configuration
    lastTick: int,
    lastSecond: int,
    // history: all armings made, which of them each entry holds, all runs, all ticks
    armings: seq<Arming>,
    current: seq<int>,
    runs: seq<Run>,
    ticks: seq<int>)

  datatype Action =
    | CallDeferred(entry: int, us: int)         // from an interrupt or from a routine
    | Elapse(time: nat)
    | TaskStep

  predicate InterruptsOff(p: Phase) {
    p.Calling? || p.Scanning?
  }

  /** Documented delays are -1 for cancel and 0 or more. */
  predicate Enabled(s: State, a: Action) {
    match a
    case CallDeferred(_, us) => us >= -1 && !InterruptsOff(s.phase)
    case Elapse(_) => true
    case TaskStep => s.phase.Asleep? ==> s.pending || s.now >= s.phase.wakeAt
  }

  /** hook_call_deferred */
  function Call(s: State, entry: int, us: int): State
    requires |s.current| == |s.until|
  {
    if !(0 <= entry < |s.until|) then s
    else if us == -1 then s.(until := s.until[entry := 0])
    else s.(until := s.until[entry := s.now + us], pending := s.pending || !s.phase.Boot?,
            armings := s.armings + [Arming(entry, s.now + us)],
            current := s.current[entry := |s.armings|])
  }

  /** One step of the first loop: a routine that is due is disarmed first, then run. */
  function StepCalling(s: State, t: int, i: nat): State
    requires |s.current| == |s.until|
  {
    if i >= |s.until| then s.(phase := Ticking(t))
    else if s.until[i] != 0 && s.until[i] < t then
      s.(until := s.until[i := 0], phase := Running(t, i), runs := s.runs + [Run(s.current[i], s.now)])
    else s.(phase := Calling(t, i + 1))
  }

  /** One step of the second loop. */
  function StepScanning(s: State, t: int, i: nat, next: int): State {
    if i >= |s.until| || next <= 0 then s.(phase := Deciding(t, next))
    else if s.until[i] == 0 then s.(phase := Scanning(t, i + 1, next))
    else if s.until[i] < t then s.(phase := Scanning(t, i + 1, 0))
    else if s.until[i] - t < next then s.(phase := Scanning(t, i + 1, s.until[i] - t))
    else s.(phase := Scanning(t, i + 1, next))
  }

  function StepTask(s: State): State
    requires |s.current| == |s.until|
  {
    match s.phase
    case Boot => s.(phase := Sample)
    case Sample => s.(phase := Calling(s.now, 0))
    case Calling(t, i) => StepCalling(s, t, i)
    case Running(t, i) => s.(phase := Calling(t, i + 1))
    case Ticking(t) =>
      if t - s.lastTick >= s.tick then s.(lastTick := t, ticks := s.ticks + [t], phase := Seconds(t))
      else s.(phase := Seconds(t))
    case Seconds(t) =>
      s.(lastSecond := if t - s.lastSecond >= SECOND then t else s.lastSecond, phase := Planning(s.now))
    case Planning(t) =>
      s.(phase := Scanning(t, 0, if s.lastTick + s.tick > t then s.lastTick + s.tick - t else 0))
    case Scanning(t, i, next) => StepScanning(s, t, i, next)
    case Deciding(t, next) =>
      if next <= 0 then s.(phase := Sample)
      else if s.pending then s.(phase := Sample, pending := false)
      else s.(phase := Asleep(s.now + next, s.now - t))
    case Asleep(_, _) => s.(phase := Sample, pending := false)
  }

  function Next(s: State, a: Action): State
    requires |s.current| == |s.until|
  {
    match a
    case CallDeferred(entry, us) => Call(s, entry, us)
    case Elapse(time) => s.(now := s.now + time)
    case TaskStep => StepTask(s)
  }

  function Initial(n: nat, tick: int, now: nat): State {
    State(now, Boot, false, seq(n, i => 0), tick, -tick, -SECOND, [], seq(n, i => -1), [], [])
  }

  // ------------------------------------------------------------- invariant

  /** None of the first n entries is due before t. */
  ghost predicate NoneDue(until: seq<int>, n: nat, t: int) {
    forall j :: 0 <= j < n && j < |until| ==> until[j] == 0 || until[j] >= t
  }

  /** A sleep ending then outlasts neither the next tick nor the deadline of any of the first n entries. */
  ghost predicate Covers(until: seq<int>, n: nat, tickAt: int, end: int) {
    && end <= tickAt
    && forall j :: 0 <= j < n && j < |until| ==> until[j] == 0 || end <= until[j]
  }

  /** The earliest of the next tick and the deadlines among the first n entries. */
  function Earliest(until: seq<int>, n: nat, tickAt: int): int
    requires n <= |until|
  {
    if n == 0 then tickAt else
      var e := Earliest(until, n - 1, tickAt);
      if until[n - 1] != 0 && until[n - 1] < e then until[n - 1] else e
  }

  /** It is one of them, and none of them is earlier. */
  lemma {:induction false} EarliestIs(until: seq<int>, n: nat, tickAt: int)
    requires n <= |until|
    ensures var e := Earliest(until, n, tickAt);
            && e <= tickAt && (forall j :: 0 <= j < n && until[j] != 0 ==> e <= until[j])
            && (e == tickAt || exists j :: 0 <= j < n && until[j] != 0 && e == until[j])
  {
    if n > 0 {
      EarliestIs(until, n - 1, tickAt);
    }
  }

  /** What the scan has found so far: how long the earliest of them leaves to sleep. */
  predicate Found(until: seq<int>, n: nat, tickAt: int, t: int, next: int) {
    n <= |until| && if next > 0 then t + next == Earliest(until, n, tickAt) else Earliest(until, n, tickAt) <= t
  }

  ghost predicate PhaseInv(s: State) {
    match s.phase
    case Boot => s.lastTick <= s.now
    case Sample => true
    case Calling(t, i) => t <= s.now && s.lastTick <= t && NoneDue(s.until, i, t)
    case Running(t, i) => t <= s.now && s.lastTick <= t && NoneDue(s.until, i + 1, t)
    case Ticking(t) => t <= s.now && s.lastTick <= t && NoneDue(s.until, |s.until|, t)
    case Seconds(t) => t <= s.now && NoneDue(s.until, |s.until|, t) && t < s.lastTick + s.tick
    case Planning(t) => t <= s.now
    case Scanning(t, i, next) =>
      && t <= s.now && Found(s.until, i, s.lastTick + s.tick, t, next)
      && (next > 0 ==> Covers(s.until, i, s.lastTick + s.tick, t + next))
    case Deciding(t, next) => t <= s.now && (next > 0 && !s.pending ==> Covers(s.until, |s.until|, s.lastTick + s.tick, t + next))
    case Asleep(wakeAt, lag) => lag >= 0 && (!s.pending ==> Covers(s.until, |s.until|, s.lastTick + s.tick, wakeAt - lag))
  }

  predicate Held(s: State, i: nat)
    requires i < |s.until| == |s.current|
  {
    s.until[i] != 0 ==>
      && 0 <= s.current[i] < |s.armings|
      && s.armings[s.current[i]] == Arming(i, s.until[i])
  }

  predicate HasRun(s: State, id: int) {
    exists r :: 0 <= r < |s.runs| && s.runs[r].id == id
  }

  /** This run was of an arming that was made, and later than its deadline. */
  predicate Late(s: State, r: nat)
    requires r < |s.runs|
  {
    0 <= s.runs[r].id < |s.armings| && s.armings[s.runs[r].id].deadline < s.runs[r].at
  }

  ghost predicate HistoryInv(s: State) {
    && |s.current| == |s.until|
    && (forall i :: 0 <= i < |s.until| ==> Held(s, i) && (s.until[i] != 0 ==> !HasRun(s, s.current[i])))
    && (forall r :: 0 <= r < |s.runs| ==> Late(s, r))
    && forall q, r :: 0 <= q < r < |s.runs| ==> s.runs[q].id != s.runs[r].id
  }

  ghost predicate TicksApart(s: State) {
    && (s.ticks != [] ==> s.lastTick == s.ticks[|s.ticks| - 1])
    && forall k :: 0 < k < |s.ticks| ==> s.ticks[k] - s.ticks[k - 1] >= s.tick
  }

  ghost predicate Inv(s: State) {
    && HistoryInv(s) && s.tick > 0 && s.now >= 0 && s.lastTick <= s.now
    && PhaseInv(s) && TicksApart(s)
    && forall j :: 0 <= j < |s.until| ==> s.until[j] >= 0
  }

  lemma InitInv(n: nat, tick: int, now: nat)
    requires tick > 0
    ensures Inv(Initial(n, tick, now))
  {
  }

  lemma NextIdHasNotRun(s: State)
    requires HistoryInv(s)
    ensures !HasRun(s, |s.armings|)
  {
    forall r | 0 <= r < |s.runs| ensures s.runs[r].id != |s.armings| {
      assert Late(s, r);
    }
  }

  lemma CallKeepsHistory(s: State, entry: int, us: int)
    requires Inv(s) && us >= -1
    ensures HistoryInv(Call(s, entry, us))
  {
    var u := Call(s, entry, us);
    NextIdHasNotRun(s);
    if 0 <= entry < |s.until| {
      forall i | 0 <= i < |u.until| ensures Held(u, i) && (u.until[i] != 0 ==> !HasRun(u, u.current[i])) {
        assert Held(s, i);
        assert HasRun(u, u.current[i]) <==> HasRun(s, u.current[i]);
      }
      forall r | 0 <= r < |u.runs| ensures Late(u, r) {
        assert Late(s, r);
      }
    }
  }

  lemma CallingKeeps(s: State)
    requires Inv(s) && s.phase.Calling?
    ensures Inv(StepTask(s))
  {
    var u, t, i := StepTask(s), s.phase.t, s.phase.i;
    if u.phase.Running? {
      assert Held(s, i) && !HasRun(s, s.current[i]);
      assert u.runs[|s.runs|] == Run(s.current[i], s.now);
      forall r | 0 <= r < |u.runs| ensures Late(u, r) {
        if r < |s.runs| { assert Late(s, r); }
      }
      forall k | 0 <= k < |u.until|
        ensures Held(u, k) && (u.until[k] != 0 ==> !HasRun(u, u.current[k]))
      {
        assert Held(s, k);
      }
    } else {
      SameHistory(s, u);
    }
  }

  lemma SameHistory(s: State, u: State)
    requires HistoryInv(s) && |s.current| == |s.until|
    requires u.until == s.until && u.armings == s.armings && u.current == s.current && u.runs == s.runs
    ensures HistoryInv(u)
  {
    forall i | 0 <= i < |u.until| ensures Held(u, i) && (u.until[i] != 0 ==> !HasRun(u, u.current[i])) {
      assert Held(s, i);
    }
    forall r | 0 <= r < |u.runs| ensures Late(u, r) {
      assert Late(s, r);
    }
  }

  lemma ScanningKeepsPhase(s: State)
    requires |s.current| == |s.until| && PhaseInv(s) && s.phase.Scanning?
    ensures PhaseInv(StepTask(s))
  {
    if s.phase.i < |s.until| && s.phase.next > 0 {
    }
  }

  lemma ScanningKeeps(s: State)
    requires Inv(s) && s.phase.Scanning?
    ensures Inv(StepTask(s))
  {
    SameHistory(s, StepTask(s));
    ScanningKeepsPhase(s);
  }

  lemma DecidingKeeps(s: State)
    requires Inv(s) && s.phase.Deciding?
    ensures Inv(StepTask(s))
  {
    SameHistory(s, StepTask(s));
  }

  lemma TickingKeeps(s: State)
    requires Inv(s) && s.phase.Ticking?
    ensures Inv(StepTask(s))
  {
    SameHistory(s, StepTask(s));
  }

  /** The remaining steps only move the task on. */
  lemma OtherStepsKeep(s: State)
    requires Inv(s) && !s.phase.Calling? && !s.phase.Scanning? && !s.phase.Deciding? && !s.phase.Ticking?
    ensures Inv(StepTask(s))
  {
    SameHistory(s, StepTask(s));
  }

  lemma CallKeeps(s: State, entry: int, us: int)
    requires Inv(s) && us >= -1 && !InterruptsOff(s.phase)
    ensures Inv(Call(s, entry, us))
  {
    CallKeepsHistory(s, entry, us);
  }

  lemma ElapseKeeps(s: State, time: nat)
    requires Inv(s)
    ensures Inv(Next(s, Elapse(time)))
  {
    SameHistory(s, Next(s, Elapse(time)));
  }

  lemma TaskKeeps(s: State)
    requires Inv(s)
    ensures Inv(StepTask(s))
  {
    match s.phase
    case Calling(_, _) => CallingKeeps(s);
    case Scanning(_, _, _) => ScanningKeeps(s);
    case Deciding(_, _) => DecidingKeeps(s);
    case Ticking(_) => TickingKeeps(s);
    case _ => OtherStepsKeep(s);
  }

  lemma StepKeepsInv(s: State, a: Action)
    requires Inv(s) && Enabled(s, a)
    ensures Inv(Next(s, a)) && |Next(s, a).until| == |s.until|
  {
    match a
    case CallDeferred(entry, us) => CallKeeps(s, entry, us);
    case Elapse(time) => ElapseKeeps(s, time);
    case TaskStep => TaskKeeps(s);
  }

  // ------------------------------------------------------------- runs

  /** A sequence of actions each enabled where it comes, from a good state to another. */
  ghost predicate Leads(s: State, actions: seq<Action>, u: State)
    requires |s.current| == |s.until|
    decreases |actions|
  {
    if actions == [] then s == u
    else
      Enabled(s, actions[0]) && var v := Next(s, actions[0]);
      |v.current| == |v.until| && Leads(v, actions[1..], u)
  }

  /** Everything reachable from the start, in any interleaving, satisfies the invariant. */
  lemma {:induction false} ReachableInv(s: State, actions: seq<Action>, u: State)
    requires Inv(s) && Leads(s, actions, u)
    ensures Inv(u)
    decreases |actions|
  {
    if actions != [] {
      StepKeepsInv(s, actions[0]);
      ReachableInv(Next(s, actions[0]), actions[1..], u);
    }
  }

  ghost predicate Reachable(n: nat, tick: int, now: nat, actions: seq<Action>, u: State) {
    tick > 0 && Leads(Initial(n, tick, now), actions, u)
  }

  /** Each arming runs at most once, and only after its deadline. */
  lemma RunsOnceAndLate(n: nat, tick: int, now: nat, actions: seq<Action>, u: State)
    requires Reachable(n, tick, now, actions, u)
    ensures forall r :: 0 <= r < |u.runs| ==>
      0 <= u.runs[r].id < |u.armings| && u.runs[r].at > u.armings[u.runs[r].id].deadline
    ensures forall q, r :: 0 <= q < r < |u.runs| ==> u.runs[q].id != u.runs[r].id
  {
    InitInv(n, tick, now);
    ReachableInv(Initial(n, tick, now), actions, u);
    forall r | 0 <= r < |u.runs|
      ensures 0 <= u.runs[r].id < |u.armings| && u.runs[r].at > u.armings[u.runs[r].id].deadline
    {
      assert Late(u, r);
    }
  }

  /**
   * The task sleeps without a pending wake no longer than `lag` past the next tick and
   * past every armed deadline, where `lag` is the time from sampling the clock to going
   * to sleep; from then on it can go on.
   */
  lemma NeverOversleepsBeyondLag(n: nat, tick: int, now: nat, actions: seq<Action>, u: State)
    requires Reachable(n, tick, now, actions, u) && u.phase.Asleep? && !u.pending
    ensures u.phase.lag >= 0 && u.phase.wakeAt <= u.lastTick + u.tick + u.phase.lag
    ensures forall j :: 0 <= j < |u.until| && u.until[j] != 0 ==> u.phase.wakeAt <= u.until[j] + u.phase.lag
    ensures (exists j :: 0 <= j < |u.until| && u.until[j] != 0 && u.now >= u.until[j] + u.phase.lag) ==>
      Enabled(u, TaskStep)
  {
    InitInv(n, tick, now);
    ReachableInv(Initial(n, tick, now), actions, u);
  }

  /** Only interrupts, routines and time: the task takes no step. */
  ghost predicate TaskWaits(actions: seq<Action>) {
    forall i :: 0 <= i < |actions| ==> !actions[i].TaskStep?
  }

  lemma {:induction false} WaitingKeepsPhase(s: State, others: seq<Action>, w: State)
    requires |s.current| == |s.until| && TaskWaits(others) && Leads(s, others, w)
    ensures |w.current| == |w.until| && w.phase == s.phase && w.now >= s.now
    decreases |others|
  {
    if others != [] {
      assert !others[0].TaskStep?;
      WaitingKeepsPhase(Next(s, others[0]), others[1..], w);
    }
  }

  /**
   * The lag is exact. Whatever is armed or cancelled, and however much time passes, between
   * the end of the scan and the call to sleep: with a wake pending the task goes round again,
   * and otherwise it sleeps until the earliest deadline scanned plus the whole time since it
   * sampled the clock. So it sleeps past that deadline if and only if time has passed.
   */
  lemma SleepEndsAt(s: State, others: seq<Action>, w: State)
    requires Inv(s) && s.phase.Scanning? && s.phase.i == |s.until| && s.phase.next > 0
    requires TaskWaits(others) && Leads(StepTask(s), others, w)
    ensures |w.current| == |w.until| && w.now >= s.phase.t
    ensures var t, u := s.phase.t, StepTask(w);
            var earliest := Earliest(s.until, |s.until|, s.lastTick + s.tick);
            if w.pending then u.phase == Sample
            else u.phase == Asleep(earliest + (w.now - t), w.now - t) && (u.phase.wakeAt > earliest <==> w.now > t)
  {
    WaitingKeepsPhase(StepTask(s), others, w);
  }

  lemma Prepend(s: State, a: Action, rest: seq<Action>, u: State)
    requires |s.current| == |s.until| && Enabled(s, a)
    requires |Next(s, a).current| == |Next(s, a).until| && Leads(Next(s, a), rest, u)
    ensures Leads(s, [a] + rest, u)
  {
    assert ([a] + rest)[1..] == rest;
  }

  /** From the decision to sleep, e passes before the task is asleep. */
  lemma FallsAsleep(s: State, e: nat) returns (actions: seq<Action>, u: State)
    requires |s.current| == |s.until| && s.phase.Deciding? && s.phase.next > 0 && !s.pending
    ensures u == s.(now := s.now + e, phase := Asleep(s.now + e + s.phase.next, s.now + e - s.phase.t))
    ensures Leads(s, actions, u)
  {
    var v := Next(s, Elapse(e));
    u := Next(v, TaskStep);
    Prepend(v, TaskStep, [], u);
    Prepend(s, Elapse(e), [TaskStep], u);
    assert [TaskStep] + [] == [TaskStep];
    actions := [Elapse(e)] + [TaskStep];
  }

  /** One more step of the task in front of a run. */
  lemma StepThen(s: State, rest: seq<Action>, u: State) returns (actions: seq<Action>)
    requires |s.current| == |s.until| && !s.phase.Asleep? && |StepTask(s).current| == |StepTask(s).until|
    requires Leads(StepTask(s), rest, u)
    ensures Leads(s, actions, u)
  {
    Prepend(s, TaskStep, rest, u);
    actions := [TaskStep] + rest;
  }

  /**
   * It does oversleep: without any deferred routine, for every tick interval and every
   * lag, the first sleep can end that much after the next tick.
   */
  lemma SleepsPastTick(tick: int, now: nat, e: nat) returns (actions: seq<Action>, u: State)
    requires tick > 0
    ensures Reachable(0, tick, now, actions, u) && u.phase.Asleep? && !u.pending
    ensures u.phase.wakeAt == u.lastTick + u.tick + e && u.phase.lag == e
  {
    var s0 := Initial(0, tick, now);
    var s1 := StepTask(s0);
    var s2 := StepTask(s1);
    var s3 := StepTask(s2);
    var s4 := StepTask(s3);
    var s5 := StepTask(s4);
    var s6 := StepTask(s5);
    var s7 := StepTask(s6);
    assert s7.phase == Deciding(now, tick) && s7.lastTick == now;
    actions, u := FallsAsleep(s7, e);
    actions := StepThen(s6, actions, u);
    actions := StepThen(s5, actions, u);
    actions := StepThen(s4, actions, u);
    actions := StepThen(s3, actions, u);
    actions := StepThen(s2, actions, u);
    actions := StepThen(s1, actions, u);
    actions := StepThen(s0, actions, u);
  }

  /** From planning on, with one routine armed for `us` from now, before the next tick. */
  lemma SleepsFromPlanning(s: State, us: nat, e: nat) returns (actions: seq<Action>, u: State)
    requires |s.current| == |s.until| && s.phase == Planning(s.now) && !s.pending
    requires s.now >= 0 && s.until == [s.now + us] && 0 < us < s.lastTick + s.tick - s.now
    ensures Leads(s, actions, u) && u.phase.Asleep? && !u.pending
    ensures u.until == s.until && u.phase.wakeAt == s.until[0] + e && u.phase.lag == e
  {
    var s1 := StepTask(s);
    var s2 := StepTask(s1);
    var s3 := StepTask(s2);
    assert s3.phase == Deciding(s.now, us);
    actions, u := FallsAsleep(s3, e);
    actions := StepThen(s2, actions, u);
    actions := StepThen(s1, actions, u);
    actions := StepThen(s, actions, u);
  }

  /** From the top of the first loop on, with the first tick due. */
  lemma SleepsFromCalling(s: State, us: nat, e: nat) returns (actions: seq<Action>, u: State)
    requires |s.current| == |s.until| && s.phase == Calling(s.now, 0) && !s.pending
    requires s.now >= 0 && s.until == [s.now + us] && 0 < us < s.tick && s.now - s.lastTick >= s.tick
    ensures Leads(s, actions, u) && u.phase.Asleep? && !u.pending
    ensures u.until == s.until && u.phase.wakeAt == s.until[0] + e && u.phase.lag == e
  {
    var s1 := StepTask(s);
    var s2 := StepTask(s1);
    var s3 := StepTask(s2);
    var s4 := StepTask(s3);
    actions, u := SleepsFromPlanning(s4, us, e);
    actions := StepThen(s3, actions, u);
    actions := StepThen(s2, actions, u);
    actions := StepThen(s1, actions, u);
    actions := StepThen(s, actions, u);
  }

  /** And past an armed deadline: the routine waits that much longer, with nothing pending. */
  lemma SleepsPastDeadline(tick: int, now: nat, us: nat, e: nat) returns (actions: seq<Action>, u: State)
    requires 0 < us < tick
    ensures Reachable(1, tick, now, actions, u) && u.phase.Asleep? && !u.pending
    ensures u.until == [now + us] && u.phase.wakeAt == u.until[0] + e && u.phase.lag == e
  {
    var s := Initial(1, tick, now);
    var s0 := Next(s, CallDeferred(0, us));
    var s1 := StepTask(s0);
    var s2 := StepTask(s1);
    assert s0.until == [now + us];
    actions, u := SleepsFromCalling(s2, us, e);
    actions := StepThen(s1, actions, u);
    actions := StepThen(s0, actions, u);
    Prepend(s, CallDeferred(0, us), actions, u);
    actions := [CallDeferred(0, us)] + actions;
  }

  /** Somewhere in a run the task sleeps, with nothing pending and this lag, past a tick or an armed deadline. */
  ghost predicate Oversleeps(n: nat, tick: int, now: nat, actions: seq<Action>, u: State, lag: int) {
    && Reachable(n, tick, now, actions, u) && u.phase.Asleep? && !u.pending && u.phase.lag == lag
    && (u.phase.wakeAt > u.lastTick + u.tick
        || exists j :: 0 <= j < |u.until| && u.until[j] != 0 && u.phase.wakeAt > u.until[j])
  }

  /**
   * When the promise to sleep no longer than the next thing to do is kept: for every tick
   * interval, no run oversleeps with a lag if and only if the lag is zero.
   */
  lemma NoRunOversleepsExactly(tick: int, lag: nat)
    requires tick > 0
    ensures (forall n, now, actions, u :: !Oversleeps(n, tick, now, actions, u, lag)) <==> lag == 0
  {
    if lag == 0 {
      forall n: nat, now: nat, actions, u ensures !Oversleeps(n, tick, now, actions, u, lag) {
        if Oversleeps(n, tick, now, actions, u, lag) {
          NeverOversleepsBeyondLag(n, tick, now, actions, u);
        }
      }
    } else {
      var actions, u := SleepsPastTick(tick, 0, lag);
      assert Oversleeps(0, tick, 0, actions, u, lag);
    }
  }

  /** A pass leaves nothing due: every deadline before its start has been run or taken back. */
  lemma PassRunsAllDue(n: nat, tick: int, now: nat, actions: seq<Action>, u: State)
    requires Reachable(n, tick, now, actions, u) && u.phase.Ticking?
    ensures forall j :: 0 <= j < |u.until| ==> u.until[j] == 0 || u.until[j] >= u.phase.t
  {
    InitInv(n, tick, now);
    ReachableInv(Initial(n, tick, now), actions, u);
  }

  /**
   * The task itself takes an arming back only to run it, after its deadline. In particular
   * a routine that arms itself while it runs stays armed.
   */
  lemma TaskDisarmsOnlyToRun(s: State, j: nat)
    requires Inv(s) && j < |s.until| && StepTask(s).until[j] != s.until[j]
    ensures s.phase.Calling? && s.phase.i == j && 0 < s.until[j] < s.phase.t <= s.now
    ensures StepTask(s).runs == s.runs + [Run(s.current[j], s.now)]
  {
  }

  /** Arming takes, unless the deadline comes out as zero, which reads as not armed. */
  lemma ArmsUnlessZero(s: State, entry: nat, us: nat)
    requires Inv(s) && entry < |s.until|
    ensures Call(s, entry, us).until[entry] != 0 <==> s.now + us > 0
  {
  }

  // ------------------------------------------------------------- arming and cancelling

  /** A cancel clears the deadline of its entry and does nothing else. */
  lemma CancelOnlyDisarms(s: State, entry: nat)
    requires |s.current| == |s.until| && entry < |s.until|
    ensures var u := Next(s, CallDeferred(entry, -1));
            u == s.(until := u.until) && |u.until| == |s.until| && u.until[entry] == 0
            && forall j :: 0 <= j < |s.until| && j != entry ==> u.until[j] == s.until[j]
  {
  }

  /**
   * An arming sets the deadline of its entry to now and the delay, counts as a new arming, and
   * wakes the task once it has started; no other entry changes.
   */
  lemma ArmingSets(s: State, entry: nat, us: nat)
    requires |s.current| == |s.until| && entry < |s.until|
    ensures var u := Next(s, CallDeferred(entry, us));
            && u == s.(until := u.until, current := u.current, armings := u.armings, pending := u.pending)
            && |u.until| == |s.until| && u.until[entry] == s.now + us
            && (forall j :: 0 <= j < |s.until| && j != entry ==> u.until[j] == s.until[j])
            && u.armings == s.armings + [Arming(entry, s.now + us)] && |u.current| == |s.current|
            && u.current[entry] == |s.armings|
            && (u.pending <==> s.pending || s.phase != Boot)
  {
  }

  /** An index outside the table arms and cancels nothing. */
  lemma UnregisteredIsRefused(s: State, entry: int, us: int)
    requires |s.current| == |s.until| && !(0 <= entry < |s.until|)
    ensures Next(s, CallDeferred(entry, us)) == s
  {
  }

  /** No action arms this entry. */
  ghost predicate NoArming(actions: seq<Action>, entry: int) {
    forall i :: 0 <= i < |actions| && actions[i].CallDeferred? && actions[i].entry == entry ==> actions[i].us == -1
  }

  /** No action calls for this entry at all. */
  ghost predicate NoCall(actions: seq<Action>, entry: int) {
    forall i :: 0 <= i < |actions| && actions[i].CallDeferred? ==> actions[i].entry != entry
  }

  /** All runs from the n-th on are of other entries. */
  ghost predicate OthersRun(u: State, n: nat, entry: int) {
    forall r :: n <= r < |u.runs| ==> 0 <= u.runs[r].id < |u.armings| && u.armings[u.runs[r].id].entry != entry
  }

  /** One step of a scheduler in which this entry is not armed. */
  lemma DisarmedStep(s: State, a: Action, entry: nat)
    requires Inv(s) && Enabled(s, a) && entry < |s.until| && s.until[entry] == 0
    requires a.CallDeferred? && a.entry == entry ==> a.us == -1
    ensures var v := Next(s, a);
            && |v.until| == |s.until| && v.until[entry] == 0 && OthersRun(v, |s.runs|, entry)
            && s.runs <= v.runs && s.armings <= v.armings
  {
    if a.TaskStep? && s.phase.Calling? && s.phase.i < |s.until| {
      assert Held(s, s.phase.i);
    }
  }

  lemma {:induction false} StaysDisarmed(s: State, actions: seq<Action>, u: State, entry: nat)
    requires Inv(s) && entry < |s.until| && s.until[entry] == 0 && Leads(s, actions, u) && NoArming(actions, entry)
    ensures |u.until| == |s.until| && u.until[entry] == 0 && OthersRun(u, |s.runs|, entry)
    ensures s.runs <= u.runs && s.armings <= u.armings
    decreases |actions|
  {
    if actions != [] {
      var v := Next(s, actions[0]);
      DisarmedStep(s, actions[0], entry);
      StepKeepsInv(s, actions[0]);
      StaysDisarmed(v, actions[1..], u, entry);
      forall r | |s.runs| <= r < |u.runs| ensures 0 <= u.runs[r].id < |u.armings| && u.armings[u.runs[r].id].entry != entry {
        if r < |v.runs| {
          assert u.runs[r] == v.runs[r] && u.armings[v.runs[r].id] == v.armings[v.runs[r].id];
        }
      }
    }
  }

  /**
   * Cancelling cancels: in every run, after a cancel and any other actions that do not arm
   * the entry again, its deadline is clear, and its routine has not been started since.
   */
  lemma CancelledStaysOff(n: nat, tick: int, now: nat, before: seq<Action>, s: State, entry: nat,
                          actions: seq<Action>, u: State)
    requires Reachable(n, tick, now, before, s) && entry < |s.until| == |s.current| && Enabled(s, CallDeferred(entry, -1))
    requires Leads(Next(s, CallDeferred(entry, -1)), actions, u) && NoArming(actions, entry)
    ensures |u.until| == |s.until| && u.until[entry] == 0
    ensures |s.runs| <= |u.runs| && u.runs[..|s.runs|] == s.runs
    ensures forall r :: |s.runs| <= r < |u.runs| ==> 0 <= u.runs[r].id < |u.armings| && u.armings[u.runs[r].id].entry != entry
  {
    InitInv(n, tick, now);
    ReachableInv(Initial(n, tick, now), before, s);
    StepKeepsInv(s, CallDeferred(entry, -1));
    StaysDisarmed(Next(s, CallDeferred(entry, -1)), actions, u, entry);
  }

  /** The entry still holds this arming, with its deadline, and that has not run. */
  predicate Waits(u: State, entry: nat, id: int, deadline: int) {
    && entry < |u.until| == |u.current| && u.until[entry] == deadline && u.current[entry] == id
    && 0 <= id < |u.armings| && u.armings[id] == Arming(entry, deadline) && !HasRun(u, id)
  }

  /** It has run, later than its deadline, as one of the runs from the n-th on. */
  predicate RanOnce(u: State, n: nat, entry: nat, id: int, deadline: int) {
    && entry < |u.until| && u.until[entry] == 0
    && exists r :: n <= r < |u.runs| && u.runs[r].id == id && u.runs[r].at > deadline
  }

  lemma WaitingCalling(s: State, entry: nat, id: int, deadline: int)
    requires Inv(s) && s.phase.Calling? && deadline != 0 && Waits(s, entry, id, deadline)
    ensures var v := StepTask(s);
            s.runs <= v.runs && (Waits(v, entry, id, deadline) || RanOnce(v, |s.runs|, entry, id, deadline))
  {
    var v, i := StepTask(s), s.phase.i;
    if v.runs != s.runs {
      assert Held(s, i);
      if i == entry {
        assert v.runs[|s.runs|] == Run(id, s.now);
      }
    }
  }

  lemma WaitingStep(s: State, a: Action, entry: nat, id: int, deadline: int)
    requires Inv(s) && Enabled(s, a) && deadline != 0 && Waits(s, entry, id, deadline)
    requires a.CallDeferred? ==> a.entry != entry
    ensures var v := Next(s, a);
            s.runs <= v.runs && (Waits(v, entry, id, deadline) || RanOnce(v, |s.runs|, entry, id, deadline))
  {
    if a.TaskStep? && s.phase.Calling? {
      WaitingCalling(s, entry, id, deadline);
    } else {
      assert Next(s, a).runs == s.runs;
    }
  }

  lemma {:induction false} WaitsOrRuns(s: State, actions: seq<Action>, u: State, entry: nat, id: int, deadline: int)
    requires Inv(s) && deadline != 0 && Waits(s, entry, id, deadline)
    requires Leads(s, actions, u) && NoCall(actions, entry)
    ensures Waits(u, entry, id, deadline) || RanOnce(u, |s.runs|, entry, id, deadline)
    decreases |actions|
  {
    if actions != [] {
      var v := Next(s, actions[0]);
      WaitingStep(s, actions[0], entry, id, deadline);
      StepKeepsInv(s, actions[0]);
      if Waits(v, entry, id, deadline) {
        WaitsOrRuns(v, actions[1..], u, entry, id, deadline);
      } else {
        var r :| |s.runs| <= r < |v.runs| && v.runs[r].id == id && v.runs[r].at > deadline;
        StaysDisarmed(v, actions[1..], u, entry);
        assert u.runs[r] == v.runs[r];
      }
    }
  }

  /**
   * Arming arms: in every run, an arming that is neither cancelled nor replaced waits with its
   * deadline - the time of the call and the delay - until its routine is started after it.
   */
  lemma ArmedWaitsOrRuns(n: nat, tick: int, now: nat, before: seq<Action>, s: State, entry: nat, us: nat,
                         actions: seq<Action>, u: State)
    requires Reachable(n, tick, now, before, s) && entry < |s.until| == |s.current| && Enabled(s, CallDeferred(entry, us))
    requires Leads(Next(s, CallDeferred(entry, us)), actions, u) && NoCall(actions, entry) && s.now + us > 0
    ensures Waits(u, entry, |s.armings|, s.now + us) || RanOnce(u, |s.runs|, entry, |s.armings|, s.now + us)
  {
    InitInv(n, tick, now);
    ReachableInv(Initial(n, tick, now), before, s);
    var v := Next(s, CallDeferred(entry, us));
    StepKeepsInv(s, CallDeferred(entry, us));
    assert !HasRun(v, |s.armings|) by {
      forall r | 0 <= r < |s.runs| ensures s.runs[r].id != |s.armings| {
        assert Late(s, r);
      }
    }
    WaitsOrRuns(v, actions, u, entry, |s.armings|, s.now + us);
  }

  /** The tick is called when the interval has passed, and the second when a million microseconds have. */
  lemma TicksWhenDue(s: State)
    requires |s.current| == |s.until|
    ensures s.phase.Ticking? ==>
      var t, u := s.phase.t, StepTask(s);
      u == s.(phase := u.phase, lastTick := u.lastTick, ticks := u.ticks)
      && (u.ticks, u.lastTick) == if t >= s.lastTick + s.tick then (s.ticks + [t], t) else (s.ticks, s.lastTick)
    ensures s.phase.Seconds? ==>
      StepTask(s).lastSecond == if s.phase.t >= s.lastSecond + 1000000 then s.phase.t else s.lastSecond
  {
  }

  /** Ticks come at least a tick interval apart. */
  lemma TicksKeepApart(n: nat, tick: int, now: nat, actions: seq<Action>, u: State, j: nat, k: nat)
    requires Reachable(n, tick, now, actions, u) && j < k < |u.ticks|
    ensures u.ticks[k] - u.ticks[j] >= (k - j) * u.tick
  {
    InitInv(n, tick, now);
    ReachableInv(Initial(n, tick, now), actions, u);
    Spread(u.ticks, u.tick, j, k);
  }

  lemma {:induction false} Spread(ticks: seq<int>, tick: int, j: nat, k: nat)
    requires j <= k < |ticks| && forall i :: 0 < i < |ticks| ==> ticks[i] - ticks[i - 1] >= tick
    ensures ticks[k] - ticks[j] >= (k - j) * tick
    decreases k - j
  {
    if j < k {
      Spread(ticks, tick, j, k - 1);
    }
  }
}
