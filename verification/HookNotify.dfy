// Priority dispatch of hook routines (hook_notify in common/hooks.c). The table is not
// sorted; each round finds the next priority by a scan and calls everything that has it.
module HookNotify {

  const HOOK_PRIO_FIRST := 1
  const HOOK_PRIO_LAST := 9999

  type Table = seq<int>               // the priority of each routine, in table order

  // ------------------------------------------------------------- the rounds

  /** The lowest priority above `last` among the first p routines, else one past the last priority. */
  function Lowest(t: Table, last: int, p: nat): int
    requires p <= |t|
  {
    if p == 0 then HOOK_PRIO_LAST + 1 else
      var low := Lowest(t, last, p - 1);
      if last < t[p - 1] < low then t[p - 1] else low
  }

  /** Those of the first p routines that have this priority, in table order. */
  function Calls(t: Table, prio: int, p: nat): seq<nat>
    requires p <= |t|
  {
    if p == 0 then [] else Calls(t, prio, p - 1) + (if t[p - 1] == prio then [p - 1] else [])
  }

  /** The priority the k-th round calls. */
  function Last(t: Table, k: nat): int {
    if k == 0 then HOOK_PRIO_FIRST - 1 else Lowest(t, Last(t, k - 1), |t|)
  }

  /** All calls of the first k rounds. */
  function Order(t: Table, k: nat): seq<nat> {
    if k == 0 then [] else Order(t, k - 1) + Calls(t, Last(t, k), |t|)
  }

  // ------------------------------------------------------------- what dispatch means

  predicate InRange(t: Table, i: nat)
    requires i < |t|
  {
    HOOK_PRIO_FIRST <= t[i] <= HOOK_PRIO_LAST + 1
  }

  ghost predicate AllInRange(t: Table) {
    forall i :: 0 <= i < |t| ==> InRange(t, i)
  }

  /** Routine i goes before routine j. */
  predicate Before(t: Table, i: nat, j: nat)
    requires i < |t| && j < |t|
  {
    t[i] < t[j] || (t[i] == t[j] && i < j)
  }

  ghost predicate Sorted(t: Table, order: seq<nat>) {
    && (forall a :: 0 <= a < |order| ==> order[a] < |t|)
    && forall a, b :: 0 <= a < b < |order| ==> Before(t, order[a], order[b])
  }

  /** Every routine exactly once, by priority, ties in table order. */
  ghost predicate Dispatches(t: Table, order: seq<nat>) {
    && Sorted(t, order) && |order| == |t|
    && forall i: nat :: i < |t| ==> i in order
  }

  // ------------------------------------------------------------- scanning

  lemma {:induction false} LowestIs(t: Table, last: int, p: nat)
    requires p <= |t|
    ensures var low := Lowest(t, last, p);
            && low <= HOOK_PRIO_LAST + 1
            && (forall i :: 0 <= i < p && t[i] > last ==> low <= t[i])
            && (low == HOOK_PRIO_LAST + 1 || (low > last && exists i :: 0 <= i < p && t[i] == low))
  {
    if p > 0 {
      LowestIs(t, last, p - 1);
    }
  }

  lemma {:induction false} CallsMembers(t: Table, prio: int, p: nat, i: nat)
    requires p <= |t|
    ensures i in Calls(t, prio, p) <==> i < p && t[i] == prio
  {
    if p > 0 {
      CallsMembers(t, prio, p - 1, i);
    }
  }

  lemma {:induction false} NoCalls(t: Table, prio: int, p: nat)
    requires p <= |t| && forall i :: 0 <= i < p ==> t[i] != prio
    ensures Calls(t, prio, p) == []
  {
    if p > 0 {
      NoCalls(t, prio, p - 1);
    }
  }

  ghost predicate Ascending(c: seq<nat>, p: nat) {
    && (forall a :: 0 <= a < |c| ==> c[a] < p)
    && forall a, b :: 0 <= a < b < |c| ==> c[a] < c[b]
  }

  lemma {:induction false} CallsAscend(t: Table, prio: int, p: nat)
    requires p <= |t|
    ensures Ascending(Calls(t, prio, p), p)
  {
    if p > 0 {
      CallsAscend(t, prio, p - 1);
    }
  }

  lemma CallsAre(t: Table, prio: int, p: nat)
    requires p <= |t|
    ensures var c := Calls(t, prio, p);
            && Sorted(t, c) && (forall a :: 0 <= a < |c| ==> c[a] < p && t[c[a]] == prio)
            && forall i: nat :: i < p && t[i] == prio ==> i in c
  {
    CallsAscend(t, prio, p);
    forall i: nat ensures i in Calls(t, prio, p) <==> i < p && t[i] == prio {
      CallsMembers(t, prio, p, i);
    }
    var c := Calls(t, prio, p);
    forall a | 0 <= a < |c| ensures c[a] < p && t[c[a]] == prio {
      assert c[a] in c;
    }
  }

  /** How many of the first p routines have a priority from FIRST up to `last`. */
  function Count(t: Table, last: int, p: nat): (c: nat)
    requires p <= |t|
    ensures c <= p
  {
    if p == 0 then 0
    else Count(t, last, p - 1) + if HOOK_PRIO_FIRST <= t[p - 1] <= last then 1 else 0
  }

  lemma {:induction false} CountStep(t: Table, last: int, prio: int, p: nat)
    requires p <= |t| && HOOK_PRIO_FIRST - 1 <= last < prio
    requires forall i :: 0 <= i < p && t[i] > last ==> prio <= t[i]
    ensures Count(t, prio, p) == Count(t, last, p) + |Calls(t, prio, p)|
  {
    if p > 0 {
      CountStep(t, last, prio, p - 1);
    }
  }

  lemma {:induction false} CountNone(t: Table, p: nat)
    requires p <= |t|
    ensures Count(t, HOOK_PRIO_FIRST - 1, p) == 0
  {
    if p > 0 {
      CountNone(t, p - 1);
    }
  }

  lemma {:induction false} CountAll(t: Table, last: int, p: nat)
    requires p <= |t|
    ensures Count(t, last, p) == p <==> forall i :: 0 <= i < p ==> HOOK_PRIO_FIRST <= t[i] <= last
  {
    if p > 0 {
      CountAll(t, last, p - 1);
    }
  }

  // ------------------------------------------------------------- one round

  /** After some rounds: called are exactly the routines up to `last`, once each, in order. */
  ghost predicate UpTo(t: Table, order: seq<nat>, last: int) {
    && HOOK_PRIO_FIRST - 1 <= last <= HOOK_PRIO_LAST + 1
    && Sorted(t, order) && |order| == Count(t, last, |t|)
    && (forall a :: 0 <= a < |order| ==> t[order[a]] <= last)
    && forall i: nat :: i < |t| && HOOK_PRIO_FIRST <= t[i] <= last ==> i in order
  }

  lemma UpToStep(t: Table, order: seq<nat>, last: int)
    requires UpTo(t, order, last)
    requires Lowest(t, last, |t|) > last || Calls(t, Lowest(t, last, |t|), |t|) == []
    ensures var prio := Lowest(t, last, |t|); UpTo(t, order + Calls(t, prio, |t|), prio)
  {
    var prio := Lowest(t, last, |t|);
    LowestIs(t, last, |t|);
    CallsAre(t, prio, |t|);
    var c := Calls(t, prio, |t|);
    if prio > last {
      CountStep(t, last, prio, |t|);
      var all := order + c;
      forall i: nat | i < |t| && HOOK_PRIO_FIRST <= t[i] <= prio ensures i in all {
        if t[i] == prio { assert i in c; } else { assert i in order; }
      }
    } else {
      assert last == prio && order + c == order;
    }
  }

  /** A round calls something, as long as a routine is waiting or one sits at the end mark. */
  lemma RoundCalls(t: Table, last: int, i: nat)
    requires i < |t| && (last < t[i] <= HOOK_PRIO_LAST + 1 || t[i] == HOOK_PRIO_LAST + 1)
    ensures Calls(t, Lowest(t, last, |t|), |t|) != []
  {
    LowestIs(t, last, |t|);
    CallsAre(t, Lowest(t, last, |t|), |t|);
  }

  // ------------------------------------------------------------- all rounds

  /** Rounds never reach a routine outside the range. */
  lemma {:induction false} NeverOutside(t: Table, k: nat)
    ensures HOOK_PRIO_FIRST - 1 <= Last(t, k) <= HOOK_PRIO_LAST + 1
    ensures k > 0 ==> HOOK_PRIO_FIRST <= Last(t, k)
    ensures forall a :: 0 <= a < |Order(t, k)| ==> Order(t, k)[a] < |t| && InRange(t, Order(t, k)[a])
  {
    if k > 0 {
      NeverOutside(t, k - 1);
      LowestIs(t, Last(t, k - 1), |t|);
      CallsAre(t, Last(t, k), |t|);
    }
  }

  /** Until the end mark comes up again, or when nobody sits there, nothing is called twice. */
  lemma {:induction false} RoundsGoUp(t: Table, k: nat)
    requires forall i :: 0 <= i < |t| ==> t[i] != HOOK_PRIO_LAST + 1
    ensures UpTo(t, Order(t, k), Last(t, k))
  {
    if k == 0 {
      CountNone(t, |t|);
    } else {
      RoundsGoUp(t, k - 1);
      LowestIs(t, Last(t, k - 1), |t|);
      NoCalls(t, HOOK_PRIO_LAST + 1, |t|);
      UpToStep(t, Order(t, k - 1), Last(t, k - 1));
    }
  }

  lemma {:induction false} RoundsGoUpInRange(t: Table, k: nat)
    requires AllInRange(t) && (k > 0 ==> |Order(t, k - 1)| < |t|)
    ensures UpTo(t, Order(t, k), Last(t, k))
  {
    if k == 0 {
      CountNone(t, |t|);
    } else {
      assert k > 1 ==> |Order(t, k - 2)| <= |Order(t, k - 1)|;
      RoundsGoUpInRange(t, k - 1);
      CountAll(t, Last(t, k - 1), |t|);
      var i :| 0 <= i < |t| && !(HOOK_PRIO_FIRST <= t[i] <= Last(t, k - 1));
      assert InRange(t, i);
      LowestIs(t, Last(t, k - 1), |t|);
      UpToStep(t, Order(t, k - 1), Last(t, k - 1));
    }
  }

  lemma {:induction false} EveryRoundCalls(t: Table, k: nat, i: nat)
    requires i < |t| && t[i] == HOOK_PRIO_LAST + 1
    ensures |Order(t, k)| >= k
  {
    if k > 0 {
      EveryRoundCalls(t, k - 1, i);
      RoundCalls(t, Last(t, k - 1), i);
    }
  }

  /** The dispatcher stops after round k: the first with as many calls as routines. */
  ghost predicate StopsAfter(t: Table, k: nat) {
    |Order(t, k)| >= |t| && forall j: nat :: j < k ==> |Order(t, j)| < |t|
  }

  /**
   * When it stops, every routine has been called exactly once, by priority with ties in
   * table order, if and only if every priority was in range. The range in force is one
   * wider than the documented one.
   */
  lemma DispatchesExactlyInRange(t: Table, k: nat)
    requires StopsAfter(t, k)
    ensures Dispatches(t, Order(t, k)) <==> AllInRange(t)
  {
    if AllInRange(t) {
      RoundsGoUpInRange(t, k);
      CountAll(t, Last(t, k), |t|);
    } else {
      var i :| 0 <= i < |t| && !InRange(t, i);
      NeverOutside(t, k);
      assert i !in Order(t, k);
    }
  }

  /**
   * Dispatch in numbers: as many calls as routines, each routine among them, smaller priorities
   * first and equal ones in table order; priorities in range are those from 1 to 10000.
   */
  lemma DispatchInNumbers(t: Table, order: seq<nat>)
    ensures AllInRange(t) <==> forall i :: 0 <= i < |t| ==> 1 <= t[i] <= 10000
    ensures Dispatches(t, order) ==>
      && |order| == |t| && (forall a :: 0 <= a < |order| ==> order[a] < |t|) && (forall i: nat :: i < |t| ==> i in order)
      && forall a, b :: 0 <= a < b < |order| ==>
           t[order[a]] < t[order[b]] || (t[order[a]] == t[order[b]] && order[a] < order[b])
  {
    assert forall i :: 0 <= i < |t| ==> (InRange(t, i) <==> 1 <= t[i] <= 10000);
  }

  /** The tables on which the dispatcher stops. */
  ghost predicate Stops(t: Table) {
    AllInRange(t) || exists i :: 0 <= i < |t| && t[i] == HOOK_PRIO_LAST + 1
  }

  /** On every other table it goes round for ever. */
  lemma OtherwiseNeverStops(t: Table, k: nat)
    requires !Stops(t)
    ensures |Order(t, k)| < |t|
  {
    RoundsGoUp(t, k);
    CountAll(t, Last(t, k), |t|);
    var i :| 0 <= i < |t| && !InRange(t, i);
  }

  /** The first scan of a round: the next priority to call. */
  method NextPriority(t: Table, last: int) returns (prio: int)
    ensures prio == Lowest(t, last, |t|)
  {
    prio := HOOK_PRIO_LAST + 1;
    var p := 0;
    while p < |t|
      invariant p <= |t| && prio == Lowest(t, last, p)
    {
      if t[p] < prio && t[p] > last {
        prio := t[p];
      }
      p := p + 1;
    }
  }

  /** The second: call everything with that priority. */
  method CallAll(t: Table, prio: int) returns (calls: seq<nat>, called: nat)
    ensures calls == Calls(t, prio, |t|) && called == |calls|
  {
    var p := 0;
    calls, called := [], 0;
    while p < |t|
      invariant p <= |t| && called == |calls| && calls == Calls(t, prio, p)
    {
      if t[p] == prio {
        called := called + 1;
        calls := calls + [p];
      }
      p := p + 1;
    }
  }

  /**
   * hook_notify. The calls are those of the rounds up to the first that makes up the
   * count, and it terminates on every table it can terminate on.
   */
  method Notify(t: Table) returns (order: seq<nat>, ghost k: nat)
    requires Stops(t)
    ensures StopsAfter(t, k) && order == Order(t, k)
    ensures AllInRange(t) ==> Dispatches(t, order)
  {
    var count, called, lastPrio := |t|, 0, HOOK_PRIO_FIRST - 1;
    order, k := [], 0;
    while called < count
      invariant called == |order| && order == Order(t, k) && lastPrio == Last(t, k)
      invariant forall j: nat :: j < k ==> |Order(t, j)| < |t|
      decreases count - called
    {
      SomeoneWaits(t, k);
      lastPrio := NextPriority(t, lastPrio);
      var calls, n := CallAll(t, lastPrio);
      called, order, k := called + n, order + calls, k + 1;
    }
    DispatchesExactlyInRange(t, k);
  }

  lemma SomeoneWaits(t: Table, k: nat)
    requires Stops(t) && |Order(t, k)| < |t| && (forall j: nat :: j < k ==> |Order(t, j)| < |t|)
    ensures Calls(t, Lowest(t, Last(t, k), |t|), |t|) != []
  {
    if i :| 0 <= i < |t| && t[i] == HOOK_PRIO_LAST + 1 {
      RoundCalls(t, Last(t, k), i);
    } else {
      RoundsGoUp(t, k);
      CountAll(t, Last(t, k), |t|);
      var i :| 0 <= i < |t| && !(HOOK_PRIO_FIRST <= t[i] <= Last(t, k));
      assert InRange(t, i);
      RoundCalls(t, Last(t, k), i);
    }
  }
}
