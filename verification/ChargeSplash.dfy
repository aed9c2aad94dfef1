// The charge-splash limiter (common/chargesplash.c): at most N requests may boot the
// system in any period, and too many lock it out until a whole period stays quiet.
module ChargeSplash {
  import opened Ring

  /** Outside the tracking period, or an entry that is not filled (the code writes zero). */
  predicate TimestampIsExpired(timestamp: int, now: int, period: int) {
    timestamp == 0 || now - timestamp >= period
  }

  // What the limiter does, told from the times of all requests since the last reset.

  ghost predicate Ordered(times: seq<int>) {
    forall i, j :: 0 <= i <= j < |times| ==> 0 <= times[i] <= times[j]
  }

  /** Locked out after these requests. */
  function Locked(times: seq<int>, n: nat, period: int): bool
    requires n > 0
    decreases |times|
  {
    if times == [] then false else
      var before, now := times[..|times| - 1], times[|times| - 1];
      || (Locked(before, n, period) && !TimestampIsExpired(Recent(before, 1), now, period))
      || !TimestampIsExpired(Recent(before, n), now, period)
  }

  /** The request at `now`, after these, may boot the system. */
  predicate Permitted(times: seq<int>, now: int, n: nat, period: int)
    requires n > 0
  {
    !Locked(times + [now], n, period)
  }

  lemma PermittedMeans(times: seq<int>, now: int, n: nat, period: int)
    requires n > 0
    ensures Permitted(times, now, n, period) <==>
      && (Locked(times, n, period) ==> TimestampIsExpired(Recent(times, 1), now, period))
      && TimestampIsExpired(Recent(times, n), now, period)
  {
    assert (times + [now])[..|times|] == times;
  }

  /** The request at position i of a history was permitted. */
  predicate PermittedAt(times: seq<int>, i: nat, n: nat, period: int)
    requires n > 0 && i < |times|
  {
    Permitted(times[..i], times[i], n, period)
  }

  // ------------------------------------------------------------- what it guarantees

  ghost predicate Increasing(picks: seq<nat>) {
    forall k :: 0 < k < |picks| ==> picks[k - 1] < picks[k]
  }

  lemma {:induction false} PicksSpread(picks: seq<nat>)
    requires Increasing(picks) && picks != []
    ensures picks[|picks| - 1] >= picks[0] + |picks| - 1
    decreases |picks|
  {
    if |picks| > 1 {
      PicksSpread(picks[..|picks| - 1]);
    }
  }

  /** Any N + 1 permitted requests span at least the period, however many fell between. */
  lemma PermittedRequestsSpanPeriod(times: seq<int>, picks: seq<nat>, n: nat, period: int)
    requires n > 0 && Ordered(times) && Increasing(picks) && |picks| == n + 1
    requires forall k :: 0 <= k <= n ==> picks[k] < |times| && PermittedAt(times, picks[k], n, period)
    requires times[picks[0]] != 0
    ensures times[picks[n]] - times[picks[0]] >= period
  {
    PicksSpread(picks);
    var i, j := picks[n], picks[0];
    assert times[j] <= times[i - n];
  }

  /** In the first second the log reads as empty: every request of time zero is permitted. */
  lemma {:induction false} TimeZeroIsForgotten(times: seq<int>, n: nat, period: int)
    requires n > 0 && forall i :: 0 <= i < |times| ==> times[i] == 0
    ensures !Locked(times, n, period)
    ensures forall i :: 0 <= i < |times| ==> PermittedAt(times, i, n, period)
    decreases |times|
  {
    if times != [] {
      var before := times[..|times| - 1];
      TimeZeroIsForgotten(before, n, period);
      assert before + [times[|times| - 1]] == times;
      forall i | 0 <= i < |times|
        ensures PermittedAt(times, i, n, period)
      {
        if i < |before| {
          assert PermittedAt(before, i, n, period) && times[..i] == before[..i];
        } else {
          assert times[..i] == before;
        }
      }
    }
  }

  /** A request permitted while locked out comes a whole period after the one before it. */
  lemma LockoutNeedsQuiet(times: seq<int>, i: nat, n: nat, period: int)
    requires n > 0 && Ordered(times) && i < |times|
    requires Locked(times[..i], n, period) && PermittedAt(times, i, n, period)
    ensures 0 < i && times[i] - times[i - 1] >= period
  {
    var before := times[..i];
    PermittedMeans(before, times[i], n, period);
    if i > 0 && times[i - 1] == 0 {
      forall k | 0 <= k < i ensures before[k] == 0 {
        assert times[k] <= times[i - 1];
      }
      TimeZeroIsForgotten(before, n, period);
    }
  }

  /** A whole period of quiet always ends in a permitted request, locked out or not. */
  lemma QuietIsEnough(times: seq<int>, i: nat, n: nat, period: int)
    requires n > 0 && Ordered(times) && i < |times|
    requires i > 0 ==> times[i] - times[i - 1] >= period
    ensures PermittedAt(times, i, n, period)
  {
    var before := times[..i];
    PermittedMeans(before, times[i], n, period);
    if i == 0 {
      assert before == [];
    } else {
      assert n <= i ==> times[i - n] <= times[i - 1];
    }
  }

  /** The request at i and the one n places before it are a whole period apart. */
  predicate Spaced(times: seq<int>, i: nat, n: nat, period: int) {
    n <= i < |times| ==> times[i] - times[i - n] >= period
  }

  /** Requests are never refused while no n + 1 of them fall into a period. */
  lemma {:induction false} FewAreAllPermitted(times: seq<int>, n: nat, period: int)
    requires n > 0 && Ordered(times) && forall i :: 0 <= i < |times| ==> Spaced(times, i, n, period)
    ensures !Locked(times, n, period)
    ensures forall i :: 0 <= i < |times| ==> PermittedAt(times, i, n, period)
    decreases |times|
  {
    if times != [] {
      var k := |times| - 1;
      var before := times[..k];
      forall i | 0 <= i < k ensures Spaced(before, i, n, period) {
        assert Spaced(times, i, n, period);
      }
      FewAreAllPermitted(before, n, period);
      PermittedMeans(before, times[k], n, period);
      assert Spaced(times, k, n, period) && before + [times[k]] == times;
      forall i | 0 <= i < |times| ensures PermittedAt(times, i, n, period) {
        if i < k {
          assert PermittedAt(before, i, n, period) && times[..i] == before[..i];
        }
      }
    }
  }

  /**
   * Too many requests lock the system out: if the request at i is the n + 1st within a period,
   * it is refused, and so is every later one up to one that follows a whole quiet period.
   */
  lemma {:induction false} TooManyLockOut(times: seq<int>, i: nat, j: nat, n: nat, period: int)
    requires n > 0 && Ordered(times) && n <= i <= j < |times|
    requires times[i - n] != 0 && times[i] - times[i - n] < period
    requires forall k :: i < k <= j ==> times[k] - times[k - 1] < period
    ensures Locked(times[..j + 1], n, period) && !PermittedAt(times, j, n, period)
    decreases j
  {
    var before := times[..j];
    PermittedMeans(before, times[j], n, period);
    assert times[..j + 1] == before + [times[j]];
    if j == i {
      assert Recent(before, n) == times[i - n];
    } else {
      TooManyLockOut(times, i, j - 1, n, period);
      assert Recent(before, 1) == times[j - 1] >= times[i - n];
    }
  }

  /** N + 1 permitted requests of a history, picked in order; anything may have come in between. */
  ghost predicate PermittedPicks(times: seq<int>, picks: seq<nat>, n: nat, period: int)
    requires n > 0
  {
    && Ordered(times) && Increasing(picks) && |picks| == n + 1
    && forall k :: 0 <= k <= n ==> picks[k] < |times| && PermittedAt(times, picks[k], n, period)
  }

  /** If these are permitted requests, the first of them at time `first`, they span the period. */
  ghost predicate Spans(times: seq<int>, picks: seq<nat>, first: int, n: nat, period: int)
    requires n > 0
  {
    PermittedPicks(times, picks, n, period) && times[picks[0]] == first ==>
      times[picks[n]] - times[picks[0]] >= period
  }

  /** The history that fools the limiter: one request at time zero, n at another time. */
  function Overrun(n: nat, t: int): seq<int> {
    [0] + seq(n, i => t)
  }

  /** The log still reads as having room for all of them. */
  lemma {:induction false} OverrunIsPermitted(n: nat, m: nat, t: int, period: int)
    requires n > 0 && m <= n
    ensures !Locked(Overrun(m, t), n, period)
    ensures forall i :: 0 <= i <= m ==> PermittedAt(Overrun(m, t), i, n, period)
  {
    var times := Overrun(m, t);
    if m == 0 {
      assert times == [0] && times[..0] == [];
      PermittedMeans([], 0, n, period);
      assert [] + [0] == times;
    } else {
      var before := Overrun(m - 1, t);
      assert times[..m] == before && times == before + [t];
      OverrunIsPermitted(n, m - 1, t, period);
      PermittedMeans(before, t, n, period);
      forall i | 0 <= i <= m ensures PermittedAt(times, i, n, period) {
        if i < m {
          assert PermittedAt(before, i, n, period) && times[..i] == before[..i];
        }
      }
    }
  }

  lemma FailsFromZero(n: nat, t: int, period: int)
    requires n > 0 && 0 <= t < period
    ensures !Spans(Overrun(n, t), seq(n + 1, k => k), 0, n, period)
  {
    OverrunIsPermitted(n, n, t, period);
  }

  /**
   * Permitted requests whose first is at time `first` span the period, in every history
   * and however they are picked, if and only if `first` is not zero. From zero on, n more
   * requests are permitted at any one time before the period has passed.
   */
  lemma SpanExactly(first: int, n: nat, period: int)
    requires n > 0 && period > 0
    ensures (forall times: seq<int>, picks: seq<nat> :: Spans(times, picks, first, n, period)) <==> first != 0
    ensures first == 0 ==>
      forall t :: 0 <= t < period ==> !Spans(Overrun(n, t), seq(n + 1, k => k), first, n, period)
  {
    if first == 0 {
      forall t | 0 <= t < period ensures !Spans(Overrun(n, t), seq(n + 1, k => k), first, n, period) {
        FailsFromZero(n, t, period);
      }
      FailsFromZero(n, 0, period);
    } else {
      forall times: seq<int>, picks: seq<nat> ensures Spans(times, picks, first, n, period) {
        if PermittedPicks(times, picks, n, period) && times[picks[0]] == first {
          PermittedRequestsSpanPeriod(times, picks, n, period);
        }
      }
    }
  }

  // ------------------------------------------------------------- the limiter

  class Limiter {
    const requestLog: array<int>
    const period: int
    var logPtr: nat
    var lockedOut: bool
    ghost var times: seq<int>       // of all requests since the last reset

    ghost predicate Valid()
      reads this, requestLog
    {
      && requestLog.Length >= 1
      && Ordered(times)
      && Logs(requestLog[..], logPtr, times)
      && lockedOut == Locked(times, requestLog.Length, period)
    }

    constructor (n: nat, period: int)
      requires n >= 1
      ensures Valid() && fresh(requestLog) && requestLog.Length == n && this.period == period && times == []
    {
      requestLog := new int[n](i => 0);
      this.period, logPtr, lockedOut, times := period, 0, false, [];
    }

    /** lockout_can_be_cleared: when locked out, only once the whole log has expired. */
    method LockoutCanBeCleared(now: int) returns (can: bool)
      requires Valid() && (times != [] ==> times[|times| - 1] <= now)
      ensures can <==> (lockedOut ==> TimestampIsExpired(Recent(times, 1), now, period))
    {
      var n := requestLog.Length;
      assert requestLog[..][Place(logPtr, n - 1, n)] == Recent(times, 1);
      if !lockedOut {
        return true;
      }
      var i := 0;
      while i < n
        invariant i <= n
        invariant forall j :: 0 <= j < i ==> TimestampIsExpired(requestLog[j], now, period)
      {
        if !TimestampIsExpired(requestLog[i], now, period) {
          OlderThanLast(requestLog[..], logPtr, i);
          return false;
        }
        i := i + 1;
      }
      return true;
    }

    lemma OlderThanLast(log: seq<int>, ptr: nat, i: nat)
      requires Ordered(times) && Logs(log, ptr, times) && i < |log|
      ensures log[i] <= Recent(times, 1) && (Recent(times, 1) == 0 ==> log[i] == 0)
    {
      var n := |log|;
      var k := if i >= ptr then i - ptr else i - ptr + n;
      assert log[Place(ptr, k, n)] == Recent(times, n - k);
    }

    /** The request takes the place of the oldest one. */
    method Record(now: int)
      requires requestLog.Length >= 1 && Logs(requestLog[..], logPtr, times) && Ordered(times)
      requires now >= 0 && (times != [] ==> times[|times| - 1] <= now)
      modifies `logPtr, `times, requestLog
      ensures Logs(requestLog[..], logPtr, times) && Ordered(times) && times == old(times) + [now]
    {
      LogsNext(requestLog[..], logPtr, times, now);
      requestLog[logPtr] := now;
      NextPlace(logPtr, requestLog.Length);
      logPtr := (logPtr + 1) % requestLog.Length;
      times := times + [now];
    }

    /** log_request: permits exactly what the history permits. */
    method LogRequest(now: int) returns (permitted: bool)
      requires Valid() && now >= 0 && (times != [] ==> times[|times| - 1] <= now)
      modifies `logPtr, `lockedOut, `times, requestLog
      ensures Valid() && times == old(times) + [now]
      ensures permitted == Permitted(old(times), now, requestLog.Length, period)
    {
      var n := requestLog.Length;
      PermittedMeans(times, now, n, period);
      assert requestLog[..][Place(logPtr, 0, n)] == Recent(times, n);
      var inhibit := false;
      var can := LockoutCanBeCleared(now);
      if can {
        lockedOut := false;
      } else {
        inhibit := true;
      }
      if !TimestampIsExpired(requestLog[logPtr], now, period) {
        lockedOut := true;
        inhibit := true;
      }
      Record(now);
      return !inhibit;
    }

    /** reset_state: forgets the requests; the place of the next entry stays where it was. */
    method ResetState()
      requires Valid()
      modifies `lockedOut, `times, requestLog
      ensures Valid() && times == [] && !lockedOut
    {
      lockedOut := false;
      forall i | 0 <= i < requestLog.Length {
        requestLog[i] := 0;
      }
      times := [];
    }
  }
}
