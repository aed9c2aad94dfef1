// Rings: fixed buffers walked round by an offset.
module Ring {

  /** The place k on from offset o in a ring of n. */
  function Place(o: nat, k: nat, n: nat): nat
    requires o < n && k <= n
  {
    if o + k < n then o + k else o + k - n
  }

  lemma NextPlace(o: nat, n: nat)
    requires o < n
    ensures (o + 1) % n == Place(o, 1, n) < n
  {
    if o + 1 == n {
      assert n % n == 0;
    } else {
      assert (o + 1) % n == o + 1;
    }
  }

  /** The value `back` places before the end; zero when there was none. */
  function Recent(values: seq<int>, back: nat): int
    requires back > 0
  {
    if back <= |values| then values[|values| - back] else 0
  }

  /** A ring that holds the last values, the oldest where the next one goes. */
  ghost predicate Logs(log: seq<int>, next: nat, values: seq<int>) {
    && next < |log|
    && forall k :: 0 <= k < |log| ==> log[Place(next, k, |log|)] == Recent(values, |log| - k)
  }

  lemma LogsNext(log: seq<int>, next: nat, values: seq<int>, v: int)
    requires Logs(log, next, values)
    ensures Logs(log[next := v], if next + 1 < |log| then next + 1 else 0, values + [v])
  {
    var n, after, now := |log|, if next + 1 < |log| then next + 1 else 0, log[next := v];
    forall k | 0 <= k < n
      ensures now[Place(after, k, n)] == Recent(values + [v], n - k)
    {
      if k + 1 < n {
        assert Place(after, k, n) == Place(next, k + 1, n) != next;
        assert log[Place(next, k + 1, n)] == Recent(values, n - (k + 1));
      }
    }
  }

  /** A ring of zeros has logged nothing. */
  lemma LogsNothing(log: seq<int>, next: nat)
    requires next < |log| && forall i :: 0 <= i < |log| ==> log[i] == 0
    ensures Logs(log, next, [])
  {
  }

  /** Read from the oldest on, a full ring is the end of what was logged. */
  lemma Unrolled(log: seq<int>, next: nat, values: seq<int>)
    requires Logs(log, next, values) && |values| >= |log|
    ensures values[|values| - |log|..] == log[next..] + log[..next]
  {
    var n, last := |log|, values[|values| - |log|..];
    forall k | 0 <= k < n
      ensures last[k] == (log[next..] + log[..next])[k]
    {
      assert log[Place(next, k, n)] == Recent(values, n - k);
    }
  }
}
