// Sharing the maximum source current between ports (charge_manager_source_port
// in common/charge_manager.c, total-current configuration): one port may
// advertise it at a time.
module SourceCurrent {

  /** The rule for every port: advertised values, and which ports source power. */
  datatype Limits = Limits(max: int, pullup: int)      // CONFIG_USB_PD_MAX_SINGLE_SOURCE_CURRENT, CONFIG_USB_PD_PULLUP

  ghost predicate AtMostOne(rp: seq<int>, max: int) {
    forall p, q :: 0 <= p < |rp| && 0 <= q < |rp| && rp[p] == max && rp[q] == max ==> p == q
  }

  /** h is the one port that advertises the maximum, or -1 if none does. */
  ghost predicate Holder(rp: seq<int>, max: int, h: int) {
    && -1 <= h < |rp|
    && forall p :: 0 <= p < |rp| ==> (rp[p] == max <==> p == h)
  }

  /** g is the smallest sourcing port in [lo, n), or -1 if there is none. */
  ghost predicate First(sourcing: set<int>, lo: int, n: int, g: int) {
    if g == -1 then forall q :: lo <= q < n ==> q !in sourcing
    else lo <= g < n && g in sourcing && forall q :: lo <= q < g ==> q !in sourcing
  }

  /**
   * Who advertises the maximum among the first n ports after a redistribution that
   * found it with h: h itself while it sources, else the first sourcing port above h.
   */
  ghost predicate Passed(sourcing: set<int>, h: int, n: int, g: int) {
    if h >= n then g == -1
    else if h in sourcing then g == h
    else First(sourcing, h + 1, n, g)
  }

  /** In the middle of the loop: ports from p on as before, where h had the maximum, and g got it below p. */
  ghost predicate Halfway(rp: seq<int>, max: int, h: int, p: int, g: int) {
    && -1 <= g < p <= |rp|
    && (forall q :: 0 <= q < p ==> (rp[q] == max <==> q == g))
    && forall q :: p <= q < |rp| ==> (rp[q] == max <==> q == h)
  }

  /** Port p may have the maximum exactly when nobody below got it and nobody above still has it. */
  lemma Decision(rp: seq<int>, max: int, h: int, p: int, g: int)
    requires Halfway(rp, max, h, p, g) && 0 <= p < |rp| && -1 <= h < |rp|
    ensures (forall q :: 0 <= q < |rp| && q != p ==> rp[q] != max) <==> g == -1 && h <= p
  {
    assert g >= 0 ==> rp[g] == max;
    assert h > p ==> rp[h] == max;
  }

  lemma PassedOn(sourcing: set<int>, h: int, p: int, g: int)
    requires p >= 0 && -1 <= g < p && Passed(sourcing, h, p, g) && -1 !in sourcing
    ensures Passed(sourcing, h, p + 1, if p in sourcing && g == -1 && h <= p then p else g)
  {
  }

  /** Assigning port p what it may have takes the loop one port on. */
  lemma Assigned(rp: seq<int>, limits: Limits, sourcing: set<int>, h: int, p: int, g: int)
    requires Halfway(rp, limits.max, h, p, g) && Passed(sourcing, h, p, g) && 0 <= p < |rp| && -1 <= h < |rp|
    requires limits.max != limits.pullup && -1 !in sourcing
    ensures var can := p in sourcing && g == -1 && h <= p;
            var now, g' := rp[p := if can then limits.max else limits.pullup], if can then p else g;
            Halfway(now, limits.max, h, p + 1, g') && Passed(sourcing, h, p + 1, g') && AtMostOne(now, limits.max)
  {
    PassedOn(sourcing, h, p, g);
  }

  ghost predicate AllSafe(shown: seq<seq<int>>, max: int) {
    forall k :: 0 <= k < |shown| ==> AtMostOne(shown[k], max)
  }

  class Ports {
    const limits: Limits
    var rp: seq<int>                    // source_port_rp
    var sourcing: set<int>              // source_port_bitmap
    ghost var holder: int               // the port advertising the maximum, or -1
    ghost var shown: seq<seq<int>>      // every assignment of limits the ports have gone through

    ghost predicate Valid()
      reads this
    {
      && limits.max != limits.pullup && -1 !in sourcing
      && Holder(rp, limits.max, holder) && (holder >= 0 ==> holder in sourcing)
      && (forall p :: 0 <= p < |rp| && p != holder ==> rp[p] == limits.pullup)
      && AllSafe(shown, limits.max)
    }

    constructor (n: nat, limits: Limits)
      requires limits.max != limits.pullup
      ensures Valid() && sourcing == {} && rp == seq(n, _ => limits.pullup) && this.limits == limits && shown == []
    {
      this.limits := limits;
      rp := seq(n, _ => limits.pullup);
      sourcing := {};
      holder, shown := -1, [];
    }

    method CanSupplyMaxCurrent(port: nat) returns (b: bool)
      requires port < |rp|
      ensures b <==> port in sourcing && forall p :: 0 <= p < |rp| && p != port ==> rp[p] != limits.max
    {
      if port !in sourcing { return false; }
      var p := 0;
      while p < |rp|
        invariant 0 <= p <= |rp|
        invariant forall q :: 0 <= q < p && q != port ==> rp[q] != limits.max
      {
        if p != port && rp[p] == limits.max { return false; }
        p := p + 1;
      }
      return true;
    }

    /**
     * At every point of the redistribution at most one port advertises the maximum.
     * An active holder keeps it; a released one passes it on, but only upwards.
     */
    method SourcePort(port: nat, enable: bool)
      requires Valid() && port < |rp|
      modifies this
      ensures Valid() && |rp| == old(|rp|) && old(shown) <= shown
      ensures sourcing == if enable then old(sourcing) + {port} else old(sourcing) - {port}
      ensures if sourcing == old(sourcing) then rp == old(rp) && shown == old(shown)
              else Passed(sourcing, old(holder), |rp|, holder) && |shown| == old(|shown|) + |rp|
    {
      var previous := sourcing;
      sourcing := if enable then sourcing + {port} else sourcing - {port};
      if sourcing == previous { return; }
      ghost var now, h, g := sourcing, holder, -1;
      var p := 0;
      while p < |rp|
        invariant 0 <= p <= |rp| == |old(rp)| && sourcing == now
        invariant Halfway(rp, limits.max, h, p, g) && Passed(sourcing, h, p, g)
        invariant forall q :: 0 <= q < p && q != g ==> rp[q] == limits.pullup
        invariant old(shown) <= shown && |shown| == |old(shown)| + p
        invariant AllSafe(shown, limits.max)
      {
        var canSupply := CanSupplyMaxCurrent(p);
        Decision(rp, limits.max, h, p, g);
        Assigned(rp, limits, sourcing, h, p, g);
        rp := rp[p := if canSupply then limits.max else limits.pullup];
        shown := shown + [rp];
        g := if canSupply then p else g;
        p := p + 1;
      }
      holder := g;
    }
  }

  /**
   * The promise that a released maximum goes to the youngest sourcing port holds if and
   * only if no sourcing port lies below the released one. Somebody gets the maximum if
   * and only if a sourcing port lies above it.
   */
  lemma ReleasedMaximum(sourcing: set<int>, n: nat, h: int, g: int)
    requires 0 <= h < n && h !in sourcing && Passed(sourcing, h, n, g)
    requires exists p :: 0 <= p < n && p in sourcing
    ensures g >= 0 && First(sourcing, 0, n, g) <==> forall p :: 0 <= p < h ==> p !in sourcing
    ensures g >= 0 <==> exists p :: h < p < n && p in sourcing
  {
  }

  /** A port that holds the maximum and still sources keeps it. */
  lemma HeldMaximum(sourcing: set<int>, n: nat, h: int, g: int)
    requires 0 <= h < n && h in sourcing && Passed(sourcing, h, n, g)
    ensures g == h
  {
  }

  /** While nobody holds the maximum, it goes to the youngest sourcing port, if any port sources. */
  lemma FreeMaximum(sourcing: set<int>, n: nat, g: int)
    requires Passed(sourcing, -1, n, g) && -1 !in sourcing
    ensures g == -1 <==> forall p :: 0 <= p < n ==> p !in sourcing
    ensures g != -1 ==> 0 <= g < n && g in sourcing && forall p :: 0 <= p < g ==> p !in sourcing
  {
  }

  /** Ports 0 and 1 source, 1 holds the maximum and is released: port 0 stays without it. */
  lemma LowerPortGoesWithout()
    ensures Passed({0}, 1, 2, -1) && forall g :: Passed({0}, 1, 2, g) ==> g == -1
  {
  }

  /** Ports 0, 1 and 2 source, 1 is released: port 2 gets the maximum, the younger port 0 does not. */
  lemma HigherPortIsPreferred()
    ensures First({0, 2}, 0, 3, 0) && Passed({0, 2}, 1, 3, 2) && forall g :: Passed({0, 2}, 1, 3, g) ==> g == 2
  {
  }
}
