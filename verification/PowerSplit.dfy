// Splitting the charger's power between lid and base (common/charge_state_v2.c): the
// smoothed estimates, the allocation of the budget, the currents, and the order in which
// two current limits are changed.
module PowerSplit {

  // Dual-battery policy.
  const MIN_BASE_SYSTEM_POWER := 1300          // mW
  const LID_SYSTEM_POWER_SMOOTH := 32          // in 1/128
  const BATTERY_POWER_SMOOTH := 1
  const MARGIN_BASE_BATTERY_POWER := 32
  const MARGIN_LID_BATTERY_POWER := 32
  const MAX_LID_TO_BASE_CURRENT := 2000        // mA

  /** Division as C does it, towards zero. */
  function Truncated(a: int, b: int): int
    requires b > 0
  {
    if a >= 0 then a / b else -(-a / b)
  }

  lemma QuotientIs(a: int, b: int, q: int)
    requires b > 0 && q == a / b
    ensures b * q <= a < b * q + b && (a >= 0 ==> q >= 0)
  {
  }

  lemma Negated(b: int, q: int)
    ensures b * -q == -(b * q)
  {
  }

  lemma TruncatedIs(a: int, b: int)
    requires b > 0
    ensures var q := Truncated(a, b);
            && (a >= 0 ==> b * q <= a < b * q + b && q >= 0)
            && (a < 0 ==> b * q - b < a <= b * q && q <= 0)
  {
    if a >= 0 {
      QuotientIs(a, b, a / b);
    } else {
      QuotientIs(-a, b, -a / b);
      Negated(b, -a / b);
    }
  }

  function Min(a: int, b: int): int {
    if a < b then a else b
  }

  function Max(a: int, b: int): int {
    if a > b then a else b
  }

  // ------------------------------------------------------------- estimates

  /** Compute s * curr + (1 - s) * prev, s in 1/128, ignoring negative values. */
  function SmoothValue(prev: int, curr: int, s: int): int {
    var c := Max(curr, 0);
    if prev < 0 then c else prev + Truncated(s * (c - prev), 128)
  }

  lemma Part(s: int, d: int)
    requires 0 <= s <= 128
    ensures d >= 0 ==> 0 <= s * d <= 128 * d
    ensures d <= 0 ==> 128 * d <= s * d <= 0
  {
    assert 128 * d == s * d + (128 - s) * d;
  }

  /** The smoothed value is never negative and lies between the old and the new one. */
  lemma SmoothBetween(prev: int, curr: int, s: int)
    requires 0 <= s <= 128
    ensures SmoothValue(prev, curr, s) >= 0
    ensures prev >= 0 ==> Min(prev, Max(curr, 0)) <= SmoothValue(prev, curr, s) <= Max(prev, Max(curr, 0))
  {
    var d := Max(curr, 0) - prev;
    TruncatedIs(s * d, 128);
    Part(s, d);
  }

  /**
   * How fast it follows: of the way from the old value to the new one it goes s parts in 128,
   * rounded towards the old value. Without an old value it is the new one.
   */
  lemma SmoothGoesAShare(prev: int, curr: int, s: int)
    requires 0 <= s <= 128
    ensures var v, c := SmoothValue(prev, curr, s), if curr < 0 then 0 else curr;
            if prev < 0 then v == c
            else if c >= prev then v >= prev && 128 * (v - prev) <= s * (c - prev) < 128 * (v - prev) + 128
            else v <= prev && 128 * (prev - v) <= s * (prev - c) < 128 * (prev - v) + 128
  {
    var d := Max(curr, 0) - prev;
    TruncatedIs(s * d, 128);
    Part(s, d);
    assert s * -d == -(s * d);
  }

  /** The lid's system power goes a quarter of the way. */
  lemma SystemPowerGoesAQuarter(prev: int, curr: int)
    requires prev >= 0 && curr >= 0
    ensures var v := SmoothValue(prev, curr, LID_SYSTEM_POWER_SMOOTH);
            if curr >= prev then v >= prev && 4 * (v - prev) <= curr - prev < 4 * (v - prev) + 4
            else v <= prev && 4 * (prev - v) <= prev - curr < 4 * (prev - v) + 4
  {
    SmoothGoesAShare(prev, curr, LID_SYSTEM_POWER_SMOOTH);
  }

  function AddMargin(value: int, m: int): int {
    value + Truncated(m * value, 128)
  }

  lemma MarginGrows(value: int, m: int)
    requires 0 <= m < 128 && value >= -1
    ensures AddMargin(value, m) >= value && (value < 0 ==> AddMargin(value, m) == value)
  {
    TruncatedIs(m * value, 128);
    if value >= 0 {
      assert m * value >= 0;
    } else {
      assert m * value == -m;
    }
  }

  /** Both battery margins add a quarter, rounded down. */
  lemma MarginIsAQuarter(value: nat)
    ensures var lid, base := AddMargin(value, MARGIN_LID_BATTERY_POWER), AddMargin(value, MARGIN_BASE_BATTERY_POWER);
            lid == base && 4 * (lid - value) <= value < 4 * (lid - value) + 4
  {
    TruncatedIs(MARGIN_LID_BATTERY_POWER * value, 128);
  }

  /** The battery estimate: falling values are smoothed, and capped by what the battery asks for. */
  function BatteryEstimate(prev: int, reading: int, wanted: int): int {
    Min(if reading < prev then SmoothValue(prev, reading, BATTERY_POWER_SMOOTH) else reading, wanted)
  }

  /** Estimates start at -1, and no reading takes them lower. */
  lemma EstimateAboveMinusOne(prev: int, reading: int, wanted: int)
    requires prev >= -1 && wanted >= 0
    ensures BatteryEstimate(prev, reading, wanted) >= -1
    ensures BatteryEstimate(prev, reading, wanted) == -1 <==> prev == -1 && reading == -1
  {
    SmoothBetween(prev, reading, BATTERY_POWER_SMOOTH);
  }

  /**
   * A reading that has not fallen is taken as it is, one that has takes the estimate down by
   * one part in 128 of the way; and the estimate is never more than the battery asks for.
   */
  lemma EstimateFallsSlowly(prev: int, reading: int, wanted: int) returns (v: int)
    ensures BatteryEstimate(prev, reading, wanted) == if v < wanted then v else wanted
    ensures reading >= prev ==> v == reading
    ensures reading < prev && prev >= 0 ==>
      0 <= v <= prev && 128 * (prev - v) <= prev - (if reading < 0 then 0 else reading) < 128 * (prev - v) + 128
    ensures reading < prev < 0 ==> v == 0
  {
    SmoothGoesAShare(prev, reading, BATTERY_POWER_SMOOTH);
    SmoothBetween(prev, reading, BATTERY_POWER_SMOOTH);
    v := if reading < prev then SmoothValue(prev, reading, BATTERY_POWER_SMOOTH) else reading;
  }

  // ------------------------------------------------------------- allocation

  function Clamp(v: int, lo: int, hi: int): int {
    if v < lo then lo else if v > hi then hi else v
  }

  /** The base's share when no estimate is negative: its minimum, and what the lid leaves to its battery. */
  function BaseShare(budget: int, lidSystem: int, lidBattery: int, baseBattery: int): int {
    Min(MIN_BASE_SYSTEM_POWER, budget)
    + Clamp(budget - MIN_BASE_SYSTEM_POWER - lidSystem - lidBattery, 0, baseBattery)
  }

  /**
   * The order of service: the base system, then the lid's two demands, then the base
   * battery, and no more than that for the base.
   */
  lemma OrderOfService(budget: int, lidSystem: int, lidBattery: int, baseBattery: int)
    requires budget > 0 && lidSystem >= 0 && lidBattery >= 0 && baseBattery >= 0
    ensures var base := BaseShare(budget, lidSystem, lidBattery, baseBattery);
            var lid := budget - base;
            && 0 <= base <= budget && base <= 1300 + baseBattery
            && (base < 1300 ==> lid == 0)
            && (lid < lidSystem + lidBattery ==> base <= 1300)
            && (lid > lidSystem + lidBattery ==> base == 1300 + baseBattery)
  {
  }

  /**
   * Allocation of a budget: base system, lid system, lid battery, base battery, and what
   * is left to the lid. Nothing is lost or made up, whatever the estimates. With estimates
   * that are not negative the base gets its minimum first, and its battery what it wants
   * only once the lid's two demands are met.
   */
  method AllocatePower(budget: int, lidSystem: int, lidBattery: int, baseBattery: int)
    returns (powerBase: int, powerLid: int)
    requires budget > 0
    ensures powerBase + powerLid == budget
    ensures lidSystem >= 0 && lidBattery >= 0 && baseBattery >= 0 ==>
      powerBase == BaseShare(budget, lidSystem, lidBattery, baseBattery) && powerBase >= 0 && powerLid >= 0
    ensures lidSystem >= 0 && lidBattery >= -1 && baseBattery >= -1 ==> powerBase >= 0 && powerLid >= -1
  {
    var total := budget;
    powerBase, powerLid := 0, 0;
    powerBase, total := ChgAllocate(powerBase, total, MIN_BASE_SYSTEM_POWER);
    powerLid, total := ChgAllocate(powerLid, total, lidSystem);
    powerLid, total := ChgAllocate(powerLid, total, lidBattery);
    powerBase, total := ChgAllocate(powerBase, total, baseBattery);
    powerLid, total := ChgAllocate(powerLid, total, total);
  }

  /** CHG_ALLOCATE: at most `value` of what is left. */
  method ChgAllocate(power: int, total: int, value: int) returns (power': int, total': int)
    ensures power' == power + Min(value, total) && total' == total - Min(value, total)
  {
    var capped := Min(value, total);
    power', total' := power + capped, total - capped;
  }

  // ------------------------------------------------------------- currents

  /** Rounding towards zero of two parts, at most one of them negative. */
  lemma RoundedParts(v: int, x: int, y: int, p: int, q: int)
    requires v > 0 && p == Truncated(x, v) && q == Truncated(y, v) && x + y >= 0
    ensures x + y - 2 * v < v * p + v * q < x + y + v
  {
    TruncatedIs(x, v);
    TruncatedIs(y, v);
  }

  lemma FactorOut(v: int, p: int, q: int)
    ensures v * (p + q) == v * p + v * q
  {
  }

  lemma CancelFactor(v: int, a: int, b: int)
    requires v > 0
    ensures v * a < v * b ==> a < b
  {
    if a >= b {
      assert v * a == v * b + v * (a - b);
      assert v * (a - b) >= 0;
    }
  }

  /** Neither current is too high: s is v times their sum, t is v times the input current. */
  lemma SumAtMost(v: int, i: int, sum: int, t: int, s: int)
    requires v > 0 && t == v * i && s == v * sum && s < t + v
    ensures sum <= i
  {
    FactorOut(v, i, 1);
    CancelFactor(v, sum, i + 1);
  }

  lemma SumFits(v: int, i: int, sum: int, t: int, s: int)
    requires v > 0 && t == v * i && s == v * sum && t - 2 * v - 1000 < s < t + v
    ensures sum <= i && v * (i - sum) < 2 * v + 1000 && (v >= 1000 ==> i - sum <= 2)
  {
    SumAtMost(v, i, sum, t, s);
    if v >= 1000 {
    }
  }

  /**
   * The two currents never ask for more than the input current the budget was made from,
   * whatever the split; and they lose less than 2 mA plus one unit of rounding of the
   * budget, so at most 2 mA from 1 V up.
   */
  lemma CurrentsFit(i: int, v: int, b: int, l: int)
    requires i > 0 && v > 0 && b + l == i * v / 1000
    ensures var sum := Truncated(1000 * b, v) + Truncated(1000 * l, v);
            sum <= i && v * (i - sum) < 2 * v + 1000 && (v >= 1000 ==> i - sum <= 2)
  {
    var p, q := Truncated(1000 * b, v), Truncated(1000 * l, v);
    RoundedParts(v, 1000 * b, 1000 * l, p, q);
    FactorOut(v, p, q);
    SumFits(v, i, p + q, i * v, v * (p + q));
  }

  /** Two milliamperes can really be lost. */
  lemma TwoAreLost()
    ensures var i, v, b, l := 2, 1001, 1, 1;
            b + l == i * v / 1000 && i - (Truncated(1000 * b, v) + Truncated(1000 * l, v)) == 2
  {
  }

  // ------------------------------------------------------------- changing two limits

  /** Which side set_base_lid_current changes first. */
  function LidFirst(prevBase: int, prevLid: int, base: int, lid: int): bool {
    if lid >= 0 && lid < prevLid then true
    else if base >= 0 && base < prevBase then false
    else lid < 0
  }

  /** A side that is to draw less than it does goes first, the lid if both are; then a lid that is to provide power. */
  lemma WhoGoesFirst(prevBase: int, prevLid: int, base: int, lid: int)
    ensures var lidEases, baseEases := 0 <= lid < prevLid, 0 <= base < prevBase;
            && (lidEases ==> LidFirst(prevBase, prevLid, base, lid))
            && (baseEases && !lidEases ==> !LidFirst(prevBase, prevLid, base, lid))
            && (!lidEases && !baseEases ==> (LidFirst(prevBase, prevLid, base, lid) <==> lid < 0))
  {
  }

  /** Between the two changes one side has its new limit and the other its old one, no more in total than before or after. */
  lemma OrderIsSafe(prevBase: int, prevLid: int, base: int, lid: int)
    requires prevBase >= 0 && prevLid >= 0 && base >= 0 && lid >= 0
    ensures (if LidFirst(prevBase, prevLid, base, lid) then prevBase + lid else base + prevLid)
         <= Max(prevBase + prevLid, base + lid)
  {
  }

  /** How a call to a charger or to the base comes back. */
  datatype Answer = Done | Failed

  /**
   * One call of set_base_lid_current: the two limits, whether the base is connected, and
   * how the base and the lid's chargers answer.
   */
  datatype Call = Call(base: int, lid: int, connected: bool, toBase: Answer, stop: Answer, limit: Answer, request: Answer) {
    /** The lid's limit is set. */
    predicate SetsLid() {
      limit.Done? && (lid >= 0 ==> stop.Done?)
    }

    /** And nothing after that fails. */
    predicate EndsLid() {
      SetsLid() && (lid >= 0 ==> request.Done?)
    }

    predicate NotNegative() {
      base >= 0 && lid >= 0
    }
  }

  /** What has really been set on the two chargers, and what the policy remembers of it. */
  datatype Setting = Setting(base: int, lid: int, prevBase: int, prevLid: int, responsive: bool) {
    function Total(): int {
      base + lid
    }

    /** The policy remembers what is set. */
    predicate InStep() {
      prevBase == base && prevLid == lid
    }

    predicate NotNegative() {
      base >= 0 && lid >= 0
    }

    /** Errors of the base are passed over until it has answered once. */
    predicate BasePasses(c: Call) {
      c.toBase.Done? || !responsive
    }

    function LidGoesFirst(c: Call): bool {
      LidFirst(prevBase, prevLid, c.base, c.lid)
    }

    function AfterBase(c: Call): Setting {
      if c.connected && c.toBase.Done? then this.(base := c.base, prevBase := c.base, responsive := true) else this
    }

    function AfterLid(c: Call): Setting {
      this.(lid := if c.SetsLid() then c.lid else lid, prevLid := if c.EndsLid() then c.lid else prevLid)
    }

    /** The lid's turn comes. */
    predicate ReachesLid(c: Call) {
      LidGoesFirst(c) || !c.connected || BasePasses(c)
    }

    /** The base's turn comes. */
    predicate ReachesBase(c: Call) {
      c.connected && (LidGoesFirst(c) ==> c.EndsLid())
    }

    function Succeeds(c: Call): bool {
      c.EndsLid() && (c.connected ==> BasePasses(c))
    }

    /** What a call leaves. */
    function After(c: Call): Setting {
      var s := if ReachesLid(c) then AfterLid(c) else this;
      if ReachesBase(c) then s.AfterBase(c) else s
    }

    /** The sum of both limits after each change a call makes. */
    function Totals(c: Call): (t: seq<int>)
      ensures |t| <= 2
    {
      var lids := if ReachesLid(c) && c.SetsLid() then
                    [(if LidGoesFirst(c) then this else AfterBase(c)).AfterLid(c).Total()] else [];
      var bases := if ReachesBase(c) && c.toBase.Done? then
                     [(if LidGoesFirst(c) then AfterLid(c) else this).AfterBase(c).Total()] else [];
      if LidGoesFirst(c) then lids + bases else bases + lids
    }

    /** No total on the way exceeds the larger of the old and the new one. */
    predicate Bounded(c: Call) {
      forall k :: 0 <= k < |Totals(c)| ==> Totals(c)[k] <= Max(Total(), c.base + c.lid)
    }

    /** A call that gets as far as another limit for the lid, and then fails to request the charge. */
    predicate HalfFails(c: Call) {
      ReachesLid(c) && c.SetsLid() && !c.EndsLid() && c.lid != lid
    }

    /** In step, a half-failed call is the one way out of step. */
    lemma StepLostExactly(c: Call)
      requires InStep()
      ensures After(c).InStep() <==> !HalfFails(c)
    {
    }

    /** A call that succeeds brings the policy back into step. */
    lemma SuccessRestoresStep(c: Call)
      requires prevBase == base && Succeeds(c)
      ensures After(c).InStep() && After(c).lid == c.lid
    {
    }

    /** The bound on one call, even when it fails half-way. */
    lemma InStepIsBounded(c: Call)
      requires InStep() && NotNegative() && c.NotNegative() && c.connected && (c.toBase.Done? || responsive)
      ensures Bounded(c)
    {
      OrderIsSafe(base, lid, c.base, c.lid);
    }

    /** Every pair of limits a call may ask of a base that answers keeps the bound. */
    ghost predicate EveryCallBounded() {
      forall c: Call :: c.NotNegative() && c.connected && (c.toBase.Done? || responsive) ==> Bounded(c)
    }

    /** The lid's limit is not above the one remembered, and is below it by more than one only if the base draws nothing. */
    predicate CloseToStep() {
      lid <= Max(prevLid, 0) && (base > 0 ==> prevLid <= lid + 1)
    }

    /** When the bound holds: for every call if and only if the limit remembered for the lid is as close as that. */
    lemma BoundedExactly()
      requires prevBase == base && NotNegative()
      ensures EveryCallBounded() <==> CloseToStep()
    {
      if CloseToStep() {
        forall c: Call | c.NotNegative() && c.connected && (c.toBase.Done? || responsive) ensures Bounded(c) {
        }
      } else {
        var c := if lid > Max(prevLid, 0) then Call(base + 1, Max(prevLid, 0), true, Done, Done, Done, Done)
                 else Call(0, prevLid - 1, true, Done, Done, Done, Done);
        assert c.NotNegative() && Totals(c)[0] > Max(Total(), c.base + c.lid);
      }
    }

    /** What a run of calls leaves, and all totals on its way. */
    function AfterAll(calls: seq<Call>): Setting
      decreases |calls|
    {
      if calls == [] then this else After(calls[0]).AfterAll(calls[1..])
    }

    function AllTotals(calls: seq<Call>): seq<int>
      decreases |calls|
    {
      if calls == [] then [] else Totals(calls[0]) + After(calls[0]).AllTotals(calls[1..])
    }

    /** Never in a run does a call half-fail. */
    predicate NeverHalfFails(calls: seq<Call>)
      decreases |calls|
    {
      calls != [] ==> !HalfFails(calls[0]) && After(calls[0]).NeverHalfFails(calls[1..])
    }

    /**
     * Over a run of calls to a base that answers: what the limits before it and those
     * asked for stay within, all totals on the way stay within, and so does what is left,
     * unless a call half-fails.
     */
    lemma {:induction false} RunIsBounded(calls: seq<Call>, bound: int)
      requires InStep() && responsive && NotNegative() && Total() <= bound && NeverHalfFails(calls)
      requires forall k :: 0 <= k < |calls| ==>
        calls[k].NotNegative() && calls[k].connected && calls[k].base + calls[k].lid <= bound
      ensures forall k :: 0 <= k < |AllTotals(calls)| ==> AllTotals(calls)[k] <= bound
      ensures AfterAll(calls).InStep() && AfterAll(calls).Total() <= bound
      decreases |calls|
    {
      if calls != [] {
        var c := calls[0];
        InStepIsBounded(c);
        StepLostExactly(c);
        After(c).RunIsBounded(calls[1..], bound);
      }
    }
  }

  lemma TotalsOfTwo(s: Setting, c: Call, d: Call)
    ensures s.AllTotals([c, d]) == s.Totals(c) + s.After(c).Totals(d)
  {
    var after := s.After(c);
    assert [c, d][1..] == [d] && [d][1..] == [];
    assert after.AllTotals([d]) == after.Totals(d) + after.After(d).AllTotals([]);
  }

  /** The lid is raised to 2000 mA, and the request that follows fails. */
  const HALF_FAILED := Call(0, 2000, true, Done, Done, Done, Failed)
  const NEXT_CALL := Call(1500, 1000, true, Done, Done, Done, Done)

  /**
   * One half-failed call is enough: the policy does not remember the lid's new limit, and
   * the next call takes the total through 3500 mA, though it is 2000 mA before and 2500 mA
   * after.
   */
  lemma HalfFailureBreaksBound()
    ensures var s := Setting(0, 500, 0, 500, true);
            && s.InStep() && s.HalfFails(HALF_FAILED) && s.After(HALF_FAILED).Total() == 2000
            && s.AllTotals([HALF_FAILED, NEXT_CALL]) == [500, 2000, 3500, 2500]
            && !s.After(HALF_FAILED).Bounded(NEXT_CALL)
  {
    var s := Setting(0, 500, 0, 500, true);
    var after := s.After(HALF_FAILED);
    assert s.Totals(HALF_FAILED) == [500, 2000] && after == Setting(0, 2000, 0, 500, true);
    assert after.Totals(NEXT_CALL) == [3500, 2500];
    assert after.Totals(NEXT_CALL)[0] > Max(after.Total(), 2500);
    TotalsOfTwo(s, HALF_FAILED, NEXT_CALL);
  }

  class Limits {
    var base: int
    var lid: int
    var prevBase: int
    var prevLid: int
    var baseResponsive: bool
    var basePowered: bool
    ghost var totals: seq<int>       // the sum of both limits after every change

    ghost function View(): Setting
      reads this`base, this`lid, this`prevBase, this`prevLid, this`baseResponsive
    {
      Setting(base, lid, prevBase, prevLid, baseResponsive)
    }

    constructor (base: int, lid: int)
      ensures View() == Setting(base, lid, base, lid, false) && totals == []
    {
      this.base, this.lid, prevBase, prevLid, totals := base, lid, base, lid, [];
      baseResponsive, basePowered := false, false;
    }

    /** set_base_current: errors are passed over until the base has answered once. */
    method SetBaseCurrent(current: int, answer: Answer) returns (ok: bool)
      modifies `base, `prevBase, `baseResponsive, `totals
      ensures ok <==> answer.Done? || !old(baseResponsive)
      ensures answer.Done? ==> base == prevBase == current && baseResponsive && totals == old(totals) + [base + lid]
      ensures answer.Failed? ==>
        base == old(base) && prevBase == old(prevBase) && baseResponsive == old(baseResponsive) && totals == old(totals)
    {
      if answer.Failed? {
        return !baseResponsive;
      }
      baseResponsive := true;
      prevBase := current;
      base := current;
      totals := totals + [base + lid];
      return true;
    }

    /**
     * The lid's part: to draw power, stop providing it, set the limit and request the
     * charge; to provide power, set that limit. Any of the calls may fail.
     */
    method SetLidCurrent(current: int, stop: Answer, limit: Answer, request: Answer) returns (ok: bool)
      modifies `lid, `prevLid, `totals
      ensures ok <==> (current >= 0 && stop.Done? && limit.Done? && request.Done?) || (current < 0 && limit.Done?)
      ensures ok ==> prevLid == current
      ensures !ok ==> prevLid == old(prevLid)
      ensures if limit.Done? && (current >= 0 ==> stop.Done?)
              then lid == current && totals == old(totals) + [base + lid]
              else lid == old(lid) && totals == old(totals)
    {
      if current >= 0 && stop.Failed? {
        return false;
      }
      if limit.Failed? {
        return false;
      }
      lid := current;
      totals := totals + [base + lid];
      if current >= 0 && request.Failed? {
        return false;
      }
      prevLid := current;
      return true;
    }

    /**
     * set_base_lid_current. The changes come in the order above. Called in step, no total
     * on the way exceeds the larger of the old and the new one, even when a call fails
     * half-way - unless a base that has never answered swallows its command.
     */
    method SetBaseLidCurrent(c: Call) returns (ok: bool)
      modifies this
      ensures View() == old(View()).After(c) && totals == old(totals) + old(View()).Totals(c)
      ensures ok <==> old(View()).Succeeds(c)
      ensures basePowered == (old(basePowered) || (ok && c.connected && c.base != 0))
      ensures old(View().InStep() && View().NotNegative()) && c.NotNegative() && c.connected
              && (c.toBase.Done? || old(baseResponsive)) ==>
        forall k :: |old(totals)| <= k < |totals| ==> totals[k] <= Max(old(base + lid), c.base + c.lid)
      ensures ok && old(prevBase == base) ==> View().InStep() && lid == c.lid
      ensures ok && c.connected && c.toBase.Done? ==> base == c.base
    {
      ghost var was := View();
      ok := Change(c);
      if was.InStep() && was.NotNegative() && c.NotNegative() && c.connected && (c.toBase.Done? || was.responsive) {
        was.InStepIsBounded(c);
      }
      if ok && was.prevBase == was.base {
        was.SuccessRestoresStep(c);
      }
    }

    /** The changes themselves. */
    method Change(c: Call) returns (ok: bool)
      modifies this
      ensures View() == old(View()).After(c) && totals == old(totals) + old(View()).Totals(c)
      ensures ok <==> old(View()).Succeeds(c)
      ensures basePowered == (old(basePowered) || (ok && c.connected && c.base != 0))
    {
      var lidFirst;
      if c.lid >= 0 && c.lid < prevLid {
        lidFirst := true;
      } else if c.base >= 0 && c.base < prevBase {
        lidFirst := false;
      } else if c.lid < 0 {
        lidFirst := true;
      } else {
        lidFirst := false;
      }
      if !lidFirst && c.connected {
        ok := SetBaseCurrent(c.base, c.toBase);
        if !ok {
          return;
        }
      }
      ok := SetLidCurrent(c.lid, c.stop, c.limit, c.request);
      if !ok {
        return;
      }
      if lidFirst && c.connected {
        ok := SetBaseCurrent(c.base, c.toBase);
        if !ok {
          return;
        }
      }
      if c.connected && c.base != 0 {
        basePowered := true;
      }
    }
  }

  // ------------------------------------------------------------- the policy

  /** A reading of one battery: its power, and the power it asks for; bad readings are zero. */
  datatype Battery = Battery(power: int, wanted: nat)

  class Policy {
    var prevLidSystem: int
    var prevLidBattery: int
    var prevBaseBattery: int

    /** Estimates, or -1 where there is none. */
    ghost predicate Valid()
      reads this
    {
      prevLidSystem >= -1 && prevLidBattery >= -1 && prevBaseBattery >= -1
    }

    constructor ()
      ensures Valid()
    {
      prevLidSystem, prevLidBattery, prevBaseBattery := -1, -1, -1;
    }

    /** The branches that do not charge forget the estimates. */
    method Forget(baseConnected: bool)
      requires Valid()
      modifies this
      ensures Valid() && prevBaseBattery == -1
      ensures baseConnected ==> prevLidSystem == prevLidBattery == -1
    {
      prevBaseBattery := -1;
      if baseConnected {
        prevLidSystem := -1;
        prevLidBattery := -1;
      }
    }

    /** The estimates of the charging half of charge_allocate_input_current_limit. */
    method Estimate(lidSystem: int, lid: Battery, base: Battery)
      requires Valid()
      modifies this
      ensures Valid() && prevLidSystem >= 0
      ensures prevLidSystem == SmoothValue(old(prevLidSystem), lidSystem, LID_SYSTEM_POWER_SMOOTH)
      ensures prevLidBattery == BatteryEstimate(old(prevLidBattery), lid.power, lid.wanted)
      ensures prevBaseBattery == BatteryEstimate(old(prevBaseBattery), base.power, base.wanted)
    {
      SmoothBetween(prevLidSystem, lidSystem, LID_SYSTEM_POWER_SMOOTH);
      prevLidSystem := SmoothValue(prevLidSystem, lidSystem, LID_SYSTEM_POWER_SMOOTH);
      EstimateAboveMinusOne(prevLidBattery, lid.power, lid.wanted);
      EstimateAboveMinusOne(prevBaseBattery, base.power, base.wanted);
      var lidBattery := lid.power;
      if lidBattery < prevLidBattery {
        lidBattery := SmoothValue(prevLidBattery, lidBattery, BATTERY_POWER_SMOOTH);
      }
      prevLidBattery := Min(lidBattery, lid.wanted);
      var baseBattery := base.power;
      if baseBattery < prevBaseBattery {
        baseBattery := SmoothValue(prevBaseBattery, baseBattery, BATTERY_POWER_SMOOTH);
      }
      prevBaseBattery := Min(baseBattery, base.wanted);
    }

    /** From a budget and the estimates to the two currents. */
    method Allocate(desired: int, voltage: int) returns (base: int, lid: int)
      requires Valid() && prevLidSystem >= 0
      requires desired > 0 && voltage > 0 && desired * voltage / 1000 > 0
      ensures base <= 2000
      ensures base + lid <= desired && (voltage >= 1000 ==> base + lid >= desired - 2)
      ensures base >= 0
      ensures prevLidBattery >= 0 && prevBaseBattery >= 0 ==>
        var total := desired * voltage / 1000;
        var share := BaseShare(total, prevLidSystem, AddMargin(prevLidBattery, MARGIN_LID_BATTERY_POWER),
                               AddMargin(prevBaseBattery, MARGIN_BASE_BATTERY_POWER));
        && lid >= 0 && base == Min(2000, Truncated(1000 * share, voltage))
        && base + lid == Truncated(1000 * share, voltage) + Truncated(1000 * (total - share), voltage)
    {
      var total := desired * voltage / 1000;
      MarginGrows(prevLidBattery, MARGIN_LID_BATTERY_POWER);
      MarginGrows(prevBaseBattery, MARGIN_BASE_BATTERY_POWER);
      var powerBase, powerLid := AllocatePower(total, prevLidSystem,
        AddMargin(prevLidBattery, MARGIN_LID_BATTERY_POWER), AddMargin(prevBaseBattery, MARGIN_BASE_BATTERY_POWER));
      CurrentsFit(desired, voltage, powerBase, powerLid);
      TruncatedIs(1000 * powerBase, voltage);
      TruncatedIs(1000 * powerLid, voltage);
      base := Truncated(1000 * powerBase, voltage);
      lid := Truncated(1000 * powerLid, voltage);
      if base > MAX_LID_TO_BASE_CURRENT {
        lid := lid + (base - MAX_LID_TO_BASE_CURRENT);
        base := MAX_LID_TO_BASE_CURRENT;
      }
    }
  }
}
