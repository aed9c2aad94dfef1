// The charge manager of common/charge_manager.c with DPS off: its tables and
// globals, the selection scan, the hunt loop and the operations that feed it.
// What the board, the battery and the power roles answer are inputs.
module ChargeManager {
  import opened ChargePolicy

  datatype Status = EcSuccess | EcErrorBusy | EcErrorInval

  /** c is the smallest ceiling set by any requestor. */
  ghost predicate IsCeil(set_: seq<int>, c: int) {
    if c == CHARGE_CEIL_NONE then forall k :: 0 <= k < |set_| ==> set_[k] == CHARGE_CEIL_NONE
    else c in set_ && forall k :: 0 <= k < |set_| && set_[k] != CHARGE_CEIL_NONE ==> c <= set_[k]
  }

  /** The current is no more than the supplier's and than any ceiling set, and it is one of these. */
  ghost predicate UnderCeilings(set_: seq<int>, uncapped: int, current: int) {
    && current <= uncapped
    && (forall k :: 0 <= k < |set_| && set_[k] != CHARGE_CEIL_NONE ==> current <= set_[k])
    && (current == uncapped || (current != CHARGE_CEIL_NONE && current in set_))
  }

  class Manager {
    const cfg: Config
    const requestors: nat              // CEIL_REQUESTOR_COUNT
    const defaultCurrent: int          // CONFIG_CHARGER_DEFAULT_CURRENT_LIMIT, or 0
    const roLocked: bool               // running a locked RO image
    const SUPPLIER_PD: int             // CHARGE_SUPPLIER_PD
    var available: Table               // available_charge
    var ceilings: seq<seq<int>>        // charge_ceil, by port
    var dualrole: seq<Capability>
    var chargePort: int
    var chargeSupplier: int
    var chargeCurrent: int
    var chargeCurrentUncapped: int
    var chargeVoltage: int
    var pdCurrentUncapped: int
    var overridePort: int
    var delayedOverridePort: int
    var delayedDeadline: int
    var leftSafeMode: bool
    var portInitialized: bool          // active_charge_port_initialized
    var isSeeded: bool
    var refreshPending: bool           // a charge_manager_refresh is scheduled
    var timeoutArmed: bool             // a charge_override_timeout is scheduled

    ghost function View(): View
      reads this`available, this`dualrole, this`overridePort, this`chargePort, this`leftSafeMode
    {
      ChargePolicy.View(cfg, available, dualrole, overridePort, chargePort,
                        (roLocked || !leftSafeMode) && !cfg.drpCharging)
    }

    /** Where a hunt starts from. */
    ghost function Situation(): Situation
      reads this`available, this`dualrole, this`overridePort, this`chargePort, this`leftSafeMode
      reads this`portInitialized, this`chargeSupplier
    {
      ChargePolicy.Situation(View(), portInitialized, chargeSupplier)
    }

    ghost predicate Shaped()
      reads this`available, this`ceilings, this`dualrole
    {
      && |available| == |cfg.priority| && |dualrole| == cfg.ports
      && (forall i :: 0 <= i < |available| ==> |available[i]| == cfg.ports)
      && |ceilings| == cfg.ports && forall j :: 0 <= j < cfg.ports ==> |ceilings[j]| == requestors
    }

    // -------------------------------------------------------- selection

    /** charge_manager_get_best_charge_port; retain says that the battery cannot carry the system. */
    method GetBestChargePort(retain: bool) returns (newPort: int, newSupplier: int)
      requires Shaped()
      ensures Situation().Chosen([], retain, newPort, newSupplier)
    {
      var supplier, port, bestPower := CHARGE_SUPPLIER_NONE, CHARGE_PORT_NONE, -1;
      ghost var v := View();
      if overridePort != OVERRIDE_DONT_CHARGE {
        var i := 0;
        while i < |cfg.priority|
          invariant 0 <= i <= |cfg.priority|
          invariant Scanned(v, i, 0, supplier, port, bestPower)
        {
          var j := 0;
          while j < cfg.ports
            invariant 0 <= j <= cfg.ports
            invariant Scanned(v, i, j, supplier, port, bestPower)
          {
            supplier, port, bestPower := Consider(i, j, supplier, port, bestPower);
            j := j + 1;
          }
          i := i + 1;
        }
      }
      Situation().Selected(retain, port, supplier);
      if chargePort != CHARGE_PORT_NONE && chargePort != port && retain {
        port, supplier := chargePort, chargeSupplier;
      }
      newPort, newSupplier := port, supplier;
    }

    /** A charge offered on a valid port. */
    predicate Offered(i: int, j: int)
      requires Shaped()
      reads this`available, this`ceilings, this`dualrole
    {
      && 0 <= i < |cfg.priority| && 0 <= j < cfg.ports && cfg.ValidPort(j)
      && available[i][j].current != 0 && available[i][j].voltage != 0
    }

    /**
     * A dual-role port is selected in normal operation only as the override; before safe mode
     * is left, with the RO image locked, or where the configuration allows it, any charge
     * offered is enough to select some port.
     */
    lemma DualRolePorts(retain: bool, port: int, supplier: int)
      requires Shaped() && Situation().Chosen([], retain, port, supplier)
      ensures leftSafeMode && !roLocked && !cfg.drpCharging && !retain && port != CHARGE_PORT_NONE ==>
        0 <= port < |dualrole| && (dualrole[port] == CapDedicated || port == overridePort)
      ensures (!leftSafeMode || roLocked || cfg.drpCharging) && overridePort != OVERRIDE_DONT_CHARGE ==>
        forall i, j :: Offered(i, j) ==> port != CHARGE_PORT_NONE
    {
      WithoutMore(available, [], 0);
      assert Situation().After([]) == View();
      if View().Best(port, supplier) {
        BestInNumbers(View(), port, supplier);
        assert forall i, j :: (!leftSafeMode || roLocked || cfg.drpCharging) && Offered(i, j) ==> Usable(View(), i, j);
      }
    }

    /** The candidates before (ci, cj) in scanning order have been considered. */
    ghost predicate Scanned(v: View, ci: int, cj: int, supplier: int, port: int, bestPower: int)
      requires v.Shaped()
    {
      if supplier == CHARGE_SUPPLIER_NONE then
        port == CHARGE_PORT_NONE && forall i, j :: v.Eligible(i, j) ==> !v.Before(i, j, ci, cj)
      else
        && v.Eligible(supplier, port) && v.Before(supplier, port, ci, cj) && bestPower == v.Power(supplier, port)
        && (forall i :: v.Eligible(i, v.override_) && v.Before(i, v.override_, ci, cj) ==> port == v.override_)
        && forall i, j :: v.Eligible(i, j) && v.Before(i, j, ci, cj) && (port == v.override_ ==> j == port) ==>
             && !v.Beats(i, j, supplier, port)
             && (v.Ties(i, j, supplier, port) && j == v.active ==> port == j && i <= supplier)
             && (v.Ties(i, j, supplier, port) && port != v.active ==> !v.Before(i, j, supplier, port))
    }

    /** The body of the scan for one supplier and port. */
    method Consider(i: int, j: int, supplierIn: int, portIn: int, powerIn: int)
      returns (supplier: int, port: int, bestPower: int)
      requires Shaped() && View().InRange(i, j)
      requires Scanned(View(), i, j, supplierIn, portIn, powerIn)
      ensures Scanned(View(), i, j + 1, supplier, port, bestPower)
    {
      supplier, port, bestPower := supplierIn, portIn, powerIn;
      if !cfg.ValidPort(j) { return; }
      if available[i][j].current == 0 || available[i][j].voltage == 0 { return; }
      if overridePort != OVERRIDE_OFF && overridePort == port && overridePort != j { return; }
      if !cfg.drpCharging && dualrole[j] != CapDedicated && overridePort != j && !(roLocked || !leftSafeMode) { return; }
      var power := available[i][j].Power();
      if supplier == CHARGE_SUPPLIER_NONE
         || cfg.priority[i] < cfg.priority[supplier]
         || (j == overridePort && port != overridePort)
         || (cfg.priority[i] == cfg.priority[supplier]
             && (power > bestPower || (power == bestPower && chargePort == j)))
      {
        supplier, port, bestPower := i, j, power;
      }
    }

    // ------------------------------------------------------ invariants

    /** Every valid port has heard from every supplier. */
    ghost predicate AllReported()
      requires Shaped()
      reads this
    {
      forall i, j :: View().InRange(i, j) && cfg.ValidPort(j) ==>
        available[i][j].current != UNINITIALIZED && available[i][j].voltage != UNINITIALIZED
    }

    ghost predicate Seeded()
      requires Shaped()
      reads this
    {
      isSeeded || AllReported()
    }

    /** A port is active exactly if a supplier is, and nothing is before the first refresh. */
    ghost predicate Consistent()
      reads this`chargePort, this`chargeSupplier, this`portInitialized, this`timeoutArmed, this`delayedOverridePort
    {
      && (chargePort == CHARGE_PORT_NONE <==> chargeSupplier == CHARGE_SUPPLIER_NONE)
      && (chargePort != CHARGE_PORT_NONE ==> 0 <= chargeSupplier < |cfg.priority| && cfg.ValidPort(chargePort))
      && (!portInitialized ==> chargePort == CHARGE_PORT_NONE)
      && (timeoutArmed <==> delayedOverridePort != OVERRIDE_OFF)
    }

    /** What the tables allow for a choice: the supplier's charge, under every ceiling set for the port. */
    ghost predicate Limits(port: int, supplier: int, current: int, uncapped: int, voltage: int)
      requires Shaped()
      requires supplier != CHARGE_SUPPLIER_NONE ==> 0 <= supplier < |cfg.priority| && cfg.ValidPort(port)
      reads this`available, this`ceilings, this`dualrole, this`leftSafeMode
    {
      if supplier == CHARGE_SUPPLIER_NONE then
        current == uncapped == defaultCurrent && voltage == 0
      else
        && uncapped == available[supplier][port].current && voltage == available[supplier][port].voltage
        && if !leftSafeMode then current == uncapped
           else UnderCeilings(ceilings[port], uncapped, current)
    }

    ghost predicate CurrentInForce()
      requires Shaped() && Consistent()
      reads this`available, this`ceilings, this`dualrole, this`leftSafeMode, this`portInitialized, this`timeoutArmed
      reads this`delayedOverridePort, this`chargePort, this`chargeSupplier
      reads this`chargeCurrent, this`chargeCurrentUncapped, this`chargeVoltage
    {
      Limits(chargePort, chargeSupplier, chargeCurrent, chargeCurrentUncapped, chargeVoltage)
    }

    ghost predicate OverrideInForce()
      reads this`overridePort, this`chargePort
    {
      overridePort >= 0 ==> overridePort == chargePort
    }

    /**
     * The invariant of every run: outside safe mode, once all suppliers have
     * reported and no refresh is outstanding, an override is the active port and the
     * current in force respects every ceiling and the supplier's latest charge.
     */
    ghost predicate Valid()
      reads this
    {
      && Shaped() && Consistent()
      && (leftSafeMode && Seeded() && !refreshPending ==> portInitialized && OverrideInForce() && CurrentInForce())
    }

    constructor (cfg: Config, requestors: nat, defaultCurrent: int, roLocked: bool, safeMode: bool, supplierPd: int)
      requires |cfg.priority| > 0 && exists j :: cfg.ValidPort(j)
      ensures Valid() && this.cfg == cfg && overridePort == OVERRIDE_OFF && leftSafeMode == !safeMode
      ensures chargePort == CHARGE_PORT_NONE && chargeCurrent == chargeCurrentUncapped == UNINITIALIZED
      ensures forall i, j :: View().InRange(i, j) ==> available[i][j] == Charge(UNINITIALIZED, UNINITIALIZED)
      ensures forall j :: 0 <= j < cfg.ports ==> dualrole[j] == if j < cfg.pdPorts then CapUnknown else CapDedicated
    {
      this.cfg, this.requestors, this.defaultCurrent, this.roLocked := cfg, requestors, defaultCurrent, roLocked;
      SUPPLIER_PD := supplierPd;
      available := seq(|cfg.priority|, _ => seq(cfg.ports, _ => Charge(UNINITIALIZED, UNINITIALIZED)));
      ceilings := seq(cfg.ports, _ => seq(requestors, _ => CHARGE_CEIL_NONE));
      dualrole := seq(cfg.ports, j => if cfg.PdPort(j) then CapUnknown else CapDedicated);
      chargePort, chargeSupplier := CHARGE_PORT_NONE, CHARGE_SUPPLIER_NONE;
      chargeCurrent, chargeCurrentUncapped, pdCurrentUncapped := UNINITIALIZED, UNINITIALIZED, UNINITIALIZED;
      chargeVoltage := 0;
      overridePort, delayedOverridePort, delayedDeadline := OVERRIDE_OFF, OVERRIDE_OFF, 0;
      leftSafeMode, portInitialized, isSeeded := !safeMode, false, false;
      refreshPending, timeoutArmed := false, false;
      new;
      var j :| this.cfg.ValidPort(j);
      assert View().InRange(0, j) && available[0][j].current == UNINITIALIZED;
    }

    // ---------------------------------------------------------- refresh

    method GetCeil(port: int) returns (ceil: int)
      requires Shaped() && cfg.ValidPort(port)
      ensures IsCeil(ceilings[port], ceil)
    {
      ceil := CHARGE_CEIL_NONE;
      for i := 0 to requestors
        invariant IsCeil(ceilings[port][..i], ceil)
      {
        var val := ceilings[port][i];
        if val != CHARGE_CEIL_NONE && (ceil == CHARGE_CEIL_NONE || val < ceil) {
          ceil := val;
        }
        assert ceilings[port][..i + 1] == ceilings[port][..i] + [val];
      }
      assert ceilings[port][..requestors] == ceilings[port];
    }

    /** Zero the available charge on a rejected port. */
    method WithdrawPort(port: int)
      requires Shaped() && 0 <= port < cfg.ports
      modifies this`available
      ensures Shaped() && available == Without(old(available), [port])
    {
      var i := 0;
      while i < |cfg.priority|
        invariant 0 <= i <= |cfg.priority| && Shaped()
        invariant forall k, j :: 0 <= k < |available| && 0 <= j < cfg.ports ==>
                    available[k][j] == if k < i && j == port then NO_CHARGE else old(available)[k][j]
      {
        available := available[i := available[i][port := NO_CHARGE]];
        i := i + 1;
      }
      forall k | 0 <= k < |available| ensures available[k] == Without(old(available), [port])[k] {
      }
    }

    /** Some supplier still offers a charge on port j. */
    static ghost predicate Offers(charges: Table, j: nat) {
      exists i :: 0 <= i < |charges| && j < |charges[i]| && charges[i][j] != NO_CHARGE
    }

    static ghost function Offering(charges: Table, ports: nat): set<nat> {
      set j | 0 <= j < ports && Offers(charges, j)
    }

    /** Withdrawing a port that offers leaves fewer ports that do. */
    static lemma WithdrawalShrinks(now: Table, was: Table, ports: nat, port: nat)
      requires |now| == |was| && forall i :: 0 <= i < |now| ==> |now[i]| == |was[i]| == ports
      requires now == Without(was, [port]) && port < ports && Offers(was, port)
      ensures Offering(now, ports) < Offering(was, ports)
    {
      forall j: nat | j < ports && Offers(now, j)
        ensures Offers(was, j) && j != port
      {
        var i :| 0 <= i < |now| && j < |now[i]| && now[i][j] != NO_CHARGE;
        assert Without(was, [port])[i][j] == now[i][j];
      }
      forall i | 0 <= i < |now| ensures now[i][port] == NO_CHARGE {
        assert Without(was, [port])[i][port] == NO_CHARGE;
      }
      assert port in Offering(was, ports) && port !in Offering(now, ports);
    }

    /** A choice from tables that have lost some ports is a choice after those refusals. */
    lemma ChosenAfter(start: Situation, refused: seq<int>, retain: bool, port: int, supplier: int)
      requires start.Shaped() && Shaped()
      requires Situation() == start.(view := start.After(refused))
      requires Situation().Chosen([], retain, port, supplier)
      ensures start.Chosen(refused, retain, port, supplier)
    {
      WithoutMore(available, [], 0);
    }

    static lemma RefusedMore(start: Situation, refused: seq<int>, retain: nat -> bool, board: nat -> bool,
                             port: int, supplier: int)
      requires start.Shaped() && start.Refused(refused, retain, board) && !board(|refused|)
      requires start.Chosen(refused, retain(|refused|), port, supplier)
      requires port != CHARGE_PORT_NONE && !start.Unchanged(port, supplier)
      ensures start.Refused(refused + [port], retain, board)
    {
      var more := refused + [port];
      forall i | 0 <= i < |more| ensures !board(i) && start.Proposed(more[..i], retain(i), more[i]) {
        assert more[..i] == refused[..i];
        if i == |refused| {
          assert refused[..i] == refused;
        } else {
          assert more[i] == refused[i];
        }
      }
    }

    /** A port that can be charged from with its supplier, or none of either. */
    predicate Selectable(port: int, supplier: int) {
      if supplier == CHARGE_SUPPLIER_NONE then port == CHARGE_PORT_NONE
      else 0 <= supplier < |cfg.priority| && cfg.ValidPort(port)
    }

    /** Choose, among what the ports refused so far have left. */
    method Select(retain: bool, ghost start: Situation, ghost refused: seq<int>) returns (port: int, supplier: int)
      requires Shaped() && Consistent() && start.Shaped()
      requires Situation() == start.(view := start.After(refused))
      ensures Selectable(port, supplier) && start.Chosen(refused, retain, port, supplier)
      ensures port != CHARGE_PORT_NONE && !start.Unchanged(port, supplier) ==> Offers(available, port)
    {
      port, supplier := GetBestChargePort(retain);
      ChosenAfter(start, refused, retain, port, supplier);
      ChosenOffers(retain, port, supplier);
    }

    /** Zero what a refused port offers. */
    method Reject(port: int, ghost charges: Table, ghost refused: seq<int>)
      requires Shaped() && 0 <= port < cfg.ports && Offers(available, port) && available == Without(charges, refused)
      modifies this`available
      ensures Shaped() && available == Without(charges, refused + [port])
      ensures Offering(available, cfg.ports) < Offering(old(available), cfg.ports)
    {
      WithdrawPort(port);
      WithdrawalShrinks(available, old(available), cfg.ports, port);
      WithoutMore(charges, refused, port);
    }

    /** One round of the hunt: choose, and ask the board if the choice changes anything. */
    method Round(retain: bool, board: bool, ghost start: Situation, ghost refused: seq<int>)
      returns (port: int, supplier: int, gaveUp: bool, again: bool)
      requires Shaped() && Consistent() && start.Shaped()
      requires Situation() == start.(view := start.After(refused))
      modifies this`available
      ensures Shaped() && Selectable(port, supplier)
      ensures start.Chosen(refused, retain, port, supplier)
      ensures gaveUp <==> !leftSafeMode && port == CHARGE_PORT_NONE
      ensures again <==> port != CHARGE_PORT_NONE && !start.Unchanged(port, supplier) && !board
      ensures if again then
                && available == Without(start.view.charges, refused + [port])
                && Offering(available, cfg.ports) < Offering(old(available), cfg.ports)
              else available == old(available)
    {
      again := false;
      port, supplier := Select(retain, start, refused);
      gaveUp := !leftSafeMode && port == CHARGE_PORT_NONE;
      if gaveUp { return; }
      if portInitialized && port == chargePort && supplier == chargeSupplier { return; }
      if port == CHARGE_PORT_NONE || board { return; }
      Reject(port, start.view.charges, refused);
      again := true;
    }

    /** What is chosen, when it is a change, still offers a charge. */
    lemma ChosenOffers(retain: bool, port: int, supplier: int)
      requires Shaped() && Consistent() && Situation().Chosen([], retain, port, supplier)
      ensures Selectable(port, supplier)
      ensures port != CHARGE_PORT_NONE && !Situation().Unchanged(port, supplier) ==> Offers(available, port)
    {
      WithoutMore(available, [], 0);
      assert Situation().After([]) == View();
      if View().Best(port, supplier) && port != CHARGE_PORT_NONE {
        assert View().Eligible(supplier, port);
        assert available[supplier][port] != NO_CHARGE;
      }
    }

    /**
     * The hunt loop: it ends whatever the board refuses, as long as the board can
     * always be left without a charge port. The k-th answer of the battery says whether
     * the active port must be retained, the k-th answer of the board whether the port
     * proposed is accepted. The ports refused are exactly those the board was asked about
     * and said no to, and the result is the choice among what they leave.
     */
    method Hunt(retain: nat -> bool, board: nat -> bool)
      returns (port: int, supplier: int, gaveUp: bool, ghost refused: seq<int>)
      requires Shaped() && Consistent()
      modifies this`available
      ensures Shaped() && Consistent() && available == Without(old(available), refused)
      ensures old(Situation()).Refused(refused, retain, board)
      ensures old(Situation()).Ends(refused, retain, board, port, supplier)
      ensures gaveUp <==> !leftSafeMode && port == CHARGE_PORT_NONE
      ensures Selectable(port, supplier)
    {
      ghost var start := Situation();
      var k: nat := 0;
      refused := [];
      WithoutMore(available, [], 0);
      while true
        invariant Shaped() && Consistent() && available == Without(old(available), refused)
        invariant k == |refused| && start.Refused(refused, retain, board)
        decreases Offering(available, cfg.ports)
      {
        var again;
        port, supplier, gaveUp, again := Round(retain(k), board(k), start, refused);
        if !again { return; }
        RefusedMore(start, refused, retain, board, port, supplier);
        refused, k := refused + [port], k + 1;
      }
    }

    /** The limits for the chosen port. */
    method ComputeLimits(port: int, supplier: int) returns (current: int, uncapped: int, voltage: int)
      requires Shaped()
      requires supplier != CHARGE_SUPPLIER_NONE ==> 0 <= supplier < |cfg.priority| && cfg.ValidPort(port)
      ensures Limits(port, supplier, current, uncapped, voltage)
    {
      current, uncapped, voltage := defaultCurrent, defaultCurrent, 0;
      if supplier != CHARGE_SUPPLIER_NONE {
        uncapped := available[supplier][port].current;
        var ceil := GetCeil(port);
        current := if leftSafeMode && ceil != CHARGE_CEIL_NONE && ceil < uncapped then ceil else uncapped;
        voltage := available[supplier][port].voltage;
      }
    }

    /** The rest of the refresh: the override if it was not chosen, the limits, the globals. */
    method Commit(port: int, supplier: int, current: int, uncapped: int, voltage: int)
      requires Shaped() && Consistent()
      requires Selectable(port, supplier)
      requires Limits(port, supplier, current, uncapped, voltage)
      modifies this`overridePort, this`chargePort, this`chargeSupplier, this`portInitialized
      modifies this`chargeCurrent, this`chargeCurrentUncapped, this`chargeVoltage, this`pdCurrentUncapped
      ensures Consistent() && portInitialized && OverrideInForce() && CurrentInForce()
      ensures chargePort == port && chargeSupplier == supplier
      ensures overridePort == if old(overridePort) >= 0 && old(overridePort) != port then OVERRIDE_OFF else old(overridePort)
      ensures pdCurrentUncapped == if supplier == SUPPLIER_PD then chargeCurrentUncapped else UNINITIALIZED
    {
      portInitialized := true;
      DropOverride(port);
      Store(port, supplier, current, uncapped, voltage);
    }

    /** An override that was not chosen ends. */
    method DropOverride(port: int)
      modifies this`overridePort
      ensures overridePort == if old(overridePort) >= 0 && old(overridePort) != port then OVERRIDE_OFF else old(overridePort)
    {
      if overridePort >= 0 && overridePort != port {
        overridePort := OVERRIDE_OFF;
      }
    }

    /** The limits of the choice come into force. */
    method Store(port: int, supplier: int, current: int, uncapped: int, voltage: int)
      modifies this`chargePort, this`chargeSupplier
      modifies this`chargeCurrent, this`chargeCurrentUncapped, this`chargeVoltage, this`pdCurrentUncapped
      ensures chargePort == port && chargeSupplier == supplier
      ensures chargeCurrent == current && chargeCurrentUncapped == uncapped && chargeVoltage == voltage
      ensures pdCurrentUncapped == if supplier == SUPPLIER_PD then uncapped else UNINITIALIZED
    {
      pdCurrentUncapped := if supplier == SUPPLIER_PD then uncapped else UNINITIALIZED;
      chargeCurrent, chargeCurrentUncapped, chargeVoltage := current, uncapped, voltage;
      chargeSupplier, chargePort := supplier, port;
    }

    /** The second half of the refresh: the limits of the choice, and the globals. */
    method Adopt(port: int, supplier: int)
      requires Shaped() && Consistent() && Selectable(port, supplier)
      modifies this`overridePort, this`chargePort, this`chargeSupplier, this`portInitialized
      modifies this`chargeCurrent, this`chargeCurrentUncapped, this`chargeVoltage, this`pdCurrentUncapped
      ensures Shaped() && Consistent() && portInitialized && OverrideInForce() && CurrentInForce()
      ensures chargePort == port && chargeSupplier == supplier
      ensures overridePort == if old(overridePort) >= 0 && old(overridePort) != port then OVERRIDE_OFF else old(overridePort)
    {
      var current, uncapped, voltage := ComputeLimits(port, supplier);
      Commit(port, supplier, current, uncapped, voltage);
    }

    method HuntAndAdopt(retain: nat -> bool, board: nat -> bool)
      returns (gaveUp: bool, ghost refused: seq<int>, ghost port: int, ghost supplier: int)
      requires Shaped() && Consistent()
      modifies this`available, this`overridePort, this`chargePort, this`chargeSupplier, this`portInitialized
      modifies this`chargeCurrent, this`chargeCurrentUncapped, this`chargeVoltage, this`pdCurrentUncapped
      ensures Shaped() && Consistent() && available == Without(old(available), refused)
      ensures old(Situation()).Refused(refused, retain, board)
      ensures old(Situation()).Ends(refused, retain, board, port, supplier)
      ensures gaveUp <==> !leftSafeMode && port == CHARGE_PORT_NONE
      ensures gaveUp ==> chargePort == old(chargePort) && overridePort == old(overridePort)
      ensures !gaveUp ==>
        && chargePort == port && chargeSupplier == supplier
        && portInitialized && OverrideInForce() && CurrentInForce()
        && overridePort == if old(overridePort) >= 0 && old(overridePort) != port then OVERRIDE_OFF else old(overridePort)
    {
      var newPort, newSupplier;
      newPort, newSupplier, gaveUp, refused := Hunt(retain, board);
      port, supplier := newPort, newSupplier;
      if gaveUp { return; }
      Adopt(newPort, newSupplier);
    }

    /**
     * charge_manager_refresh, run as a deferred call. The port and supplier are those the
     * hunt ends with, after exactly the refusals the board gave.
     */
    method Refresh(retain: nat -> bool, board: nat -> bool)
      returns (gaveUp: bool, ghost refused: seq<int>, ghost port: int, ghost supplier: int)
      requires Valid() && refreshPending
      modifies this
      ensures Valid() && !refreshPending && available == Without(old(available), refused)
      ensures old(Situation()).Refused(refused, retain, board)
      ensures old(Situation()).Ends(refused, retain, board, port, supplier)
      ensures gaveUp <==> !leftSafeMode && port == CHARGE_PORT_NONE
      ensures gaveUp ==> chargePort == old(chargePort) && overridePort == old(overridePort)
      ensures !gaveUp ==>
        && chargePort == port && chargeSupplier == supplier
        && portInitialized && OverrideInForce() && CurrentInForce()
        && overridePort == if old(overridePort) >= 0 && old(overridePort) != port then OVERRIDE_OFF else old(overridePort)
      ensures !gaveUp && supplier != CHARGE_SUPPLIER_NONE ==>
        && chargeCurrentUncapped == available[supplier][port].current && chargeVoltage == available[supplier][port].voltage
        && if leftSafeMode then UnderCeilings(ceilings[port], chargeCurrentUncapped, chargeCurrent)
           else chargeCurrent == chargeCurrentUncapped
      ensures !gaveUp && supplier == CHARGE_SUPPLIER_NONE ==>
        chargeCurrent == chargeCurrentUncapped == defaultCurrent && chargeVoltage == 0
      ensures leftSafeMode == old(leftSafeMode)
      ensures dualrole == old(dualrole) && ceilings == old(ceilings) && delayedOverridePort == old(delayedOverridePort)
    {
      gaveUp, refused, port, supplier := HuntAndAdopt(retain, board);
      refreshPending := false;       // taken up before the hunt, which neither looks at it nor sets it
    }

    // -------------------------------------------------------- operations

    /** charge_manager_is_seeded, which remembers a positive answer. */
    method CheckSeeded() returns (seeded: bool)
      requires Shaped()
      modifies this`isSeeded
      ensures seeded == old(Seeded()) == isSeeded
    {
      if isSeeded { return true; }
      var i := 0;
      while i < |cfg.priority|
        invariant 0 <= i <= |cfg.priority| && !isSeeded
        invariant forall k, j :: 0 <= k < i && View().InRange(k, j) && cfg.ValidPort(j) ==>
                    available[k][j].current != UNINITIALIZED && available[k][j].voltage != UNINITIALIZED
      {
        var j := 0;
        while j < cfg.ports
          invariant 0 <= j <= cfg.ports && !isSeeded
          invariant forall l :: 0 <= l < j && cfg.ValidPort(l) ==>
                      available[i][l].current != UNINITIALIZED && available[i][l].voltage != UNINITIALIZED
        {
          if cfg.ValidPort(j) && (available[i][j].current == UNINITIALIZED || available[i][j].voltage == UNINITIALIZED) {
            return false;
          }
          j := j + 1;
        }
        i := i + 1;
      }
      isSeeded := true;
      return true;
    }

    /** Schedule a refresh if everything has reported in. */
    method RefreshIfSeeded()
      requires Shaped() && Consistent()
      modifies this`isSeeded, this`refreshPending
      ensures Valid() && (refreshPending <==> old(refreshPending) || Seeded()) && Seeded() == old(Seeded())
    {
      var seeded := CheckSeeded();
      if seeded {
        refreshPending := true;
      }
    }

    /** What charge_manager_set_override does when the port can or need not be a sink. */
    method SetOverride(port: int, sink: bool, now: int, swapTimeout: int) returns (r: Status)
      requires Valid() && (port >= 0 ==> port < cfg.ports)
      modifies this`overridePort, this`delayedOverridePort, this`delayedDeadline, this`timeoutArmed
      modifies this`isSeeded, this`refreshPending
      ensures Valid()
      ensures if old(delayedOverridePort) != OVERRIDE_OFF then
                r == EcErrorBusy && overridePort == old(overridePort) && delayedOverridePort == old(delayedOverridePort)
              else if port < 0 || sink then
                r == EcSuccess && overridePort == port && delayedOverridePort == OVERRIDE_OFF
              else if dualrole[port] == CapDualrole then
                r == EcSuccess && overridePort == old(overridePort) && delayedOverridePort == port && delayedDeadline == now + swapTimeout
              else r == EcErrorInval && overridePort == old(overridePort) && delayedOverridePort == OVERRIDE_OFF
      ensures overridePort != old(overridePort) && old(Seeded()) ==> refreshPending
      ensures old(refreshPending) ==> refreshPending
    {
      if delayedOverridePort != OVERRIDE_OFF { return EcErrorBusy; }
      r := EcSuccess;
      if port < 0 || sink {
        if overridePort != port {
          overridePort := port;
          RefreshIfSeeded();
        }
      } else if dualrole[port] == CapDualrole {
        delayedDeadline := now + swapTimeout;
        delayedOverridePort := port;
        timeoutArmed := true;
      } else {
        r := EcErrorInval;
      }
    }

    /** charge_override_timeout, run as a deferred call. */
    method OverrideTimeout()
      requires Valid() && timeoutArmed
      modifies this`delayedOverridePort, this`timeoutArmed
      ensures Valid() && delayedOverridePort == OVERRIDE_OFF && !timeoutArmed
    {
      timeoutArmed := false;
      delayedOverridePort := OVERRIDE_OFF;
    }

    method SetCeil(port: int, requestor: nat, ceil: int)
      requires Valid() && requestor < requestors
      modifies this`ceilings, this`isSeeded, this`refreshPending
      ensures Valid()
      ensures ceilings == if cfg.ValidPort(port) then old(ceilings)[port := old(ceilings)[port][requestor := ceil]] else old(ceilings)
    {
      if !cfg.ValidPort(port) { return; }
      ghost var row := ceilings[port];
      assert row[requestor := row[requestor]] == row && ceilings[port := row] == ceilings;
      if ceilings[port][requestor] != ceil {
        ceilings := ceilings[port := ceilings[port][requestor := ceil]];
        if port == chargePort {
          RefreshIfSeeded();
        }
      }
    }

    method LeaveSafeMode()
      requires Valid()
      modifies this`leftSafeMode, this`isSeeded, this`refreshPending
      ensures Valid() && leftSafeMode
    {
      if leftSafeMode { return; }
      leftSafeMode := true;
      RefreshIfSeeded();
    }

    /** A charger on this port ends the override of another: a dedicated one, or any where sources that can be sinks charge. */
    ghost predicate EndsOverride(port: int)
      requires Shaped() && 0 <= port < cfg.ports
      reads this`overridePort, this`dualrole, this`available, this`ceilings
    {
      overridePort != port && (cfg.drpCharging || dualrole[port] == CapDedicated)
    }

    /** Some supplier offers a charge on the port. */
    ghost predicate HasCharge(port: int)
      requires Shaped() && 0 <= port < cfg.ports
      reads this`dualrole, this`available, this`ceilings
    {
      exists i :: 0 <= i < |cfg.priority| && available[i][port].current > 0
    }

    /** A dedicated charger appearing elsewhere ends an override, and one being waited for. */
    method ClearOverride(port: int)
      requires Shaped() && Consistent() && 0 <= port < cfg.ports
      modifies this`overridePort, this`delayedOverridePort, this`timeoutArmed
      ensures Consistent()
      ensures if old(EndsOverride(port)) then
                overridePort == OVERRIDE_OFF && delayedOverridePort == OVERRIDE_OFF && !timeoutArmed
              else overridePort == old(overridePort) && delayedOverridePort == old(delayedOverridePort)
                   && timeoutArmed == old(timeoutArmed)
    {
      if overridePort != port && (cfg.drpCharging || dualrole[port] == CapDedicated) {
        overridePort := OVERRIDE_OFF;
        if delayedOverridePort != OVERRIDE_OFF {
          delayedOverridePort := OVERRIDE_OFF;
          timeoutArmed := false;
        }
      }
    }

    /** A charge in time on the port waited for makes it the override. */
    method PromoteDelayed(port: int, current: int, sink: bool, now: int)
      requires Shaped() && Consistent() && 0 <= port < cfg.ports
      modifies this`overridePort, this`delayedOverridePort, this`timeoutArmed
      ensures Consistent()
      ensures if port == old(delayedOverridePort) && current > 0 && sink && now < delayedDeadline then
                overridePort == port && delayedOverridePort == OVERRIDE_OFF && !timeoutArmed
              else overridePort == old(overridePort) && delayedOverridePort == old(delayedOverridePort)
    {
      if port == delayedOverridePort && current > 0 && sink && now < delayedDeadline {
        delayedOverridePort := OVERRIDE_OFF;
        timeoutArmed := false;
        overridePort := port;      // the caller schedules the refresh
      }
    }

    /**
     * charge_manager_update_charge; sink and now are what the power role and the clock say.
     * The first charge of a supplier on a port ends the override of another port, and a
     * charge in time on the port waited for makes that port the override.
     */
    method UpdateCharge(supplier: nat, port: int, charge: Charge, sink: bool, now: int)
      requires Valid() && supplier < |cfg.priority|
      modifies this`available, this`overridePort, this`delayedOverridePort, this`timeoutArmed
      modifies this`isSeeded, this`refreshPending
      ensures Valid()
      ensures if cfg.ValidPort(port) && old(available)[supplier][port] != charge then
                && available == old(available)[supplier := old(available)[supplier][port := charge]]
                && (Seeded() ==> refreshPending)
              else available == old(available) && overridePort == old(overridePort) && refreshPending == old(refreshPending)
      ensures var offered := cfg.ValidPort(port) && old(available)[supplier][port] != charge && charge.current > 0;
              if offered && old(available)[supplier][port].current == 0 && old(EndsOverride(port)) then
                overridePort == OVERRIDE_OFF && delayedOverridePort == OVERRIDE_OFF
              else if offered && port == old(delayedOverridePort) && sink && now < old(delayedDeadline) then
                overridePort == port && delayedOverridePort == OVERRIDE_OFF
              else
                overridePort == old(overridePort) && delayedOverridePort == old(delayedOverridePort)
      ensures old(refreshPending) ==> refreshPending
    {
      if !cfg.ValidPort(port) { return; }
      var was := available[supplier][port];
      if was == charge { return; }
      if charge.current > 0 && was.current == 0 {
        ClearOverride(port);
      }
      available := available[supplier := available[supplier][port := charge]];
      PromoteDelayed(port, charge.current, sink, now);
      RefreshIfSeeded();
    }

    /**
     * charge_manager_update_dualrole: only a port becoming dedicated with a charge on it
     * matters; it ends the override of another port.
     */
    method UpdateDualrole(port: int, cap: Capability)
      requires Valid()
      modifies this`dualrole, this`overridePort, this`delayedOverridePort, this`timeoutArmed
      modifies this`isSeeded, this`refreshPending
      ensures Valid()
      ensures dualrole == if 0 <= port < cfg.pdPorts && port < cfg.ports then old(dualrole)[port := cap] else old(dualrole)
      ensures var dedicated := 0 <= port < cfg.pdPorts && cfg.ValidPort(port) && old(dualrole)[port] != cap == CapDedicated
                               && !cfg.drpCharging && old(HasCharge(port));
              && (if dedicated && old(overridePort) != port then
                    overridePort == OVERRIDE_OFF && delayedOverridePort == OVERRIDE_OFF
                  else
                    overridePort == old(overridePort) && delayedOverridePort == old(delayedOverridePort))
              && (refreshPending <==> old(refreshPending) || (dedicated && Seeded()))
    {
      if !cfg.PdPort(port) || port >= cfg.ports { return; }
      if cap == dualrole[port] { return; }
      dualrole := dualrole[port := cap];
      if !cfg.ValidPort(port) { return; }
      if cfg.drpCharging || dualrole[port] != CapDedicated { return; }
      var i := 0;
      while i < |cfg.priority| && available[i][port].current <= 0
        invariant i <= |cfg.priority| && forall j :: 0 <= j < i ==> available[j][port].current <= 0
      {
        i := i + 1;
      }
      if i == |cfg.priority| { return; }
      ClearOverride(port);
      RefreshIfSeeded();
    }
  }
}
