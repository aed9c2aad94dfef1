// Which charge source common/charge_manager.c should select, as a property of
// its tables: supplier priority first, then power, then the active port; an
// override port with a usable charge beats everything.
module ChargePolicy {

  const OVERRIDE_OFF := -1
  const OVERRIDE_DONT_CHARGE := -2
  const CHARGE_PORT_NONE := -1
  const CHARGE_SUPPLIER_NONE := -1
  const CHARGE_CEIL_NONE := -1
  const UNINITIALIZED := -1      // CHARGE_CURRENT_UNINITIALIZED, CHARGE_VOLTAGE_UNINITIALIZED

  datatype Charge = Charge(current: int, voltage: int) {
    function Power(): int {
      current * voltage
    }
  }

  const NO_CHARGE := Charge(0, 0)

  datatype Capability = CapUnknown | CapDualrole | CapDedicated

  /** The board's build-time configuration and port count. */
  datatype Config = Config(
    ports: nat,              // CHARGE_PORT_COUNT
    pdMax: nat,              // CONFIG_USB_PD_PORT_MAX_COUNT
    pdPorts: nat,            // board_get_usb_pd_port_count()
    priority: seq<int>,      // supplier_priority, by supplier
    drpCharging: bool)       // CONFIG_CHARGE_MANAGER_DRP_CHARGING
  {
    predicate ValidPort(port: int) {
      0 <= port < ports && !(pdPorts <= port < pdMax)
    }

    predicate PdPort(port: int) {
      0 <= port < pdPorts
    }
  }

  type Table = seq<seq<Charge>>      // by supplier, then by port

  /** What the selection looks at. */
  datatype View = View(cfg: Config, charges: Table, dualrole: seq<Capability>, override_: int, active: int, spoof: bool) {
    ghost predicate Shaped() {
      && |charges| == |cfg.priority| && |dualrole| == cfg.ports
      && forall i :: 0 <= i < |charges| ==> |charges[i]| == cfg.ports
    }

    predicate InRange(i: int, j: int) {
      0 <= i < |charges| && 0 <= j < cfg.ports
    }

    /** Supplier i on port j may be charged from. */
    predicate Eligible(i: int, j: int)
      requires Shaped()
    {
      && InRange(i, j) && cfg.ValidPort(j)
      && charges[i][j].current != 0 && charges[i][j].voltage != 0
      && (cfg.drpCharging || dualrole[j] == CapDedicated || override_ == j || spoof)
    }

    function Power(i: int, j: int): int
      requires Shaped() && InRange(i, j)
    {
      charges[i][j].Power()
    }

    /** (i, j) beats (k, l): a higher priority (smaller number), or the same and more power. */
    predicate Beats(i: int, j: int, k: int, l: int)
      requires Shaped() && InRange(i, j) && InRange(k, l)
    {
      cfg.priority[i] < cfg.priority[k] || (cfg.priority[i] == cfg.priority[k] && Power(i, j) > Power(k, l))
    }

    predicate Ties(i: int, j: int, k: int, l: int)
      requires Shaped() && InRange(i, j) && InRange(k, l)
    {
      cfg.priority[i] == cfg.priority[k] && Power(i, j) == Power(k, l)
    }

    /** The override port has a usable charge. */
    ghost predicate OverrideOffers()
      requires Shaped()
    {
      exists i :: Eligible(i, override_)
    }

    /** (i, j) takes part in the choice. */
    ghost predicate Candidate(i: int, j: int)
      requires Shaped()
    {
      Eligible(i, j) && (OverrideOffers() ==> j == override_)
    }

    /**
     * The port and supplier to select: none if there is no candidate; otherwise a
     * candidate no other beats, on the active port if that ties for best.
     */
    ghost predicate Best(port: int, supplier: int)
      requires Shaped()
    {
      if override_ == OVERRIDE_DONT_CHARGE || !exists i, j :: Eligible(i, j) then
        port == CHARGE_PORT_NONE && supplier == CHARGE_SUPPLIER_NONE
      else
        && Candidate(supplier, port)
        && (forall i, j :: Candidate(i, j) ==> !Beats(i, j, supplier, port))
        && (forall i :: Candidate(i, active) && Ties(i, active, supplier, port) ==> port == active && i <= supplier)
        && (port != active ==> forall i, j :: Candidate(i, j) && Ties(i, j, supplier, port) ==> !Before(i, j, supplier, port))
    }

    /** Scanning order: suppliers outside, ports inside. */
    predicate Before(i: int, j: int, k: int, l: int) {
      i < k || (i == k && j < l)
    }
  }

  /** The tables leave only one choice. */
  lemma BestIsUnique(v: View, p: int, s: int, q: int, t: int)
    requires v.Shaped() && v.Best(p, s) && v.Best(q, t)
    ensures p == q && s == t
  {
  }

  /** An override port that offers a charge is the one selected, with its own best supplier. */
  lemma OverrideWins(v: View, port: int, supplier: int)
    requires v.Shaped() && v.Best(port, supplier) && v.override_ != OVERRIDE_DONT_CHARGE && v.OverrideOffers()
    ensures port == v.override_
    ensures forall i :: v.Eligible(i, port) ==> !v.Beats(i, port, supplier, port)
  {
    var i :| v.Eligible(i, v.override_);
    assert v.Candidate(i, v.override_);
  }

  /** A charge that may be taken: a valid port, a charge on it, and a port that is sure to supply one or is asked for. */
  predicate Usable(v: View, i: int, j: int) {
    && 0 <= i < |v.charges| && 0 <= j < v.cfg.ports && (j < v.cfg.pdPorts || j >= v.cfg.pdMax)
    && j < |v.charges[i]| && j < |v.dualrole|
    && v.charges[i][j].current != 0 && v.charges[i][j].voltage != 0
    && (v.cfg.drpCharging || v.dualrole[j] == CapDedicated || j == v.override_ || v.spoof)
  }

  ghost predicate UsableOn(v: View, j: int) {
    exists i :: Usable(v, i, j)
  }

  /**
   * The rule in numbers. Nothing is selected exactly if nothing is usable or charging is
   * off. An override port with a usable charge is the one; the selected charge is usable;
   * among those it competes with no supplier has a smaller priority number, none of the same
   * number offers more power in current times voltage, and one on the active port that is as
   * good is taken.
   */
  lemma BestInNumbers(v: View, port: int, supplier: int)
    requires v.Shaped() && v.Best(port, supplier)
    ensures port == -1 <==> v.override_ == -2 || forall i, j :: !Usable(v, i, j)
    ensures (port == -1) == (supplier == -1)
    ensures v.override_ != -2 && UsableOn(v, v.override_) ==> port == v.override_
    ensures port != -1 ==> Usable(v, supplier, port)
    ensures port != -1 ==> forall i, j :: Usable(v, i, j) && (j == port || port != v.override_) ==>
      var mine, other := v.charges[supplier][port], v.charges[i][j];
      || v.cfg.priority[supplier] < v.cfg.priority[i]
      || (v.cfg.priority[supplier] == v.cfg.priority[i]
          && mine.current * mine.voltage >= other.current * other.voltage
          && (mine.current * mine.voltage == other.current * other.voltage && j == v.active ==> port == j))
  {
    assert forall i, j :: v.Eligible(i, j) <==> Usable(v, i, j);
    if port != -1 {
      assert v.Eligible(supplier, port);
      forall i, j | Usable(v, i, j) && (j == port || port != v.override_)
        ensures var mine, other := v.charges[supplier][port], v.charges[i][j];
                || v.cfg.priority[supplier] < v.cfg.priority[i]
                || (v.cfg.priority[supplier] == v.cfg.priority[i]
                    && mine.current * mine.voltage >= other.current * other.voltage
                    && (mine.current * mine.voltage == other.current * other.voltage && j == v.active ==> port == j))
      {
        assert v.Candidate(i, j);
        assert v.Power(i, j) == v.charges[i][j].current * v.charges[i][j].voltage;
        assert !v.Beats(i, j, supplier, port);
      }
    }
  }

  /** As good as the selected charge: the same priority number and the same power. */
  predicate AsGood(v: View, i: int, j: int, supplier: int, port: int) {
    && Usable(v, i, j) && Usable(v, supplier, port) && (j == port || port != v.override_)
    && 0 <= i < |v.cfg.priority| && 0 <= supplier < |v.cfg.priority| && v.cfg.priority[i] == v.cfg.priority[supplier]
    && v.charges[i][j].current * v.charges[i][j].voltage == v.charges[supplier][port].current * v.charges[supplier][port].voltage
  }

  /**
   * Among charges that are as good, the active port keeps its place with the last of its
   * suppliers; away from it the first supplier is taken, and of its ports the first.
   */
  lemma TiesInNumbers(v: View, port: int, supplier: int)
    requires v.Shaped() && v.Best(port, supplier) && port != -1
    ensures forall i, j :: AsGood(v, i, j, supplier, port) ==>
      if port == v.active then j == port ==> i <= supplier
      else j != v.active && (supplier < i || (supplier == i && port <= j))
  {
    assert forall i, j :: v.Eligible(i, j) <==> Usable(v, i, j);
    forall i, j | AsGood(v, i, j, supplier, port)
      ensures if port == v.active then j == port ==> i <= supplier
              else j != v.active && (supplier < i || (supplier == i && port <= j))
    {
      assert v.Candidate(i, j) && v.Ties(i, j, supplier, port);
    }
  }

  // ------------------------------------------------------- the hunt

  lemma {:induction false} SamePrefix(a: seq<int>, b: seq<int>, k: nat)
    requires k <= |a| <= |b| && forall i: nat :: i < k && a[..i] == b[..i] ==> a[i] == b[i]
    ensures a[..k] == b[..k]
  {
    if k > 0 {
      SamePrefix(a, b, k - 1);
      assert a[..k] == a[..k - 1] + [a[k - 1]] && b[..k] == b[..k - 1] + [b[k - 1]];
    }
  }

  /** The charges of some ports taken away. */
  function Without(charges: Table, ports: seq<int>): (r: Table)
    ensures |r| == |charges| && forall i :: 0 <= i < |r| ==> |r[i]| == |charges[i]|
    ensures forall i, j :: 0 <= i < |r| && 0 <= j < |r[i]| ==>
              r[i][j] == if j in ports then NO_CHARGE else charges[i][j]
  {
    seq(|charges|, i requires 0 <= i < |charges| =>
      seq(|charges[i]|, j requires 0 <= j < |charges[i]| => if j in ports then NO_CHARGE else charges[i][j]))
  }

  lemma WithoutMore(charges: Table, ports: seq<int>, port: int)
    ensures Without(charges, []) == charges
    ensures Without(Without(charges, ports), [port]) == Without(charges, ports + [port])
  {
    var a, b := Without(Without(charges, ports), [port]), Without(charges, ports + [port]);
    forall i | 0 <= i < |charges| ensures a[i] == b[i] && Without(charges, [])[i] == charges[i] {
    }
  }

  /** Where a hunt starts from: the tables, whether a port was ever set, and the active supplier. */
  datatype Situation = Situation(view: View, initialized: bool, supplier: int) {
    ghost predicate Shaped() {
      view.Shaped()
    }

    /** The tables once these ports have been refused. */
    function After(refused: seq<int>): View {
      view.(charges := Without(view.charges, refused))
    }

    /**
     * What the selection makes of the tables: the best choice, except that without a
     * usable battery the active port is kept, with its supplier unless it is best itself.
     */
    ghost predicate Chosen(refused: seq<int>, retain: bool, port: int, supplier_: int)
      requires Shaped()
    {
      var v := After(refused);
      if retain && v.active != CHARGE_PORT_NONE then
        && port == v.active
        && (v.Best(port, supplier_) || (supplier_ == supplier && !exists t :: v.Best(port, t)))
      else v.Best(port, supplier_)
    }

    /** The choice changes nothing. */
    predicate Unchanged(port: int, supplier_: int) {
      initialized && port == view.active && supplier_ == supplier
    }

    /** A choice the board is asked about and may refuse. */
    ghost predicate Proposed(refused: seq<int>, retain: bool, port: int)
      requires Shaped()
    {
      port != CHARGE_PORT_NONE && exists s :: Chosen(refused, retain, port, s) && !Unchanged(port, s)
    }

    /** These ports, in this order, were proposed and refused. */
    ghost predicate Refused(refused: seq<int>, retain: nat -> bool, board: nat -> bool)
      requires Shaped()
    {
      forall i :: 0 <= i < |refused| ==> !board(i) && Proposed(refused[..i], retain(i), refused[i])
    }

    /** After these refusals the hunt ends here: nothing to charge from, no change, or the board accepts. */
    ghost predicate Ends(refused: seq<int>, retain: nat -> bool, board: nat -> bool, port: int, supplier_: int)
      requires Shaped()
    {
      && Chosen(refused, retain(|refused|), port, supplier_)
      && (port == CHARGE_PORT_NONE || Unchanged(port, supplier_) || board(|refused|))
    }

    lemma ChosenIsUnique(refused: seq<int>, retain: bool, p: int, s: int, q: int, t: int)
      requires Shaped() && Chosen(refused, retain, p, s) && Chosen(refused, retain, q, t)
      ensures p == q && s == t
    {
    }

    lemma ProposedIsUnique(refused: seq<int>, retain: bool, p: int, q: int)
      requires Shaped() && Proposed(refused, retain, p) && Proposed(refused, retain, q)
      ensures p == q
    {
      var s :| Chosen(refused, retain, p, s);
      var t :| Chosen(refused, retain, q, t);
      ChosenIsUnique(refused, retain, p, s, q, t);
    }

    /** The answers of battery and board leave only one hunt. */
    lemma HuntIsDetermined(a: seq<int>, b: seq<int>, retain: nat -> bool, board: nat -> bool,
                           p: int, s: int, q: int, t: int)
      requires Shaped() && Refused(a, retain, board) && Refused(b, retain, board)
      requires Ends(a, retain, board, p, s) && Ends(b, retain, board, q, t)
      ensures a == b && p == q && s == t
    {
      if |a| <= |b| {
        OneEnd(a, b, retain, board, p, s);
      } else {
        OneEnd(b, a, retain, board, q, t);
      }
      ChosenIsUnique(a, retain(|a|), p, s, q, t);
    }

    /**
     * The hunt in words. Every port given up was refused; a port that is taken anew, or with
     * another supplier, was accepted; what is active and still the best is taken without
     * asking. A battery that cannot carry the system keeps the active port; otherwise the
     * result is the best of what the refused ports leave.
     */
    lemma HuntInWords(refused: seq<int>, retain: nat -> bool, board: nat -> bool, port: int, supplier_: int)
      requires Shaped() && Refused(refused, retain, board) && Ends(refused, retain, board, port, supplier_)
      ensures forall i :: 0 <= i < |refused| ==> !board(i)
      ensures port != -1 && !(initialized && port == view.active && supplier_ == supplier) ==> board(|refused|)
      ensures initialized && view.Best(view.active, supplier) ==>
        refused == [] && port == view.active && supplier_ == supplier
      ensures retain(|refused|) && view.active != -1 ==> port == view.active
      ensures !retain(|refused|) || view.active == -1 ==> After(refused).Best(port, supplier_)
    {
      if initialized && view.Best(view.active, supplier) {
        WithoutMore(view.charges, [], 0);
        assert After([]) == view;
        if refused != [] {
          RefusedAt(refused, retain, board, 0);
          assert refused[..0] == [];
          var s :| Chosen([], retain(0), refused[0], s) && !Unchanged(refused[0], s);
          BestIsUnique(view, view.active, supplier, refused[0], s);
          assert false;
        }
        BestIsUnique(view, view.active, supplier, port, supplier_);
      }
    }

    lemma RefusedAt(refused: seq<int>, retain: nat -> bool, board: nat -> bool, k: nat)
      requires Shaped() && Refused(refused, retain, board) && k < |refused|
      ensures !board(k) && Proposed(refused[..k], retain(k), refused[k])
    {
    }

    /** What the selection returns, given the best choice of the tables as they are. */
    lemma Selected(retain: bool, port: int, supplier_: int)
      requires Shaped() && view.Best(port, supplier_)
      ensures if retain && view.active != CHARGE_PORT_NONE && view.active != port
              then Chosen([], retain, view.active, supplier) else Chosen([], retain, port, supplier_)
    {
      WithoutMore(view.charges, [], 0);
      assert After([]) == view;
      forall t ensures view.Best(view.active, t) ==> view.active == port {
        if view.Best(view.active, t) { BestIsUnique(view, port, supplier_, view.active, t); }
      }
    }

    lemma NextSame(a: seq<int>, b: seq<int>, retain: nat -> bool, board: nat -> bool, k: nat)
      requires Shaped() && Refused(a, retain, board) && Refused(b, retain, board) && k < |a| && k < |b|
      ensures a[..k] == b[..k] ==> a[k] == b[k]
    {
      RefusedAt(a, retain, board, k);
      RefusedAt(b, retain, board, k);
      if a[..k] == b[..k] {
        ProposedIsUnique(a[..k], retain(k), a[k], b[k]);
      }
    }

    lemma OneEnd(a: seq<int>, b: seq<int>, retain: nat -> bool, board: nat -> bool, p: int, s: int)
      requires Shaped() && Refused(a, retain, board) && Refused(b, retain, board) && |a| <= |b|
      requires Ends(a, retain, board, p, s)
      ensures a == b
    {
      forall k: nat | k < |a| ensures a[..k] == b[..k] ==> a[k] == b[k] {
        NextSame(a, b, retain, board, k);
      }
      SamePrefix(a, b, |a|);
      assert a[..|a|] == a;
      if |a| < |b| {
        assert !board(|a|) && Proposed(b[..|a|], retain(|a|), b[|a|]);
        var t :| Chosen(a, retain(|a|), b[|a|], t) && !Unchanged(b[|a|], t);
        ChosenIsUnique(a, retain(|a|), p, s, b[|a|], t);
        assert false;
      }
      assert b[..|a|] == b;
    }
  }
}
