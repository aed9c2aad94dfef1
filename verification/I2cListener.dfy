// The I2C bus as its other end sees it: an automaton that decodes the two wires
// (section 3.1 of the I2C-bus specification, NXP UM10204) and a peripheral that
// answers on them.
module I2cListener {

  type Octet = x: int | 0 <= x < 256

  datatype Event =
    | Started
    | Byte(value: nat, acked: bool)
    | Stopped
    | Broken        // a START or STOP in the middle of a byte

  /** What the peripheral is doing: it listens to its address, receives, sends, or has let go of the bus. */
  datatype Phase = Quiet | Address | Receive | Send

  datatype Listener = Listener(
    scl: bool, sda: bool,        // the wires as last seen
    active: bool,                // between START and STOP
    bits: seq<bool>,             // the bits sampled of the current byte and its acknowledge
    phase: Phase,
    heard: nat, told: nat,       // bytes received from, and sent to, the controller
    events: seq<Event>)

  function Bit(b: bool): nat {
    if b then 1 else 0
  }

  /** Most significant bit first. */
  function Value(bits: seq<bool>): (v: nat)
    decreases |bits|
  {
    if bits == [] then 0 else 2 * Value(bits[..|bits| - 1]) + Bit(bits[|bits| - 1])
  }

  lemma ValueSnoc(bits: seq<bool>, b: bool)
    ensures Value(bits + [b]) == 2 * Value(bits) + Bit(b)
  {
    assert (bits + [b])[..|bits|] == bits;
  }

  lemma TwoMore(bits: seq<bool>, more: seq<bool>, v: nat)
    requires |more| == 2 && v == Value(bits)
    ensures Value(bits + more) == 4 * v + 2 * Bit(more[0]) + Bit(more[1])
  {
    ValueSnoc(bits, more[0]);
    ValueSnoc(bits + [more[0]], more[1]);
    assert bits + more == bits + [more[0]] + [more[1]];
  }

  lemma FourMore(bits: seq<bool>, more: seq<bool>, v: nat)
    requires |more| == 4 && v == Value(bits)
    ensures Value(bits + more) == 16 * v + 8 * Bit(more[0]) + 4 * Bit(more[1]) + 2 * Bit(more[2]) + Bit(more[3])
  {
    TwoMore(bits, more[..2], v);
    TwoMore(bits + more[..2], more[2..], Value(bits + more[..2]));
    assert bits + more == bits + more[..2] + more[2..];
  }

  /** A byte on the wires: its first bit counts 128, its last one. */
  lemma FirstBitCountsMost(s: seq<bool>)
    requires |s| == 8
    ensures Value(s) == 128 * Bit(s[0]) + 64 * Bit(s[1]) + 32 * Bit(s[2]) + 16 * Bit(s[3])
                        + 8 * Bit(s[4]) + 4 * Bit(s[5]) + 2 * Bit(s[6]) + Bit(s[7])
  {
    FourMore([], s[..4], 0);
    assert [] + s[..4] == s[..4] && s[..4] + s[4..] == s;
    FourMore(s[..4], s[4..], Value(s[..4]));
  }

  function NextPhase(p: Phase, value: nat, acked: bool): Phase {
    match p
    case Quiet => Quiet
    case Address => if !acked then Quiet else if value % 2 == 1 then Send else Receive
    case Receive => if acked then Receive else Quiet
    case Send => if acked then Send else Quiet
  }

  function AtCondition(l: Listener, e: Event): Listener {
    // the clock edge before a START or STOP samples one bit that belongs to no byte
    l.(active := e == Started, bits := [],
       phase := if e == Started then Address else Quiet,
       events := l.events + (if |l.bits| > 1 then [Broken] else []) + [e])
  }

  function Sample(l: Listener, bit: bool): Listener {
    if |l.bits| < 8 then l.(bits := l.bits + [bit])
    else
      l.(bits := [],
         phase := NextPhase(l.phase, Value(l.bits), !bit),
         heard := l.heard + (if l.phase == Address || l.phase == Receive then 1 else 0),
         told := l.told + (if l.phase == Send then 1 else 0),
         events := l.events + [Byte(Value(l.bits), !bit)])
  }

  /** New levels on the wires. */
  function Observe(l: Listener, scl: bool, sda: bool): Listener {
    var now := l.(scl := scl, sda := sda);
    if l.scl && scl && l.sda && !sda then AtCondition(now, Started)
    else if l.scl && scl && !l.sda && sda then AtCondition(now, Stopped)
    else if !l.scl && scl && l.active then Sample(now, sda)
    else now
  }

  /** One clock pulse with this bit on SDA. */
  function Pulse(l: Listener, bit: bool): Listener {
    Observe(Observe(Observe(l, false, l.sda), false, bit), true, bit)
  }

  function Pulses(l: Listener, bits: seq<bool>): Listener
    decreases |bits|
  {
    if bits == [] then l else Pulse(Pulses(l, bits[..|bits| - 1]), bits[|bits| - 1])
  }

  lemma {:induction false} BitsAreSampled(l: Listener, bits: seq<bool>)
    requires l.active && l.bits == [] && |bits| <= 8
    ensures var r := Pulses(l, bits); r == l.(scl := r.scl, sda := r.sda, bits := bits)
    decreases |bits|
  {
    if bits != [] {
      BitsAreSampled(l, bits[..|bits| - 1]);
      assert bits == bits[..|bits| - 1] + [bits[|bits| - 1]];
    }
  }

  /** Nine clock pulses are a byte, its first bit counting most, and an acknowledge, which is a low ninth bit. */
  lemma NinePulsesAreAByte(l: Listener, s: seq<bool>)
    requires l.active && l.bits == [] && |s| == 9
    ensures var r := Pulses(l, s);
            && r.bits == [] && r.active
            && r.events == l.events + [Byte(128 * Bit(s[0]) + 64 * Bit(s[1]) + 32 * Bit(s[2]) + 16 * Bit(s[3])
                                            + 8 * Bit(s[4]) + 4 * Bit(s[5]) + 2 * Bit(s[6]) + Bit(s[7]), !s[8])]
  {
    BitsAreSampled(l, s[..8]);
    FirstBitCountsMost(s[..8]);
  }

  /** SDA falling under a high clock is a START, rising a STOP; inside a byte either breaks it. Under a low clock neither happens. */
  lemma EdgesAreConditions(l: Listener, scl: bool, sda: bool)
    ensures var r := Observe(l, scl, sda);
            if l.scl && scl && l.sda != sda then
              && r.events == l.events + (if |l.bits| > 1 then [Broken] else []) + [if sda then Stopped else Started]
              && r.active == !sda && r.bits == []
            else l.scl || !scl ==> r == l.(scl := scl, sda := sda)
  {
  }

  function Pow2(k: nat): (p: nat)
    requires k <= 8
    ensures p > 0
  {
    match k
    case 0 => 1 case 1 => 2 case 2 => 4 case 3 => 8 case 4 => 16
    case 5 => 32 case 6 => 64 case 7 => 128 case 8 => 256
  }

  /** Bit i of a byte, bit 0 the least significant. */
  predicate BitOf(x: Octet, i: nat)
    requires i < 8
  {
    x / Pow2(i) % 2 == 1
  }

  lemma NextBitLow(x: Octet, i: nat)
    requires i < 4
    ensures x / Pow2(i) == 2 * (x / Pow2(i + 1)) + Bit(BitOf(x, i))
  {
    match i case 0 => case 1 => case 2 => case 3 =>
  }

  lemma NextBitHigh(x: Octet, i: nat)
    requires 4 <= i < 8
    ensures x / Pow2(i) == 2 * (x / Pow2(i + 1)) + Bit(BitOf(x, i))
  {
    match i case 4 => case 5 => case 6 => case 7 =>
  }

  lemma NextBit(x: Octet, i: nat)
    requires i < 8
    ensures x / Pow2(i) == 2 * (x / Pow2(i + 1)) + Bit(BitOf(x, i))
  {
    if i < 4 { NextBitLow(x, i); } else { NextBitHigh(x, i); }
  }

  /** One more bit of a byte d sent most significant bit first. */
  lemma NextValue(bits: seq<bool>, bit: bool, d: Octet, i: nat)
    requires |bits| == i < 8 && Value(bits) == d / Pow2(8 - i) && bit == BitOf(d, 7 - i)
    ensures Value(bits + [bit]) == d / Pow2(7 - i) == 2 * Value(bits) + Bit(bit)
  {
    NextBit(d, 7 - i);
    assert (bits + [bit])[..i] == bits;
  }

  /**
   * The level the peripheral puts on SDA while the clock is low (true lets go):
   * an acknowledge after eight received bits, or the next bit of the byte it sends.
   */
  function Drive(l: Listener, acks: nat -> bool, data: nat -> Octet): bool {
    match l.phase
    case Quiet => true
    case Address => |l.bits| == 8 ==> !acks(l.heard)
    case Receive => |l.bits| == 8 ==> !acks(l.heard)
    case Send => |l.bits| < 8 ==> BitOf(data(l.told), 7 - |l.bits|)
  }

  // ------------------------------------------------------- data validity

  datatype Wires = Wires(scl: bool, sda: bool)

  function ObserveAll(l: Listener, trace: seq<Wires>): Listener
    decreases |trace|
  {
    if trace == [] then l
    else
      var w := trace[|trace| - 1];
      Observe(ObserveAll(l, trace[..|trace| - 1]), w.scl, w.sda)
  }

  /** How often SDA changed while SCL stayed high. */
  function HighChanges(w: Wires, trace: seq<Wires>): nat
    decreases |trace|
  {
    if trace == [] then 0
    else
      var last := trace[|trace| - 1];
      var before := if |trace| == 1 then w else trace[|trace| - 2];
      HighChanges(w, trace[..|trace| - 1]) + (if before.scl && last.scl && before.sda != last.sda then 1 else 0)
  }

  function Conditions(events: seq<Event>): nat
    decreases |events|
  {
    if events == [] then 0
    else
      var last := events[|events| - 1];
      Conditions(events[..|events| - 1]) + (if last == Started || last == Stopped then 1 else 0)
  }

  lemma ConditionsAppend(events: seq<Event>, e: Event)
    ensures Conditions(events + [e]) == Conditions(events) + (if e == Started || e == Stopped then 1 else 0)
  {
    assert (events + [e])[..|events|] == events;
  }

  lemma ObserveCounts(l: Listener, scl: bool, sda: bool)
    ensures Conditions(Observe(l, scl, sda).events)
         == Conditions(l.events) + (if l.scl && scl && l.sda != sda then 1 else 0)
  {
    var r := Observe(l, scl, sda);
    if l.scl && scl && l.sda != sda {
      var e := if sda then Stopped else Started;
      var broken := l.events + (if |l.bits| > 1 then [Broken] else []);
      ConditionsAppend(l.events, Broken);
      assert l.events + [] == l.events;
      ConditionsAppend(broken, e);
    } else if r.events != l.events {
      ConditionsAppend(l.events, r.events[|l.events|]);
    }
  }

  /** On any trace, SDA changes under a high clock exactly at the decoded START and STOP conditions. */
  lemma {:induction false} ChangesAreConditions(l: Listener, trace: seq<Wires>)
    ensures var r := ObserveAll(l, trace);
            && Conditions(r.events) == Conditions(l.events) + HighChanges(Wires(l.scl, l.sda), trace)
            && Wires(r.scl, r.sda) == if trace == [] then Wires(l.scl, l.sda) else trace[|trace| - 1]
    decreases |trace|
  {
    if trace != [] {
      var init, last := trace[..|trace| - 1], trace[|trace| - 1];
      ChangesAreConditions(l, init);
      ObserveCounts(ObserveAll(l, init), last.scl, last.sda);
    }
  }

  lemma {:induction false} ConditionsConcat(a: seq<Event>, b: seq<Event>)
    ensures Conditions(a + b) == Conditions(a) + Conditions(b)
    decreases |b|
  {
    if b == [] {
      assert a + b == a;
    } else {
      var k := |b| - 1;
      ConditionsConcat(a, b[..k]);
      ConditionsAppend(a + b[..k], b[k]);
      ConditionsAppend(b[..k], b[k]);
      assert a + b == (a + b[..k]) + [b[k]] && b == b[..k] + [b[k]];
    }
  }

  lemma {:induction false} ObserveAllConcat(l: Listener, a: seq<Wires>, b: seq<Wires>)
    ensures ObserveAll(l, a + b) == ObserveAll(ObserveAll(l, a), b)
    decreases |b|
  {
    if b == [] {
      assert a + b == a;
    } else {
      assert (a + b)[..|a + b| - 1] == a + b[..|b| - 1];
      ObserveAllConcat(l, a, b[..|b| - 1]);
    }
  }

  /** Between two points of a trace, SDA changes under a high clock only at the conditions in between. */
  lemma ChangesBetween(l: Listener, before: seq<Wires>, segment: seq<Wires>, events: seq<Event>)
    requires ObserveAll(l, before + segment).events == ObserveAll(l, before).events + events
    ensures var from := ObserveAll(l, before);
            HighChanges(Wires(from.scl, from.sda), segment) == Conditions(events)
  {
    var from := ObserveAll(l, before);
    ObserveAllConcat(l, before, segment);
    ChangesAreConditions(from, segment);
    ConditionsConcat(from.events, events);
  }
}
