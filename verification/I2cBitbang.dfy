// The bit-banged I2C controller of common/i2c_bitbang.c on a two-wire open-drain
// bus.  Whatever the controller sets, the peripheral and the listener of
// I2cListener.dfy see the resulting wires.  The peripheral never stretches the
// clock; which bytes it acknowledges and what it sends are parameters.
module I2cBitbang {
  import opened I2cListener

  datatype Status = EcSuccess | EcErrorBusy | EcErrorUnknown

  /** Events of writing bytes until the peripheral refuses one; at is the index of its first acknowledge. */
  ghost function Written(bytes: seq<Octet>, acks: nat -> bool, at: nat): seq<Event> {
    if bytes == [] then []
    else if acks(at) then [Byte(bytes[0], true)] + Written(bytes[1..], acks, at + 1)
    else [Byte(bytes[0], false), Stopped]
  }

  ghost predicate AllAcked(n: nat, acks: nat -> bool, at: nat) {
    forall k :: at <= k < at + n ==> acks(k)
  }

  /** Events of reading n bytes, the last one refused by the controller exactly when nackLast. */
  ghost function Read(n: nat, data: nat -> Octet, at: nat, nackLast: bool): (r: seq<Event>)
    ensures |r| == n
  {
    seq(n, i requires 0 <= i < n => Byte(data(at + i), !(nackLast && i == n - 1)))
  }

  /** The address byte on the wire: seven bits and the direction; flag bits above them are dropped. */
  function AddressByte(addrFlags: nat, read: bool): Octet {
    2 * addrFlags % 256 + Bit(read)
  }

  /** START and an address byte, if the transfer asks for them; refused, the bus is released again. */
  ghost function SelectPart(start: bool, addr: Octet, acks: nat -> bool, heard: nat): (seq<Event>, bool) {
    if !start then ([], true)
    else if acks(heard) then ([Started, Byte(addr, true)], true)
    else ([Started, Byte(addr, false), Stopped], false)
  }

  /** The events of writing out, and whether the peripheral took everything. */
  ghost function WritePart(start: bool, addr: nat, out: seq<Octet>, acks: nat -> bool, heard: nat): (seq<Event>, bool) {
    var (select, found) := SelectPart(start, AddressByte(addr, false), acks, heard);
    var at := heard + Bit(start);
    if out == [] then ([], true)
    else if !found then (select, false)
    else (select + Written(out, acks, at), AllAcked(|out|, acks, at))
  }

  /** How many bytes the peripheral hears in a complete write. */
  function Heard(start: bool, out: seq<Octet>): nat {
    if out == [] then 0 else Bit(start) + |out|
  }

  /** The events of reading n bytes, and whether the peripheral answered to its address. */
  ghost function ReadPart(start: bool, stop: bool, addr: nat, n: nat,
                          acks: nat -> bool, data: nat -> Octet, heard: nat, told: nat): (seq<Event>, bool)
  {
    var (select, found) := SelectPart(start, AddressByte(addr, true), acks, heard);
    if n == 0 then ([], true)
    else if !found then (select, false)
    else (select + Read(n, data, told, stop), true)
  }

  /** Everything before the STOP, and the result. */
  ghost function BodyPart(start: bool, stop: bool, addr: nat, out: seq<Octet>, n: nat,
                          acks: nat -> bool, data: nat -> Octet, heard: nat, told: nat): (seq<Event>, bool)
  {
    var (writes, taken) := WritePart(start, addr, out, acks, heard);
    if !taken then (writes, false)
    else
      var (got, found) := ReadPart(start, stop, addr, n, acks, data, heard + Heard(start, out), told);
      (writes + got, found)
  }

  function Result(ok: bool): Status {
    if ok then EcSuccess else EcErrorBusy
  }

  /**
   * What a transfer finds: a free bus; an open transfer; one in which the peripheral holds
   * SDA low with the first bit of a byte; SDA held like that with no transfer open; the
   * clock low with no transfer open; or free wires in the middle of a byte.
   */
  datatype Line = Vacant | Ready | Held | Adrift | Dark | Loose

  /** What clocking out the rest of a byte d looks like on the bus, once its first two bits were low. */
  function Recovered(d: Octet): seq<Event> {
    [if d == 0 then Byte(0, false) else Broken, Started, Stopped]
  }

  /**
   * A whole transfer as the bus should decode it, and its result. A START that finds SDA
   * held low is lost, and the recovery frees the bus only if the next bit is low, too;
   * otherwise the clock stays low, and the next START is lost for that. A STOP that finds
   * SDA held low is reported but not made.
   */
  ghost function Transfer(start: bool, stop: bool, addr: nat, out: seq<Octet>, n: nat, acks: nat -> bool,
                          data: nat -> Octet, heard: nat, told: nat, line: Line): (seq<Event>, Status)
  {
    var bytes := |out| + n > 0;
    if start && bytes && line in {Held, Adrift} then
      (if BitOf(data(told), 6) then [] else Recovered(data(told)), EcErrorUnknown)
    else if start && bytes && line == Dark then ([], EcErrorUnknown)
    else
      var (events, ok) := BodyPart(start, stop, addr, out, n, acks, data, heard, told);
      (Breaking([], start && bytes, line) + events + (if ok && stop && (bytes || line == Ready) then [Stopped] else []), Result(ok))
  }

  /** A START in the middle of a byte is decoded, but it breaks the byte off. */
  function Breaking(events: seq<Event>, start: bool, line: Line): seq<Event> {
    if start && line == Loose then events + [Broken] else events
  }

  /**
   * A peripheral that takes every byte: a start-and-stop transfer is decoded as
   * START, address, the bytes out, repeated START, address with the read bit, the
   * bytes in (all but the last acknowledged), STOP - and nothing else.
   */
  lemma TransferDecodes(addr: nat, out: seq<Octet>, n: nat, acks: nat -> bool, data: nat -> Octet, heard: nat, told: nat)
    requires out != [] && n > 0 && AllAcked(|out| + 2, acks, heard)
    ensures Transfer(true, true, addr, out, n, acks, data, heard, told, Vacant)
         == ([Started, Byte(2 * addr % 256, true)]
             + seq(|out|, i requires 0 <= i < |out| => Byte(out[i], true))
             + [Started, Byte(2 * addr % 256 + 1, true)]
             + seq(n, i requires 0 <= i < n => Byte(data(told + i), i < n - 1))
             + [Stopped], EcSuccess)
  {
    WrittenAcked(out, acks, heard + 1);
    assert Written(out, acks, heard + 1) == seq(|out|, i requires 0 <= i < |out| => Byte(out[i], true));
    assert Read(n, data, told, true) == seq(n, i requires 0 <= i < n => Byte(data(told + i), i < n - 1));
    var (events, status) := Transfer(true, true, addr, out, n, acks, data, heard, told, Vacant);
    assert events == [Started, Byte(2 * addr % 256, true)]
                     + seq(|out|, i requires 0 <= i < |out| => Byte(out[i], true))
                     + [Started, Byte(2 * addr % 256 + 1, true)]
                     + seq(n, i requires 0 <= i < n => Byte(data(told + i), i < n - 1))
                     + [Stopped];
  }

  /** Bytes read from a peripheral, all but possibly the last one acknowledged. */
  function ReadEvents(data: nat -> Octet, told: nat, n: nat, lastAcked: bool): seq<Event> {
    seq(n, i requires 0 <= i < n => Byte(data(told + i), i < n - 1 || lastAcked))
  }

  /**
   * A read left open is continued as if it were one read: every byte is acknowledged but the
   * very last, whatever the first byte left on the wire.
   */
  lemma OpenReadContinues(addr: nat, m: nat, n: nat, acks: nat -> bool, data: nat -> Octet, heard: nat, told: nat, line: Line)
    requires m > 0 && n > 0 && acks(heard) && line in {Ready, Held}
    ensures Transfer(true, false, addr, [], m, acks, data, heard, told, Vacant)
         == ([Started, Byte(2 * addr % 256 + 1, true)] + ReadEvents(data, told, m, true), EcSuccess)
    ensures Transfer(false, true, addr, [], n, acks, data, heard + 1, told + m, line)
         == (ReadEvents(data, told + m, n, false) + [Stopped], EcSuccess)
    ensures ReadEvents(data, told, m, true) + ReadEvents(data, told + m, n, false) == ReadEvents(data, told, m + n, false)
  {
    assert Read(m, data, told, false) == ReadEvents(data, told, m, true);
    assert Read(n, data, told + m, true) == ReadEvents(data, told + m, n, false);
    var first := Transfer(true, false, addr, [], m, acks, data, heard, told, Vacant).0;
    assert first == [Started, Byte(2 * addr % 256 + 1, true)] + ReadEvents(data, told, m, true);
    var second := Transfer(false, true, addr, [], n, acks, data, heard + 1, told + m, line).0;
    assert second == ReadEvents(data, told + m, n, false) + [Stopped];
  }

  /** A write of bytes that are all taken, without its STOP, and what a STOP adds. */
  lemma TakenWrite(start: bool, stop: bool, addr: nat, out: seq<Octet>, acks: nat -> bool, data: nat -> Octet,
                   heard: nat, told: nat, line: Line, bytes: seq<Event>)
    requires out != [] && AllAcked(Bit(start) + |out|, acks, heard) && line == (if start then Vacant else Ready)
    requires bytes == seq(|out|, i requires 0 <= i < |out| => Byte(out[i], true))
    ensures Transfer(start, stop, addr, out, 0, acks, data, heard, told, line)
         == ((if start then [Started, Byte(2 * addr % 256, true)] + bytes else bytes) + (if stop then [Stopped] else []), EcSuccess)
  {
    WrittenAcked(out, acks, heard + Bit(start));
    assert Written(out, acks, heard + Bit(start)) == bytes;
    var write := if start then [Started, Byte(2 * addr % 256, true)] + bytes else bytes;
    assert [] + bytes == bytes;
    BodyOfBoth(start, stop, addr, out, 0, acks, data, heard, told, write, ([], true));
    var end: seq<Event> := if stop then [Stopped] else [];
    assert [] + (write + []) + end == write + end;
  }

  /** The same of a write left open. */
  lemma OpenWriteContinues(addr: nat, a: seq<Octet>, b: seq<Octet>, acks: nat -> bool, data: nat -> Octet, heard: nat, told: nat)
    requires a != [] && b != [] && AllAcked(1 + |a| + |b|, acks, heard)
    ensures Transfer(true, false, addr, a, 0, acks, data, heard, told, Vacant)
         == ([Started, Byte(2 * addr % 256, true)] + seq(|a|, i requires 0 <= i < |a| => Byte(a[i], true)), EcSuccess)
    ensures Transfer(false, true, addr, b, 0, acks, data, heard + 1 + |a|, told, Ready)
         == (seq(|b|, i requires 0 <= i < |b| => Byte(b[i], true)) + [Stopped], EcSuccess)
  {
    var first := seq(|a|, i requires 0 <= i < |a| => Byte(a[i], true));
    TakenWrite(true, false, addr, a, acks, data, heard, told, Vacant, first);
    PlusNothing([Started, Byte(2 * addr % 256, true)] + first, []);
    TakenWrite(false, true, addr, b, acks, data, heard + 1 + |a|, told, Ready,
               seq(|b|, i requires 0 <= i < |b| => Byte(b[i], true)));
  }

  /** The bytes of a write in order, the address first, taken by the peripheral but for number k. */
  function SentUpTo(addr: nat, out: seq<Octet>, k: nat): seq<Event>
    requires k <= |out|
  {
    seq(k + 1, i requires 0 <= i <= k => Byte(if i == 0 then 2 * addr % 256 else out[i - 1], i < k))
  }

  lemma {:induction false} WrittenRefused(out: seq<Octet>, k: nat, acks: nat -> bool, at: nat)
    requires k < |out| && AllAcked(k, acks, at) && !acks(at + k)
    ensures Written(out, acks, at) == seq(k + 1, i requires 0 <= i <= k => Byte(out[i], i < k)) + [Stopped]
    ensures !AllAcked(|out|, acks, at)
    decreases k
  {
    if k > 0 {
      WrittenRefused(out[1..], k - 1, acks, at + 1);
    }
  }

  /** A write whose byte number k is refused, the address being number 0, ends there with a STOP and an error. */
  lemma RefusedWriteStops(stop: bool, addr: nat, out: seq<Octet>, n: nat, acks: nat -> bool, data: nat -> Octet,
                          heard: nat, told: nat, k: nat)
    requires out != [] && k <= |out| && AllAcked(k, acks, heard) && !acks(heard + k)
    ensures Transfer(true, stop, addr, out, n, acks, data, heard, told, Vacant)
         == ([Started] + SentUpTo(addr, out, k) + [Stopped], EcErrorBusy)
  {
    var sent := SentUpTo(addr, out, k);
    if k > 0 {
      WrittenRefused(out, k - 1, acks, heard + 1);
      assert sent == [Byte(2 * addr % 256, true)] + seq(k, i requires 0 <= i < k => Byte(out[i], i < k - 1));
    } else {
      assert sent == [Byte(2 * addr % 256, false)];
    }
    assert Transfer(true, stop, addr, out, n, acks, data, heard, told, Vacant).0 == [Started] + sent + [Stopped];
  }

  /** A read whose address is refused, behind a write that was taken, ends there in the same way. */
  lemma RefusedReadStops(stop: bool, addr: nat, out: seq<Octet>, n: nat, acks: nat -> bool, data: nat -> Octet,
                         heard: nat, told: nat)
    requires out != [] && n > 0 && AllAcked(1 + |out|, acks, heard) && !acks(heard + 1 + |out|)
    ensures Transfer(true, stop, addr, out, n, acks, data, heard, told, Vacant)
         == ([Started, Byte(2 * addr % 256, true)] + seq(|out|, i requires 0 <= i < |out| => Byte(out[i], true))
             + [Started, Byte(2 * addr % 256 + 1, false), Stopped], EcErrorBusy)
  {
    WrittenAcked(out, acks, heard + 1);
    var bytes := seq(|out|, i requires 0 <= i < |out| => Byte(out[i], true));
    assert Written(out, acks, heard + 1) == bytes;
    var write := [Started, Byte(2 * addr % 256, true)] + bytes;
    var read: seq<Event> := [Started, Byte(2 * addr % 256 + 1, false), Stopped];
    assert WritePart(true, addr, out, acks, heard) == (write, true);
    assert ReadPart(true, stop, addr, n, acks, data, heard + 1 + |out|, told) == (read, false);
    BodyOfBoth(true, stop, addr, out, n, acks, data, heard, told, write, (read, false));
    assert [] + (write + read) + [] == write + read;
  }

  /**
   * The transfers that reach nobody. Without bytes there is at most a STOP. A START that finds
   * the bus wedged is lost: behind a clock held low nothing happens; a byte whose second bit is
   * high is left alone; any other one is clocked out and a START and a STOP follow, and it is
   * decoded only if it is zero.
   */
  lemma NobodyIsReached(start: bool, stop: bool, addr: nat, out: seq<Octet>, n: nat, acks: nat -> bool,
                        data: nat -> Octet, heard: nat, told: nat, line: Line)
    ensures var t := Transfer(start, stop, addr, out, n, acks, data, heard, told, line);
            && (|out| + n == 0 ==> t == (if stop && line == Ready then [Stopped] else [], EcSuccess))
            && (start && |out| + n > 0 && line == Dark ==> t == ([], EcErrorUnknown))
            && (start && |out| + n > 0 && line in {Held, Adrift} ==>
                  t == (if BitOf(data(told), 6) then [] else if data(told) == 0 then [Byte(0, false), Started, Stopped]
                        else [Broken, Started, Stopped], EcErrorUnknown))
  {
    if out == [] && n == 0 {
      NoBytes(start, stop, addr, acks, data, heard, told, line);
    }
  }

  /** A register number out and one byte in, without a STOP. */
  lemma LengthIsRead(addr: nat, reg: Octet, acks: nat -> bool, data: nat -> Octet, heard: nat, told: nat)
    requires AllAcked(3, acks, heard)
    ensures Transfer(true, false, addr, [reg], 1, acks, data, heard, told, Vacant)
         == ([Started, Byte(2 * addr % 256, true), Byte(reg, true),
              Started, Byte(2 * addr % 256 + 1, true), Byte(data(told), true)], EcSuccess)
  {
    WrittenAcked([reg], acks, heard + 1);
    assert Written([reg], acks, heard + 1) == [Byte(reg, true)];
    assert Read(1, data, told, false) == [Byte(data(told), true)];
    var events := Transfer(true, false, addr, [reg], 1, acks, data, heard, told, Vacant).0;
    assert events == [Started, Byte(2 * addr % 256, true), Byte(reg, true),
                      Started, Byte(2 * addr % 256 + 1, true), Byte(data(told), true)];
  }

  /** What follows: the block, the last byte of it refused, and a STOP - which an empty block may prevent. */
  lemma BlockIsRead(addr: nat, n: nat, acks: nat -> bool, data: nat -> Octet, heard: nat, told: nat, line: Line)
    requires line in {Ready, Held}
    ensures Transfer(false, true, addr, [], n, acks, data, heard, told, line)
         == (ReadEvents(data, told, n, false) + (if n > 0 || line == Ready then [Stopped] else []), EcSuccess)
  {
    assert Read(n, data, told, true) == ReadEvents(data, told, n, false);
    var events := Transfer(false, true, addr, [], n, acks, data, heard, told, line).0;
    assert events == ReadEvents(data, told, n, false) + (if n > 0 || line == Ready then [Stopped] else []);
  }

  lemma WritePartIsClean(start: bool, addr: nat, out: seq<Octet>, acks: nat -> bool, heard: nat)
    ensures Broken !in WritePart(start, addr, out, acks, heard).0
  {
    WrittenIsClean(out, acks, heard + Bit(start));
  }

  lemma ReadPartIsClean(start: bool, stop: bool, addr: nat, n: nat,
                        acks: nat -> bool, data: nat -> Octet, heard: nat, told: nat)
    ensures Broken !in ReadPart(start, stop, addr, n, acks, data, heard, told).0
  {
    assert Broken !in Read(n, data, told, stop);
  }

  /**
   * When a START or STOP falls into the middle of a byte: exactly when a START is asked for
   * that finds the wires free there, or that finds the peripheral holding SDA low with the
   * first bit of a byte whose second bit is low and that is not zero.
   */
  lemma BrokenExactly(start: bool, stop: bool, addr: nat, out: seq<Octet>, n: nat, acks: nat -> bool,
                      data: nat -> Octet, heard: nat, told: nat, line: Line)
    ensures Broken in Transfer(start, stop, addr, out, n, acks, data, heard, told, line).0 <==>
            && start && |out| + n > 0
            && (line == Loose || (line in {Held, Adrift} && !BitOf(data(told), 6) && data(told) != 0))
  {
    WritePartIsClean(start, addr, out, acks, heard);
    ReadPartIsClean(start, stop, addr, n, acks, data, heard + Heard(start, out), told);
  }

  lemma {:induction false} WrittenIsClean(bytes: seq<Octet>, acks: nat -> bool, at: nat)
    ensures Broken !in Written(bytes, acks, at)
  {
    if bytes != [] && acks(at) {
      WrittenIsClean(bytes[1..], acks, at + 1);
    }
  }

  lemma {:induction false} BytesAreNoConditions(events: seq<Event>)
    requires forall i :: 0 <= i < |events| ==> events[i].Byte?
    ensures Conditions(events) == 0
    decreases |events|
  {
    if events != [] {
      BytesAreNoConditions(events[..|events| - 1]);
    }
  }

  /** The acknowledged start-and-stop transfer changes SDA under a high clock three times. */
  lemma ThreeConditions(addr: nat, out: seq<Octet>, n: nat, acks: nat -> bool, data: nat -> Octet, heard: nat, told: nat)
    requires out != [] && n > 0 && AllAcked(|out| + 2, acks, heard)
    ensures Conditions(Transfer(true, true, addr, out, n, acks, data, heard, told, Vacant).0) == 3
  {
    TransferDecodes(addr, out, n, acks, data, heard, told);
    CountThree(Byte(2 * addr % 256, true), seq(|out|, i requires 0 <= i < |out| => Byte(out[i], true)),
               Byte(2 * addr % 256 + 1, true), seq(n, i requires 0 <= i < n => Byte(data(told + i), i < n - 1)));
  }

  lemma CountThree(a: Event, u: seq<Event>, b: Event, v: seq<Event>)
    requires a.Byte? && b.Byte?
    requires (forall i :: 0 <= i < |u| ==> u[i].Byte?) && forall i :: 0 <= i < |v| ==> v[i].Byte?
    ensures Conditions([Started, a] + u + [Started, b] + v + [Stopped]) == 3
  {
    BytesAreNoConditions(u);
    BytesAreNoConditions(v);
    ConditionsConcat([Started, a], u);
    ConditionsConcat([Started, a] + u, [Started, b]);
    ConditionsConcat([Started, a] + u + [Started, b], v);
    ConditionsConcat([Started, a] + u + [Started, b] + v, [Stopped]);
    StartedByte(a);
    StartedByte(b);
  }

  lemma StartedByte(a: Event)
    requires a.Byte?
    ensures Conditions([Started, a]) == 1 && Conditions([Stopped]) == 1
  {
    ConditionsAppend([], Started);
    ConditionsAppend([], Stopped);
    ConditionsAppend([Started], a);
    assert [] + [Started] == [Started] && [] + [Stopped] == [Stopped] && [Started] + [a] == [Started, a];
  }

  /** One more event of a list of them. */
  lemma NextRead(before: seq<Event>, now: seq<Event>, all: seq<Event>, i: nat)
    requires i < |all| && now == before + all[..i]
    ensures now + [all[i]] == before + all[..i + 1]
  {
  }

  /** The first bit of a byte, alone. */
  lemma FirstBits(d: Octet)
    ensures !BitOf(d, 7) ==> Value([false]) == 0 == d / Pow2(7)
  {
    NextBit(d, 7);
    assert Value([]) == 0 && [false][..0] == [];
  }

  lemma WriteJoins(before: seq<Event>, between: seq<Event>, after: seq<Event>, start: bool, addr: nat, out: seq<Octet>,
                   acks: nat -> bool, heard: nat)
    requires out != [] && SelectPart(start, AddressByte(addr, false), acks, heard).1
    requires between == before + SelectPart(start, AddressByte(addr, false), acks, heard).0
    requires after == between + Written(out, acks, heard + Bit(start))
    ensures var part := WritePart(start, addr, out, acks, heard);
            after == before + part.0 && part.1 == AllAcked(|out|, acks, heard + Bit(start))
  {
    Assoc(before, SelectPart(start, AddressByte(addr, false), acks, heard).0, Written(out, acks, heard + Bit(start)));
  }

  lemma ReadFails(start: bool, stop: bool, addr: nat, n: nat, acks: nat -> bool, data: nat -> Octet, heard: nat, told: nat)
    requires n > 0 && !SelectPart(start, AddressByte(addr, true), acks, heard).1
    ensures ReadPart(start, stop, addr, n, acks, data, heard, told)
         == (SelectPart(start, AddressByte(addr, true), acks, heard).0, false)
  {
  }

  lemma ReadJoins(before: seq<Event>, between: seq<Event>, after: seq<Event>, start: bool, stop: bool, addr: nat, n: nat,
                  acks: nat -> bool, data: nat -> Octet, heard: nat, told: nat)
    requires n > 0 && SelectPart(start, AddressByte(addr, true), acks, heard).1
    requires between == before + SelectPart(start, AddressByte(addr, true), acks, heard).0
    requires after == between + Read(n, data, told, stop)
    ensures var part := ReadPart(start, stop, addr, n, acks, data, heard, told); after == before + part.0 && part.1
  {
    Assoc(before, SelectPart(start, AddressByte(addr, true), acks, heard).0, Read(n, data, told, stop));
  }

  /** The events of a body whose bytes are not all taken. */
  lemma WriteFails(start: bool, stop: bool, addr: nat, out: seq<Octet>, n: nat, acks: nat -> bool,
                   data: nat -> Octet, heard: nat, told: nat)
    requires !WritePart(start, addr, out, acks, heard).1
    ensures BodyPart(start, stop, addr, out, n, acks, data, heard, told) == WritePart(start, addr, out, acks, heard)
  {
  }

  /** A transfer without bytes. */
  lemma NoBytes(start: bool, stop: bool, addr: nat, acks: nat -> bool, data: nat -> Octet, heard: nat, told: nat, line: Line)
    ensures Transfer(start, stop, addr, [], 0, acks, data, heard, told, line)
         == (if stop && line == Ready then [Stopped] else [], EcSuccess)
  {
    var end: seq<Event> := if stop && line == Ready then [Stopped] else [];
    assert [] + ([] + []) + end == end;
  }

  /** A transfer of some bytes whose START is not lost: its body, and a STOP if it is to end. */
  lemma WithBytes(before: seq<Event>, between: seq<Event>, after: seq<Event>, start: bool, stop: bool, addr: nat,
                  out: seq<Octet>, n: nat, acks: nat -> bool, data: nat -> Octet, heard: nat, told: nat, line: Line)
    requires |out| + n > 0 && !(start && line in {Held, Adrift, Dark})
    requires var (events, ok) := BodyPart(start, stop, addr, out, n, acks, data, heard, told);
             between == Breaking(before, start, line) + events && after == between + if ok && stop then [Stopped] else []
    ensures var (events, ok) := BodyPart(start, stop, addr, out, n, acks, data, heard, told);
            (after, Result(ok)) == (before + Transfer(start, stop, addr, out, n, acks, data, heard, told, line).0,
                                    Transfer(start, stop, addr, out, n, acks, data, heard, told, line).1)
  {
    var (events, ok) := BodyPart(start, stop, addr, out, n, acks, data, heard, told);
    var end := if ok && stop then [Stopped] else [];
    var gap := Breaking([], start, line);
    assert Breaking(before, start, line) == before + gap;
    Assoc(before, gap, events);
    Assoc(before, gap + events, end);
  }

  lemma RecoveredIs(before: seq<Event>, between: seq<Event>, after: seq<Event>, d: Octet)
    requires between == if d == 0 then before + [Byte(0, false)] else before
    requires after == between + (if d == 0 then [] else [Broken]) + [Started] + [Stopped]
    ensures after == before + Recovered(d)
  {
  }

  lemma Assoc(a: seq<Event>, b: seq<Event>, c: seq<Event>)
    ensures (a + b) + c == a + (b + c)
  {
  }

  lemma PlusNothing(a: seq<Event>, b: seq<Event>)
    ensures b == [] ==> a + b == a
  {
  }

  lemma BodyOfBoth(start: bool, stop: bool, addr: nat, out: seq<Octet>, n: nat, acks: nat -> bool, data: nat -> Octet,
                   heard: nat, told: nat, write: seq<Event>, read: (seq<Event>, bool))
    requires WritePart(start, addr, out, acks, heard) == (write, true)
    requires read == ReadPart(start, stop, addr, n, acks, data, heard + Heard(start, out), told)
    ensures BodyPart(start, stop, addr, out, n, acks, data, heard, told) == (write + read.0, read.1)
    ensures (out == [] ==> write == []) && (n == 0 ==> read.0 == [])
  {
  }

  /** The events of a body are those of its two halves, seen from the log before it. */
  lemma HalvesJoin(before: seq<Event>, between: seq<Event>, after: seq<Event>, start: bool, stop: bool, addr: nat,
                   out: seq<Octet>, n: nat, acks: nat -> bool, data: nat -> Octet, heard: nat, told: nat, read: (seq<Event>, bool))
    requires read == ReadPart(start, stop, addr, n, acks, data, heard + Heard(start, out), told)
    requires WritePart(start, addr, out, acks, heard).1
    requires between == if out == [] then before else before + WritePart(start, addr, out, acks, heard).0
    requires after == if n == 0 then between else between + read.0
    ensures var body := BodyPart(start, stop, addr, out, n, acks, data, heard, told);
            after == before + body.0 && body.1 == read.1
  {
    var write := WritePart(start, addr, out, acks, heard).0;
    BodyOfBoth(start, stop, addr, out, n, acks, data, heard, told, write, read);
    PlusNothing(before, write);
    PlusNothing(between, read.0);
    Assoc(before, write, read.0);
  }

  lemma {:induction false} WrittenAcked(bytes: seq<Octet>, acks: nat -> bool, at: nat)
    requires AllAcked(|bytes|, acks, at)
    ensures |Written(bytes, acks, at)| == |bytes|
    ensures forall i :: 0 <= i < |bytes| ==> Written(bytes, acks, at)[i] == Byte(bytes[i], true)
  {
    if bytes != [] {
      WrittenAcked(bytes[1..], acks, at + 1);
    }
  }

  /** After bytes that were all taken, writing goes on. */
  lemma {:induction false} WrittenJoin(a: seq<Octet>, b: seq<Octet>, acks: nat -> bool, at: nat)
    requires AllAcked(|a|, acks, at)
    ensures Written(a + b, acks, at) == Written(a, acks, at) + Written(b, acks, at + |a|)
  {
    if a == [] {
      assert a + b == b;
    } else {
      assert (a + b)[1..] == a[1..] + b;
      WrittenJoin(a[1..], b, acks, at + 1);
    }
  }

  /** Nothing is written after the first byte refused. */
  lemma {:induction false} WrittenStops(bytes: seq<Octet>, rest: seq<Octet>, acks: nat -> bool, at: nat)
    requires !AllAcked(|bytes|, acks, at)
    ensures Written(bytes + rest, acks, at) == Written(bytes, acks, at)
  {
    assert (bytes + rest)[1..] == bytes[1..] + rest;
    if acks(at) {
      WrittenStops(bytes[1..], rest, acks, at + 1);
    }
  }

  class Port {
    const acks: nat -> bool       // does the peripheral acknowledge the k-th byte it receives?
    const data: nat -> Octet      // the k-th byte it sends
    var started: bool
    var scl: bool                 // levels the controller drives; true lets the wire go
    var sda: bool
    var pull: bool                // level the peripheral drives on SDA
    var bus: Listener
    ghost const initial: Listener
    ghost var trace: seq<Wires>

    constructor (acks: nat -> bool, data: nat -> Octet)
      ensures Idle() && bus.events == [] && this.acks == acks && this.data == data
      ensures bus.heard == bus.told == 0
    {
      this.acks, this.data := acks, data;
      started, scl, sda, pull := false, true, true, true;
      bus := Listener(true, true, false, [], Quiet, 0, 0, []);
      initial, trace := Listener(true, true, false, [], Quiet, 0, 0, []), [];
    }

    ghost predicate Wired()
      reads this
    {
      && bus.scl == scl && bus.sda == (sda && pull)
      && ObserveAll(initial, trace) == bus
    }

    /** The bus is free. */
    ghost predicate Idle()
      reads this
    {
      Wired() && !started && scl && sda && pull && !bus.active && bus.bits == [] && bus.phase == Quiet
    }

    /** A transfer is open, the clock is low, and k bits of the current byte are done. */
    ghost predicate Open(k: nat)
      reads this
    {
      Wired() && started && !scl && bus.active && |bus.bits| == k && pull == Drive(bus, acks, data)
    }

    /** A peripheral that sends holds SDA low with the first bit of its next byte. */
    ghost predicate HoldsLow(was: Listener) {
      was.active && was.phase == Send && was.bits == [] && !BitOf(data(was.told), 7)
    }

    /** A condition was tried with SDA held low: that bit is sampled, and no transfer is open. */
    ghost predicate Cut()
      reads this
    {
      Wired() && !started && sda && bus.bits == [false] && HoldsLow(bus.(bits := []))
    }

    ghost predicate IsAdrift()
      reads this
    {
      Cut() && scl && !pull
    }

    ghost predicate IsDark()
      reads this
    {
      Cut() && !scl && pull && BitOf(data(bus.told), 6)
    }

    ghost predicate IsLoose()
      reads this
    {
      Wired() && !started && scl && sda && pull && bus.active && |bus.bits| > 1
    }

    /** What a transfer finds. */
    ghost function OnLine(): Line
      reads this`started, this`pull, this`bus, this`scl
    {
      if started then (if pull then Ready else Held)
      else if !bus.active then Vacant else if !scl then Dark else if pull then Loose else Adrift
    }

    /** Between transfers. */
    ghost predicate Between()
      reads this
    {
      Idle() || Open(0) || IsAdrift() || IsDark() || IsLoose()
    }

    /** Nothing new has been decoded. */
    ghost predicate Silent(was: Listener)
      reads this
    {
      bus.events == was.events && bus.heard == was.heard && bus.told == was.told
    }

    // -------------------------------------------------------------- pins

    method Settle()
      requires ObserveAll(initial, trace) == bus
      modifies this`bus, this`trace
      ensures old(trace) <= trace
      ensures bus == Observe(old(bus), scl, sda && pull) && ObserveAll(initial, trace) == bus
    {
      trace := trace + [Wires(scl, sda && pull)];
      assert trace[..|trace| - 1] == old(trace);
      bus := Observe(bus, scl, sda && pull);
    }

    method SetSda(level: bool)
      requires Wired()
      modifies this`sda, this`bus, this`trace
      ensures old(trace) <= trace
      ensures Wired() && sda == level && bus == Observe(old(bus), scl, level && pull)
    {
      sda := level;
      Settle();
    }

    /** When the clock goes low the peripheral takes its turn on SDA. */
    method SetScl(level: bool)
      requires Wired()
      modifies this`scl, this`pull, this`bus, this`trace
      ensures old(trace) <= trace
      ensures Wired() && scl == level
      ensures var edge := Observe(old(bus), level, sda && old(pull));
              if level then pull == old(pull) && bus == edge
              else pull == Drive(edge, acks, data) && bus == Observe(edge, false, sda && pull)
    {
      scl := level;
      Settle();
      if !level {
        pull := Drive(bus, acks, data);
        Settle();
      }
    }

    method GetSda() returns (level: bool)
      ensures level == (sda && pull)
    {
      level := sda && pull;
    }

    method GetScl() returns (level: bool)
      ensures level == scl
    {
      level := scl;
    }

    // -------------------------------------------------------- conditions

    /** A peripheral that holds SDA low keeps the STOP from happening, and its bit is sampled. */
    method StopCond()
      requires !started || Open(0)
      modifies this
      ensures old(trace) <= trace
      ensures !started
      ensures if !old(started) then bus == old(bus) && scl == old(scl) && sda == old(sda) && pull == old(pull) && trace == old(trace)
              else if old(pull) then Idle() && bus == old(bus).(scl := true, sda := true, active := false, bits := [],
                                       phase := Quiet, events := old(bus).events + [Stopped])
              else IsAdrift() && Silent(old(bus))
    {
      if !started { return; }
      SetSda(false);
      SetScl(true);
      SetSda(true);
      started := false;
    }

    /** clock_stretching: the clock is up as soon as the controller lets it go. */
    method ClockStretching() returns (err: Status)
      requires scl
      ensures err == EcSuccess
    {
      var level := GetScl();
      return if level then EcSuccess else EcErrorUnknown;
    }

    /** A START now is lost. */
    ghost predicate WillLose(start: bool)
      reads this
    {
      start && OnLine() in {Held, Adrift, Dark}
    }

    /** And what that leaves. */
    ghost predicate HasLost(was: Listener, line: Line, err: Status)
      reads this
    {
      err == EcErrorUnknown && Silent(was) && if line == Dark then IsDark() else IsAdrift()
    }

    method StartCond() returns (err: Status)
      requires Between()
      modifies this
      ensures old(trace) <= trace
      ensures if old(WillLose(true)) then HasLost(old(bus), old(OnLine()), err)
              else err == EcSuccess && Open(0) && bus.phase == Address
                   && bus.heard == old(bus.heard) && bus.told == old(bus.told)
                   && bus.events == Breaking(old(bus.events), true, old(OnLine())) + [Started]
    {
      if started {
        SetSda(true);
        SetScl(true);
        err := ClockStretching();
        if err != EcSuccess { return; }
        var level := GetSda();
        if !level {
          started := false;
          return EcErrorUnknown;
        }
      }
      var clock := GetScl();
      var level := GetSda();
      if !clock || !level { return EcErrorUnknown; }
      SetSda(false);
      SetScl(false);
      started := true;
      err := EcSuccess;
    }

    // -------------------------------------------------------------- bits

    method WriteBit(bit: bool) returns (err: Status)
      requires exists k :: Open(k)
      modifies this
      ensures old(trace) <= trace
      ensures if bit && !old(pull) then err == EcErrorUnknown && !started
              else err == EcSuccess && started && Wired() && !scl && sda == bit && pull == Drive(bus, acks, data)
                   && bus == Sample(old(bus), bit && old(pull)).(scl := false, sda := bit && pull)
    {
      SetSda(bit);
      SetScl(true);
      err := ClockStretching();
      if err != EcSuccess { return; }
      if bit {
        var level := GetSda();
        if !level {
          started := false;
          return EcErrorUnknown;
        }
      }
      SetScl(false);
    }

    method ReadBit() returns (err: Status, bit: bool)
      requires exists k :: Open(k)
      modifies this
      ensures old(trace) <= trace
      ensures err == EcSuccess && bit == old(pull) && started && Wired() && !scl && sda && pull == Drive(bus, acks, data)
      ensures bus == Sample(old(bus), bit).(scl := false, sda := pull)
    {
      SetSda(true);
      SetScl(true);
      err := ClockStretching();
      if err != EcSuccess { return err, true; }
      bit := GetSda();
      SetScl(false);
    }

    // ------------------------------------------------------------- bytes

    method WriteByte(byte: Octet) returns (err: Status)
      requires Open(0) && (bus.phase == Address || bus.phase == Receive)
      modifies this
      ensures old(trace) <= trace
      ensures bus.heard == old(bus.heard) + 1 && bus.told == old(bus.told)
      ensures if acks(old(bus.heard)) then
                && err == EcSuccess && Open(0) && bus.phase == NextPhase(old(bus.phase), byte, true)
                && bus.events == old(bus.events) + [Byte(byte, true)]
              else
                && err == EcErrorBusy && Idle()
                && bus.events == old(bus.events) + [Byte(byte, false), Stopped]
    {
      var i := 7;
      while i >= 0
        invariant -1 <= i <= 7 && old(trace) <= trace
        invariant Open((7 - i) as nat) && Value(bus.bits) == byte / Pow2((i + 1) as nat)
        invariant bus == old(bus).(scl := false, sda := bus.sda, bits := bus.bits)
      {
        ghost var bits := bus.bits;
        err := WriteBit(BitOf(byte, i));
        if err != EcSuccess { return; }
        NextValue(bits, BitOf(byte, i), byte, 7 - i);
        i := i - 1;
      }
      var nack;
      err, nack := ReadBit();
      if err != EcSuccess { return; }
      if nack {
        StopCond();
        return EcErrorBusy;
      }
      return EcSuccess;
    }

    method ReadByte(nack: bool) returns (err: Status, byte: nat)
      requires Open(0) && bus.phase == Send
      modifies this
      ensures old(trace) <= trace
      ensures err == EcSuccess && byte == data(old(bus.told)) && Open(0)
      ensures bus.phase == NextPhase(Send, byte, !nack)
      ensures bus.told == old(bus.told) + 1 && bus.heard == old(bus.heard)
      ensures bus.events == old(bus.events) + [Byte(byte, !nack)]
    {
      byte := 0;
      ghost var d := data(bus.told);
      for i := 0 to 8
        invariant old(trace) <= trace
        invariant Open(i) && byte == Value(bus.bits) == d / Pow2(8 - i)
        invariant bus == old(bus).(scl := false, sda := bus.sda, bits := bus.bits)
      {
        ghost var bits := bus.bits;
        var bit;
        err, bit := ReadBit();
        if err != EcSuccess { return; }
        NextValue(bits, bit, d, i);
        byte := 2 * byte + Bit(bit);
      }
      err := WriteBit(nack);
    }

    /** The byte loop of a write. */
    method WriteBytes(out: seq<Octet>) returns (err: Status)
      requires Open(0) && bus.phase == Receive
      modifies this
      ensures old(trace) <= trace
      ensures bus.events == old(bus.events) + Written(out, acks, old(bus.heard))
      ensures bus.told == old(bus.told)
      ensures if AllAcked(|out|, acks, old(bus.heard)) then
                err == EcSuccess && Open(0) && bus.phase == Receive && bus.heard == old(bus.heard) + |out|
              else err == EcErrorBusy && Idle()
    {
      for i := 0 to |out|
        invariant old(trace) <= trace
        invariant Open(0) && bus.phase == Receive && AllAcked(i, acks, old(bus.heard))
        invariant bus.heard == old(bus.heard) + i && bus.told == old(bus.told)
        invariant bus.events == old(bus.events) + Written(out[..i], acks, old(bus.heard))
      {
        WrittenJoin(out[..i], [out[i]], acks, old(bus.heard));
        assert out[..i + 1] == out[..i] + [out[i]];
        assert !acks(bus.heard) ==> !AllAcked(i + 1, acks, old(bus.heard));
        err := WriteByte(out[i]);
        if err != EcSuccess {
          WrittenStops(out[..i + 1], out[i + 1..], acks, old(bus.heard));
          assert out == out[..i + 1] + out[i + 1..];
          return;
        }
      }
      assert out[..|out|] == out;
      err := EcSuccess;
    }

    /** The caller's buffer holds what the peripheral has sent since. */
    ghost predicate Received(input: array<nat>, told: nat)
      reads input
    {
      forall i :: 0 <= i < input.Length ==> input[i] == data(told + i)
    }

    /** The byte loop of a read; every byte but the last is acknowledged, the last unless stop. */
    method ReadBytes(input: array<nat>, stop: bool) returns (err: Status)
      requires Open(0) && (input.Length > 0 ==> bus.phase == Send)
      modifies this, input
      ensures old(trace) <= trace
      ensures err == EcSuccess && Open(0) && (stop && input.Length > 0 ==> pull)
      ensures bus.told == old(bus.told) + input.Length && bus.heard == old(bus.heard)
      ensures input.Length > 0 && !stop ==> bus.phase == Send
      ensures bus.events == old(bus.events) + Read(input.Length, data, old(bus.told), stop)
      ensures Received(input, old(bus.told))
      ensures input.Length == 0 ==> bus == old(bus) && pull == old(pull)
    {
      ghost var all := Read(input.Length, data, old(bus.told), stop);
      for i := 0 to input.Length
        invariant old(trace) <= trace
        invariant Open(0) && bus.told == old(bus.told) + i && bus.heard == old(bus.heard)
        invariant i < input.Length || (!stop && i > 0) ==> bus.phase == Send
        invariant stop && i == input.Length > 0 ==> pull
        invariant bus.events == old(bus.events) + all[..i]
        invariant forall j :: 0 <= j < i ==> input[j] == data(old(bus.told) + j)
        invariant input.Length == 0 ==> bus == old(bus) && pull == old(pull)
      {
        var byte;
        NextRead(old(bus.events), bus.events, all, i);
        err, byte := ReadByte(stop && i == input.Length - 1);
        input[i] := byte;
        if err != EcSuccess { return; }
      }
      err := EcSuccess;
    }

    /**
     * What a caller may ask for next: a transfer with START at any time; one without
     * continues a write with bytes out or a read with bytes in.
     */
    ghost predicate Allowed(start: bool, outSize: nat, inSize: nat)
      reads this
    {
      if start || (outSize == 0 && inSize == 0) then Between()
      else if outSize > 0 then inSize == 0 && Open(0) && bus.phase == Receive
      else Open(0) && bus.phase == Send
    }

    /** START and the address byte, when the transfer has them. */
    method Select(start: bool, addr: Octet) returns (err: Status)
      requires if start then Between() else Open(0)
      modifies this
      ensures old(trace) <= trace
      ensures old(WillLose(start)) ==> HasLost(old(bus), old(OnLine()), err)
      ensures !old(WillLose(start)) ==>
        && bus.events == Breaking(old(bus.events), start, old(OnLine())) + SelectPart(start, addr, acks, old(bus.heard)).0
        && bus.told == old(bus.told) && bus.heard == old(bus.heard) + Bit(start)
        && err == Result(SelectPart(start, addr, acks, old(bus.heard)).1)
        && if err != EcSuccess then Idle()
           else Open(0)
                && (start ==> bus.phase == if addr % 2 == 1 then Send else Receive)
                && (!start ==> bus == old(bus) && pull == old(pull))
    {
      err := EcSuccess;
      if start {
        err := StartCond();
        if err != EcSuccess { return; }
        err := WriteByte(addr);
      }
    }

    /** Up to nine clocks, until the peripheral lets SDA go; none if it has with the clock low. */
    method ClockOut(ghost was: Listener)
      requires HoldsLow(was) && Wired() && !started && !scl && sda && pull == BitOf(data(was.told), 6)
      requires bus == was.(scl := false, sda := pull, bits := [false])
      modifies this
      ensures old(trace) <= trace
      ensures Wired() && !started && sda && pull
      ensures if BitOf(data(was.told), 6) then IsDark() && Silent(was)
              else scl && bus.active
                   && if data(was.told) == 0 then bus.bits == [] && bus.events == was.events + [Byte(0, false)]
                      else |bus.bits| > 1 && bus.events == was.events
    {
      ghost var d := data(was.told);
      FirstBits(d);
      var j := 0;
      while j < 9
        invariant old(trace) <= trace && j <= 9
        invariant Wired() && !started && sda
        invariant j == 0 ==> !scl && pull == BitOf(d, 6) && bus == was.(scl := false, sda := pull, bits := [false])
        invariant j > 0 ==> scl && bus.active && !BitOf(d, 6)
        invariant j > 0 && !pull ==>
          && j <= 7 && bus == was.(scl := true, sda := false, bits := bus.bits)
          && |bus.bits| == 1 + j && Value(bus.bits) == 0 == d / Pow2(7 - j)
        invariant j > 0 && pull ==>
          if d == 0 then bus.bits == [] && bus.events == was.events + [Byte(0, false)]
          else |bus.bits| > 1 && bus.events == was.events
      {
        var level := GetSda();
        if level { break; }
        ghost var bits := bus.bits;
        SetScl(false);
        ghost var bit := pull;
        SetScl(true);
        if j < 7 {
          NextValue(bits, bit, d, 1 + j);
        }
        j := j + 1;
      }
    }

    /** One attempt to free the bus: clock it out, then a START and a STOP if the clock is high. */
    method Attempt()
      requires IsAdrift() || IsDark()
      modifies this
      ensures old(trace) <= trace
      ensures if BitOf(data(old(bus.told)), 6) then IsDark() && Silent(old(bus))
              else Idle() && bus.events == old(bus.events) + Recovered(data(old(bus.told)))
    {
      ghost var was := bus.(bits := []);
      SetScl(false);
      ClockOut(was);
      ghost var events := bus.events;
      SetSda(false);
      SetSda(true);
      if !BitOf(data(was.told), 6) {
        RecoveredIs(was.events, events, bus.events, data(was.told));
      }
    }

    /**
     * i2c_bitbang_unwedge. On a free bus it finds nothing to do. With SDA held low it
     * clocks out what the peripheral sends and frees the bus - unless the second bit of
     * that byte is high: then it takes the wires for free with the clock low, and leaves
     * it there. A clock that is low it lets go.
     */
    method Unwedge()
      requires Idle() || IsAdrift() || IsDark()
      modifies this
      ensures old(trace) <= trace
      ensures old(Idle()) ==> Idle() && bus == old(bus)
      ensures old(IsDark()) ==> IsLoose() && Silent(old(bus))
      ensures old(IsAdrift()) ==>
        if BitOf(data(old(bus.told)), 6) then IsDark() && Silent(old(bus))
        else Idle() && bus.events == old(bus.events) + Recovered(data(old(bus.told)))
    {
      SetScl(true);
      var level := GetSda();
      if level { return; }
      var i := 0;
      while i < 3
        invariant old(trace) <= trace && i <= 3
        invariant if i == 0 then IsAdrift() else IsDark() && BitOf(data(old(bus.told)), 6)
        invariant Silent(old(bus))
      {
        Attempt();
        level := GetSda();
        var clock := GetScl();
        if level && clock { break; }
        i := i + 1;
      }
    }

    /**
     * How far a transfer has moved on: the peripheral has heard the bytes out and an address
     * for each START, it has told the bytes in, and if the transfer is left open it goes on
     * sending after a read and listening after a write.
     */
    ghost predicate Moved(was: Listener, start: bool, outSize: nat, inSize: nat, stop: bool)
      reads this`bus
    {
      && bus.told == was.told + inSize
      && bus.heard == was.heard + outSize + (if start then Bit(outSize > 0) + Bit(inSize > 0) else 0)
      && (!stop && outSize + inSize > 0 ==> bus.phase == if inSize > 0 then Send else Receive)
    }

    method WriteOut(start: bool, addrFlags: nat, out: seq<Octet>) returns (err: Status)
      requires out != [] && if start then Between() else Open(0) && bus.phase == Receive
      modifies this
      ensures old(trace) <= trace
      ensures old(WillLose(start)) ==> HasLost(old(bus), old(OnLine()), err)
      ensures !old(WillLose(start)) ==>
        var part := WritePart(start, addrFlags, out, acks, old(bus.heard));
        && bus.events == Breaking(old(bus.events), start, old(OnLine())) + part.0
        && err == Result(part.1) && bus.told == old(bus.told)
        && if err == EcSuccess then
             Open(0) && bus.phase == Receive && bus.heard == old(bus.heard) + Heard(start, out)
           else Idle()
    {
      ghost var before, lost, heard := Breaking(bus.events, start, OnLine()), WillLose(start), bus.heard;
      err := Select(start, AddressByte(addrFlags, false));
      if err != EcSuccess {
        return;
      }
      ghost var between := bus.events;
      err := WriteBytes(out);
      WriteJoins(before, between, bus.events, start, addrFlags, out, acks, heard);
    }

    method ReadIn(start: bool, addrFlags: nat, input: array<nat>, stop: bool) returns (err: Status)
      requires input.Length > 0
      requires if start then Between() else Open(0) && bus.phase == Send
      modifies this, input
      ensures old(trace) <= trace
      ensures old(WillLose(start)) ==> HasLost(old(bus), old(OnLine()), err)
      ensures !old(WillLose(start)) ==>
        var part := ReadPart(start, stop, addrFlags, input.Length, acks, data, old(bus.heard), old(bus.told));
        && bus.events == Breaking(old(bus.events), start, old(OnLine())) + part.0 && err == Result(part.1)
        && if err == EcSuccess then Open(0) && (stop ==> pull) else Idle()
      ensures err == EcSuccess ==> Received(input, old(bus.told)) && Moved(old(bus), start, 0, input.Length, stop)
    {
      ghost var before, lost := Breaking(bus.events, start, OnLine()), WillLose(start);
      ghost var heard, told := bus.heard, bus.told;
      err := Select(start, AddressByte(addrFlags, true));
      if err != EcSuccess {
        if !lost {
          ReadFails(start, stop, addrFlags, input.Length, acks, data, heard, told);
        }
        return;
      }
      ghost var between := bus.events;
      err := ReadBytes(input, stop);
      ReadJoins(before, between, bus.events, start, stop, addrFlags, input.Length, acks, data, heard, told);
    }

    /** The first half of a transfer, if there are bytes to write. */
    method WriteHalf(addrFlags: nat, out: seq<Octet>, inSize: nat, start: bool) returns (err: Status)
      requires Allowed(start, |out|, inSize)
      modifies this
      ensures old(trace) <= trace
      ensures |out| == 0 ==> err == EcSuccess && unchanged(this)
      ensures old(WillLose(start)) && |out| > 0 ==> HasLost(old(bus), old(OnLine()), err)
      ensures !old(WillLose(start)) && |out| > 0 ==>
        var part := WritePart(start, addrFlags, out, acks, old(bus.heard));
        && bus.events == Breaking(old(bus.events), start, old(OnLine())) + part.0
        && err == Result(part.1) && bus.told == old(bus.told)
        && if err != EcSuccess then Idle()
           else bus.heard == old(bus.heard) + Heard(start, out) && Allowed(start, 0, inSize)
                && Open(0) && pull && bus.phase == Receive
    {
      err := EcSuccess;
      if |out| > 0 {
        err := WriteOut(start, addrFlags, out);
      }
    }

    /** The second half, if there are bytes to read. */
    method ReadHalf(addrFlags: nat, input: array<nat>, start: bool, stop: bool) returns (err: Status)
      requires Allowed(start, 0, input.Length)
      modifies this, input
      ensures old(trace) <= trace
      ensures input.Length == 0 ==> err == EcSuccess && unchanged(this)
      ensures old(WillLose(start)) && input.Length > 0 ==> HasLost(old(bus), old(OnLine()), err)
      ensures !old(WillLose(start)) && input.Length > 0 ==>
        var part := ReadPart(start, stop, addrFlags, input.Length, acks, data, old(bus.heard), old(bus.told));
        && bus.events == Breaking(old(bus.events), start, old(OnLine())) + part.0 && err == Result(part.1)
        && if err != EcSuccess then Idle() else Open(0) && (stop ==> pull)
      ensures err == EcSuccess ==> Received(input, old(bus.told)) && Moved(old(bus), start, 0, input.Length, stop)
    {
      err := EcSuccess;
      if input.Length > 0 {
        err := ReadIn(start, addrFlags, input, stop);
      }
    }

    /** The two halves of a transfer. */
    method Body(addrFlags: nat, out: seq<Octet>, input: array<nat>, start: bool, stop: bool) returns (err: Status)
      requires Allowed(start, |out|, input.Length)
      modifies this, input
      ensures old(trace) <= trace
      ensures |out| + input.Length == 0 ==> err == EcSuccess && unchanged(this)
      ensures old(WillLose(start)) && |out| + input.Length > 0 ==> HasLost(old(bus), old(OnLine()), err)
      ensures !old(WillLose(start)) && |out| + input.Length > 0 ==>
        var part := BodyPart(start, stop, addrFlags, out, input.Length, acks, data, old(bus.heard), old(bus.told));
        && bus.events == Breaking(old(bus.events), start, old(OnLine())) + part.0 && err == Result(part.1)
        && if err != EcSuccess then Idle() else Open(0) && (stop ==> pull)
      ensures err == EcSuccess ==> Received(input, old(bus.told)) && Moved(old(bus), start, |out|, input.Length, stop)
    {
      ghost var before, lost := Breaking(bus.events, start, OnLine()), WillLose(start);
      ghost var heard, told := bus.heard, bus.told;
      err := WriteHalf(addrFlags, out, input.Length, start);
      if err != EcSuccess {
        if !lost {
          WriteFails(start, stop, addrFlags, out, input.Length, acks, data, heard, told);
        }
        return;
      }
      ghost var between := if out == [] then before else bus.events;
      assert out != [] ==> OnLine() == Ready && Breaking(between, start, OnLine()) == between;
      err := ReadHalf(addrFlags, input, start, stop);
      if |out| + input.Length > 0 && (out != [] || !lost) {
        HalvesJoin(before, between, bus.events, start, stop, addrFlags, out, input.Length, acks, data, heard, told,
                   ReadPart(start, stop, addrFlags, input.Length, acks, data, heard + Heard(start, out), told));
      }
    }

    /**
     * i2c_bitbang_xfer. The listener decodes the transfer, and SDA has changed under a high
     * clock only at the STARTs and STOPs of that transfer. However it ends, another
     * transfer with START may follow.
     */
    method Xfer(addrFlags: nat, out: seq<Octet>, input: array<nat>, start: bool, stop: bool) returns (err: Status)
      requires Allowed(start, |out|, input.Length)
      modifies this, input
      ensures old(trace) <= trace
      ensures var (events, status) := Transfer(start, stop, addrFlags, out, input.Length, acks, data,
                                               old(bus.heard), old(bus.told), old(OnLine()));
              bus.events == old(bus.events) + events && err == status
      ensures err == EcSuccess ==> Received(input, old(bus.told)) && Moved(old(bus), start, |out|, input.Length, stop)
      ensures HighChanges(old(Wires(bus.scl, bus.sda)), trace[|old(trace)|..])
           == Conditions(Transfer(start, stop, addrFlags, out, input.Length, acks, data,
                                  old(bus.heard), old(bus.told), old(OnLine())).0)
      ensures Between() && Left(old(bus), old(OnLine()), stop, |out| + input.Length, err)
    {
      err := Conduct(addrFlags, out, input, start, stop);
      ghost var events := Transfer(start, stop, addrFlags, out, input.Length, acks, data,
                                   old(bus.heard), old(bus.told), old(OnLine())).0;
      assert trace == old(trace) + trace[|old(trace)|..];
      ChangesBetween(initial, old(trace), trace[|old(trace)|..], events);
    }

    /**
     * How a transfer leaves the bus: free after a STOP or an error, open otherwise - but
     * with the clock low after a lost START if the peripheral's second bit is high, in the
     * middle of a byte after the next one, and with SDA held low after a STOP that could
     * not be made.
     */
    ghost predicate Left(was: Listener, line: Line, stop: bool, bytes: nat, err: Status)
      reads this
    {
      if err == EcErrorUnknown then
        if line == Dark then IsLoose() else if BitOf(data(was.told), 6) then IsDark() else Idle()
      else if err != EcSuccess then Idle()
      else if bytes > 0 then (if stop then Idle() else Open(0))
      else if stop && line == Ready then Idle()
      else if stop && line == Held then IsAdrift()
      else Between() && OnLine() == line && Silent(was)
    }

    /** The transfer itself. */
    method Conduct(addrFlags: nat, out: seq<Octet>, input: array<nat>, start: bool, stop: bool) returns (err: Status)
      requires Allowed(start, |out|, input.Length)
      modifies this, input
      ensures Wired() && old(trace) <= trace
      ensures var (events, status) := Transfer(start, stop, addrFlags, out, input.Length, acks, data,
                                               old(bus.heard), old(bus.told), old(OnLine()));
              bus.events == old(bus.events) + events && err == status
      ensures err == EcSuccess ==> Received(input, old(bus.told)) && Moved(old(bus), start, |out|, input.Length, stop)
      ensures Left(old(bus), old(OnLine()), stop, |out| + input.Length, err)
    {
      ghost var lost, bytes := WillLose(start), |out| + input.Length;
      err := Body(addrFlags, out, input, start, stop);
      ghost var between := bus.events;
      if err == EcSuccess && stop {
        StopCond();
      }
      if err != EcSuccess {
        Unwedge();
        started := false;
      }
      if bytes == 0 {
        NoBytes(start, stop, addrFlags, acks, data, old(bus.heard), old(bus.told), old(OnLine()));
      } else if !lost {
        WithBytes(old(bus.events), between, bus.events, start, stop, addrFlags, out, input.Length, acks, data,
                  old(bus.heard), old(bus.told), old(OnLine()));
      }
    }

    /** The length of a block, with the bus left open. */
    method ReadLength(addrFlags: nat, reg: Octet) returns (err: Status, length: nat)
      requires Idle() && AllAcked(3, acks, bus.heard)
      modifies this
      ensures err == EcSuccess && length == data(old(bus.told)) && Open(0) && bus.phase == Send
      ensures bus.told == old(bus.told) + 1
      ensures bus.events == old(bus.events)
              + [Started, Byte(2 * addrFlags % 256, true), Byte(reg, true),
                 Started, Byte(2 * addrFlags % 256 + 1, true), Byte(data(old(bus.told)), true)]
    {
      var input := new nat[1];
      LengthIsRead(addrFlags, reg, acks, data, bus.heard, bus.told);
      err := Xfer(addrFlags, [reg], input, true, false);
      length := input[0];
    }

    /** The rest of a read left open, and a STOP. */
    method ReadRest(addrFlags: nat, n: nat) returns (err: Status, block: array<nat>)
      requires Open(0) && bus.phase == Send
      modifies this
      ensures err == EcSuccess && fresh(block) && block.Length == n && Received(block, old(bus.told))
      ensures bus.told == old(bus.told) + n
      ensures var stopped := n > 0 || BitOf(data(old(bus.told)), 7);
              && bus.events == old(bus.events) + (ReadEvents(data, old(bus.told), n, false) + (if stopped then [Stopped] else []))
              && if stopped then Idle() else IsAdrift()
    {
      block := new nat[n];
      BlockIsRead(addrFlags, n, acks, data, bus.heard, bus.told, OnLine());
      err := Xfer(addrFlags, [], block, false, true);
    }

    /**
     * One attempt of i2c_read_sized_block: the length, and then no more of the block than
     * there is room for. With a peripheral that takes the three bytes sent to it the
     * messages on the bus are the block read; but a block of length zero, behind which the
     * peripheral goes on with a low bit, is reported without its STOP.
     */
    method ReadSizedBlock(addrFlags: nat, reg: Octet, room: nat) returns (err: Status, block: array<nat>)
      requires Idle() && AllAcked(3, acks, bus.heard)
      modifies this
      ensures err == EcSuccess && fresh(block)
      ensures block.Length == (if data(old(bus.told)) > room then room else data(old(bus.told)))
      ensures Received(block, old(bus.told) + 1) && bus.told == old(bus.told) + 1 + block.Length
      ensures var told, stopped := old(bus.told), block.Length > 0 || BitOf(data(old(bus.told) + 1), 7);
              && bus.events == old(bus.events)
                 + [Started, Byte(2 * addrFlags % 256, true), Byte(reg, true),
                    Started, Byte(2 * addrFlags % 256 + 1, true), Byte(data(told), true)]
                 + (ReadEvents(data, told + 1, block.Length, false) + (if stopped then [Stopped] else []))
              && if stopped then Idle() else IsAdrift()
    {
      var length;
      err, length := ReadLength(addrFlags, reg);
      err, block := ReadRest(addrFlags, if length > room then room else length);
    }
  }
}
