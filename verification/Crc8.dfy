// The CRC-8 of common/crc8.c: the shift register as the firmware runs it, the
// byte-wise function it computes, and what that function never misses.
module Crc8 {

  /** One shift of the eight-bit register with polynomial x^8 + x^2 + x + 1. */
  function Shift(x: bv8): bv8 {
    if x & 0x80 != 0 then (x << 1) ^ 0x07 else x << 1
  }

  function Shifts(x: bv8, n: nat): bv8 {
    if n == 0 then x else Shift(Shifts(x, n - 1))
  }

  /** A register taken through a byte string by one step per byte. */
  function Fold(step: (bv8, bv8) -> bv8, data: seq<bv8>, previous: bv8): bv8
    decreases |data|
  {
    if data == [] then previous else step(data[|data| - 1], Fold(step, data[..|data| - 1], previous))
  }

  /** Add a byte to the register and shift it out. */
  function Step(byte: bv8, register: bv8): bv8 {
    Shifts(byte ^ register, 8)
  }

  /** The CRC of a byte string on top of a previous CRC. */
  function Crc(data: seq<bv8>, previous: bv8): bv8 {
    Fold((byte, register) => Step(byte, register), data, previous)
  }

  method CrosCrc8Arg(data: seq<bv8>, previous: bv8) returns (r: bv8)
    ensures r == Crc(data, previous)
  {
    var crc: bv32 := previous as bv32 << 8;
    ghost var value := previous;      // the register's high byte
    for j := 0 to |data|
      invariant value == Crc(data[..j], previous) && crc == value as bv32 << 8
    {
      assert data[..j + 1][..j] == data[..j];
      crc := crc ^ (data[j] as bv32 << 8);
      ghost var x := data[j] ^ value;
      value := x;
      for i := 0 to 8
        invariant value == Shifts(x, i) && crc == value as bv32 << 8
      {
        if crc & 0x8000 != 0 {
          crc := crc ^ (0x1070 << 3);
        }
        crc := crc << 1;
        value := Shift(value);
      }
    }
    assert data[..|data|] == data;
    r := (crc >> 8) as bv8;
  }

  lemma {:induction false} ShiftsInjective(x: bv8, y: bv8, n: nat)
    requires Shifts(x, n) == Shifts(y, n)
    ensures x == y
  {
    if n > 0 {
      ShiftsInjective(x, y, n - 1);
    }
  }

  lemma XorInjective(a: bv8, b: bv8, c: bv8, d: bv8)
    requires a ^ c == b ^ d
    ensures a == b <==> c == d
  {
  }

  lemma StepInjective(x: bv8, y: bv8, c: bv8, d: bv8)
    requires (x == y) != (c == d)
    ensures Step(x, c) != Step(y, d)
  {
    if Step(x, c) == Step(y, d) {
      ShiftsInjective(x ^ c, y ^ d, 8);
      XorInjective(x, y, c, d);
    }
  }

  /** One change in the byte or in the register changes the next register. */
  ghost predicate Separates(step: (bv8, bv8) -> bv8, x: bv8, y: bv8, c: bv8, d: bv8) {
    (x == y) != (c == d) ==> step(x, c) != step(y, d)
  }

  lemma {:induction false} OneByteChangesFold(step: (bv8, bv8) -> bv8, a: seq<bv8>, b: seq<bv8>, k: nat, previous: bv8)
    requires forall x, y, c, d :: Separates(step, x, y, c, d)
    requires |a| == |b| && k < |a| && a[k] != b[k]
    requires forall i :: 0 <= i < |a| && i != k ==> a[i] == b[i]
    ensures Fold(step, a, previous) != Fold(step, b, previous)
    decreases |a|
  {
    var m := |a| - 1;
    if k == m {
      assert a[..m] == b[..m];
    } else {
      OneByteChangesFold(step, a[..m], b[..m], k, previous);
    }
    assert Separates(step, a[m], b[m], Fold(step, a[..m], previous), Fold(step, b[..m], previous));
  }

  /** Two byte strings that differ in one place have different CRCs. */
  lemma OneByteChangesCrc(a: seq<bv8>, b: seq<bv8>, k: nat, previous: bv8)
    requires |a| == |b| && k < |a| && a[k] != b[k]
    requires forall i :: 0 <= i < |a| && i != k ==> a[i] == b[i]
    ensures Crc(a, previous) != Crc(b, previous)
  {
    var step := (byte: bv8, register: bv8) => Step(byte, register);
    forall x, y, c, d
      ensures Separates(step, x, y, c, d)
    {
      if (x == y) != (c == d) { StepInjective(x, y, c, d); }
    }
    OneByteChangesFold(step, a, b, k, previous);
  }
}
