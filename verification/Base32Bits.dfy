// The bit arithmetic under common/base32.c: symbols of five bits cut out of
// bytes and put back, and the CRC-5 of a group of symbols.
module Base32Bits {

  type Octet = bv8
  type Sym = s: bv8 | s < 32

  function Shl(x: bv16, k: nat): bv16
    requires k < 8
  {
    match k
    case 0 => x case 1 => x << 1 case 2 => x << 2 case 3 => x << 3
    case 4 => x << 4 case 5 => x << 5 case 6 => x << 6 case 7 => x << 7
  }

  function Shr(x: bv16, k: nat): bv16
    requires k < 8
  {
    match k
    case 0 => x case 1 => x >> 1 case 2 => x >> 2 case 3 => x >> 3
    case 4 => x >> 4 case 5 => x >> 5 case 6 => x >> 6 case 7 => x >> 7
  }

  function Low(x: bv16): Octet {
    (x & 0xff) as bv8
  }

  /** Bit i of a byte, bit 0 the most significant. */
  predicate ByteBit(b: Octet, i: nat)
    requires i < 8
  {
    match i
    case 0 => b & 0x80 != 0 case 1 => b & 0x40 != 0 case 2 => b & 0x20 != 0 case 3 => b & 0x10 != 0
    case 4 => b & 0x08 != 0 case 5 => b & 0x04 != 0 case 6 => b & 0x02 != 0 case 7 => b & 0x01 != 0
  }

  /** Bit j of a symbol, bit 0 the most significant. */
  predicate SymBit(s: Octet, j: nat)
    requires j < 5
  {
    ByteBit(s, j + 3)
  }

  /** The first bit of a byte counts 128, the last one 1; of a symbol 16 and 1. */
  lemma FirstBitIsHighest(b: Octet, s: Sym)
    ensures b == (if ByteBit(b, 0) then 128 else 0) + (if ByteBit(b, 1) then 64 else 0) + (if ByteBit(b, 2) then 32 else 0)
               + (if ByteBit(b, 3) then 16 else 0) + (if ByteBit(b, 4) then 8 else 0) + (if ByteBit(b, 5) then 4 else 0)
               + (if ByteBit(b, 6) then 2 else 0) + (if ByteBit(b, 7) then 1 else 0)
    ensures s == (if SymBit(s, 0) then 16 else 0) + (if SymBit(s, 1) then 8 else 0) + (if SymBit(s, 2) then 4 else 0)
               + (if SymBit(s, 3) then 2 else 0) + (if SymBit(s, 4) then 1 else 0)
  {
  }

  /** Bit i of two bytes read one after the other. */
  predicate PairBit(b0: Octet, b1: Octet, i: nat)
    requires i < 16
  {
    if i < 8 then ByteBit(b0, i) else ByteBit(b1, i - 8)
  }

  function Min(a: nat, b: nat): nat {
    if a < b then a else b
  }

  // ------------------------------------------------------------ encoding

  /** The encoder's expression for the symbol at a bit offset in a byte, with left source bits to go. */
  function CutSymbol(b0: Octet, b1: Octet, offs: nat, left: nat): Octet
    requires offs < 8 && left > 0
  {
    var raw: bv16 :=
      if offs <= 3 then Shr(b0 as bv16, 3 - offs)
      else Shl(b0 as bv16, offs - 3) | (if left > 1 then Shr(b1 as bv16, 11 - offs) else 0);
    var sym := raw & 0x1f;
    Low(if left < 5 then sym & Shl(0x1f, 5 - left) else sym)
  }

  ghost predicate IsCut(s: Octet, b0: Octet, b1: Octet, offs: nat, left: nat)
    requires offs < 8
  {
    && s < 32
    && SymBit(s, 0) == (0 < left && PairBit(b0, b1, offs))
    && SymBit(s, 1) == (1 < left && PairBit(b0, b1, offs + 1))
    && SymBit(s, 2) == (2 < left && PairBit(b0, b1, offs + 2))
    && SymBit(s, 3) == (3 < left && PairBit(b0, b1, offs + 3))
    && SymBit(s, 4) == (4 < left && PairBit(b0, b1, offs + 4))
  }

  /** It holds the next five bits, those past the end as zero. */
  lemma CutSymbolBits(b0: Octet, b1: Octet, offs: nat, left: nat)
    requires offs < 8 && left > 0
    ensures IsCut(CutSymbol(b0, b1, offs, left), b0, b1, offs, left)
  {
    match offs
    case 0 => case 1 => case 2 => case 3 => case 4 => case 5 => case 6 => case 7 =>
  }

  // ------------------------------------------------------------ decoding

  /** What the decoder's first store adds behind r bits: k bits, already shifted down to those k bits. */
  function Part(sym: Octet, r: nat, k: nat): Octet
    requires r < 8 && 0 < k <= 5
  {
    var dbits := 8 - r;
    var b := Min(dbits, k);
    Low(Shr(Shl(sym as bv16, dbits - b), k - b))
  }

  /** The byte after the first store; a byte being started is cleared first. */
  function PackFirst(byte: Octet, sym: Octet, r: nat, k: nat): Octet
    requires r < 8 && 0 < k <= 5
  {
    (if r == 0 then 0 else byte) | Part(sym, r, k)
  }

  /** The second store: the k bits left over start the next byte. */
  function PackSecond(sym: Octet, k: nat): Octet
    requires 0 < k < 5
  {
    Low(Shl(sym as bv16, 8 - k))
  }

  /** The first k bits of a symbol. */
  function Mask(sym: Sym, k: nat): bv16
    requires 0 < k <= 5
  {
    sym as bv16 & (match k case 1 => 0x10 case 2 => 0x18 case 3 => 0x1c case 4 => 0x1e case 5 => 0x1f)
  }

  /** A symbol laid across two bytes from bit r on. */
  function Window(m: bv16, r: nat): bv16
    requires r < 8
  {
    Shr(m << 11, r)
  }

  function High(x: bv16): Octet {
    (x >> 8) as bv8
  }

  lemma PartLow(sym: Sym, r: nat, k: nat)
    requires r < 4 && 0 < k <= 5
    ensures Part(Low(Shr(sym as bv16, 5 - k)), r, k) == High(Window(Mask(sym, k), r))
  {
    match r case 0 => case 1 => case 2 => case 3 =>
  }

  lemma PartHigh(sym: Sym, r: nat, k: nat)
    requires 4 <= r < 8 && 0 < k <= 5
    ensures Part(Low(Shr(sym as bv16, 5 - k)), r, k) == High(Window(Mask(sym, k), r))
  {
    match r case 4 => case 5 => case 6 => case 7 =>
  }

  lemma MaskBits(sym: Sym, k: nat)
    requires 0 < k <= 5
    ensures var m := Low(Mask(sym, k));
            m < 32 && Mask(sym, k) == m as bv16 && forall j :: 0 <= j < 5 ==> SymBit(m, j) == (j < k && SymBit(sym, j))
  {
    match k case 1 => case 2 => case 3 => case 4 => case 5 =>
  }

  predicate WindowBit(m: Sym, r: nat, i: nat) {
    r <= i < r + 5 && SymBit(m, i - r)
  }

  /** Bit i after the first store. */
  lemma PackedBit(byte: Octet, part: Octet, sym: Sym, r: nat, k: nat, i: nat)
    requires r < 8 && 0 < k <= 5 && i < 8
    requires r > 0 && i >= r ==> !ByteBit(byte, i)
    requires part == Part(Low(Shr(sym as bv16, 5 - k)), r, k)
    ensures ByteBit((if r == 0 then 0 else byte) | part, i)
         == if i < r then ByteBit(byte, i) else i < r + k && SymBit(sym, i - r)
  {
    var m := Low(Mask(sym, k));
    PartIsWindow(part, sym, m, r, k);
    WindowBitOf(part, Low(Window(m as bv16, r)), sym, m, r, k, i);
  }

  lemma PartIsWindow(part: Octet, sym: Sym, m: Sym, r: nat, k: nat)
    requires r < 8 && 0 < k <= 5
    requires m == Low(Mask(sym, k)) && part == Part(Low(Shr(sym as bv16, 5 - k)), r, k)
    ensures part == High(Window(m as bv16, r))
  {
    if r < 4 { PartLow(sym, r, k); } else { PartHigh(sym, r, k); }
    MaskBits(sym, k);
  }

  lemma WindowBitOf(high: Octet, low: Octet, sym: Sym, m: Sym, r: nat, k: nat, i: nat)
    requires r < 8 && 0 < k <= 5 && i < 8
    requires m == Low(Mask(sym, k)) && high == High(Window(m as bv16, r)) && low == Low(Window(m as bv16, r))
    ensures ByteBit(high, i) == WindowBit(m, r, i) && ByteBit(low, i) == WindowBit(m, r, 8 + i)
    ensures forall j :: 0 <= j < 5 ==> SymBit(m, j) == (j < k && SymBit(sym, j))
  {
    MaskBits(sym, k);
    match i case 0 => case 1 => case 2 => case 3 => case 4 => case 5 => case 6 => case 7 =>
  }

  /** Both stores together append the first k bits of the symbol to the r bits the byte held, then zeros. */
  lemma PackBits(byte: Octet, first: Octet, second: Octet, sym: Sym, r: nat, k: nat)
    requires r < 8 && 0 < k <= 5
    requires r > 0 ==> forall i :: r <= i < 8 ==> !ByteBit(byte, i)
    requires first == PackFirst(byte, Low(Shr(sym as bv16, 5 - k)), r, k)
    requires 8 - r < k ==> second == PackSecond(Low(Shr(sym as bv16, 5 - k)), k - (8 - r))
    ensures forall i :: 0 <= i < 8 ==>
              ByteBit(first, i) == if i < r then ByteBit(byte, i) else i < r + k && SymBit(sym, i - r)
    ensures 8 - r < k ==>
              forall i :: 0 <= i < 8 ==> ByteBit(second, i) == (8 - r + i < k && SymBit(sym, 8 - r + i))
  {
    forall i | 0 <= i < 8
      ensures ByteBit(first, i) == if i < r then ByteBit(byte, i) else i < r + k && SymBit(sym, i - r)
    {
      PackedBit(byte, Part(Low(Shr(sym as bv16, 5 - k)), r, k), sym, r, k, i);
    }
    if 8 - r < k {
      SecondBits(second, sym, r, k);
    }
  }

  lemma SecondBits(second: Octet, sym: Sym, r: nat, k: nat)
    requires r < 8 && 0 < k <= 5 && 8 - r < k
    requires second == PackSecond(Low(Shr(sym as bv16, 5 - k)), k - (8 - r))
    ensures forall i :: 0 <= i < 8 ==> ByteBit(second, i) == (8 - r + i < k && SymBit(sym, 8 - r + i))
  {
    var m := Low(Mask(sym, k));
    MaskBits(sym, k);
    forall i | 0 <= i < 8
      ensures ByteBit(second, i) == (8 - r + i < k && SymBit(sym, 8 - r + i))
    {
      WindowBitOf(High(Window(m as bv16, r)), second, sym, m, r, k, i);
    }
  }

  // ----------------------------------------------------------------- CRC

  const CRC5_TABLE1: seq<bv8> := [0x00, 0x0E, 0x1C, 0x12, 0x11, 0x1F, 0x0D, 0x03,
                                  0x0B, 0x05, 0x17, 0x19, 0x1A, 0x14, 0x06, 0x08]
  const CRC5_TABLE0: seq<bv8> := [0x00, 0x16, 0x05, 0x13, 0x0A, 0x1C, 0x0F, 0x19,
                                  0x14, 0x02, 0x11, 0x07, 0x1E, 0x08, 0x1B, 0x0D]

  function Crc5Table(x: Octet): Octet {
    CRC5_TABLE1[(x & 0x0F) as int] ^ CRC5_TABLE0[((x >> 4) & 0x0F) as int]
  }

  /** The table on five bits, as a sum of shifted parts of the symbol. */
  function Crc5Combined(x: bv8): bv8 {
    ((x & 3) << 1) ^ ((x & 7) << 2) ^ ((x & 3) << 3) ^ ((x & 28) >> 2) ^ ((x & 24) >> 3) ^ (x & 24)
  }

  lemma TableIsCombined(x: Sym)
    ensures Crc5Table(x) == Crc5Combined(x)
  {
  }

  lemma CombinedKernel(x: bv8)
    requires x < 32
    ensures Crc5Combined(x) < 32 && (Crc5Combined(x) == 0 || Crc5Combined(x) == x ==> x == 0)
  {
  }

  /** On five bits the table is linear, and only zero is mapped to zero or to itself. */
  lemma Crc5TableLinear(x: Sym, y: Sym)
    ensures Crc5Table(x) < 32
    ensures Crc5Table(x ^ y) == Crc5Table(x) ^ Crc5Table(y)
    ensures Crc5Table(x) == 0 || Crc5Table(x) == x ==> x == 0
  {
    TableIsCombined(x);
    TableIsCombined(y);
    TableIsCombined(x ^ y);
    CombinedKernel(x);
  }

  /** Five bits as a polynomial, times x, modulo x^5 + x^3 + 1. */
  function TimesX(s: bv8): bv8 {
    ((s << 1) & 0x1f) ^ (if s & 16 != 0 then 9 else 0)
  }

  lemma TimesXFour(x: bv8)
    requires x < 32
    ensures TimesX(TimesX(TimesX(TimesX(x)))) == ((x << 4) & 0x1f) ^ (if x & 2 != 0 then 9 else 0) ^ (if x & 4 != 0 then 18 else 0)
                                                 ^ (if x & 8 != 0 then 13 else 0) ^ (if x & 16 != 0 then 26 else 0)
  {
  }

  /**
   * The table is a polynomial remainder: modulo x^5 + x^3 + 1, the entry of a symbol times
   * x^8 is the symbol. That leaves one table.
   */
  lemma TableIsRemainder(sym: Sym)
    ensures var c := Crc5Table(sym);
            c < 32 && TimesX(TimesX(TimesX(TimesX(TimesX(TimesX(TimesX(TimesX(c)))))))) == sym
  {
    TableIsCombined(sym);
    CombinedKernel(sym);
    var c := Crc5Combined(sym);
    TimesXFour(c);
    TimesXFour(TimesX(TimesX(TimesX(TimesX(c)))));
  }

  function Crc5Sym(sym: Sym, previous: Sym): Sym {
    Crc5TableLinear(sym ^ previous, 0);
    Crc5Table(sym ^ previous)
  }

  /** A different symbol, or a different CRC so far, gives a different CRC. */
  lemma Crc5Distinguishes(a: Sym, b: Sym, p: Sym, q: Sym)
    requires (a != b) != (p != q)
    ensures Crc5Sym(a, p) != Crc5Sym(b, q)
  {
    Crc5TableLinear(a ^ p, b ^ q);
    Crc5TableLinear((a ^ p) ^ (b ^ q), 0);
  }

  lemma XorZero(x: Octet, y: Octet)
    ensures x ^ y == 0 <==> x == y
  {
  }

  lemma XorSwap(a: Octet, b: Octet, c: Octet, d: Octet)
    ensures b ^ c == a ^ d <==> c ^ d == a ^ b
  {
    assert (b ^ c) ^ (a ^ d) == (c ^ d) ^ (a ^ b);
    XorZero(b ^ c, a ^ d);
    XorZero(c ^ d, a ^ b);
  }

  lemma Crc5Injective(x: Sym, y: Sym)
    requires x != y
    ensures Crc5Table(x) != Crc5Table(y)
  {
    Crc5TableLinear(x, y);
    Crc5TableLinear(x ^ y, 0);
    XorZero(x, y);
    XorZero(Crc5Table(x), Crc5Table(y));
  }

  lemma SwapCancels(a: Sym, b: Sym, p: Sym, ap: Sym, bp: Sym)
    requires ap == Crc5Sym(a, p) && bp == Crc5Sym(b, p)
    ensures ap ^ bp == Crc5Table(a ^ b)
  {
    Crc5TableLinear(a ^ p, b ^ p);
    assert (a ^ p) ^ (b ^ p) == a ^ b;
  }

  lemma SwapDiffers(a: Sym, b: Sym, c: Sym, d: Sym)
    requires a != b && c ^ d == Crc5Table(a ^ b)
    ensures b ^ c != a ^ d
  {
    XorSwap(a, b, c, d);
    Crc5TableLinear(a ^ b, 0);
    XorZero(a, b);
  }

  lemma SwapTable(a: Sym, b: Sym, c: Sym, d: Sym)
    requires a != b && c ^ d == Crc5Table(a ^ b)
    ensures Crc5Sym(b, c) != Crc5Sym(a, d)
  {
    SwapDiffers(a, b, c, d);
    Crc5Injective(b ^ c, a ^ d);
  }

  /** Two different symbols in the other order give a different CRC. */
  lemma Crc5SeesSwaps(a: Sym, b: Sym, p: Sym, ap: Sym, bp: Sym)
    requires a != b && ap == Crc5Sym(a, p) && bp == Crc5Sym(b, p)
    ensures Crc5Sym(b, ap) != Crc5Sym(a, bp)
  {
    SwapCancels(a, b, p, ap, bp);
    SwapTable(a, b, ap, bp);
  }
}
