// Base-32 text with CRC groups (common/base32.c) as values: what an encoding
// contains, what the decoder makes of any string, and how the two fit together.
module Base32Code {
  import opened Base32Bits

  // A-Z0-9 with I, O, 0 and 1 removed
  const BASE32_MAP: string := "ABCDEFGHJKLMNPQRSTUVWXYZ23456789"

  function SymChar(s: Sym): char {
    BASE32_MAP[s as int]
  }

  /** The map: 24 letters and then eight digits, each in order, without I, O, 0 and 1. */
  lemma MapIsLettersAndDigits()
    ensures |BASE32_MAP| == 32
    ensures forall i :: 0 <= i < 24 ==> 'A' <= BASE32_MAP[i] <= 'Z' && BASE32_MAP[i] !in {'I', 'O'}
    ensures forall i :: 24 <= i < 32 ==> '2' <= BASE32_MAP[i] <= '9'
    ensures forall i :: 0 < i < 32 && i != 24 ==> BASE32_MAP[i - 1] < BASE32_MAP[i]
  {
  }

  function IndexSym(i: nat): (s: Sym)
    requires i < 32
    ensures s as int == i
  {
    i as bv8
  }

  datatype Option<T> = None | Some(value: T)

  /** The symbol a character stands for. */
  function CharSym(c: char): (r: Option<Sym>)
    ensures r.Some? ==> SymChar(r.value) == c
    ensures r.None? ==> forall i :: 0 <= i < 32 ==> BASE32_MAP[i] != c
  {
    FindChar(c, 0)
  }

  function FindChar(c: char, i: nat): (r: Option<Sym>)
    requires i <= 32
    ensures r.Some? ==> SymChar(r.value) == c
    ensures r.None? ==> forall j :: i <= j < 32 ==> BASE32_MAP[j] != c
    decreases 32 - i
  {
    if i == 32 then None else if c == BASE32_MAP[i] then Some(IndexSym(i)) else FindChar(c, i + 1)
  }

  /** Where a character stands in the map. */
  function Position(c: char): nat {
    match c
    case 'A' => 0 case 'B' => 1 case 'C' => 2 case 'D' => 3 case 'E' => 4 case 'F' => 5 case 'G' => 6 case 'H' => 7
    case 'J' => 8 case 'K' => 9 case 'L' => 10 case 'M' => 11 case 'N' => 12 case 'P' => 13 case 'Q' => 14 case 'R' => 15
    case 'S' => 16 case 'T' => 17 case 'U' => 18 case 'V' => 19 case 'W' => 20 case 'X' => 21 case 'Y' => 22 case 'Z' => 23
    case '2' => 24 case '3' => 25 case '4' => 26 case '5' => 27 case '6' => 28 case '7' => 29 case '8' => 30 case _ => 31
  }

  lemma MapDistinct(i: nat)
    requires i < 32
    ensures Position(BASE32_MAP[i]) == i
  {
  }

  lemma CharSymInverse(s: Sym)
    ensures CharSym(SymChar(s)) == Some(s)
  {
    var r := CharSym(SymChar(s));
    assert r.Some? by {
      assert BASE32_MAP[s as int] == SymChar(s);
    }
    MapDistinct(r.value as int);
    MapDistinct(s as int);
    assert (r.value as int) as bv8 == r.value && (s as int) as bv8 == s;
  }

  predicate Separator(c: char) {
    c == ' ' || c == '\t' || c == '\r' || c == '\n' || c == '-'
  }

  // ---------------------------------------------------------- bits

  function Bit(src: seq<Octet>, i: nat): bool
    requires i < 8 * |src|
  {
    ByteBit(src[i / 8], i % 8)
  }

  function Bits(src: seq<Octet>, n: nat): (b: seq<bool>)
    requires n <= 8 * |src|
    ensures |b| == n
  {
    seq(n, i requires 0 <= i < n => Bit(src, i))
  }

  /** A symbol holds the five bits from position i on, with zeros past the end. */
  ghost predicate HoldsBits(s: Sym, bits: seq<bool>, i: nat) {
    forall j :: 0 <= j < 5 ==> SymBit(s, j) == (i + j < |bits| && bits[i + j])
  }

  function SymbolCount(n: nat): nat {
    (n + 4) / 5
  }

  /** The symbols of a bit string, before any CRC. */
  ghost predicate AreSymbols(syms: seq<Sym>, bits: seq<bool>) {
    |syms| == SymbolCount(|bits|) && forall k :: 0 <= k < |syms| ==> HoldsBits(syms[k], bits, 5 * k)
  }

  function MakeSym(b0: bool, b1: bool, b2: bool, b3: bool, b4: bool): (s: Sym)
    ensures SymBit(s, 0) == b0 && SymBit(s, 1) == b1 && SymBit(s, 2) == b2 && SymBit(s, 3) == b3 && SymBit(s, 4) == b4
  {
    (if b0 then 16 else 0) | (if b1 then 8 else 0) | (if b2 then 4 else 0) | (if b3 then 2 else 0) | (if b4 then 1 else 0)
  }

  predicate BitAt(bits: seq<bool>, i: nat) {
    i < |bits| && bits[i]
  }

  function Symbols(bits: seq<bool>): (syms: seq<Sym>)
    ensures |syms| == SymbolCount(|bits|)
  {
    seq(SymbolCount(|bits|), k requires 0 <= k < SymbolCount(|bits|) =>
      MakeSym(BitAt(bits, 5 * k), BitAt(bits, 5 * k + 1), BitAt(bits, 5 * k + 2),
              BitAt(bits, 5 * k + 3), BitAt(bits, 5 * k + 4)))
  }

  lemma SymbolsHold(bits: seq<bool>)
    ensures AreSymbols(Symbols(bits), bits)
  {
    forall k | 0 <= k < SymbolCount(|bits|)
      ensures HoldsBits(Symbols(bits)[k], bits, 5 * k)
    {
      var s := Symbols(bits)[k];
      assert SymBit(s, 0) == BitAt(bits, 5 * k) && SymBit(s, 1) == BitAt(bits, 5 * k + 1) && SymBit(s, 2) == BitAt(bits, 5 * k + 2)
          && SymBit(s, 3) == BitAt(bits, 5 * k + 3) && SymBit(s, 4) == BitAt(bits, 5 * k + 4);
    }
  }

  /** Five bits determine a symbol. */
  lemma SameSymbol(s: Sym, t: Sym)
    requires SymBit(s, 0) == SymBit(t, 0) && SymBit(s, 1) == SymBit(t, 1) && SymBit(s, 2) == SymBit(t, 2)
    requires SymBit(s, 3) == SymBit(t, 3) && SymBit(s, 4) == SymBit(t, 4)
    ensures s == t
  {
  }

  // ------------------------------------------------------ encoding

  /** CRC grouping: a CRC symbol after every size symbols (none if 0), and the function that computes it. */
  datatype Group = Group(size: nat, crc: (Sym, Sym) -> Sym)

  function Crc5Group(size: nat): Group {
    Group(size, (s: Sym, previous: Sym) => Crc5Sym(s, previous))
  }

  /** The symbols as sent. */
  function Emit(syms: seq<Sym>, crc: Sym, count: nat, g: Group): seq<Sym>
    decreases |syms|
  {
    if syms == [] then []
    else if g.size == 0 then [syms[0]] + Emit(syms[1..], crc, count, g)
    else
      var c := g.crc(syms[0], crc);
      if count + 1 == g.size then [syms[0]] + ([c] + Emit(syms[1..], 0, 0, g))
      else [syms[0]] + Emit(syms[1..], c, count + 1, g)
  }

  function Text(syms: seq<Sym>): (t: string)
    ensures |t| == |syms|
  {
    seq(|syms|, i requires 0 <= i < |syms| => SymChar(syms[i]))
  }

  // ------------------------------------------------------ decoding

  /** The decoder between two characters; Full is its early stop, Bad its error return. */
  datatype Decoder = Run(crc: Sym, count: nat, bits: seq<bool>) | Full(count: nat, bits: seq<bool>) | Bad

  const START := Run(0, 0, [])

  function SymBits(s: Sym, k: nat): (b: seq<bool>)
    requires k <= 5
    ensures |b| == k
  {
    seq(k, j requires 0 <= j < k => SymBit(s, j))
  }

  function Take(d: Decoder, s: Sym, g: Group, n: nat): Decoder
    requires d.Run?
  {
    if g.size > 0 && d.count == g.size then if d.crc != s then Bad else Run(0, 0, d.bits)
    else
      var crc, count := if g.size > 0 then g.crc(s, d.crc) else d.crc, if g.size > 0 then d.count + 1 else d.count;
      if |d.bits| >= n then Full(count, d.bits)
      else Run(crc, count, d.bits + SymBits(s, Min(5, n - |d.bits|)))
  }

  function TakeChar(d: Decoder, c: char, g: Group, n: nat): Decoder
    requires d.Run?
  {
    if Separator(c) then d
    else match CharSym(c)
      case None => Bad
      case Some(s) => Take(d, s, g, n)
  }

  function DecodeFrom(d: Decoder, src: string, g: Group, n: nat): Decoder
    decreases |src|
  {
    if src == [] || !d.Run? then d else DecodeFrom(TakeChar(d, src[0], g, n), src[1..], g, n)
  }

  /** None for the error return -1. */
  function Outcome(d: Decoder, g: Group): Option<seq<bool>> {
    if d.Bad? || (g.size > 0 && d.count != 0) then None else Some(d.bits)
  }

  function Decode(src: string, g: Group, n: nat): Option<seq<bool>> {
    Outcome(DecodeFrom(START, src, g, n), g)
  }

  function Strip(src: string): string
    decreases |src|
  {
    if src == [] then [] else if Separator(src[0]) then Strip(src[1..]) else [src[0]] + Strip(src[1..])
  }

  /** Separators make no difference. */
  lemma {:induction false} DecodeIgnoresSeparators(d: Decoder, src: string, g: Group, n: nat)
    ensures DecodeFrom(d, Strip(src), g, n) == DecodeFrom(d, src, g, n)
    decreases |src|
  {
    if src != [] && d.Run? {
      DecodeIgnoresSeparators(TakeChar(d, src[0], g, n), src[1..], g, n);
      if Separator(src[0]) {
        DecodeIgnoresSeparators(d, src[1..], g, n);
      } else {
        assert Strip(src)[1..] == Strip(src[1..]);
      }
    }
  }

  /** Blanks, line ends and dashes are the separators. */
  lemma DashedTextReads(g: Group, n: nat)
    ensures Decode(" A-B\tC\r\n", g, n) == Decode("ABC", g, n)
  {
    var s := " A-B\tC\r\n";
    assert s[1..] == "A-B\tC\r\n" && s[1..][1..] == "-B\tC\r\n" && s[1..][1..][1..] == "B\tC\r\n";
    assert "B\tC\r\n"[1..] == "\tC\r\n" && "\tC\r\n"[1..] == "C\r\n" && "C\r\n"[1..] == "\r\n" && "\r\n"[1..] == "\n" && "\n"[1..] == "";
    assert Strip("C\r\n") == ['C'] + Strip("\r\n") && Strip("\r\n") == Strip("\n") == "";
    assert Strip("B\tC\r\n") == ['B'] + Strip("C\r\n");
    assert Strip(s) == "ABC";
    DecodeIgnoresSeparators(START, s, g, n);
  }

  function TakeAll(d: Decoder, syms: seq<Sym>, g: Group, n: nat): Decoder
    decreases |syms|
  {
    if syms == [] || !d.Run? then d else TakeAll(Take(d, syms[0], g, n), syms[1..], g, n)
  }

  lemma TakeAllCons(d: Decoder, s: Sym, rest: seq<Sym>, g: Group, n: nat)
    requires d.Run?
    ensures TakeAll(d, [s] + rest, g, n) == TakeAll(Take(d, s, g, n), rest, g, n)
  {
    assert ([s] + rest)[1..] == rest;
  }

  lemma {:induction false} DecodeText(d: Decoder, syms: seq<Sym>, g: Group, n: nat)
    ensures DecodeFrom(d, Text(syms), g, n) == TakeAll(d, syms, g, n)
    decreases |syms|
  {
    if syms != [] && d.Run? {
      CharSymInverse(syms[0]);
      SymCharIsNoSeparator(syms[0]);
      assert Text(syms)[1..] == Text(syms[1..]);
      DecodeText(Take(d, syms[0], g, n), syms[1..], g, n);
    }
  }

  lemma SymCharIsNoSeparator(s: Sym)
    ensures !Separator(SymChar(s))
  {
    var i := s as int;
    assert BASE32_MAP[i] != ' ' && BASE32_MAP[i] != '\t' && BASE32_MAP[i] != '\r' && BASE32_MAP[i] != '\n' && BASE32_MAP[i] != '-';
  }

  // ---------------------------------------------------------- round trip

  function Gather(syms: seq<Sym>, n: nat): (b: seq<bool>)
    decreases |syms|
  {
    if syms == [] then [] else var k := Min(5, n); SymBits(syms[0], k) + Gather(syms[1..], n - k)
  }

  /** How far into a group of g m more symbols end. */
  function EndCount(count: nat, m: nat, g: nat): nat
    decreases m
  {
    if m == 0 then count else EndCount(if count + 1 == g then 0 else count + 1, m - 1, g)
  }

  /** No symbol comes when all n bits are there already. */
  predicate Room(have: nat, m: nat, n: nat) {
    have <= n && (m > 0 ==> have + 5 * (m - 1) < n)
  }

  lemma Assoc(a: seq<bool>, b: seq<bool>, c: seq<bool>)
    ensures (a + b) + c == a + (b + c)
  {
  }

  /** The decoder follows the encoder, symbol by symbol. */
  lemma {:induction false} Lockstep(syms: seq<Sym>, crc: Sym, count: nat, bits: seq<bool>, g: Group, n: nat)
    requires (g.size > 0 ==> count < g.size) && Room(|bits|, |syms|, n)
    ensures var r := TakeAll(Run(crc, count, bits), Emit(syms, crc, count, g), g, n);
            && r.Run? && r.bits == bits + Gather(syms, n - |bits|)
            && (g.size > 0 ==> r.count == EndCount(count, |syms|, g.size))
    decreases |syms|
  {
    if syms == [] {
      assert bits + [] == bits;
    } else {
      var rest := syms[1..];
      var d1 := Take(Run(crc, count, bits), syms[0], g, n);
      Assoc(bits, SymBits(syms[0], Min(5, n - |bits|)), Gather(rest, n - |d1.bits|));
      LockstepOne(syms[0], rest, crc, count, bits, g, n);
      assert syms == [syms[0]] + rest;
      var ends := g.size > 0 && count + 1 == g.size;
      Lockstep(rest, if ends then 0 else d1.crc, if ends then 0 else d1.count, d1.bits, g, n);
    }
  }

  lemma LockstepOne(x: Sym, rest: seq<Sym>, crc: Sym, count: nat, bits: seq<bool>, g: Group, n: nat)
    requires (g.size > 0 ==> count < g.size) && |bits| < n
    ensures var d, d1 := Run(crc, count, bits), Take(Run(crc, count, bits), x, g, n);
            TakeAll(d, Emit([x] + rest, crc, count, g), g, n)
            == if g.size == 0 then TakeAll(d1, Emit(rest, crc, count, g), g, n)
               else if count + 1 == g.size then TakeAll(Run(0, 0, d1.bits), Emit(rest, 0, 0, g), g, n)
               else TakeAll(d1, Emit(rest, d1.crc, count + 1, g), g, n)
  {
    assert ([x] + rest)[1..] == rest;
    var d, d1 := Run(crc, count, bits), Take(Run(crc, count, bits), x, g, n);
    if g.size == 0 {
      TakeAllCons(d, x, Emit(rest, crc, count, g), g, n);
    } else if count + 1 == g.size {
      TakeAllCons(d, x, [d1.crc] + Emit(rest, 0, 0, g), g, n);
      TakeAllCons(d1, d1.crc, Emit(rest, 0, 0, g), g, n);
    } else {
      TakeAllCons(d, x, Emit(rest, d1.crc, count + 1, g), g, n);
    }
  }

  /** The symbols of a bit string hold exactly its bits. */
  lemma {:induction false} GatherBits(syms: seq<Sym>, bits: seq<bool>, k: nat)
    requires AreSymbols(syms, bits) && k <= |syms| && 5 * k <= |bits|
    ensures Gather(syms[k..], |bits| - 5 * k) == bits[5 * k..]
    decreases |syms| - k
  {
    if k < |syms| {
      var m := Min(5, |bits| - 5 * k);
      assert HoldsBits(syms[k], bits, 5 * k);
      assert SymBits(syms[k], m) == bits[5 * k..5 * k + m];
      assert syms[k..][0] == syms[k] && syms[k..][1..] == syms[k + 1..];
      if m == 5 {
        GatherBits(syms, bits, k + 1);
        assert bits[5 * k..] == bits[5 * k..5 * k + 5] + bits[5 * (k + 1)..];
      } else {
        assert syms[k + 1..] == [];
        assert bits[5 * k..] == bits[5 * k..5 * k + m] + [];
      }
    }
  }

  lemma {:induction false} WholeGroups(q: nat, count: nat, m: nat, g: nat)
    requires count < g && count + m == q * g
    ensures EndCount(count, m, g) == 0
    decreases m
  {
    if m == 0 {
      assert q * g < g && (q > 0 ==> q * g >= g);
    } else if count + 1 == g {
      assert q > 0 && (q - 1) * g == q * g - g;
      WholeGroups(q - 1, 0, m - 1, g);
    } else {
      WholeGroups(q, count + 1, m - 1, g);
    }
  }

  lemma ExactGroups(m: nat, g: nat)
    requires g > 0 && m % g == 0
    ensures EndCount(0, m, g) == 0
  {
    assert m == m / g * g;
    WholeGroups(m / g, 0, m, g);
  }

  lemma SymbolsRoundTrip(bits: seq<bool>, syms: seq<Sym>, g: Group)
    requires |syms| == SymbolCount(|bits|) && Gather(syms, |bits|) == bits
    requires g.size > 0 ==> |syms| % g.size == 0
    ensures Outcome(TakeAll(START, Emit(syms, 0, 0, g), g, |bits|), g) == Some(bits)
  {
    Lockstep(syms, 0, 0, [], g, |bits|);
    assert [] + bits == bits;
    if g.size > 0 {
      ExactGroups(|syms|, g.size);
    }
  }

  /** What was encoded is decoded again, with separators put in anywhere. */
  lemma RoundTrip(bits: seq<bool>, syms: seq<Sym>, text: string, g: Group)
    requires AreSymbols(syms, bits) && (g.size > 0 ==> |syms| % g.size == 0)
    requires Strip(text) == Text(Emit(syms, 0, 0, g))
    ensures Decode(text, g, |bits|) == Some(bits)
  {
    DecodeIgnoresSeparators(START, text, g, |bits|);
    DecodeText(START, Emit(syms, 0, 0, g), g, |bits|);
    GatherBits(syms, bits, 0);
    assert syms[0..] == syms && bits[0..] == bits;
    SymbolsRoundTrip(bits, syms, g);
  }

  // ------------------------------------------------------ error detection

  /** One change, in the symbol or in the CRC before it, changes the CRC after it. */
  ghost predicate Differs(f: (Sym, Sym) -> Sym, a: Sym, b: Sym, p: Sym, q: Sym) {
    (a != b) != (p != q) ==> f(a, p) != f(b, q)
  }

  ghost predicate SwapDiffers(f: (Sym, Sym) -> Sym, a: Sym, b: Sym, p: Sym) {
    a != b ==> f(b, f(a, p)) != f(a, f(b, p))
  }

  ghost predicate Distinguishes(f: (Sym, Sym) -> Sym) {
    forall a, b, p, q :: Differs(f, a, b, p, q)
  }

  ghost predicate SeesSwaps(f: (Sym, Sym) -> Sym) {
    forall a, b, p :: SwapDiffers(f, a, b, p)
  }

  /** A wrong CRC stays wrong up to the end of its group, where it is noticed. */
  lemma {:induction false} WrongCrcIsCaught(syms: seq<Sym>, crc: Sym, wrong: Sym, count: nat, bits: seq<bool>,
                                            g: Group, n: nat)
    requires 0 < count < g.size && crc != wrong && Room(|bits|, |syms|, n) && Distinguishes(g.crc)
    requires EndCount(count, |syms|, g.size) == 0
    ensures TakeAll(Run(wrong, count, bits), Emit(syms, crc, count, g), g, n) == Bad
    decreases |syms|
  {
    var d, rest := Run(wrong, count, bits), syms[1..];
    var d1, c := Take(d, syms[0], g, n), g.crc(syms[0], crc);
    assert Differs(g.crc, syms[0], syms[0], crc, wrong);
    if count + 1 == g.size {
      TakeAllCons(d, syms[0], [c] + Emit(rest, 0, 0, g), g, n);
      TakeAllCons(d1, c, Emit(rest, 0, 0, g), g, n);
    } else {
      TakeAllCons(d, syms[0], Emit(rest, c, count + 1, g), g, n);
      WrongCrcIsCaught(rest, c, d1.crc, count + 1, d1.bits, g, n);
    }
  }

  lemma EmitCons(a: Sym, rest: seq<Sym>, crc: Sym, count: nat, g: Group)
    requires g.size > 0
    ensures Emit([a] + rest, crc, count, g) == [a] + AfterSymbol(rest, g.crc(a, crc), count, g)
  {
    assert ([a] + rest)[1..] == rest;
  }

  /** What follows a symbol that brought the CRC to c. */
  function AfterSymbol(rest: seq<Sym>, c: Sym, count: nat, g: Group): seq<Sym> {
    if count + 1 == g.size then [c] + Emit(rest, 0, 0, g) else Emit(rest, c, count + 1, g)
  }

  lemma LastTwo(c: Sym, d: Sym, rest: seq<Sym>, crc: Sym, g: Group)
    requires g.size == 4
    ensures Emit([c] + ([d] + rest), crc, 2, g) == [c] + ([d] + ([g.crc(d, g.crc(c, crc))] + Emit(rest, 0, 0, g)))
  {
    EmitCons(c, [d] + rest, crc, 2, g);
    EmitCons(d, rest, g.crc(c, crc), 3, g);
  }

  lemma Regroup4(a: Sym, b: Sym, c: Sym, d: Sym, rest: seq<Sym>)
    ensures [a, b, c, d] + rest == [a] + ([b] + ([c] + ([d] + rest)))
  {
  }

  /** A group of four, and the CRC symbol it ends with. */
  lemma GroupOfFour(a: Sym, b: Sym, c: Sym, d: Sym, rest: seq<Sym>, g: Group)
    requires g.size == 4
    ensures Emit([a, b, c, d] + rest, 0, 0, g)
         == [a, b, c, d, g.crc(d, g.crc(c, g.crc(b, g.crc(a, 0))))] + Emit(rest, 0, 0, g)
  {
    var crc := g.crc(b, g.crc(a, 0));
    Regroup4(a, b, c, d, rest);
    LastTwo(c, d, rest, crc, g);
  }

  lemma Crc5Values()
    ensures Crc5Sym(31, 0) == 30 && Crc5Sym(28, 30) == 28 && Crc5Sym(0, 28) == 12 && Crc5Sym(15, 12) == 18
    ensures Crc5Sym(30, 0) == 16 && Crc5Sym(0, 16) == 22 && Crc5Sym(7, 22) == 24 && Crc5Sym(31, 24) == 3
  {
    TableIsCombined(31);
    TableIsCombined(28 ^ 30);
    TableIsCombined(0 ^ 28);
    TableIsCombined(15 ^ 12);
    TableIsCombined(30);
    TableIsCombined(0 ^ 16);
    TableIsCombined(7 ^ 22);
    TableIsCombined(31 ^ 24);
  }

  /** A known answer: the symbols of ff 00 ff 00 ff, in groups of four with their CRCs and without any. */
  lemma KnownAnswer()
    ensures Text(Emit([31, 28, 0, 15, 30, 0, 7, 31], 0, 0, Crc5Group(4))) == "96ARU8AH9D"
    ensures Text(Emit([31, 28, 0, 15, 30, 0, 7, 31], 0, 0, Crc5Group(0))) == "96AR8AH9"
  {
    KnownGroups();
    NoCrcSymbols([31, 28, 0, 15, 30, 0, 7, 31], 0, 0, Crc5Group(0));
    KnownText();
  }

  lemma KnownGroups()
    ensures Emit([31, 28, 0, 15, 30, 0, 7, 31], 0, 0, Crc5Group(4)) == [31, 28, 0, 15, 18, 30, 0, 7, 31, 3]
  {
    var g := Crc5Group(4);
    Crc5Values();
    GroupOfFour(31, 28, 0, 15, [30, 0, 7, 31], g);
    GroupOfFour(30, 0, 7, 31, [], g);
    assert [31 as Sym, 28, 0, 15] + [30, 0, 7, 31] == [31, 28, 0, 15, 30, 0, 7, 31];
    assert [30 as Sym, 0, 7, 31] + [] == [30, 0, 7, 31];
    assert [31 as Sym, 28, 0, 15, 18] + [30, 0, 7, 31, 3] == [31, 28, 0, 15, 18, 30, 0, 7, 31, 3];
  }

  lemma KnownText()
    ensures Text([31, 28, 0, 15, 18, 30, 0, 7, 31, 3]) == "96ARU8AH9D"
    ensures Text([31, 28, 0, 15, 30, 0, 7, 31]) == "96AR8AH9"
  {
  }

  lemma {:induction false} NoCrcSymbols(syms: seq<Sym>, crc: Sym, count: nat, g: Group)
    requires g.size == 0
    ensures Emit(syms, crc, count, g) == syms
    decreases |syms|
  {
    if syms != [] {
      NoCrcSymbols(syms[1..], crc, count, g);
    }
  }

  /** A decoder with another CRC fails on what follows. */
  lemma AfterSymbolCaught(rest: seq<Sym>, c: Sym, wrong: Sym, count: nat, bits: seq<bool>, g: Group, n: nat)
    requires count < g.size && c != wrong && Room(|bits|, |rest|, n) && Distinguishes(g.crc)
    requires EndCount(count, |rest| + 1, g.size) == 0
    ensures TakeAll(Run(wrong, count + 1, bits), AfterSymbol(rest, c, count, g), g, n) == Bad
  {
    if count + 1 == g.size {
      TakeAllCons(Run(wrong, count + 1, bits), c, Emit(rest, 0, 0, g), g, n);
    } else {
      WrongCrcIsCaught(rest, c, wrong, count + 1, bits, g, n);
    }
  }

  function Replace(sent: seq<Sym>, p: nat, s: Sym): seq<Sym>
    requires p < |sent|
  {
    sent[p := s]
  }

  lemma ReplaceCons(x: Sym, rest: seq<Sym>, p: int, s: Sym)
    ensures Replace([x] + rest, 0, s) == [s] + rest
    ensures 0 <= p < |rest| ==> Replace([x] + rest, p + 1, s) == [x] + Replace(rest, p, s)
  {
  }

  /** Any one symbol replaced by another, data or CRC, makes the decoder fail. */
  lemma {:induction false} ReplacedIsCaught(syms: seq<Sym>, crc: Sym, count: nat, bits: seq<bool>,
                                            g: Group, n: nat, p: nat, s: Sym)
    requires count < g.size && Room(|bits|, |syms|, n) && EndCount(count, |syms|, g.size) == 0
    requires Distinguishes(g.crc) && var out := Emit(syms, crc, count, g); p < |out| && out[p] != s
    ensures TakeAll(Run(crc, count, bits), Replace(Emit(syms, crc, count, g), p, s), g, n) == Bad
    decreases |syms|, 1
  {
    var x, rest := syms[0], syms[1..];
    assert syms == [x] + rest;
    EmitCons(x, rest, crc, count, g);
    var d, after := Run(crc, count, bits), AfterSymbol(rest, g.crc(x, crc), count, g);
    ReplaceCons(x, after, p - 1, s);
    if p == 0 {
      var d1 := Take(d, s, g, n);
      assert Differs(g.crc, x, s, crc, crc);
      TakeAllCons(d, s, after, g, n);
      AfterSymbolCaught(rest, g.crc(x, crc), d1.crc, count, d1.bits, g, n);
    } else {
      TakeAllCons(d, x, Replace(after, p - 1, s), g, n);
      ReplacedLater(x, rest, crc, count, bits, g, n, p - 1, s);
    }
  }

  lemma {:induction false} ReplacedLater(x: Sym, rest: seq<Sym>, crc: Sym, count: nat, bits: seq<bool>,
                                         g: Group, n: nat, p: nat, s: Sym)
    requires count < g.size && Room(|bits|, |rest| + 1, n) && EndCount(count, |rest| + 1, g.size) == 0
    requires Distinguishes(g.crc)
    requires var after := AfterSymbol(rest, g.crc(x, crc), count, g); p < |after| && after[p] != s
    ensures var after := AfterSymbol(rest, g.crc(x, crc), count, g);
            TakeAll(Take(Run(crc, count, bits), x, g, n), Replace(after, p, s), g, n) == Bad
    decreases |rest| + 1, 0
  {
    var d1 := Take(Run(crc, count, bits), x, g, n);
    if count + 1 == g.size {
      var c, tail := d1.crc, Emit(rest, 0, 0, g);
      ReplaceCons(c, tail, p - 1, s);
      if p == 0 {
        TakeAllCons(d1, s, tail, g, n);
      } else {
        TakeAllCons(d1, c, Replace(tail, p - 1, s), g, n);
        ReplacedIsCaught(rest, 0, 0, d1.bits, g, n, p - 1, s);
      }
    } else {
      ReplacedIsCaught(rest, d1.crc, count + 1, d1.bits, g, n, p, s);
    }
  }

  /** Places p and p + 1 of what is sent are data symbols of one group; at is the first place's rank in its group. */
  predicate InOneGroup(p: nat, at: nat, g: nat)
    requires at <= g
    decreases p
  {
    if p == 0 then at + 1 < g else InOneGroup(p - 1, if at == g then 0 else at + 1, g)
  }

  lemma {:induction false} InOneGroupRank(p: nat, q: nat, at: nat, g: nat, r: nat)
    requires at <= g && p + at == q * (g + 1) + r && r <= g
    ensures InOneGroup(p, at, g) <==> r + 1 < g
    decreases p
  {
    if p == 0 {
      assert q == 0 by { assert q > 0 ==> q * (g + 1) >= g + 1; }
    } else if at == g {
      assert q > 0 && (q - 1) * (g + 1) == q * (g + 1) - (g + 1) by {
        assert q == 0 ==> q * (g + 1) == 0;
      }
      InOneGroupRank(p - 1, q - 1, 0, g, r);
    } else {
      InOneGroupRank(p - 1, q, at + 1, g, r);
    }
  }

  function Swap(sent: seq<Sym>, p: nat): seq<Sym>
    requires p + 1 < |sent|
  {
    sent[..p] + [sent[p + 1], sent[p]] + sent[p + 2..]
  }

  lemma SwapCons(x: Sym, rest: seq<Sym>, p: nat)
    requires p + 1 < |rest|
    ensures Swap([x] + rest, p + 1) == [x] + Swap(rest, p)
  {
  }

  lemma SwapStart(a: Sym, b: Sym, rest: seq<Sym>)
    ensures Swap([a] + ([b] + rest), 0) == [b] + ([a] + rest)
  {
  }

  lemma SwappedFirst(a: Sym, b: Sym, rest: seq<Sym>, crc: Sym, count: nat, bits: seq<bool>, g: Group, n: nat)
    requires count + 1 < g.size && Room(|bits|, |rest| + 2, n) && EndCount(count, |rest| + 2, g.size) == 0
    requires Distinguishes(g.crc) && SeesSwaps(g.crc) && a != b
    ensures var tail := AfterSymbol(rest, g.crc(b, g.crc(a, crc)), count + 1, g);
            && Emit([a] + ([b] + rest), crc, count, g) == [a] + ([b] + tail)
            && TakeAll(Run(crc, count, bits), [b] + ([a] + tail), g, n) == Bad
  {
    EmitCons(a, [b] + rest, crc, count, g);
    EmitCons(b, rest, g.crc(a, crc), count + 1, g);
    var tail := AfterSymbol(rest, g.crc(b, g.crc(a, crc)), count + 1, g);
    var d := Run(crc, count, bits);
    var d1 := Take(d, b, g, n);
    var d2 := Take(d1, a, g, n);
    assert SwapDiffers(g.crc, a, b, crc);
    TakeAllCons(d, b, [a] + tail, g, n);
    TakeAllCons(d1, a, tail, g, n);
    AfterSymbolCaught(rest, g.crc(b, g.crc(a, crc)), d2.crc, count + 1, d2.bits, g, n);
  }

  /** Two different neighbouring data symbols of one group exchanged make the decoder fail. */
  lemma {:induction false} SwappedIsCaught(syms: seq<Sym>, crc: Sym, count: nat, bits: seq<bool>,
                                           g: Group, n: nat, p: nat)
    requires count < g.size && Room(|bits|, |syms|, n) && EndCount(count, |syms|, g.size) == 0
    requires Distinguishes(g.crc) && SeesSwaps(g.crc)
    requires InOneGroup(p, count, g.size)
    requires var out := Emit(syms, crc, count, g); p + 1 < |out| && out[p] != out[p + 1]
    ensures TakeAll(Run(crc, count, bits), Swap(Emit(syms, crc, count, g), p), g, n) == Bad
    decreases |syms|, 2
  {
    var x, rest := syms[0], syms[1..];
    assert syms == [x] + rest;
    EmitCons(x, rest, crc, count, g);
    if p == 0 {
      SwappedNow(x, rest, crc, count, bits, g, n);
    } else {
      SwappedOn(x, rest, crc, count, bits, g, n, p - 1);
    }
  }

  lemma SwappedNow(x: Sym, rest: seq<Sym>, crc: Sym, count: nat, bits: seq<bool>, g: Group, n: nat)
    requires count + 1 < g.size && Room(|bits|, |rest| + 1, n) && EndCount(count, |rest| + 1, g.size) == 0
    requires Distinguishes(g.crc) && SeesSwaps(g.crc)
    requires var after := AfterSymbol(rest, g.crc(x, crc), count, g); |after| > 0 && x != after[0]
    ensures TakeAll(Run(crc, count, bits), Swap([x] + AfterSymbol(rest, g.crc(x, crc), count, g), 0), g, n) == Bad
  {
    var y, rest2 := rest[0], rest[1..];
    assert rest == [y] + rest2;
    SwappedFirst(x, y, rest2, crc, count, bits, g, n);
    EmitCons(x, rest, crc, count, g);
    SwapStart(x, y, AfterSymbol(rest2, g.crc(y, g.crc(x, crc)), count + 1, g));
  }

  lemma {:induction false} SwappedOn(x: Sym, rest: seq<Sym>, crc: Sym, count: nat, bits: seq<bool>,
                                     g: Group, n: nat, p: nat)
    requires count < g.size && Room(|bits|, |rest| + 1, n) && EndCount(count, |rest| + 1, g.size) == 0
    requires Distinguishes(g.crc) && SeesSwaps(g.crc)
    requires InOneGroup(p + 1, count, g.size)
    requires var after := AfterSymbol(rest, g.crc(x, crc), count, g); p + 1 < |after| && after[p] != after[p + 1]
    ensures TakeAll(Run(crc, count, bits), Swap([x] + AfterSymbol(rest, g.crc(x, crc), count, g), p + 1), g, n) == Bad
    decreases |rest| + 1, 1
  {
    var d, after := Run(crc, count, bits), AfterSymbol(rest, g.crc(x, crc), count, g);
    SwapCons(x, after, p);
    TakeAllCons(d, x, Swap(after, p), g, n);
    SwappedLater(x, rest, crc, count, bits, g, n, p);
  }

  lemma {:induction false} SwappedLater(x: Sym, rest: seq<Sym>, crc: Sym, count: nat, bits: seq<bool>,
                                        g: Group, n: nat, p: nat)
    requires count < g.size && Room(|bits|, |rest| + 1, n) && EndCount(count, |rest| + 1, g.size) == 0
    requires Distinguishes(g.crc) && SeesSwaps(g.crc)
    requires InOneGroup(p + 1, count, g.size)
    requires var after := AfterSymbol(rest, g.crc(x, crc), count, g); p + 1 < |after| && after[p] != after[p + 1]
    ensures var after := AfterSymbol(rest, g.crc(x, crc), count, g);
            TakeAll(Take(Run(crc, count, bits), x, g, n), Swap(after, p), g, n) == Bad
    decreases |rest| + 1, 0
  {
    var d1 := Take(Run(crc, count, bits), x, g, n);
    if count + 1 == g.size {
      var c, tail := d1.crc, Emit(rest, 0, 0, g);
      assert p > 0 && InOneGroup(p - 1, 0, g.size);
      SwapCons(c, tail, p - 1);
      TakeAllCons(d1, c, Swap(tail, p - 1), g, n);
      SwappedIsCaught(rest, 0, 0, d1.bits, g, n, p - 1);
    } else {
      SwappedIsCaught(rest, d1.crc, count + 1, d1.bits, g, n, p);
    }
  }

  // ------------------------------------------------- the firmware's own CRC

  lemma Crc5Detects(size: nat)
    ensures Distinguishes(Crc5Group(size).crc) && SeesSwaps(Crc5Group(size).crc)
  {
    var f := Crc5Group(size).crc;
    forall a: Sym, b: Sym, p: Sym, q: Sym
      ensures Differs(f, a, b, p, q)
    {
      if (a != b) != (p != q) { Crc5Distinguishes(a, b, p, q); }
    }
    forall a: Sym, b: Sym, p: Sym
      ensures SwapDiffers(f, a, b, p)
    {
      if a != b { Crc5SeesSwaps(a, b, p, f(a, p), f(b, p)); }
    }
  }

  lemma TypoIsCaught(syms: seq<Sym>, g: Group, n: nat, p: nat, s: Sym)
    requires |syms| == SymbolCount(n) && g.size > 0 && |syms| % g.size == 0 && Distinguishes(g.crc)
    requires var sent := Emit(syms, 0, 0, g); p < |sent| && sent[p] != s
    ensures Decode(Text(Replace(Emit(syms, 0, 0, g), p, s)), g, n) == None
  {
    ExactGroups(|syms|, g.size);
    ReplacedIsCaught(syms, 0, 0, [], g, n, p, s);
    DecodeText(START, Replace(Emit(syms, 0, 0, g), p, s), g, n);
  }

  lemma SwapIsCaught(syms: seq<Sym>, g: Group, n: nat, p: nat)
    requires |syms| == SymbolCount(n) && g.size > 0 && |syms| % g.size == 0
    requires Distinguishes(g.crc) && SeesSwaps(g.crc)
    requires var sent := Emit(syms, 0, 0, g); p + 1 < |sent| && sent[p] != sent[p + 1]
    requires p % (g.size + 1) + 1 < g.size
    ensures Decode(Text(Swap(Emit(syms, 0, 0, g), p)), g, n) == None
  {
    ExactGroups(|syms|, g.size);
    InOneGroupRank(p, p / (g.size + 1), 0, g.size, p % (g.size + 1));
    SwappedIsCaught(syms, 0, 0, [], g, n, p);
    DecodeText(START, Swap(Emit(syms, 0, 0, g), p), g, n);
  }

  /**
   * With CRC groups of any size, one mistyped symbol (data or CRC), or two different
   * neighbouring data symbols of a group in the wrong order, make base32_decode return -1.
   */
  lemma ErrorsAreDetected(syms: seq<Sym>, size: nat, n: nat)
    requires |syms| == SymbolCount(n) && size > 0 && |syms| % size == 0
    ensures var g := Crc5Group(size);
            var sent := Emit(syms, 0, 0, g);
            && (forall p: nat, s: Sym :: p < |sent| && s != sent[p] ==> Decode(Text(Replace(sent, p, s)), g, n) == None)
            && (forall p: nat :: p + 1 < |sent| && sent[p] != sent[p + 1] && p % (size + 1) + 1 < size ==>
                  Decode(Text(Swap(sent, p)), g, n) == None)
  {
    var g := Crc5Group(size);
    Crc5Detects(size);
    var sent := Emit(syms, 0, 0, g);
    forall p: nat, s: Sym | p < |sent| && s != sent[p]
      ensures Decode(Text(Replace(sent, p, s)), g, n) == None
    {
      TypoIsCaught(syms, g, n, p, s);
    }
    forall p: nat | p + 1 < |sent| && sent[p] != sent[p + 1] && p % (size + 1) + 1 < size
      ensures Decode(Text(Swap(sent, p)), g, n) == None
    {
      SwapIsCaught(syms, g, n, p);
    }
  }
}
