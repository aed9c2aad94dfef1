// base32_encode and base32_decode of common/base32.c, over character and byte
// buffers, proved against the values of Base32Code.dfy.
module Base32 {
  import opened Base32Bits
  import opened Base32Code

  datatype Status = EcSuccess | EcErrorInval

  // ------------------------------------------------------------ encoding

  /** How many CRC symbols m data symbols bring, count into a group of g. */
  function Flushes(count: nat, m: nat, g: nat): nat
    decreases m
  {
    if m == 0 then 0 else if count + 1 == g then 1 + Flushes(0, m - 1, g) else Flushes(count + 1, m - 1, g)
  }

  lemma {:induction false} FlushesWhole(q: nat, count: nat, m: nat, g: nat)
    requires count < g && count + m == q * g
    ensures Flushes(count, m, g) == q
    decreases m
  {
    if m == 0 {
      assert q * g < g && (q > 0 ==> q * g >= g);
    } else if count + 1 == g {
      assert q > 0 && (q - 1) * g == q * g - g;
      FlushesWhole(q - 1, 0, m - 1, g);
    } else {
      FlushesWhole(q, count + 1, m - 1, g);
    }
  }

  lemma {:induction false} EmitLength(syms: seq<Sym>, crc: Sym, count: nat, g: Group)
    ensures |Emit(syms, crc, count, g)| == |syms| + (if g.size == 0 then 0 else Flushes(count, |syms|, g.size))
    decreases |syms|
  {
    if syms != [] {
      if g.size == 0 {
        EmitLength(syms[1..], crc, count, g);
      } else if count + 1 == g.size {
        EmitLength(syms[1..], 0, 0, g);
      } else {
        EmitLength(syms[1..], g.crc(syms[0], crc), count + 1, g);
      }
    }
  }

  /** Characters an encoding needs, with its terminating null. */
  function Needed(n: nat, every: nat): nat {
    SymbolCount(n) + (if every == 0 then 0 else SymbolCount(n) / every) + 1
  }

  lemma SentLength(syms: seq<Sym>, n: nat, every: nat)
    requires |syms| == SymbolCount(n) && (every > 0 ==> |syms| % every == 0)
    ensures |Emit(syms, 0, 0, Crc5Group(every))| + 1 == Needed(n, every)
  {
    EmitLength(syms, 0, 0, Crc5Group(every));
    if every > 0 {
      assert |syms| == |syms| / every * every;
      FlushesWhole(|syms| / every, 0, |syms|, every);
    }
  }

  lemma PairIsBit(src: seq<Octet>, b0: Octet, b1: Octet, i: nat, j: nat, n: nat)
    requires i < n < 8 * |src| && j < 5
    requires b0 == src[i / 8] && (i / 8 + 1 < |src| ==> b1 == src[i / 8 + 1])
    ensures (j < n - i && PairBit(b0, b1, i % 8 + j)) == BitAt(Bits(src, n), i + j)
  {
    if j < n - i {
      var o := i % 8 + j;
      assert i + j == 8 * (i / 8) + o;
      if o < 8 {
        assert (i + j) / 8 == i / 8 && (i + j) % 8 == o;
      } else {
        assert (i + j) / 8 == i / 8 + 1 && (i + j) % 8 == o - 8;
      }
    }
  }

  /** The symbol cut at bit i is the one those bits make, whatever lies behind the source's last bit. */
  lemma CutIsSymbol(src: seq<Octet>, b0: Octet, b1: Octet, i: nat, n: nat, s: Octet)
    requires i < n < 8 * |src| && i % 5 == 0
    requires b0 == src[i / 8] && (i / 8 + 1 < |src| ==> b1 == src[i / 8 + 1])
    requires s == CutSymbol(b0, b1, i % 8, n - i)
    ensures s < 32 && s == Symbols(Bits(src, n))[i / 5]
  {
    CutSymbolBits(b0, b1, i % 8, n - i);
    PairIsBit(src, b0, b1, i, 0, n);
    PairIsBit(src, b0, b1, i, 1, n);
    PairIsBit(src, b0, b1, i, 2, n);
    PairIsBit(src, b0, b1, i, 3, n);
    PairIsBit(src, b0, b1, i, 4, n);
    var bits := Bits(src, n);
    assert 5 * (i / 5) == i;
    SymbolIs(s, Symbols(bits)[i / 5], b0, b1, i % 8, n - i, bits, i);
  }

  lemma SymbolIs(s: Octet, t: Sym, b0: Octet, b1: Octet, offs: nat, left: nat, bits: seq<bool>, i: nat)
    requires offs < 8 && IsCut(s, b0, b1, offs, left)
    requires (0 < left && PairBit(b0, b1, offs)) == BitAt(bits, i) && (1 < left && PairBit(b0, b1, offs + 1)) == BitAt(bits, i + 1)
    requires (2 < left && PairBit(b0, b1, offs + 2)) == BitAt(bits, i + 2) && (3 < left && PairBit(b0, b1, offs + 3)) == BitAt(bits, i + 3)
    requires (4 < left && PairBit(b0, b1, offs + 4)) == BitAt(bits, i + 4)
    requires t == MakeSym(BitAt(bits, i), BitAt(bits, i + 1), BitAt(bits, i + 2), BitAt(bits, i + 3), BitAt(bits, i + 4))
    ensures s == t
  {
    SameSymbol(s, t);
  }

  /** What is sent from the k-th symbol on. */
  lemma EmitFrom(syms: seq<Sym>, k: nat, crc: Sym, count: nat, g: Group)
    requires k < |syms|
    ensures var sent := Emit(syms[k..], crc, count, g);
            && |sent| > 0 && sent[0] == syms[k]
            && if g.size == 0 then sent[1..] == Emit(syms[k + 1..], crc, count, g)
               else if count + 1 == g.size then
                 |sent| > 1 && sent[1] == g.crc(syms[k], crc) && sent[2..] == Emit(syms[k + 1..], 0, 0, g)
               else sent[1..] == Emit(syms[k + 1..], g.crc(syms[k], crc), count + 1, g)
  {
    assert syms[k..][1..] == syms[k + 1..];
  }

  function Nth(syms: seq<Sym>, k: nat): Sym
    requires k < |syms|
  {
    syms[k]
  }

  /** syms are the symbols of the first n source bits. */
  ghost predicate Sources(syms: seq<Sym>, src: seq<Octet>, n: nat)
    requires n <= 8 * |src|
  {
    && |syms| == SymbolCount(n)
    && forall k: nat {:trigger Nth(syms, k)} :: k < |syms| ==> Nth(syms, k) == Symbols(Bits(src, n))[k]
  }

  /** The first half of the encoder's loop body: the symbol at bit i, cut from one or two bytes. */
  method CutAt(src: seq<Octet>, i: nat, srclenBits: nat, ghost k: nat, ghost syms: seq<Sym>) returns (sym: Sym)
    requires i < srclenBits && i == 5 * k && |src| > (srclenBits + 7) / 8 && Sources(syms, src, srclenBits)
    ensures k < |syms| && sym == syms[k]
  {
    var sidx, bitOffs := i / 8, i % 8;
    var s := CutSymbol(src[sidx], src[sidx + 1], bitOffs, srclenBits - i);
    CutIsSymbol(src, src[sidx], src[sidx + 1], i, srclenBits, s);
    sym := s;
    assert sym == Nth(syms, k);
  }

  /** The first characters of what is sent are in the buffer, and everything from its end on is as before. */
  ghost predicate Progress(now: seq<char>, was: seq<char>, sent: seq<Sym>, at: nat) {
    && at <= |sent| < |now| == |was|
    && (forall k :: 0 <= k < at ==> now[k] == SymChar(sent[k]))
    && forall k :: |sent| <= k < |now| ==> now[k] == was[k]
  }

  /** One character more. */
  method PutSymbol(dest: array<char>, at: nat, s: Sym, ghost was: seq<char>, ghost sent: seq<Sym>)
    requires Progress(dest[..], was, sent, at) && at < |sent| && sent[at] == s
    modifies dest
    ensures Progress(dest[..], was, sent, at + 1)
  {
    dest[at] := SymChar(s);
  }

  /** The terminating null. */
  method Terminate(dest: array<char>, at: nat, ghost was: seq<char>, ghost sent: seq<Sym>)
    requires Progress(dest[..], was, sent, at) && at == |sent|
    modifies dest
    ensures dest[..at] == Text(sent) && dest[at] == '\0' && dest[at + 1..] == was[at + 1..]
  {
    dest[at] := '\0';
  }

  /** The second half: the symbol goes out, and the CRC after the last of a group. */
  method SendSymbol(dest: array<char>, at: nat, sym: Sym, crcIn: Sym, countIn: nat, every: nat,
                    ghost was: seq<char>, ghost sent: seq<Sym>, ghost syms: seq<Sym>, ghost k: nat)
    returns (didx: nat, crc: Sym, crcCount: nat)
    requires k < |syms| && sym == syms[k] && (every > 0 ==> countIn < every) && Progress(dest[..], was, sent, at)
    requires sent[at..] == Emit(syms[k..], crcIn, countIn, Crc5Group(every))
    modifies dest
    ensures Progress(dest[..], was, sent, didx) && (every > 0 ==> crcCount < every)
    ensures sent[didx..] == Emit(syms[k + 1..], crc, crcCount, Crc5Group(every))
  {
    EmitFrom(syms, k, crcIn, countIn, Crc5Group(every));
    didx, crc, crcCount := at, crcIn, countIn;
    assert sent[didx] == sent[at..][0];
    PutSymbol(dest, didx, sym, was, sent);
    didx := didx + 1;
    if every != 0 {
      crc := Crc5Sym(sym, crc);
      crcCount := crcCount + 1;
      if crcCount == every {
        assert sent[didx] == sent[at..][1];
        PutSymbol(dest, didx, crc, was, sent);
        didx := didx + 1;
        crcCount, crc := 0, 0;
      }
    }
  }

  /** The symbol loop and the terminating null. */
  method SendAll(dest: array<char>, src: seq<Octet>, srclenBits: nat, addCrcEvery: nat, ghost syms: seq<Sym>)
    requires (srclenBits > 0 ==> |src| > (srclenBits + 7) / 8) && Sources(syms, src, srclenBits)
    requires |Emit(syms, 0, 0, Crc5Group(addCrcEvery))| < dest.Length
    modifies dest
    ensures var sent := Text(Emit(syms, 0, 0, Crc5Group(addCrcEvery)));
            dest[..|sent|] == sent && dest[|sent|] == '\0' && dest[|sent| + 1..] == old(dest[|sent| + 1..])
  {
    ghost var g, was := Crc5Group(addCrcEvery), dest[..];
    ghost var sent := Emit(syms, 0, 0, g);
    var crc: Sym, crcCount: nat, didx: nat, i: nat := 0, 0, 0, 0;
    ghost var k: nat := 0;
    assert syms[0..] == syms;
    while i < srclenBits
      invariant i == 5 * k && k <= |syms| && Progress(dest[..], was, sent, didx)
      invariant addCrcEvery > 0 ==> crcCount < addCrcEvery
      invariant sent[didx..] == Emit(syms[k..], crc, crcCount, g)
    {
      var sym := CutAt(src, i, srclenBits, k, syms);
      didx, crc, crcCount := SendSymbol(dest, didx, sym, crc, crcCount, addCrcEvery, was, sent, syms, k);
      i, k := i + 5, k + 1;
    }
    assert syms[k..] == [] && didx == |sent|;
    Terminate(dest, didx, was, sent);
  }

  method Base32Encode(dest: array<char>, destlenChars: int, src: seq<Octet>, srclenBits: nat, addCrcEvery: nat)
    returns (err: Status)
    requires dest.Length > 0 && destlenChars <= dest.Length
    requires srclenBits > 0 ==> |src| > (srclenBits + 7) / 8     // one byte of slack behind the last source byte
    modifies dest
    ensures err == EcSuccess <==>
      && (addCrcEvery > 0 ==> |Symbols(Bits(src, srclenBits))| % addCrcEvery == 0)
      && |Emit(Symbols(Bits(src, srclenBits)), 0, 0, Crc5Group(addCrcEvery))| < destlenChars
    ensures err == EcSuccess ==>
              var sent := Text(Emit(Symbols(Bits(src, srclenBits)), 0, 0, Crc5Group(addCrcEvery)));
              && |sent| < destlenChars && dest[..|sent|] == sent && dest[|sent|] == '\0'
              && dest[|sent| + 1..] == old(dest[|sent| + 1..])
    ensures err != EcSuccess ==> dest[0] == '\0' && dest[1..] == old(dest[1..])
  {
    dest[0] := '\0';
    var destlenNeeded := (srclenBits + 4) / 5;
    if addCrcEvery != 0 {
      if destlenNeeded % addCrcEvery != 0 { return EcErrorInval; }
      destlenNeeded := destlenNeeded + destlenNeeded / addCrcEvery;
    }
    destlenNeeded := destlenNeeded + 1;
    assert destlenNeeded == Needed(srclenBits, addCrcEvery);
    SentLength(Symbols(Bits(src, srclenBits)), srclenBits, addCrcEvery);
    if destlenChars < destlenNeeded { return EcErrorInval; }
    SendAll(dest, src, srclenBits, addCrcEvery, Symbols(Bits(src, srclenBits)));
    return EcSuccess;
  }

  // ------------------------------------------------------------ decoding

  method DecodeSym(sym: char) returns (r: int)
    ensures match CharSym(sym) case None => r == -1 case Some(s) => r == s as int
  {
    for i := 0 to 32
      invariant FindChar(sym, 0) == FindChar(sym, i)
    {
      if sym == BASE32_MAP[i] {
        assert CharSym(sym) == Some(IndexSym(i));
        return i;
      }
    }
    return -1;
  }

  /** The buffer holds these bits, and zeros in the rest of the last byte they reach. */
  ghost predicate Stored(dest: seq<Octet>, bits: seq<bool>) {
    && |bits| <= 8 * |dest|
    && forall i: nat :: i < 8 * ((|bits| + 7) / 8) ==> Bit(dest, i) == BitAt(bits, i)
  }

  /** What a symbol leaves in the byte after the one it starts in. */
  ghost predicate Spilled(next: Octet, r: nat, sym: Sym, k: nat)
    requires k <= 5 && r < 8
  {
    forall o :: 0 <= o < 8 ==> ByteBit(next, o) == (8 - r + o < k && SymBit(sym, 8 - r + o))
  }

  lemma SpilledBit(next: Octet, r: nat, sym: Sym, k: nat, o: nat)
    requires k <= 5 && r < 8 && o < 8 && Spilled(next, r, sym, k)
    ensures ByteBit(next, o) == (8 - r + o < k && SymBit(sym, 8 - r + o))
  {
  }

  /** Bit i of the buffer after the stores of k more bits. */
  lemma StoredBit(was: seq<Octet>, now: seq<Octet>, bits: seq<bool>, sym: Sym, k: nat, i: nat)
    requires 0 < k <= 5 && Stored(was, bits) && |now| == |was| && |bits| + k <= 8 * |was|
    requires Packed(was, now, |bits|, sym, k)
    requires i < 8 * ((|bits| + k + 7) / 8)
    ensures Bit(now, i) == BitAt(bits + SymBits(sym, k), i)
  {
    var r, at := |bits| % 8, |bits| / 8;
    if i / 8 < at {
      assert Bit(now, i) == Bit(was, i);
    } else if i / 8 == at {
      assert Bit(now, i) == if i % 8 < r then ByteBit(was[at], i % 8) else i % 8 < r + k && SymBit(sym, i % 8 - r);
      assert i % 8 < r ==> Bit(was, i) == BitAt(bits, i);
    } else {
      assert i / 8 == at + 1 && 8 - r < k;
      var o, j := i % 8, i - |bits|;
      assert j == 8 - r + o;
      SpilledBit(now[at + 1], r, sym, k, o);
      assert BitAt(bits + SymBits(sym, k), i) == (j < k && SymBit(sym, j));
    }
  }

  /** The two stores changed the byte at the end of the bits and, if they overflow it, the next one. */
  ghost predicate Packed(was: seq<Octet>, now: seq<Octet>, n: nat, sym: Sym, k: nat)
    requires 0 < k <= 5 && |now| == |was| && n + k <= 8 * |was|
  {
    var r, at := n % 8, n / 8;
    && (forall q :: 0 <= q < at ==> now[q] == was[q])
    && (forall o :: 0 <= o < 8 ==>
          ByteBit(now[at], o) == if o < r then ByteBit(was[at], o) else o < r + k && SymBit(sym, o - r))
    && (8 - r < k ==> Spilled(now[at + 1], r, sym, k))
  }

  /** The decoder's stores: the first k bits of a symbol go behind the bits already stored. */
  method StoreBits(dest: array<Octet>, outBits: nat, sym: Sym, k: nat, ghost bits: seq<bool>) returns (out: nat)
    requires 0 < k <= 5 && outBits == |bits| && outBits + k <= 8 * dest.Length
    requires Stored(dest[..], bits)
    modifies dest
    ensures out == outBits + k && Stored(dest[..], bits + SymBits(sym, k))
    ensures forall i :: (out + 7) / 8 <= i < dest.Length ==> dest[i] == old(dest[i])
  {
    PackStores(dest, outBits, sym, k, bits);
    out := outBits + k;
    forall i: nat | i < 8 * ((out + 7) / 8)
      ensures Bit(dest[..], i) == BitAt(bits + SymBits(sym, k), i)
    {
      StoredBit(old(dest[..]), dest[..], bits, sym, k, i);
    }
  }

  /** The two bytes to store. */
  method Pack(byte: Octet, sym: Sym, r: nat, k: nat) returns (first: Octet, second: Octet)
    requires r < 8 && 0 < k <= 5
    requires r > 0 ==> forall i :: r <= i < 8 ==> !ByteBit(byte, i)
    ensures forall o :: 0 <= o < 8 ==>
              ByteBit(first, o) == if o < r then ByteBit(byte, o) else o < r + k && SymBit(sym, o - r)
    ensures 8 - r < k ==>
              forall o :: 0 <= o < 8 ==> ByteBit(second, o) == (8 - r + o < k && SymBit(sym, 8 - r + o))
  {
    var s := Low(Shr(sym as bv16, 5 - k));
    var b := Min(8 - r, k);
    first := PackFirst(byte, s, r, k);
    second := if k - b > 0 then PackSecond(s, k - b) else 0;
    PackBits(byte, first, second, sym, r, k);
  }

  method PackStores(dest: array<Octet>, outBits: nat, sym: Sym, k: nat, ghost bits: seq<bool>)
    requires 0 < k <= 5 && outBits == |bits| && outBits + k <= 8 * dest.Length
    requires Stored(dest[..], bits)
    modifies dest
    ensures Packed(old(dest[..]), dest[..], outBits, sym, k)
    ensures forall i :: (outBits + k + 7) / 8 <= i < dest.Length ==> dest[i] == old(dest[i])
  {
    ghost var was := dest[..];
    var r, at := outBits % 8, outBits / 8;
    ZeroTail(dest[..], bits, dest[at]);
    var first, second := Pack(dest[at], sym, r, k);
    PutTwo(dest, at, first, second, k > 8 - r);
    PackedTwo(was, dest[..], outBits, sym, k, first, second);
  }

  method PutTwo(dest: array<Octet>, at: nat, first: Octet, second: Octet, both: bool)
    requires at < dest.Length && (both ==> at + 1 < dest.Length)
    modifies dest
    ensures forall i :: 0 <= i < dest.Length ==>
              dest[i] == if i == at then first else if both && i == at + 1 then second else old(dest[i])
  {
    dest[at] := first;
    if both {
      dest[at + 1] := second;
    }
  }

  lemma PackedTwo(was: seq<Octet>, now: seq<Octet>, n: nat, sym: Sym, k: nat, first: Octet, second: Octet)
    requires 0 < k <= 5 && |now| == |was| && n + k <= 8 * |was|
    requires forall q :: 0 <= q < n / 8 ==> now[q] == was[q]
    requires now[n / 8] == first && (8 - n % 8 < k ==> now[n / 8 + 1] == second)
    requires forall o :: 0 <= o < 8 ==>
               ByteBit(first, o) == if o < n % 8 then ByteBit(was[n / 8], o) else o < n % 8 + k && SymBit(sym, o - n % 8)
    requires 8 - n % 8 < k ==>
               forall o :: 0 <= o < 8 ==> ByteBit(second, o) == (8 - n % 8 + o < k && SymBit(sym, 8 - n % 8 + o))
    ensures Packed(was, now, n, sym, k)
  {
  }

  lemma ZeroTail(dest: seq<Octet>, bits: seq<bool>, byte: Octet)
    requires Stored(dest, bits) && |bits| < 8 * |dest| && byte == dest[|bits| / 8]
    ensures |bits| % 8 > 0 ==> forall i :: |bits| % 8 <= i < 8 ==> !ByteBit(byte, i)
  {
    var r, at := |bits| % 8, |bits| / 8;
    if r > 0 {
      forall i | r <= i < 8
        ensures !ByteBit(byte, i)
      {
        assert (8 * at + i) / 8 == at && (8 * at + i) % 8 == i;
        assert Bit(dest, 8 * at + i) == BitAt(bits, 8 * at + i);
      }
    }
  }

  /** One symbol of the decoder, CRC check and stores; full says it stopped for lack of space. */
  method TakeSymbol(dest: array<Octet>, sym: Sym, crcIn: Sym, countIn: nat, outIn: nat, destlenBits: nat, every: nat,
                    ghost bits: seq<bool>)
    returns (bad: bool, full: bool, crc: Sym, crcCount: nat, outBits: nat, ghost after: seq<bool>)
    requires outIn == |bits| <= destlenBits && Stored(dest[..], bits)
    requires 8 * dest.Length >= Min(destlenBits, outIn + 5)
    modifies dest
    ensures Take(Run(crcIn, countIn, bits), sym, Crc5Group(every), destlenBits)
         == if bad then Bad else if full then Full(crcCount, after) else Run(crc, crcCount, after)
    ensures outBits == |after| <= destlenBits && outIn <= outBits <= outIn + 5 && Stored(dest[..], after)
    ensures forall i :: (outBits + 7) / 8 <= i < dest.Length ==> dest[i] == old(dest[i])
  {
    bad, full, crc, crcCount, outBits, after := false, false, crcIn, countIn, outIn, bits;
    if every != 0 {
      if crcCount == every {
        if crc != sym {
          bad := true;
          return;
        }
        crcCount, crc := 0, 0;
        return;
      } else {
        crc := Crc5Sym(sym, crc);
        crcCount := crcCount + 1;
      }
    }
    if outBits >= destlenBits {
      full := true;
      return;
    }
    var sbits := Min(5, destlenBits - outBits);
    outBits := StoreBits(dest, outBits, sym, sbits, bits);
    after := bits + SymBits(sym, sbits);
  }

  /** One character of the input. */
  method TakeOne(dest: array<Octet>, c: char, crcIn: Sym, countIn: nat, outIn: nat, destlenBits: nat, every: nat,
                 ghost bits: seq<bool>)
    returns (bad: bool, full: bool, crc: Sym, crcCount: nat, outBits: nat, ghost after: seq<bool>)
    requires outIn == |bits| <= destlenBits && Stored(dest[..], bits)
    requires 8 * dest.Length >= Min(destlenBits, outIn + 5)
    modifies dest
    ensures TakeChar(Run(crcIn, countIn, bits), c, Crc5Group(every), destlenBits)
         == if bad then Bad else if full then Full(crcCount, after) else Run(crc, crcCount, after)
    ensures outBits == |after| <= destlenBits && outBits <= outIn + 5 && Stored(dest[..], after)
    ensures outIn <= outBits && forall i :: (outBits + 7) / 8 <= i < dest.Length ==> dest[i] == old(dest[i])
  {
    bad, full, crc, crcCount, outBits, after := false, false, crcIn, countIn, outIn, bits;
    if Separator(c) { return; }
    var v := DecodeSym(c);
    if v < 0 {
      bad := true;
      return;
    }
    bad, full, crc, crcCount, outBits, after := TakeSymbol(dest, IndexSym(v), crcIn, countIn, outIn, destlenBits, every, bits);
  }

  method Base32Decode(dest: array<Octet>, destlenBits: nat, src: string, crcAfterEvery: nat) returns (r: int)
    requires 8 * dest.Length >= Min(destlenBits, 5 * |src|)
    modifies dest
    ensures match Decode(src, Crc5Group(crcAfterEvery), destlenBits)
            case None => r == -1
            case Some(bits) =>
              && r == |bits| && Stored(dest[..], bits)
              && forall i :: (|bits| + 7) / 8 <= i < dest.Length ==> dest[i] == old(dest[i])
  {
    ghost var g := Crc5Group(crcAfterEvery);
    ghost var all := DecodeFrom(START, src, g, destlenBits);
    ghost var bits: seq<bool> := [];
    var crc: Sym, crcCount: nat, outBits: nat, i: nat := 0, 0, 0, 0;
    assert src[0..] == src;
    while i < |src|
      invariant i <= |src| && outBits == |bits| <= destlenBits && outBits <= 5 * i
      invariant DecodeFrom(Run(crc, crcCount, bits), src[i..], g, destlenBits) == all
      invariant Stored(dest[..], bits)
      invariant forall j :: (outBits + 7) / 8 <= j < dest.Length ==> dest[j] == old(dest[j])
    {
      assert src[i..][0] == src[i] && src[i..][1..] == src[i + 1..];
      var bad, full;
      bad, full, crc, crcCount, outBits, bits :=
        TakeOne(dest, src[i], crc, crcCount, outBits, destlenBits, crcAfterEvery, bits);
      if bad { return -1; }
      if full { break; }
      i := i + 1;
    }
    if crcAfterEvery != 0 && crcCount != 0 { return -1; }
    return outBits;
  }

  // -------------------------------------------------------- put together

  /**
   * Whatever base32_encode writes for the first n bits of src, base32_decode reads
   * back as those n bits, with spaces and dashes put in anywhere on the way.
   */
  lemma EncodedDecodes(src: seq<Octet>, n: nat, every: nat, typed: string)
    requires n <= 8 * |src| && (every > 0 ==> SymbolCount(n) % every == 0)
    requires Strip(typed) == Text(Emit(Symbols(Bits(src, n)), 0, 0, Crc5Group(every)))
    ensures Decode(typed, Crc5Group(every), n) == Some(Bits(src, n))
  {
    SymbolsHold(Bits(src, n));
    RoundTrip(Bits(src, n), Symbols(Bits(src, n)), typed, Crc5Group(every));
  }
}
