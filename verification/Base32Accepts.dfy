// Which texts the decoder of common/base32.c accepts: with CRC groups, those an
// encoder sends and no others.
module Base32Accepts {
  import opened Base32Bits
  import opened Base32Code

  /** The text, without its separators, is what an encoder sends for these symbols, and none of them is more than n bits need. */
  ghost predicate Sent(text: string, syms: seq<Sym>, g: Group, n: nat)
    requires g.size > 0
  {
    && |syms| % g.size == 0 && 5 * |syms| < n + 5
    && Strip(text) == Text(Emit(syms, 0, 0, g))
  }

  /** What is still to be sent of a group of which `count` symbols have brought the CRC to crc. */
  function Remaining(syms: seq<Sym>, crc: Sym, count: nat, g: Group): seq<Sym> {
    if count == g.size then [crc] + Emit(syms, 0, 0, g) else Emit(syms, crc, count, g)
  }

  /** These symbols are what was sent behind what the decoder has, and what made it end as it did. */
  ghost predicate Explains(d: Decoder, text: string, g: Group, n: nat, syms: seq<Sym>, e: Decoder)
    requires d.Run? && e.Run?
  {
    && Strip(text) == Text(Remaining(syms, d.crc, d.count, g))
    && EndCount(if d.count == g.size then 0 else d.count, |syms|, g.size) == 0
    && Room(|d.bits|, |syms|, n)
    && e.bits == d.bits + Gather(syms, n - |d.bits|)
  }

  /** A decoder that stops early has counted a symbol of a group that does not end. */
  lemma {:induction false} FullIsInsideAGroup(d: Decoder, text: string, g: Group, n: nat)
    requires g.size > 0 && d.Run?
    ensures var e := DecodeFrom(d, text, g, n); e.Full? ==> e.count > 0
    decreases |text|
  {
    if text != [] {
      var d1 := TakeChar(d, text[0], g, n);
      if d1.Run? {
        FullIsInsideAGroup(d1, text[1..], g, n);
      }
    }
  }

  lemma CharIsSym(c: char, s: Sym)
    requires CharSym(c) == Some(s)
    ensures c == SymChar(s) && !Separator(c)
  {
    SymCharIsNoSeparator(s);
  }

  lemma TextCons(s: Sym, rest: seq<Sym>)
    ensures Text([s] + rest) == [SymChar(s)] + Text(rest)
  {
  }

  /** The symbol read is the CRC that was due. */
  lemma AfterCrc(d: Decoder, text: string, g: Group, n: nat, syms: seq<Sym>, e: Decoder)
    requires g.size > 0 && d.Run? && e.Run? && d.count == g.size && text != [] && text[0] == SymChar(d.crc) && !Separator(text[0])
    requires Explains(Run(0, 0, d.bits), text[1..], g, n, syms, e)
    ensures Explains(d, text, g, n, syms, e)
  {
    TextCons(d.crc, Emit(syms, 0, 0, g));
  }

  /** The symbol read is one of the data. */
  lemma AfterData(d: Decoder, s: Sym, text: string, g: Group, n: nat, rest: seq<Sym>, e: Decoder)
    requires d.Run? && e.Run? && d.count < g.size && text != [] && text[0] == SymChar(s) && !Separator(text[0])
    requires |d.bits| < n && Explains(Take(d, s, g, n), text[1..], g, n, rest, e)
    ensures Explains(d, text, g, n, [s] + rest, e)
  {
    var d1 := Take(d, s, g, n);
    EmitCons(s, rest, d.crc, d.count, g);
    TextCons(s, Remaining(rest, d1.crc, d1.count, g));
    Assoc(d.bits, SymBits(s, Min(5, n - |d.bits|)), Gather(rest, n - |d1.bits|));
    assert ([s] + rest)[1..] == rest;
  }

  lemma {:induction false} AcceptedIsSent(d: Decoder, text: string, g: Group, n: nat, e: Decoder) returns (syms: seq<Sym>)
    requires g.size > 0 && d.Run? && d.count <= g.size && |d.bits| <= n
    requires e == DecodeFrom(d, text, g, n) && e.Run? && e.count == 0
    ensures Explains(d, text, g, n, syms, e)
    decreases |text|
  {
    if text == [] {
      syms := [];
      assert d.bits + [] == d.bits;
    } else if Separator(text[0]) {
      syms := AcceptedIsSent(d, text[1..], g, n, e);
    } else {
      var s := CharSym(text[0]).value;
      var d1 := Take(d, s, g, n);
      CharIsSym(text[0], s);
      var rest := AcceptedIsSent(d1, text[1..], g, n, e);
      if d.count == g.size {
        syms := rest;
        AfterCrc(d, text, g, n, syms, e);
      } else {
        syms := [s] + rest;
        AfterData(d, s, text, g, n, rest, e);
      }
    }
  }

  lemma Wraps(x: nat, g: nat)
    requires g > 0
    ensures (g + x) % g == x % g
  {
    var k := (g + x) / g - x / g - 1;
    assert k * g == x % g - (g + x) % g;
    assert k > 0 ==> k * g >= g;
    assert k < 0 ==> k * g + g <= 0;
  }

  lemma {:induction false} EndCountIsModulo(count: nat, m: nat, g: nat)
    requires count < g
    ensures EndCount(count, m, g) == (count + m) % g
    decreases m
  {
    if m > 0 {
      if count + 1 == g {
        EndCountIsModulo(0, m - 1, g);
        Wraps(m - 1, g);
      } else {
        EndCountIsModulo(count + 1, m - 1, g);
      }
    }
  }

  lemma SentIsAccepted(text: string, syms: seq<Sym>, g: Group, n: nat)
    requires g.size > 0 && Sent(text, syms, g, n)
    ensures Decode(text, g, n) == Some(Gather(syms, n))
  {
    DecodeIgnoresSeparators(START, text, g, n);
    DecodeText(START, Emit(syms, 0, 0, g), g, n);
    Lockstep(syms, 0, 0, [], g, n);
    ExactGroups(|syms|, g.size);
    assert [] + Gather(syms, n) == Gather(syms, n);
  }

  /**
   * The decoder accepts exactly what an encoder sends: whole groups of symbols with the
   * right CRC behind each, and no symbol more than n bits need. It returns their first n
   * bits.
   */
  lemma AcceptsExactlyWhatIsSent(text: string, g: Group, n: nat)
    requires g.size > 0
    ensures Decode(text, g, n).Some? <==> exists syms :: Sent(text, syms, g, n)
    ensures forall syms :: Sent(text, syms, g, n) ==> Decode(text, g, n) == Some(Gather(syms, n))
  {
    forall syms | Sent(text, syms, g, n) ensures Decode(text, g, n) == Some(Gather(syms, n)) {
      SentIsAccepted(text, syms, g, n);
    }
    if Decode(text, g, n).Some? {
      FullIsInsideAGroup(START, text, g, n);
      var syms := AcceptedIsSent(START, text, g, n, DecodeFrom(START, text, g, n));
      EndCountIsModulo(0, |syms|, g.size);
      assert Sent(text, syms, g, n);
    }
  }
}
