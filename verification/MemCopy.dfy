// memcpy, memmove and memset of builtin/stdlib.c over one flat byte memory:
// indices are addresses, and four bytes are moved at a time where alignment allows.
module MemCopy {

  type Octet = bv8

  /** The 32-bit little-endian word made of four bytes. */
  function Word(b0: Octet, b1: Octet, b2: Octet, b3: Octet): bv32 {
    b0 as bv32 | (b1 as bv32 << 8) | (b2 as bv32 << 16) | (b3 as bv32 << 24)
  }

  /** Byte k of a word. */
  function WordByte(w: bv32, k: nat): Octet
    requires k < 4
  {
    match k
    case 0 => (w & 0xff) as bv8
    case 1 => ((w >> 8) & 0xff) as bv8
    case 2 => ((w >> 16) & 0xff) as bv8
    case 3 => ((w >> 24) & 0xff) as bv8
  }

  lemma WordBytes(b0: Octet, b1: Octet, b2: Octet, b3: Octet)
    ensures var w := Word(b0, b1, b2, b3);
            WordByte(w, 0) == b0 && WordByte(w, 1) == b1 && WordByte(w, 2) == b2 && WordByte(w, 3) == b3
  {
  }

  function Fill(b: Octet, n: nat): seq<Octet> {
    seq(n, _ => b)
  }

  function RoundDown(a: nat): (r: nat)
    ensures r % 4 == 0 && r <= a < r + 4
  {
    a / 4 * 4
  }

  function RoundUp(a: nat): (r: nat)
    ensures r % 4 == 0 && a <= r < a + 4
  {
    (a + 3) / 4 * 4
  }

  /** The number of words between two aligned places. */
  function Words(lo: nat, hi: nat): (n: nat)
    requires lo < hi ==> lo % 4 == hi % 4 == 0
    ensures if lo < hi then hi == lo + 4 * n else n == 0
  {
    if lo < hi then (hi - lo) / 4 else 0
  }

  lemma FourOn(a: int)
    ensures (a + 4) % 4 == a % 4
  {
  }

  lemma StaysAligned(a: nat, b: nat, h: nat)
    requires a % 4 == b % 4 && h % 4 == 0
    ensures (h + b - a) % 4 == 0
  {
    var k := h / 4 + b / 4 - a / 4;
    assert h + b - a == 4 * k;
  }

  /** Where an upward copy may switch to words: nowhere, if source and destination are misaligned. */
  function HeadUp(dest: nat, src: nat, tail: nat): (h: nat)
    requires dest <= tail
    ensures dest <= h <= tail && (h < RoundDown(tail) ==> h % 4 == (h + src - dest) % 4 == 0)
  {
    if dest % 4 != src % 4 || tail < RoundUp(dest) then tail
    else
      StaysAligned(dest, src, RoundUp(dest));
      RoundUp(dest)
  }

  /** Where a downward copy from the end d (source end s) may switch to words. */
  function HeadDown(tail: nat, d: nat, s: nat): (h: nat)
    requires tail <= d && d - tail <= s
    ensures tail <= h <= d && (h > RoundUp(tail) ==> h % 4 == (h + s - d) % 4 == 0)
  {
    var first := s - (d - tail);
    if tail % 4 != first % 4 || tail > RoundDown(d) then tail
    else
      StaysAligned(tail, first, RoundDown(d));
      RoundDown(d)
  }

  /** All bytes of [src, src + len) moved to dest at one stroke. */
  function Copied(m: seq<Octet>, dest: nat, src: nat, len: nat): (r: seq<Octet>)
    requires dest + len <= |m| && src + len <= |m|
    ensures |r| == |m|
  {
    m[..dest] + m[src..src + len] + m[dest + len..]
  }

  /** Byte by byte: the bytes of the source as they were, and everything outside untouched. */
  lemma CopiedAt(m: seq<Octet>, dest: nat, src: nat, len: nat, i: nat)
    requires dest + len <= |m| && src + len <= |m| && i < |m|
    ensures Copied(m, dest, src, len)[i] == if dest <= i < dest + len then m[src + (i - dest)] else m[i]
  {
  }

  function LoadWord(m: seq<Octet>, a: nat): bv32
    requires a + 4 <= |m|
  {
    Word(m[a], m[a + 1], m[a + 2], m[a + 3])
  }

  method StoreWord(mem: array<Octet>, a: nat, w: bv32)
    requires a + 4 <= mem.Length
    modifies mem
    ensures forall i :: 0 <= i < mem.Length ==>
              mem[i] == if a <= i < a + 4 then WordByte(w, i - a) else old(mem[i])
  {
    mem[a], mem[a + 1], mem[a + 2], mem[a + 3] := WordByte(w, 0), WordByte(w, 1), WordByte(w, 2), WordByte(w, 3);
  }

  /** *dw = cccc, an aligned word with the same byte four times. */
  method FillWord(mem: array<Octet>, d: nat, b: Octet)
    requires d % 4 == 0 && d + 4 <= mem.Length
    modifies mem
    ensures forall i :: 0 <= i < mem.Length ==> mem[i] == if d <= i < d + 4 then b else old(mem[i])
  {
    WordBytes(b, b, b, b);
    StoreWord(mem, d, Word(b, b, b, b));
  }

  ghost function At(m: seq<Octet>, i: nat): Octet
    requires i < |m|
  {
    m[i]
  }

  /** [lo, hi) now holds what was shift bytes further on before, and nothing else changed. */
  ghost predicate MovedBy(now: seq<Octet>, was: seq<Octet>, lo: nat, hi: nat, shift: int)
    requires hi <= |was| && 0 <= lo + shift && hi + shift <= |was|
  {
    && |now| == |was|
    && forall i: nat {:trigger At(now, i)} :: i < |was| ==> At(now, i) == was[if lo <= i < hi then i + shift else i]
  }

  /** Moving a first part and then the rest, upwards, is moving the whole. */
  lemma JoinUp(a: seq<Octet>, b: seq<Octet>, c: seq<Octet>, lo: nat, mid: nat, hi: nat, shift: int)
    requires lo <= mid <= hi <= |a| && 0 <= lo + shift && hi + shift <= |a| && (shift >= 0 || hi + shift <= lo)
    requires MovedBy(b, a, lo, mid, shift) && MovedBy(c, b, mid, hi, shift)
    ensures MovedBy(c, a, lo, hi, shift)
  {
    forall i: nat | i < |a|
      ensures At(c, i) == a[if lo <= i < hi then i + shift else i]
    {
      var j := if mid <= i < hi then i + shift else i;
      assert At(b, j) == b[j];
    }
  }

  /** Moving in three parts, upwards. */
  lemma JoinThreeUp(a: seq<Octet>, b: seq<Octet>, c: seq<Octet>, d: seq<Octet>, lo: nat, p: nat, q: nat, hi: nat, shift: int)
    requires lo <= p <= q <= hi <= |a| && 0 <= lo + shift && hi + shift <= |a| && (shift >= 0 || hi + shift <= lo)
    requires MovedBy(b, a, lo, p, shift) && MovedBy(c, b, p, q, shift) && MovedBy(d, c, q, hi, shift)
    ensures MovedBy(d, a, lo, hi, shift)
  {
    JoinUp(a, b, c, lo, p, q, shift);
    JoinUp(a, c, d, lo, q, hi, shift);
  }

  /** The same downwards, the last part first. */
  lemma JoinDown(a: seq<Octet>, b: seq<Octet>, c: seq<Octet>, lo: nat, mid: nat, hi: nat, shift: int)
    requires lo <= mid <= hi <= |a| && 0 <= lo + shift && hi + shift <= |a| && shift <= 0
    requires MovedBy(b, a, mid, hi, shift) && MovedBy(c, b, lo, mid, shift)
    ensures MovedBy(c, a, lo, hi, shift)
  {
    forall i: nat | i < |a|
      ensures At(c, i) == a[if lo <= i < hi then i + shift else i]
    {
      var j := if lo <= i < mid then i + shift else i;
      assert At(b, j) == b[j];
    }
  }

  lemma AllMoved(now: seq<Octet>, was: seq<Octet>, dest: nat, src: nat, len: nat)
    requires dest + len <= |was| && src + len <= |was|
    requires MovedBy(now, was, dest, dest + len, src - dest)
    ensures now == Copied(was, dest, src, len)
  {
    forall i | 0 <= i < |now|
      ensures now[i] == Copied(was, dest, src, len)[i]
    {
      assert now[i] == At(now, i);
    }
  }

  method CopyByte(mem: array<Octet>, d: nat, s: nat)
    requires d < mem.Length && s < mem.Length
    modifies mem
    ensures MovedBy(mem[..], old(mem[..]), d, d + 1, s - d)
  {
    mem[d] := mem[s];
  }

  /** *dw = *sw: an aligned word, loaded whole before any of it is stored. */
  method CopyWord(mem: array<Octet>, d: nat, s: nat)
    requires d % 4 == s % 4 == 0 && d + 4 <= mem.Length && s + 4 <= mem.Length
    modifies mem
    ensures MovedBy(mem[..], old(mem[..]), d, d + 4, s - d)
  {
    WordBytes(mem[s], mem[s + 1], mem[s + 2], mem[s + 3]);
    StoreWord(mem, d, LoadWord(mem[..], s));
  }

  /** Byte loop towards higher addresses: while (d < hi) *(d++) = *(s++). */
  method BytesUp(mem: array<Octet>, lo: nat, from: nat, hi: nat) returns (d: nat, s: nat)
    requires lo <= hi <= mem.Length && from + (hi - lo) <= mem.Length && (lo <= from || from + (hi - lo) <= lo)
    modifies mem
    ensures d == hi && s == from + (hi - lo) && MovedBy(mem[..], old(mem[..]), lo, hi, from - lo)
  {
    d, s := lo, from;
    while d < hi
      invariant lo <= d <= hi && s - from == d - lo && MovedBy(mem[..], old(mem[..]), lo, d, from - lo)
    {
      ghost var before := mem[..];
      CopyByte(mem, d, s);
      d, s := d + 1, s + 1;
      JoinUp(old(mem[..]), before, mem[..], lo, d - 1, d, from - lo);
    }
  }

  /** Word loop towards higher addresses: n aligned words, while (dw < body) *(dw++) = *(sw++). */
  method WordsUp(mem: array<Octet>, lo: nat, from: nat, body: nat, ghost n: nat) returns (d: nat, s: nat)
    requires if n == 0 then body <= lo else body == lo + 4 * n && lo % 4 == from % 4 == 0
    requires lo + 4 * n <= mem.Length && from + 4 * n <= mem.Length && (lo <= from || from + 4 * n <= lo)
    modifies mem
    ensures d == lo + 4 * n && s == from + 4 * n && MovedBy(mem[..], old(mem[..]), lo, d, from - lo)
  {
    d, s := lo, from;
    ghost var k := 0;
    while d < body
      invariant k <= n && d == lo + 4 * k && s == from + 4 * k && (n > 0 ==> d % 4 == s % 4 == 0)
      invariant MovedBy(mem[..], old(mem[..]), lo, d, from - lo)
    {
      ghost var before := mem[..];
      CopyWord(mem, d, s);
      FourOn(d);
      FourOn(s);
      d, s, k := d + 4, s + 4, k + 1;
      JoinUp(old(mem[..]), before, mem[..], lo, d - 4, d, from - lo);
    }
  }

  /** Head, body and tail of an upward copy. */
  method CopyUp(mem: array<Octet>, dest: nat, src: nat, head: nat, body: nat, tail: nat)
    requires dest <= head <= tail <= mem.Length && src + (tail - dest) <= mem.Length
    requires dest <= src || src + (tail - dest) <= dest
    requires body % 4 == 0 && body <= tail && (head < body ==> head % 4 == (head + src - dest) % 4 == 0)
    modifies mem
    ensures MovedBy(mem[..], old(mem[..]), dest, tail, src - dest)
  {
    ghost var m0, shift := mem[..], src - dest;
    var d, s := BytesUp(mem, dest, src, head);
    ghost var m1 := mem[..];
    d, s := WordsUp(mem, d, s, body, Words(head, body));
    ghost var m2, mid := mem[..], d;
    d, s := BytesUp(mem, d, s, tail);
    JoinThreeUp(m0, m1, m2, mem[..], dest, head, mid, tail, shift);
  }

  method MemCpy(mem: array<Octet>, dest: nat, src: nat, len: nat) returns (r: nat)
    requires dest + len <= mem.Length && src + len <= mem.Length
    requires dest <= src || src + len <= dest
    modifies mem
    ensures r == dest && mem[..] == Copied(old(mem[..]), dest, src, len)
  {
    var tail := dest + len;
    CopyUp(mem, dest, src, HeadUp(dest, src, tail), RoundDown(tail), tail);
    AllMoved(mem[..], old(mem[..]), dest, src, len);
    return dest;
  }

  /** Byte loop towards lower addresses: while (d > lo) *(--d) = *(--s). */
  method BytesDown(mem: array<Octet>, hi: nat, from: nat, lo: nat) returns (d: nat, s: nat)
    requires lo <= hi <= mem.Length && hi - lo <= from <= hi
    modifies mem
    ensures d == lo && s == from - (hi - lo) && MovedBy(mem[..], old(mem[..]), lo, hi, from - hi)
  {
    d, s := hi, from;
    while d > lo
      invariant lo <= d <= hi && s - from == d - hi && MovedBy(mem[..], old(mem[..]), d, hi, from - hi)
    {
      ghost var before := mem[..];
      d, s := d - 1, s - 1;
      CopyByte(mem, d, s);
      JoinDown(old(mem[..]), before, mem[..], d, d + 1, hi, from - hi);
    }
  }

  /** Word loop towards lower addresses: n aligned words, while (dw > body) *(--dw) = *(--sw). */
  method WordsDown(mem: array<Octet>, hi: nat, from: nat, body: nat, ghost n: nat) returns (d: nat, s: nat)
    requires if n == 0 then hi <= body else hi == body + 4 * n && hi % 4 == from % 4 == 0
    requires 4 * n <= from <= hi <= mem.Length
    modifies mem
    ensures d == hi - 4 * n && s == from - 4 * n && MovedBy(mem[..], old(mem[..]), d, hi, from - hi)
  {
    d, s := hi, from;
    ghost var k := 0;
    while d > body
      invariant k <= n && d == hi - 4 * k && s == from - 4 * k && (n > 0 ==> d % 4 == s % 4 == 0)
      invariant MovedBy(mem[..], old(mem[..]), d, hi, from - hi)
    {
      ghost var before := mem[..];
      FourOn(d - 4);
      FourOn(s - 4);
      d, s, k := d - 4, s - 4, k + 1;
      CopyWord(mem, d, s);
      JoinDown(old(mem[..]), before, mem[..], d, d + 4, hi, from - hi);
    }
  }

  /** Head, body and tail of a downward copy from the end hi (source end from) to tail. */
  method CopyDown(mem: array<Octet>, hi: nat, from: nat, head: nat, body: nat, tail: nat)
    requires tail <= head <= hi <= mem.Length && hi - tail <= from <= hi
    requires body % 4 == 0 && body >= tail && (body < head ==> head % 4 == (head + from - hi) % 4 == 0)
    modifies mem
    ensures MovedBy(mem[..], old(mem[..]), tail, hi, from - hi)
  {
    ghost var m0, shift := mem[..], from - hi;
    var d, s := BytesDown(mem, hi, from, head);
    ghost var m1 := mem[..];
    d, s := WordsDown(mem, d, s, body, Words(body, head));
    ghost var m2, mid := mem[..], d;
    JoinDown(m0, m1, m2, mid, head, hi, shift);
    d, s := BytesDown(mem, d, s, tail);
    JoinDown(m0, m2, mem[..], tail, mid, hi, shift);
  }

  method MemMove(mem: array<Octet>, dest: nat, src: nat, len: nat) returns (r: nat)
    requires dest + len <= mem.Length && src + len <= mem.Length
    modifies mem
    ensures r == dest && mem[..] == Copied(old(mem[..]), dest, src, len)
  {
    if dest <= src || dest >= src + len {
      r := MemCpy(mem, dest, src, len);
    } else {
      var d, s := dest + len, src + len;
      CopyDown(mem, d, s, HeadDown(dest, d, s), RoundUp(dest), dest);
      AllMoved(mem[..], old(mem[..]), dest, src, len);
      r := dest;
    }
  }

  method MemSet(mem: array<Octet>, dest: nat, c: bv32, len: nat) returns (r: nat)
    requires dest + len <= mem.Length
    modifies mem
    ensures r == dest
    ensures mem[..] == old(mem[..dest]) + Fill((c & 0xff) as bv8, len) + old(mem[dest + len..])
  {
    var d, tail := dest, dest + len;
    var body := RoundDown(tail);
    var b := WordByte(c, 0);
    var head := if tail < RoundUp(d) then tail else RoundUp(d);
    while d < head
      invariant dest <= d <= head
      invariant forall i :: 0 <= i < mem.Length ==> mem[i] == if dest <= i < d then b else old(mem[i])
    {
      mem[d] := b;
      d := d + 1;
    }
    while d < body
      invariant dest <= d <= tail
      invariant d < body ==> d % 4 == 0
      invariant forall i :: 0 <= i < mem.Length ==> mem[i] == if dest <= i < d then b else old(mem[i])
    {
      FillWord(mem, d, b);
      d := d + 4;
    }
    while d < tail
      invariant dest <= d <= tail
      invariant forall i :: 0 <= i < mem.Length ==> mem[i] == if dest <= i < d then b else old(mem[i])
    {
      mem[d] := b;
      d := d + 1;
    }
    return dest;
  }
}
