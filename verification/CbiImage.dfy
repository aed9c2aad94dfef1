// The Cros Board Info image (include/cros_board_info.h) as values: a header of eight
// bytes in front of the items, what makes a stored image acceptable, and which
// corruptions that catches.
module CbiImage {
  import opened CbiItems
  import Crc8

  const CBI_MAGIC: Bytes := [0x43, 0x42, 0x49]         // then crc 3, minor 4, major 5, total_size 6..7
  const CBI_VERSION_MAJOR := 0
  const CBI_VERSION_MINOR := 0

  // -------------------------------------------------------------- header

  function TotalSize(img: Bytes): nat
    requires |img| >= HEADER
  {
    var lo: int, hi: int := img[6], img[7];
    lo + 0x100 * hi
  }

  /** The image can be looked at: its total size is in range. */
  predicate Sized(img: Bytes) {
    |img| == CBI_IMAGE_SIZE && HEADER <= TotalSize(img) <= CBI_IMAGE_SIZE
  }

  /** The bytes that are read as items. */
  function Body(img: Bytes): (body: Bytes)
    requires Sized(img)
    ensures |body| == TotalSize(img) - HEADER
  {
    img[HEADER..TotalSize(img)]
  }

  // A byte as the bits the checksum works on. Written out through a list of bits,
  // which keeps conversions between numbers and bit vectors out of the proofs.

  function Power(n: nat): nat {
    if n == 0 then 1 else 2 * Power(n - 1)
  }

  /** The n low bits of a number, lowest first. */
  function ToBits(x: nat, n: nat): (s: seq<bool>)
    ensures |s| == n
  {
    if n == 0 then [] else [x % 2 == 1] + ToBits(x / 2, n - 1)
  }

  function FromBits(s: seq<bool>): (x: nat)
    ensures x < Power(|s|)
  {
    if s == [] then 0 else (if s[0] then 1 else 0) + 2 * FromBits(s[1..])
  }

  lemma {:induction false} BitsOfNumber(s: seq<bool>)
    ensures ToBits(FromBits(s), |s|) == s
  {
    if s != [] {
      BitsOfNumber(s[1..]);
    }
  }

  lemma {:induction false} NumberOfBits(x: nat, n: nat)
    requires x < Power(n)
    ensures FromBits(ToBits(x, n)) == x
  {
    if n > 0 {
      NumberOfBits(x / 2, n - 1);
      assert ToBits(x, n)[1..] == ToBits(x / 2, n - 1);
    }
  }

  function Pack(s: seq<bool>): bv8
    requires |s| == 8
  {
    (if s[7] then 128 else 0) | (if s[6] then 64 else 0) | (if s[5] then 32 else 0) | (if s[4] then 16 else 0) |
    (if s[3] then 8 else 0) | (if s[2] then 4 else 0) | (if s[1] then 2 else 0) | (if s[0] then 1 else 0)
  }

  function Unpack(w: bv8): (s: seq<bool>)
    ensures |s| == 8
  {
    [w & 1 != 0, w & 2 != 0, w & 4 != 0, w & 8 != 0, w & 16 != 0, w & 32 != 0, w & 64 != 0, w & 128 != 0]
  }

  lemma UnpackPack(s: seq<bool>)
    requires |s| == 8
    ensures Unpack(Pack(s)) == s
  {
  }

  function Byte8(x: Octet): bv8 {
    Pack(ToBits(x, 8))
  }

  /** The byte whose bits these are. */
  function Octet8(w: bv8): Octet {
    FromBits(Unpack(w))
  }

  lemma Byte8Back(x: Octet)
    ensures Octet8(Byte8(x)) == x
  {
    UnpackPack(ToBits(x, 8));
    NumberOfBits(x, 8);
  }

  lemma Octet8Back(w: bv8)
    ensures Byte8(Octet8(w)) == w
  {
    BitsOfNumber(Unpack(w));
  }

  lemma Byte8Injective(x: Octet, y: Octet)
    requires Byte8(x) == Byte8(y)
    ensures x == y
  {
    Byte8Back(x);
    Byte8Back(y);
  }

  function Raw(s: Bytes): (r: seq<bv8>)
    ensures |r| == |s|
  {
    seq(|s|, i requires 0 <= i < |s| => Byte8(s[i]))
  }

  /** cbi_crc8: everything after the checksum up to the total size. */
  function CbiCrc8(img: Bytes): bv8
    requires |img| >= HEADER && 4 <= TotalSize(img) <= |img|
  {
    Crc8.Crc(Raw(img[4..TotalSize(img)]), 0)
  }

  /** The checks an image must pass to be read. */
  ghost predicate Accepted(img: Bytes) {
    && |img| == CBI_IMAGE_SIZE
    && img[..3] == CBI_MAGIC
    && img[5] <= CBI_VERSION_MAJOR
    && HEADER <= TotalSize(img) <= CBI_IMAGE_SIZE
    && CbiCrc8(img) == Byte8(img[3])
  }

  /** In bytes: the letters CBI, a checksum, any minor version, major version 0, a total size from 8 to 256. */
  lemma AcceptedHas(img: Bytes)
    requires Accepted(img)
    ensures img[0] == 0x43 && img[1] == 0x42 && img[2] == 0x49 && img[5] == 0
    ensures var lo: int, hi: int := img[6], img[7]; 8 <= lo + 256 * hi <= 256 == |img|
    ensures var lo: int, hi: int := img[6], img[7]; Crc8.Crc(Raw(img[4..lo + 256 * hi]), 0) == Byte8(img[3])
  {
    assert img[..3][0] == img[0] && img[..3][1] == img[1] && img[..3][2] == img[2];
  }

  lemma CorruptCrc(a: Bytes, b: Bytes, k: nat)
    requires |a| == |b| && k < |a| && a[k] != b[k]
    requires forall i :: 0 <= i < |a| && i != k ==> a[i] == b[i]
    ensures Crc8.Crc(Raw(a), 0) != Crc8.Crc(Raw(b), 0)
  {
    if Byte8(a[k]) == Byte8(b[k]) {
      Byte8Injective(a[k], b[k]);
    }
    Crc8.OneByteChangesCrc(Raw(a), Raw(b), k, 0);
  }

  /**
   * One byte of a good image changed, anywhere but in the low byte of the total size:
   * the image is refused, by its magic, its version, its size or its checksum.
   */
  lemma CorruptionIsRefused(img: Bytes, q: nat, x: Octet)
    requires Accepted(img) && q < TotalSize(img) && q != 6 && x != img[q]
    ensures !Accepted(img[q := x])
  {
    if q == 7 {
      return;
    }
    var bad, total := img[q := x], TotalSize(img);
    assert TotalSize(bad) == total;
    if q < 3 {
      assert img[..3][q] == CBI_MAGIC[q] && bad[..3][q] == x;
    } else if q == 3 {
      assert bad[4..total] == img[4..total];
      if Byte8(x) == Byte8(img[3]) {
        Byte8Injective(x, img[3]);
      }
    } else {
      CorruptCrc(img[4..total], bad[4..total], q - 4);
    }
  }

  /** Only the bytes up to the total size matter. */
  lemma OnlyTotalMatters(a: Bytes, b: Bytes)
    requires Sized(a) && |b| == |a| && a[..TotalSize(a)] == b[..TotalSize(a)]
    ensures TotalSize(a) == TotalSize(b) && Body(a) == Body(b) && a[..3] == b[..3]
    ensures Accepted(a) <==> Accepted(b)
  {
    var total := TotalSize(a);
    forall i | 0 <= i < total ensures a[i] == b[i] {
      assert a[..total][i] == b[..total][i];
    }
    assert TotalSize(b) == total;
    assert a[..3] == a[..total][..3] && b[..3] == b[..total][..3];
    assert a[4..total] == b[4..total] && a[HEADER..total] == b[HEADER..total];
  }

  /** The header fields before the total size are not part of the body. */
  lemma HeaderIsNotBody(a: Bytes, b: Bytes)
    requires Sized(a) && |b| == |a| && a[6..] == b[6..]
    ensures TotalSize(b) == TotalSize(a) && Body(b) == Body(a)
  {
    var total := TotalSize(a);
    assert a[6] == a[6..][0] && b[6] == b[6..][0] && a[7] == a[6..][1] && b[7] == b[6..][1];
    SliceOfSlice(a, 6, |a|, HEADER, total);
    SliceOfSlice(b, 6, |b|, HEADER, total);
  }

  /** An image of zeros but for these bytes. */
  function Witness(total: Octet): (r: Bytes)
    ensures |r| == CBI_IMAGE_SIZE && r[..3] == CBI_MAGIC && r[3..9] == [168, 0, 0, total, 0, 133]
    ensures r[3] == 168 && r[4] == 0 && r[5] == 0 && r[6] == total && r[7] == 0 && r[8] == 133
  {
    CBI_MAGIC + [168, 0, 0, total, 0, 133] + seq(CBI_IMAGE_SIZE - 9, i => 0)
  }

  lemma ShiftedOut()
    ensures Crc8.Shifts(0, 8) == 0 && Crc8.Shifts(8, 8) == 56 && Crc8.Shifts(9, 8) == 63
    ensures Crc8.Shifts(56, 8) == 168 && Crc8.Shifts(63, 8) == 189
  {
    assert Crc8.Shifts(0, 4) == 0;
    assert Crc8.Shifts(8, 2) == 32 && Crc8.Shifts(8, 4) == 128 && Crc8.Shifts(8, 6) == 14;
    assert Crc8.Shifts(9, 2) == 36 && Crc8.Shifts(9, 4) == 144 && Crc8.Shifts(9, 6) == 78;
    assert Crc8.Shifts(56, 2) == 224 && Crc8.Shifts(56, 4) == 137 && Crc8.Shifts(56, 6) == 42;
    assert Crc8.Shifts(63, 2) == 252 && Crc8.Shifts(63, 4) == 249 && Crc8.Shifts(63, 6) == 237;
  }

  lemma CrcSnoc(s: seq<bv8>, x: bv8)
    ensures Crc8.Crc(s + [x], 0) == Crc8.Step(x, Crc8.Crc(s, 0))
  {
    assert (s + [x])[..|s|] == s;
  }

  lemma CrcOfFour(c: bv8)
    ensures Crc8.Crc([0, 0, c, 0], 0) == Crc8.Shifts(Crc8.Shifts(c, 8), 8)
  {
    ShiftedOut();
    CrcSnoc([], 0);
    CrcSnoc([0], 0);
    CrcSnoc([0, 0], c);
    CrcSnoc([0, 0, c], 0);
    assert [] + [0 as bv8] == [0] && [0 as bv8] + [0] == [0, 0] && [0, 0] + [c] == [0, 0, c] && [0, 0, c] + [0] == [0, 0, c, 0];
    assert c ^ 0 == c && Crc8.Shifts(c, 8) == 0 ^ Crc8.Shifts(c, 8);
  }

  function One(b: bool): nat {
    if b then 1 else 0
  }

  lemma AddBit(b: bool, rest: seq<bool>)
    ensures FromBits([b] + rest) == One(b) + 2 * FromBits(rest)
  {
    assert ([b] + rest)[1..] == rest;
  }

  lemma FourBits(b0: bool, b1: bool, b2: bool, b3: bool)
    ensures FromBits([b0, b1, b2, b3]) == One(b0) + 2 * One(b1) + 4 * One(b2) + 8 * One(b3)
  {
    AddBit(b3, []);
    AddBit(b2, [b3]);
    AddBit(b1, [b2, b3]);
    AddBit(b0, [b1, b2, b3]);
    assert [b3] + [] == [b3] && [b2] + [b3] == [b2, b3];
    assert [b1] + [b2, b3] == [b1, b2, b3] && [b0] + [b1, b2, b3] == [b0, b1, b2, b3];
  }

  /** The bits of a byte whose high half is known. */
  lemma BitsAre(x: Octet, low: seq<bool>, high: seq<bool>)
    requires |low| == |high| == 4
    requires x == One(low[0]) + 2 * One(low[1]) + 4 * One(low[2]) + 8 * One(low[3]) + 16 * FromBits(high)
    ensures ToBits(x, 8) == low + high
  {
    AddBit(low[3], high);
    AddBit(low[2], [low[3]] + high);
    AddBit(low[1], [low[2]] + ([low[3]] + high));
    AddBit(low[0], [low[1]] + ([low[2]] + ([low[3]] + high)));
    assert low + high == [low[0]] + ([low[1]] + ([low[2]] + ([low[3]] + high)));
    BitsOfNumber(low + high);
  }

  lemma SmallBytes()
    ensures Byte8(0) == 0 && Byte8(8) == 8 && Byte8(9) == 9
  {
    var zeros := [false, false, false, false];
    FourBits(false, false, false, false);
    BitsAre(0, zeros, zeros);
    BitsAre(8, [false, false, false, true], zeros);
    BitsAre(9, [true, false, false, true], zeros);
  }

  lemma LargeBytes()
    ensures Byte8(133) == 133 && Byte8(168) == 168
  {
    FourBits(false, false, false, true);
    BitsAre(133, [true, false, true, false], [false, false, false, true]);
    FourBits(false, true, false, true);
    BitsAre(168, [false, false, false, true], [false, true, false, true]);
  }

  lemma ChecksumOfEight()
    ensures Crc8.Crc([0, 0, 8, 0], 0) == 168
  {
    ShiftedOut();
    CrcOfFour(8);
  }

  lemma ChecksumOfNine()
    ensures Crc8.Crc([0, 0, 9, 0] + [133], 0) == 168
  {
    ShiftedOut();
    CrcOfFour(9);
    CrcSnoc([0, 0, 9, 0], 133);
  }

  lemma WitnessChecksum(total: Octet, body: Bytes)
    requires (total == 8 && body == [0, 0, 8, 0]) || (total == 9 && body == [0, 0, 9, 0, 133])
    ensures Crc8.Crc(Raw(body), 0) == Byte8(168)
  {
    SmallBytes();
    LargeBytes();
    if total == 8 {
      assert Raw(body) == [0, 0, 8, 0];
      ChecksumOfEight();
    } else {
      assert Raw(body) == [0, 0, 9, 0] + [133];
      ChecksumOfNine();
    }
  }

  /** An acceptable image without items, byte by byte. */
  lemma EmptyImage(img: Bytes)
    requires Accepted(img) && TotalSize(img) == HEADER && img[4] == 0
    ensures img[..8] == [0x43, 0x42, 0x49, 168, 0, 0, 8, 0]
  {
    var magic := img[..3];
    assert img[0] == magic[0] && img[1] == magic[1] && img[2] == magic[2];
    assert img[5] == 0 && img[6] == 8 && img[7] == 0;
    EmptyChecksum(img[3], img[4..TotalSize(img)]);
    assert img[..8] == [img[0], img[1], img[2], img[3], img[4], img[5], img[6], img[7]];
  }

  lemma EmptyChecksum(x: Octet, body: Bytes)
    requires body == [0, 0, 8, 0] && Crc8.Crc(Raw(body), 0) == Byte8(x)
    ensures x == 168
  {
    WitnessChecksum(8, body);
    Byte8Injective(x, 168);
  }

  /**
   * The low byte of the total size is not protected: here both sizes pass every check,
   * since the larger one also takes in a byte that makes up for it.
   */
  lemma TotalSizeIsNotProtected()
    ensures Accepted(Witness(8)) && Accepted(Witness(8)[6 := 9])
  {
    var a, b := Witness(8), Witness(8)[6 := 9];
    assert a[4..8] == [0, 0, 8, 0] && b[4..9] == [0, 0, 9, 0, 133];
    WitnessChecksum(8, a[4..8]);
    WitnessChecksum(9, b[4..9]);
    assert b[..3] == a[..3];
  }

  /** A change of byte q of this image, if it is a good one that has the byte, is refused. */
  ghost predicate Refuses(img: Bytes, q: nat, x: Octet) {
    Accepted(img) && q < TotalSize(img) && x != img[q] ==> !Accepted(img[q := x])
  }

  /** Every change of byte q of every good image is refused. */
  ghost predicate Protected(q: nat) {
    forall img: Bytes, x: Octet :: Refuses(img, q, x)
  }

  /** Every byte of a stored image is protected but one: the low byte of its total size. */
  lemma ProtectedExactly(q: nat)
    ensures Protected(q) <==> q != 6
  {
    if q == 6 {
      TotalSizeIsNotProtected();
      assert !Refuses(Witness(8), 6, 9);
    } else {
      forall img: Bytes, x: Octet ensures Refuses(img, q, x) {
        if Accepted(img) && q < TotalSize(img) && x != img[q] {
          CorruptionIsRefused(img, q, x);
        }
      }
    }
  }
}
