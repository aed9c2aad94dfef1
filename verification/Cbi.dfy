// The Cros Board Info store (common/cbi.c): a packed image kept in RAM, edited in
// place, checked on the way in and written out in pages (common/cbi_eeprom.c).
module Cbi {
  import opened CbiImage
  import opened CbiItems
  import Crc8

  datatype Status = Success | Inval | Overflow | Unknown | AccessDenied | Error | InvalidParam

  const EEPROM_PAGE_WRITE_SIZE := 8
  const CBI_TAG_BOARD_VERSION: Octet := 0
  const CBI_TAG_OEM_ID: Octet := 1

  // ------------------------------------------------------------- the device

  /** Where byte i of a block written at `offset` lands: the address wraps inside its page. */
  function Landing(page: nat, offset: nat, i: nat): int
    requires page > 0
  {
    offset / page * page + (offset + i) % page
  }

  /** Eight-byte blocks on eight-byte boundaries never wrap on the pages allowed. */
  lemma AlignedBlockDoesNotWrap(page: nat, offset: nat, i: nat)
    requires page == 8 || page == 16
    requires offset % 8 == 0 && i < 8
    ensures Landing(page, offset, i) == offset + i
  {
  }

  lemma NextByte(was: Bytes, data: Bytes, offset: nat, from: nat, i: nat)
    requires offset + i < |was| && from + i < |data|
    ensures (was[..offset] + data[from..from + i] + was[offset + i..])[offset + i := data[from + i]]
            == was[..offset] + data[from..from + i + 1] + was[offset + i + 1..]
  {
    assert data[from..from + i + 1] == data[from..from + i] + [data[from + i]];
  }

  lemma NextBlock(img: Bytes, was: Bytes, cells: Bytes, p: nat, size: nat)
    requires |img| == |was| && p + size <= |img|
    requires cells == img[..p] + was[p..]
    ensures cells[..p] + img[p..p + size] + cells[p + size..] == img[..p + size] + was[p + size..]
  {
    assert cells[..p] == img[..p] && cells[p + size..] == was[p + size..];
    assert img[..p + size] == img[..p] + img[p..p + size];
  }

  /** An EEPROM of 256 bytes behind an I2C bus. Each transfer is answered or fails. */
  class Eeprom {
    const cells: array<Octet>
    const page: nat

    ghost predicate Valid() {
      cells.Length == CBI_IMAGE_SIZE && (page == 8 || page == 16)
    }

    constructor (page: nat)
      requires page == 8 || page == 16
      ensures Valid() && fresh(cells) && this.page == page
    {
      cells := new Octet[CBI_IMAGE_SIZE];
      this.page := page;
    }

    /** A page write. One that fails may have written any part of the block. */
    method WriteBlock(offset: nat, data: array<Octet>, from: nat, size: nat, answer: bool)
      requires Valid() && data != cells
      requires offset % 8 == 0 && size <= 8 && offset + size <= CBI_IMAGE_SIZE && from + size <= data.Length
      modifies cells
      ensures answer ==>
        cells[..] == old(cells[..][..offset]) + data[..][from..from + size] + old(cells[..][offset + size..])
    {
      ghost var was := cells[..];
      var n: nat :| n <= size && (answer ==> n == size);
      var i := 0;
      while i < n
        invariant i <= n
        invariant cells[..] == was[..offset] + data[..][from..from + i] + was[offset + i..]
      {
        NextByte(was, data[..], offset, from, i);
        StoreByte(offset, i, data[from + i]);
        i := i + 1;
      }
    }

    /** Byte i of a block. */
    method StoreByte(offset: nat, i: nat, b: Octet)
      requires Valid() && offset % 8 == 0 && i < 8 && offset + i < CBI_IMAGE_SIZE
      modifies cells
      ensures cells[..] == old(cells[..])[offset + i := b]
    {
      AlignedBlockDoesNotWrap(page, offset, i);
      cells[Landing(page, offset, i)] := b;
    }
  }

  // ------------------------------------------------------------- the store

  class Store {
    const image: array<Octet>
    var synced: bool

    ghost predicate Valid()
      reads this, image
    {
      image.Length == CBI_IMAGE_SIZE && (synced ==> Sized(image[..]) && image[..3] == CBI_MAGIC)
    }

    constructor ()
      ensures Valid() && fresh(image) && !synced
    {
      image := new Octet[CBI_IMAGE_SIZE];
      synced := false;
    }

    /** cbi_find_tag */
    method FindTag(tag: Octet) returns (d: int)
      requires Sized(image[..])
      ensures var at := Find(Body(image[..]), 0, tag); d == if at < 0 then -1 else HEADER + at
    {
      ghost var body := Body(image[..]);
      var p: int, lo: int, hi: int := HEADER, image[6], image[7];
      var total := lo + 0x100 * hi;
      while p + 2 < total
        invariant p >= HEADER && total == HEADER + |body| && image[..] == old(image[..])
        invariant Find(body, p - HEADER, tag) == Find(body, 0, tag)
        decreases total - p
      {
        assert image[p] == body[p - HEADER] && image[p + 1] == body[p + 1 - HEADER];
        if image[p] == tag {
          return p;
        }
        p := p + 2 + image[p + 1];
      }
      return -1;
    }

    method SetTotalSize(total: nat)
      requires image.Length == CBI_IMAGE_SIZE && total <= CBI_IMAGE_SIZE
      modifies image
      ensures TotalSize(image[..]) == total
      ensures image[..6] == old(image[..6]) && image[HEADER..] == old(image[HEADER..])
    {
      image[6], image[7] := total % 0x100, total / 0x100;
    }

    /** memmove of the tail of an item list down over the n bytes at d. */
    method MoveDown(d: nat, n: nat, total: nat)
      requires image.Length == CBI_IMAGE_SIZE && d + n <= total <= CBI_IMAGE_SIZE
      modifies image
      ensures image[..d] == old(image[..d])
      ensures image[d..total - n] == old(image[d + n..total])
    {
      forall i | d <= i < total - n {
        image[i] := image[i + n];
      }
    }

    /** memcpy of a value into the image. */
    method CopyIn(p: nat, value: Bytes)
      requires p + |value| <= image.Length
      modifies image
      ensures image[..] == old(image[..p]) + value + old(image[p + |value|..])
    {
      forall i | 0 <= i < |value| {
        image[p + i] := value[i];
      }
    }

    /** cbi_remove_tag: what follows the item moves down over it. */
    method RemoveTag(d: nat)
      requires Sized(image[..]) && HEADER <= d && d + 2 <= TotalSize(image[..])
      requires var size: int := image[d + 1]; d + 2 + size <= TotalSize(image[..])
      modifies image
      ensures Sized(image[..]) && Body(image[..]) == old(Without(Body(image[..]), d - HEADER))
      ensures image[..6] == old(image[..6])
    {
      ghost var was := image[..];
      var lo: int, hi: int, size: int := image[6], image[7], image[d + 1];
      var total, n := lo + 0x100 * hi, 2 + size;
      MoveDown(d, n, total);
      ghost var moved := image[..];
      SetTotalSize(total - n);
      Tail(was, moved, image[..], d, n, total);
      BodyWithout(was, image[..], d, n);
    }

    static lemma SliceOfTail(s: Bytes, from: nat, lo: nat, hi: nat)
      requires from <= lo <= hi <= |s|
      ensures s[lo..hi] == s[from..][lo - from..hi - from]
    {
    }

    static lemma SliceOfHead(s: Bytes, lo: nat, hi: nat, to: nat)
      requires lo <= hi <= to <= |s|
      ensures s[lo..hi] == s[..to][lo..hi]
    {
    }

    static lemma Tail(was: Bytes, moved: Bytes, now: Bytes, d: nat, n: nat, total: nat)
      requires |was| == |moved| == |now| && HEADER <= d && d + n <= total <= |was|
      requires moved[..d] == was[..d] && moved[d..total - n] == was[d + n..total]
      requires now[..6] == moved[..6] && now[HEADER..] == moved[HEADER..]
      ensures now[HEADER..d] == was[HEADER..d] && now[d..total - n] == was[d + n..total]
      ensures now[..6] == was[..6]
    {
      SliceOfTail(now, HEADER, HEADER, d);
      SliceOfTail(moved, HEADER, HEADER, d);
      SliceOfTail(now, HEADER, d, total - n);
      SliceOfTail(moved, HEADER, d, total - n);
      SliceOfHead(moved, HEADER, d, d);
      SliceOfHead(was, HEADER, d, d);
      SliceOfHead(moved, 0, 6, d);
      SliceOfHead(was, 0, 6, d);
    }

    static lemma SliceJoin(s: Bytes, lo: nat, mid: nat, hi: nat)
      requires lo <= mid <= hi <= |s|
      ensures s[lo..hi] == s[lo..mid] + s[mid..hi]
    {
    }

    static lemma BodyWithout(was: Bytes, now: Bytes, d: nat, n: nat)
      requires Sized(was) && |now| == |was| && HEADER <= d && d + 2 <= d + n <= TotalSize(was)
      requires var size: int := was[d + 1]; n == 2 + size
      requires TotalSize(now) == TotalSize(was) - n
      requires now[HEADER..d] == was[HEADER..d] && now[d..TotalSize(now)] == was[d + n..TotalSize(was)]
      ensures Sized(now) && Body(now) == Without(Body(was), d - HEADER)
    {
      var total := TotalSize(was);
      SliceJoin(now, HEADER, d, total - n);
      SliceOfSlice(was, HEADER, total, HEADER, d);
      SliceOfSlice(was, HEADER, total, d + n, total);
      assert Body(was)[d + 1 - HEADER] == was[d + 1];
    }

    /** Append a new item (cbi_set_data), where there is room for one. */
    method AppendTag(tag: Octet, value: Value)
      requires Sized(image[..]) && TotalSize(image[..]) + 2 + |value| <= CBI_IMAGE_SIZE
      modifies image
      ensures Sized(image[..]) && Body(image[..]) == Appended(old(Body(image[..])), tag, value)
      ensures image[..6] == old(image[..6])
    {
      if |value| == 0 {
        return;
      }
      ghost var was := image[..];
      var lo: int, hi: int := image[6], image[7];
      var p := lo + 0x100 * hi;
      image[p], image[p + 1] := tag, |value|;
      ghost var tagged := image[..];
      CopyIn(p + 2, value);
      ghost var copied := image[..];
      SetTotalSize(p + 2 + |value|);
      Written(was, tagged, copied, image[..], p, tag, value);
      SliceJoin(image[..], HEADER, p, p + 2 + |value|);
    }

    static lemma Written(was: Bytes, tagged: Bytes, copied: Bytes, now: Bytes, p: nat, tag: Octet, value: Value)
      requires |was| == |tagged| == |now| && HEADER <= p && p + 2 + |value| <= |was|
      requires tagged == was[p := tag][p + 1 := |value|]
      requires copied == tagged[..p + 2] + value + tagged[p + 2 + |value|..]
      requires now[..6] == copied[..6] && now[HEADER..] == copied[HEADER..]
      ensures now[..6] == was[..6] && now[HEADER..p] == was[HEADER..p]
      ensures now[p..p + 2 + |value|] == Item(tag, value)
    {
      assert copied[..p] == was[..p] && copied[p..p + 2 + |value|] == Item(tag, value);
      SliceOfTail(now, HEADER, HEADER, p);
      SliceOfTail(copied, HEADER, HEADER, p);
      SliceOfTail(now, HEADER, p, p + 2 + |value|);
      SliceOfTail(copied, HEADER, p, p + 2 + |value|);
      SliceOfHead(copied, HEADER, p, p);
      SliceOfHead(was, HEADER, p, p);
      SliceOfHead(copied, 0, 6, p);
      SliceOfHead(was, 0, 6, p);
    }

    /** Overwrite the item at d by a value of its own size. */
    method OverwriteTag(d: nat, value: Value)
      requires Sized(image[..]) && HEADER <= d && d + 2 + |value| <= TotalSize(image[..])
      modifies image
      ensures Sized(image[..]) && Body(image[..]) == old(Overwritten(Body(image[..]), d - HEADER, value))
      ensures image[..6] == old(image[..6])
    {
      ghost var was := image[..];
      CopyIn(d + 2, value);
      BodyOverwritten(was, image[..], d, value);
    }

    static lemma BodyOverwritten(was: Bytes, now: Bytes, d: nat, value: Value)
      requires Sized(was) && HEADER <= d && d + 2 + |value| <= TotalSize(was)
      requires now == was[..d + 2] + value + was[d + 2 + |value|..]
      ensures Sized(now) && Body(now) == Overwritten(Body(was), d - HEADER, value) && now[..6] == was[..6]
    {
      var total := TotalSize(was);
      assert now[6] == was[6] && now[7] == was[7];
      SliceOfSlice(was, HEADER, total, HEADER, d + 2);
      SliceOfSlice(was, HEADER, total, d + 2 + |value|, total);
      assert now[HEADER..total] == was[HEADER..d + 2] + value + was[d + 2 + |value|..total];
    }

    /**
     * cbi_set_board_info, on any image: all it asks is that the item it finds ends inside
     * the image. When there is no room the old item is gone all the same.
     */
    method SetBoardInfo(tag: Octet, value: Value) returns (rv: Status)
      requires Sized(image[..]) && Intact(Body(image[..]), tag)
      modifies image
      ensures Sized(image[..]) && image[..6] == old(image[..6])
      ensures var (after, done) := SetBody(old(Body(image[..])), tag, value);
              Body(image[..]) == after && rv == if done then Success else Overflow
    {
      ghost var body := Body(image[..]);
      var d := FindTag(tag);
      assert d >= 0 ==> body[d + 1 - HEADER] == image[d + 1];
      if d >= 0 && image[d + 1] != |value| {
        RemoveTag(d);
        d := -1;
      }
      if d >= 0 {
        OverwriteTag(d, value);
        return Success;
      }
      var lo: int, hi: int := image[6], image[7];
      if CBI_IMAGE_SIZE < lo + 0x100 * hi + 2 + |value| {
        return Overflow;
      }
      AppendTag(tag, value);
      return Success;
    }

    /** memset and the fixed fields of an empty image, checksum and versions still zero. */
    method Blank()
      requires image.Length == CBI_IMAGE_SIZE
      modifies image
      ensures Sized(image[..]) && Body(image[..]) == [] && image[..3] == CBI_MAGIC
    {
      forall i | 0 <= i < CBI_IMAGE_SIZE {
        image[i] := 0;
      }
      image[0], image[1], image[2] := CBI_MAGIC[0], CBI_MAGIC[1], CBI_MAGIC[2];
      SetTotalSize(HEADER);
      assert image[..3] == image[..6][..3];
    }

    /** Take over the format: our version, and the checksum of what is there. */
    method Seal()
      requires Sized(image[..]) && image[..3] == CBI_MAGIC
      modifies image
      ensures Accepted(image[..]) && Body(image[..]) == old(Body(image[..])) && image[4] == 0
    {
      ghost var was := image[..];
      image[4], image[5] := CBI_VERSION_MINOR, CBI_VERSION_MAJOR;
      var lo: int, hi: int := image[6], image[7];
      ghost var versioned := image[..];
      var crc := Crc8.CrosCrc8Arg(Raw(image[4..lo + 0x100 * hi]), 0);
      image[3] := Octet8(crc);
      Sealed(was, versioned, image[..], crc);
    }

    static lemma Sealed(was: Bytes, versioned: Bytes, now: Bytes, crc: bv8)
      requires Sized(was) && was[..3] == CBI_MAGIC
      requires versioned == was[4 := CBI_VERSION_MINOR][5 := CBI_VERSION_MAJOR]
      requires TotalSize(versioned) == TotalSize(was) && now == versioned[3 := Octet8(crc)]
      requires crc == Crc8.Crc(Raw(versioned[4..TotalSize(was)]), 0)
      ensures Accepted(now) && Sized(now) && Body(now) == Body(was)
    {
      assert now[6..] == was[6..] && now[..3] == was[..3];
      HeaderIsNotBody(was, now);
      Octet8Back(crc);
      assert now[4..TotalSize(was)] == versioned[4..TotalSize(was)];
    }

    /** cbi_create */
    method Create()
      requires image.Length == CBI_IMAGE_SIZE
      modifies `synced, image
      ensures Valid() && synced && Accepted(image[..]) && Body(image[..]) == []
      ensures image[..8] == [0x43, 0x42, 0x49, 168, 0, 0, 8, 0]
    {
      Blank();
      Seal();
      EmptyImage(image[..]);
      synced := true;
    }

    /** cbi_invalidate_cache */
    method Invalidate()
      modifies `synced
      ensures !synced
    {
      synced := false;
    }

    // ----------------------------------------------------------- reading

    /** A block read into the same place in RAM. One that fails may have read a part. */
    method Load(dev: Eeprom, offset: nat, size: nat, answer: bool)
      requires image.Length == CBI_IMAGE_SIZE && dev.Valid() && dev.cells != image
      requires offset + size <= CBI_IMAGE_SIZE
      modifies image
      ensures image[..offset] == old(image[..offset]) && image[offset + size..] == old(image[offset + size..])
      ensures answer ==> image[offset..offset + size] == dev.cells[offset..offset + size]
    {
      var n: nat :| n <= size && (answer ==> n == size);
      forall i | offset <= i < offset + n {
        image[i] := dev.cells[i];
      }
    }

    static lemma SameTotal(dev: Bytes, img: Bytes, total: nat)
      requires |dev| == |img| == CBI_IMAGE_SIZE && HEADER <= total <= CBI_IMAGE_SIZE && total == TotalSize(dev)
      requires img[..HEADER] == dev[..HEADER] && img[HEADER..total] == dev[HEADER..total]
      ensures img[..total] == dev[..total] && TotalSize(img) == total
      ensures Accepted(dev) <==> Accepted(img)
    {
      assert img[..total] == img[..HEADER] + img[HEADER..total];
      assert dev[..total] == dev[..HEADER] + dev[HEADER..total];
      OnlyTotalMatters(dev, img);
    }

    static lemma HeaderRead(was: Bytes, img: Bytes, dev: Bytes)
      requires |was| == |img| == |dev| == CBI_IMAGE_SIZE && img[HEADER..] == was[HEADER..]
      ensures forall total :: HEADER <= total <= CBI_IMAGE_SIZE ==> img[total..] == was[total..]
      ensures img[..HEADER] == dev[..HEADER] ==>
        img[..3] == dev[..3] && img[5] == dev[5] && img[6] == dev[6] && img[7] == dev[7]
    {
      forall total | HEADER <= total <= CBI_IMAGE_SIZE ensures img[total..] == was[total..] {
        SliceOfTail(img, HEADER, total, CBI_IMAGE_SIZE);
        SliceOfTail(was, HEADER, total, CBI_IMAGE_SIZE);
      }
      if img[..HEADER] == dev[..HEADER] {
        assert img[..3] == img[..HEADER][..3] && dev[..3] == dev[..HEADER][..3];
        assert forall i :: 0 <= i < HEADER ==> img[..HEADER][i] == dev[..HEADER][i];
      }
    }

    /**
     * do_cbi_read: one attempt. It succeeds exactly when both transfers are answered
     * and the stored image is acceptable.
     */
    method DoRead(dev: Eeprom, header: bool, body: bool) returns (rv: Status)
      requires image.Length == CBI_IMAGE_SIZE && dev.Valid() && dev.cells != image
      modifies image
      ensures rv == Success <==> header && body && Accepted(dev.cells[..])
      ensures rv == Success ==> image[..TotalSize(dev.cells[..])] == dev.cells[..TotalSize(dev.cells[..])]
      ensures Sized(dev.cells[..]) ==> image[TotalSize(dev.cells[..])..] == old(image[TotalSize(dev.cells[..])..])
      ensures rv == Overflow <==>
        && header && dev.cells[..3] == CBI_MAGIC && dev.cells[5] <= CBI_VERSION_MAJOR
        && !(HEADER <= TotalSize(dev.cells[..]) <= CBI_IMAGE_SIZE)
      ensures rv in {Success, Inval, Overflow}
    {
      ghost var was := image[..];
      Load(dev, 0, HEADER, header);
      HeaderRead(was, image[..], dev.cells[..]);
      if !header {
        return Inval;
      }
      assert image[..HEADER] == dev.cells[..HEADER];
      if image[..3] != CBI_MAGIC || image[5] > CBI_VERSION_MAJOR {
        return Inval;
      }
      var lo: int, hi: int := image[6], image[7];
      var total := lo + 0x100 * hi;
      if total < HEADER || total > CBI_IMAGE_SIZE {
        return Overflow;
      }
      Load(dev, HEADER, total - HEADER, body);
      if !body {
        return Inval;
      }
      SameTotal(dev.cells[..], image[..], total);
      var crc := Crc8.CrosCrc8Arg(Raw(image[4..total]), 0);
      if crc != Byte8(image[3]) {
        return Inval;
      }
      return Success;
    }

    /** Both transfers of this attempt are answered. */
    static predicate Answered(bus: seq<bool>, attempt: nat)
      requires attempt < 2 && |bus| == 4
    {
      bus[2 * attempt] && bus[2 * attempt + 1]
    }

    /** When a read gives a usable image: it is in RAM already, or one of two attempts gets it. */
    ghost predicate Readable(dev: Eeprom, bus: seq<bool>)
      requires |bus| == 4 && dev.Valid()
      reads this, dev.cells
    {
      synced || (Accepted(dev.cells[..]) && (Answered(bus, 0) || Answered(bus, 1)))
    }

    /** The image a successful read gives. */
    ghost function Current(dev: Eeprom): Bytes
      requires dev.Valid()
      reads this, image, dev.cells
    {
      if synced then image[..] else dev.cells[..]
    }

    /** cbi_read: what is in RAM afterwards is the image up to its total size, and what was there before behind it. */
    method Read(dev: Eeprom, bus: seq<bool>) returns (ok: bool)
      requires Valid() && dev.Valid() && dev.cells != image && |bus| == 4
      modifies `synced, image
      ensures Valid() && ok == synced
      ensures ok == old(Readable(dev, bus))
      ensures ok <==> old(synced) || (Accepted(dev.cells[..]) && ((bus[0] && bus[1]) || (bus[2] && bus[3])))
      ensures ok ==>
        && Sized(old(Current(dev)))
        && var total := TotalSize(old(Current(dev)));
           image[..total] == old(Current(dev))[..total] && image[total..] == old(image[total..])
      ensures ok ==> TotalSize(image[..]) == TotalSize(old(Current(dev))) && Body(image[..]) == Body(old(Current(dev)))
      ensures old(synced) ==> image[..] == old(image[..])
    {
      if synced {
        return true;
      }
      ghost var ram := image[..];
      var i := 0;
      while i < 2
        invariant i <= 2 && !synced
        invariant forall k :: 0 <= k < i ==> !(Accepted(dev.cells[..]) && Answered(bus, k))
        invariant dev.cells[..] == old(dev.cells[..])
        invariant Sized(dev.cells[..]) ==> image[TotalSize(dev.cells[..])..] == ram[TotalSize(dev.cells[..])..]
      {
        var rv := DoRead(dev, bus[2 * i], bus[2 * i + 1]);
        if rv == Success {
          OnlyTotalMatters(dev.cells[..], image[..]);
          synced := true;
          return true;
        }
        i := i + 1;
      }
      return false;
    }

    /** Clear the caller's buffer, then copy a value into it. */
    method CopyOut(buf: array<Octet>, size: nat, from: nat, n: nat)
      requires n <= size <= buf.Length && from + n <= image.Length && buf != image
      modifies buf
      ensures buf[..n] == image[from..from + n]
      ensures forall i :: n <= i < size ==> buf[i] == 0
      ensures buf[size..] == old(buf[size..])
    {
      forall i | 0 <= i < size {
        buf[i] := 0;
      }
      forall i | 0 <= i < n {
        buf[i] := image[from + i];
      }
    }

    /** The item found for this tag, if any, ends inside the buffer the image lies in. */
    static predicate InBuffer(img: Bytes, tag: Octet)
      requires Sized(img)
    {
      var d := Find(Body(img), 0, tag);
      d >= 0 ==> HEADER + d + 2 + Body(img)[d + 1] <= CBI_IMAGE_SIZE
    }

    /** The bytes in RAM where an image has the value of a tag. */
    static function ValueAt(ram: Bytes, img: Bytes, tag: Octet): Lookup
      requires Sized(img) && InBuffer(img, tag) && |ram| == CBI_IMAGE_SIZE
    {
      var d := Find(Body(img), 0, tag);
      if d < 0 then Missing else Found(ram[HEADER + d + 2..HEADER + d + 2 + Body(img)[d + 1]])
    }

    /** When the item ends inside the image, they are what the image means. */
    static lemma ValueOfIntact(ram: Bytes, img: Bytes, tag: Octet)
      requires Sized(img) && Intact(Body(img), tag) && |ram| == CBI_IMAGE_SIZE
      requires ram[..TotalSize(img)] == img[..TotalSize(img)]
      ensures InBuffer(img, tag) && ValueAt(ram, img, tag) == LookupIn(Body(img), tag)
    {
      var d, total := Find(Body(img), 0, tag), TotalSize(img);
      if d >= 0 {
        var lo, hi := HEADER + d + 2, HEADER + d + 2 + Body(img)[d + 1];
        SliceOfSlice(img, HEADER, total, lo, hi);
        SliceOfHead(ram, lo, hi, total);
        SliceOfHead(img, lo, hi, total);
      }
    }

    /** It does not matter whether the item is found in the image or in RAM. */
    static lemma SameValue(ram: Bytes, img: Bytes, tag: Octet)
      requires Sized(img) && Sized(ram) && Body(ram) == Body(img) && InBuffer(img, tag)
      ensures InBuffer(ram, tag) && ValueAt(ram, ram, tag) == ValueAt(ram, img, tag)
    {
    }

    /** The part of cbi_get_board_info that follows the read. */
    method Lookup(tag: Octet, buf: array<Octet>, size: nat) returns (rv: Status, got: nat)
      requires Sized(image[..]) && InBuffer(image[..], tag)
      requires size <= buf.Length && buf != image
      modifies buf
      ensures var found := ValueAt(image[..], image[..], tag);
              && rv == (if found.Missing? then Unknown else if |found.value| > size then Inval else Success)
              && (rv == Success ==> got == |found.value| && buf[..got] == found.value)
      ensures rv == Success ==> (forall i :: got <= i < size ==> buf[i] == 0) && buf[size..] == old(buf[size..])
      ensures rv != Success ==> got == size && buf[..] == old(buf[..])
    {
      got := size;
      var d := FindTag(tag);
      assert d >= 0 ==> Body(image[..])[d + 1 - HEADER] == image[d + 1];
      if d < 0 {
        return Unknown, got;
      }
      if size < image[d + 1] {
        return Inval, got;
      }
      got := image[d + 1];
      CopyOut(buf, size, d + 2, got);
      return Success, got;
    }

    /**
     * cbi_get_board_info: the value of the tag, zeros up to the size of the caller's
     * buffer. All it asks of an image that passes the checks is that the item of this tag
     * ends inside RAM; if it ends inside the image, the value is what the image means.
     */
    method GetBoardInfo(dev: Eeprom, bus: seq<bool>, tag: Octet, buf: array<Octet>, size: nat)
      returns (rv: Status, got: nat)
      requires Valid() && dev.Valid() && dev.cells != image && |bus| == 4
      requires Readable(dev, bus) ==> Sized(Current(dev)) && InBuffer(Current(dev), tag)
      requires size <= buf.Length && buf != image && buf != dev.cells
      modifies `synced, image, buf
      ensures Valid() && synced == old(Readable(dev, bus))
      ensures !synced ==> rv == Unknown
      ensures synced ==>
        && Sized(old(Current(dev)))
        && var total, found := TotalSize(old(Current(dev))), ValueAt(image[..], old(Current(dev)), tag);
           && image[..total] == old(Current(dev))[..total] && image[total..] == old(image[total..])
           && rv == (if found.Missing? then Unknown else if |found.value| > size then Inval else Success)
           && (rv == Success ==> got == |found.value| <= size && buf[..got] == found.value)
      ensures rv == Success ==> (forall i :: got <= i < size ==> buf[i] == 0) && buf[size..] == old(buf[size..])
      ensures rv != Success ==> got == size && buf[..] == old(buf[..])
    {
      ghost var img := Current(dev);
      var ok := Read(dev, bus);
      if !ok {
        return Unknown, size;
      }
      SameValue(image[..], img, tag);
      rv, got := Lookup(tag, buf, size);
    }

    // ----------------------------------------------------------- writing

    /** Every block of a store of `total` bytes is answered. */
    ghost predicate AllAnswered(bus: nat -> bool, total: nat) {
      forall k: nat :: EEPROM_PAGE_WRITE_SIZE * k < total ==> bus(k)
    }

    /** eeprom_write: the image up to its total size, in blocks of eight bytes. */
    method Write(dev: Eeprom, bus: nat -> bool) returns (ok: bool)
      requires image.Length == CBI_IMAGE_SIZE && dev.Valid() && dev.cells != image
      requires HEADER <= TotalSize(image[..]) <= CBI_IMAGE_SIZE
      modifies dev.cells
      ensures ok == AllAnswered(bus, TotalSize(image[..]))
      ensures ok <==> forall k: nat :: 8 * k < TotalSize(image[..]) ==> bus(k)
      ensures ok ==> dev.cells[..TotalSize(image[..])] == image[..TotalSize(image[..])]
      ensures ok ==> dev.cells[TotalSize(image[..])..] == old(dev.cells[TotalSize(image[..])..])
    {
      var lo: int, hi: int := image[6], image[7];
      var total := lo + 0x100 * hi;
      var p, rest, k: nat := 0, total, 0;
      ghost var was := dev.cells[..];
      while rest > 0
        invariant 0 <= rest && p + rest == total
        invariant rest > 0 ==> p == EEPROM_PAGE_WRITE_SIZE * k
        invariant forall j: nat :: j < k ==> bus(j)
        invariant rest == 0 ==> total <= EEPROM_PAGE_WRITE_SIZE * k
        invariant dev.cells[..] == image[..][..p] + was[p..]
      {
        var size := if EEPROM_PAGE_WRITE_SIZE < rest then EEPROM_PAGE_WRITE_SIZE else rest;
        NextBlock(image[..], was, dev.cells[..], p, size);
        dev.WriteBlock(p, image, p, size, bus(k));
        if !bus(k) {
          assert EEPROM_PAGE_WRITE_SIZE * k < total;
          return false;
        }
        p, rest, k := p + size, rest - size, k + 1;
      }
      return true;
    }

    /** The fields that may not be reprogrammed - board version and OEM - and the write protection. */
    static predicate Refused(protected: bool, unlocked: bool, noSync: bool, tag: Octet) {
      (protected && !noSync) || (!unlocked && (tag == CBI_TAG_BOARD_VERSION || tag == CBI_TAG_OEM_ID))
    }

    /** The items a set starts from: none, or those a read gives. */
    ghost function Start(dev: Eeprom, init: bool): Bytes
      requires dev.Valid() && (init || Sized(Current(dev)))
      reads this, image, dev.cells
    {
      if init then [] else Body(Current(dev))
    }

    /** There is an image to start from. */
    ghost predicate Startable(dev: Eeprom, init: bool, bus: seq<bool>)
      requires dev.Valid() && |bus| == 4
      reads this, dev.cells
    {
      init || Readable(dev, bus)
    }

    /** The first half of common_cbi_set: an image to work on. */
    method Begin(dev: Eeprom, init: bool, bus: seq<bool>) returns (ok: bool)
      requires Valid() && dev.Valid() && dev.cells != image && |bus| == 4
      modifies `synced, image
      ensures Valid() && ok == old(Startable(dev, init, bus))
      ensures ok ==>
        && Sized(image[..]) && image[..3] == CBI_MAGIC && (init || Sized(old(Current(dev))))
        && Body(image[..]) == old(Start(dev, init))
      ensures synced == if init then old(synced) else ok
    {
      if init {
        Blank();
        return true;
      }
      ok := Read(dev, bus);
    }

    /** The second half: our version and checksum, then the device unless told not to. */
    method Finish(dev: Eeprom, noSync: bool, bus: nat -> bool) returns (rv: Status)
      requires dev.Valid() && dev.cells != image && Sized(image[..]) && image[..3] == CBI_MAGIC
      modifies `synced, image, dev.cells
      ensures Valid() && synced && Accepted(image[..]) && Body(image[..]) == old(Body(image[..]))
      ensures rv == if noSync || AllAnswered(bus, old(TotalSize(image[..]))) then Success else Error
      ensures noSync ==> dev.cells[..] == old(dev.cells[..])
      ensures rv == Success && !noSync ==> Accepted(dev.cells[..]) && Body(dev.cells[..]) == Body(image[..])
    {
      Seal();
      synced := true;
      if noSync {
        return Success;
      }
      var ok := Write(dev, bus);
      if !ok {
        return Error;
      }
      OnlyTotalMatters(image[..], dev.cells[..]);
      return Success;
    }

    /**
     * common_cbi_set, from any image in which the item of this tag ends inside. A set that
     * succeeds leaves an acceptable image, in RAM and (unless told not to sync) on the
     * device, with the items as they are after setting the tag. One that overflows keeps
     * the others. A refused set changes nothing.
     */
    method Set(dev: Eeprom, protected: bool, unlocked: bool, init: bool, noSync: bool,
               tag: Octet, value: Value, readBus: seq<bool>, writeBus: nat -> bool) returns (rv: Status)
      requires Valid() && dev.Valid() && dev.cells != image && |readBus| == 4
      requires Startable(dev, init, readBus) ==> Intact(Start(dev, init), tag)
      modifies `synced, image, dev.cells
      ensures Valid()
      ensures rv == AccessDenied <==> (protected && !noSync) || (!unlocked && tag in {0, 1})
      ensures rv == AccessDenied ==> image[..] == old(image[..]) && synced == old(synced)
      ensures rv in {AccessDenied, InvalidParam} || noSync ==> dev.cells[..] == old(dev.cells[..])
      ensures rv != AccessDenied && !old(Startable(dev, init, readBus)) ==>
        rv == Error && !synced && dev.cells[..] == old(dev.cells[..])
      ensures rv != AccessDenied && old(Startable(dev, init, readBus)) ==>
        && (init || Sized(old(Current(dev)))) && Sized(image[..])
        && var (after, done) := SetBody(old(Start(dev, init)), tag, value);
           && Body(image[..]) == after
           && if done then
                synced && Accepted(image[..])
                && rv == (if noSync || AllAnswered(writeBus, HEADER + |after|) then Success else Error)
              else rv == InvalidParam && synced == (if init then old(synced) else true)
      ensures rv == Success && !noSync ==> Accepted(dev.cells[..]) && Body(dev.cells[..]) == Body(image[..])
    {
      if Refused(protected, unlocked, noSync, tag) {
        return AccessDenied;
      }
      var ok := Begin(dev, init, readBus);
      if !ok {
        return Error;
      }
      assert image[..3] == image[..6][..3];
      var done := SetBoardInfo(tag, value);
      assert image[..3] == image[..6][..3];
      if done != Success {
        return InvalidParam;
      }
      rv := Finish(dev, noSync, writeBus);
    }

    /** The cache dropped and a tag read again from the device, with room for any value. */
    method Reload(dev: Eeprom, bus: seq<bool>, tag: Octet, buf: array<Octet>) returns (rv: Status, n: nat)
      requires Valid() && dev.Valid() && dev.cells != image && |bus| == 4
      requires Accepted(dev.cells[..]) && Intact(Body(dev.cells[..]), tag)
      requires buf.Length == 255 && buf != image && buf != dev.cells
      modifies `synced, image, buf
      ensures Answered(bus, 0) || Answered(bus, 1) ==>
        var found := LookupIn(Body(dev.cells[..]), tag);
        (rv == Success <==> found.Found?) && (rv == Success ==> n == |found.value| <= buf.Length && buf[..n] == found.value)
    {
      Invalidate();
      ghost var img := dev.cells[..];
      ValueOfIntact(img, img, tag);
      rv, n := GetBoardInfo(dev, bus, tag, buf, 255);
      if Answered(bus, 0) || Answered(bus, 1) {
        ValueOfIntact(image[..], img, tag);
      }
    }

    /**
     * The round trip: a set that reached the device, the cache dropped, and any tag read
     * back over a bus that answers. The reader finds the items as they are after setting
     * the tag. The set fails only for want of an image to start from, of room, or of an
     * answer to a write.
     */
    method SetThenReload(dev: Eeprom, init: bool, tag: Octet, value: Value, readBus: seq<bool>, writeBus: nat -> bool,
                         reloadBus: seq<bool>, other: Octet, buf: array<Octet>)
      returns (rv: Status, got: Status, n: nat)
      requires Valid() && dev.Valid() && dev.cells != image && |readBus| == |reloadBus| == 4
      requires Startable(dev, init, readBus) ==>
        Intact(Start(dev, init), tag) && Intact(SetBody(Start(dev, init), tag, value).0, other)
      requires buf.Length == 255 && buf != image && buf != dev.cells
      modifies `synced, image, dev.cells, buf
      ensures rv == Success <==>
        && old(Startable(dev, init, readBus))
        && var (after, done) := SetBody(old(Start(dev, init)), tag, value);
           done && AllAnswered(writeBus, HEADER + |after|)
      ensures rv == Success && (Answered(reloadBus, 0) || Answered(reloadBus, 1)) ==>
        var found := LookupIn(SetBody(old(Start(dev, init)), tag, value).0, other);
        (got == Success <==> found.Found?) && (got == Success ==> n == |found.value| <= buf.Length && buf[..n] == found.value)
    {
      got, n := Unknown, 0;
      rv := Set(dev, false, true, init, false, tag, value, readBus, writeBus);
      if rv != Success {
        return;
      }
      got, n := Reload(dev, reloadBus, other, buf);
    }
  }
}
