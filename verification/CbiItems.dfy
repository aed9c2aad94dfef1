// The body of a Cros Board Info image (common/cbi.c): bytes that are read as a list of
// items - tag, size, value - and that readers take for a map from tags to values. Finding
// and setting a tag is modelled on the bytes, whatever they are; then it is shown what
// that means for the list, and when it means a map update.
module CbiItems {

  type Octet = x: int | 0 <= x < 256
  type Bytes = seq<Octet>

  const CBI_IMAGE_SIZE := 256
  const HEADER := 8

  /** A value's size fits its byte. */
  type Value = v: Bytes | |v| < 256 witness []

  datatype Lookup = Found(value: Bytes) | Missing

  lemma SliceOfSlice<T>(s: seq<T>, lo: nat, hi: nat, i: nat, j: nat)
    requires lo <= i <= j <= hi <= |s|
    ensures s[lo..hi][i - lo..j - lo] == s[i..j]
  {
    var t := s[lo..hi];
    assert forall k :: 0 <= k < j - i ==> t[i - lo..j - lo][k] == s[i..j][k];
  }

  // ------------------------------------------------------------- on the bytes

  /** cbi_find_tag: the offset of the first item with this tag, or -1, walking from p. */
  function Find(body: Bytes, p: nat, tag: Octet): (d: int)
    ensures d == -1 || (p <= d && d + 2 < |body| && body[d] == tag)
    decreases |body| - p
  {
    if p + 2 >= |body| then -1
    else if body[p] == tag then p
    else Find(body, p + 2 + body[p + 1], tag)
  }

  predicate Present(body: Bytes, tag: Octet) {
    Find(body, 0, tag) >= 0
  }

  /** The item found for this tag, if any, ends inside the body. */
  predicate Intact(body: Bytes, tag: Octet) {
    var d := Find(body, 0, tag);
    d >= 0 ==> d + 2 + body[d + 1] <= |body|
  }

  /** What a reader finds. */
  function LookupIn(body: Bytes, tag: Octet): (r: Lookup)
    requires Intact(body, tag)
    ensures r.Found? <==> Present(body, tag)
  {
    var d := Find(body, 0, tag);
    if d < 0 then Missing else Found(body[d + 2..d + 2 + body[d + 1]])
  }

  /** The bytes of an item. */
  function Item(tag: Octet, value: Value): (r: Bytes)
    ensures |r| == 2 + |value|
  {
    [tag, |value|] + value
  }

  /** The body without the item at d. */
  function Without(body: Bytes, d: nat): Bytes
    requires d + 2 <= |body| && d + 2 + body[d + 1] <= |body|
  {
    body[..d] + body[d + 2 + body[d + 1]..]
  }

  /** The body with the value of the item at d replaced by one of its size. */
  function Overwritten(body: Bytes, d: nat, value: Bytes): Bytes
    requires d + 2 + |value| <= |body|
  {
    body[..d + 2] + value + body[d + 2 + |value|..]
  }

  /** cbi_set_data behind the last item: nothing for an empty value. */
  function Appended(body: Bytes, tag: Octet, value: Value): Bytes {
    if value == [] then body else body + Item(tag, value)
  }

  /**
   * cbi_set_board_info: the new body, and whether the value was set. An item of the same
   * size is overwritten; another one goes, and the value comes last if there is room.
   */
  function SetBody(body: Bytes, tag: Octet, value: Value): (r: (Bytes, bool))
    requires Intact(body, tag)
  {
    var d := Find(body, 0, tag);
    if d >= 0 && body[d + 1] == |value| then (Overwritten(body, d, value), true)
    else
      var rest := if d >= 0 then Without(body, d) else body;
      if HEADER + |rest| + 2 + |value| > CBI_IMAGE_SIZE then (rest, false) else (Appended(rest, tag, value), true)
  }

  /** The first item of an image: tag, size, value, if it fits behind the header; a second one follows it. */
  lemma FirstItems(tag: Octet, value: Value, other: Octet, more: Value)
    requires value != [] && more != [] && tag != other
    ensures SetBody([], tag, value) == if |value| <= 246 then ([tag, |value|] + value, true) else ([], false)
    ensures |value| + |more| <= 244 ==>
      && Intact([tag, |value|] + value, other)
      && SetBody([tag, |value|] + value, other, more) == ([tag, |value|] + value + [other, |more|] + more, true)
  {
    var body := [tag, |value|] + value;
    assert Find(body, 0, other) == Find(body, 2 + |value|, other) == -1;
    assert body + ([other, |more|] + more) == body + [other, |more|] + more;
    assert [] + ([tag, |value|] + value) == body;
  }

  // ------------------------------------------------------------- as a list of items

  datatype Entry = Entry(tag: Octet, value: Value)

  function Serialize(es: seq<Entry>): Bytes {
    if es == [] then [] else Item(es[0].tag, es[0].value) + Serialize(es[1..])
  }

  lemma {:induction false} SerializeConcat(a: seq<Entry>, b: seq<Entry>)
    ensures Serialize(a + b) == Serialize(a) + Serialize(b)
  {
    if a == [] {
      assert a + b == b;
    } else {
      assert (a + b)[1..] == a[1..] + b;
      SerializeConcat(a[1..], b);
    }
  }

  lemma ItemPrefix(d: Entry, e: Entry, s: Bytes, t: Bytes)
    requires Item(d.tag, d.value) + s == Item(e.tag, e.value) + t
    ensures d == e && s == t
  {
    var l, r := Item(d.tag, d.value) + s, Item(e.tag, e.value) + t;
    assert l[0] == d.tag && r[0] == e.tag && l[1] == |d.value| && r[1] == |e.value|;
    assert l[2..][..|d.value|] == d.value && r[2..][..|d.value|] == e.value;
    assert l[2 + |d.value|..] == s && r[2 + |d.value|..] == t;
  }

  /** A body can be read as items in only one way. */
  lemma {:induction false} SerializeInjective(a: seq<Entry>, b: seq<Entry>)
    requires Serialize(a) == Serialize(b)
    ensures a == b
    decreases |a|
  {
    if a != [] && b != [] {
      ItemPrefix(a[0], b[0], Serialize(a[1..]), Serialize(b[1..]));
      SerializeInjective(a[1..], b[1..]);
      assert a == [a[0]] + a[1..] && b == [b[0]] + b[1..];
    }
  }

  /** The walk does not look at the last two bytes: an empty item that comes last is not seen. */
  predicate Seen(es: seq<Entry>, i: nat)
    requires i < |es|
  {
    i == |es| - 1 ==> es[i].value != []
  }

  /** The first entry that is seen with this tag; the length of the list if there is none. */
  function IndexOf(es: seq<Entry>, tag: Octet): (k: nat)
    ensures k <= |es| && (k < |es| ==> es[k].tag == tag && Seen(es, k))
    ensures forall i :: 0 <= i < k && Seen(es, i) ==> es[i].tag != tag
  {
    if es == [] then 0
    else if es[0].tag == tag && Seen(es, 0) then 0
    else
      var rest := es[1..];
      var k := IndexOf(rest, tag);
      assert forall i :: 1 <= i < |es| ==> es[i] == rest[i - 1] && (Seen(es, i) <==> Seen(rest, i - 1));
      1 + k
  }

  /** What a list of entries means to a reader of a tag. */
  function Meaning(es: seq<Entry>, tag: Octet): Lookup {
    var k := IndexOf(es, tag);
    if k < |es| then Found(es[k].value) else Missing
  }

  function WithoutEntry(es: seq<Entry>, k: nat): seq<Entry>
    requires k <= |es|
  {
    if k < |es| then es[..k] + es[k + 1..] else es
  }

  function AppendedEntry(es: seq<Entry>, tag: Octet, value: Value): seq<Entry> {
    if value == [] then es else es + [Entry(tag, value)]
  }

  /** The entries a set leaves besides its own: all but the first seen with the tag. */
  function Others(es: seq<Entry>, tag: Octet): seq<Entry> {
    WithoutEntry(es, IndexOf(es, tag))
  }

  /** The tag has an item of just this size. */
  predicate SameSize(es: seq<Entry>, tag: Octet, size: nat) {
    var k := IndexOf(es, tag);
    k < |es| && |es[k].value| == size
  }

  /** There is room for another item of this size beside the other entries. */
  predicate Room(es: seq<Entry>, tag: Octet, size: nat) {
    HEADER + |Serialize(Others(es, tag))| + 2 + size <= CBI_IMAGE_SIZE
  }

  /** Setting a tag in a list of entries, and whether it was set. */
  function SetEntries(es: seq<Entry>, tag: Octet, value: Value): (seq<Entry>, bool) {
    if SameSize(es, tag, |value|) then (es[IndexOf(es, tag) := Entry(tag, value)], true)
    else if Room(es, tag, |value|) then (AppendedEntry(Others(es, tag), tag, value), true)
    else (Others(es, tag), false)
  }

  // ------------------------------------------------------------- the bytes refine the list

  /** The place of an entry among the bytes. */
  function OffsetOf(es: seq<Entry>, k: nat): nat
    requires k <= |es|
  {
    |Serialize(es[..k])|
  }

  /** An item between other bytes. */
  lemma Middle(body: Bytes, before: Bytes, tag: Octet, value: Value, after: Bytes)
    requires body == before + (Item(tag, value) + after)
    ensures var d := |before|;
            && |body| == d + 2 + |value| + |after| && body[d] == tag && body[d + 1] == |value|
            && body[..d] == before && body[d + 2..d + 2 + |value|] == value && body[d + 2 + |value|..] == after
  {
    var d := |before|;
    assert body[d..] == Item(tag, value) + after;
    assert body[d] == body[d..][0] && body[d + 1] == body[d..][1];
    assert body[d..][2..2 + |value|] == value && body[d..][2 + |value|..] == after;
    assert body[d + 2..d + 2 + |value|] == body[d..][2..2 + |value|];
    assert body[d + 2 + |value|..] == body[d..][2 + |value|..];
  }

  lemma WithoutMiddle(body: Bytes, before: Bytes, tag: Octet, value: Value, after: Bytes)
    requires body == before + (Item(tag, value) + after)
    ensures |before| + 2 + |value| <= |body| && body[|before| + 1] == |value| && Without(body, |before|) == before + after
  {
    Middle(body, before, tag, value, after);
  }

  lemma OverwrittenMiddle(body: Bytes, before: Bytes, tag: Octet, value: Value, now: Value, after: Bytes)
    requires body == before + (Item(tag, value) + after) && |now| == |value|
    ensures |before| + 2 + |now| <= |body| && Overwritten(body, |before|, now) == before + (Item(tag, now) + after)
  {
    Middle(body, before, tag, value, after);
    assert body[..|before| + 2] == before + [tag, |value|];
  }

  lemma EntrySplit(es: seq<Entry>, k: nat)
    requires k < |es|
    ensures Serialize(es) == Serialize(es[..k]) + (Item(es[k].tag, es[k].value) + Serialize(es[k + 1..]))
  {
    assert es == es[..k] + es[k..];
    SerializeConcat(es[..k], es[k..]);
    assert es[k..][1..] == es[k + 1..];
  }

  /** An entry among the bytes. */
  lemma EntryAt(es: seq<Entry>, k: nat)
    requires k < |es|
    ensures var body, d, v := Serialize(es), OffsetOf(es, k), es[k].value;
            && d + 2 + |v| <= |body| && body[d] == es[k].tag && body[d + 1] == |v| && body[d + 2..d + 2 + |v|] == v
  {
    EntrySplit(es, k);
  }

  /** One step of the walk, over the item at |pre|. */
  lemma FindStep(body: Bytes, pre: Bytes, e: Entry, rest: Bytes, tag: Octet)
    requires body == pre + (Item(e.tag, e.value) + rest)
    ensures Find(body, |pre|, tag) == if e.value == [] && rest == [] then -1 else if e.tag == tag then |pre|
                                      else Find(body, |pre + Item(e.tag, e.value)|, tag)
    ensures body == pre + Item(e.tag, e.value) + rest
  {
    Middle(body, pre, e.tag, e.value, rest);
  }

  lemma OffsetNext(es: seq<Entry>, j: nat)
    requires j < |es|
    ensures OffsetOf(es, j + 1) == 2 + |es[0].value| + OffsetOf(es[1..], j)
  {
    assert es[..j + 1][0] == es[0] && es[..j + 1][1..] == es[1..][..j];
  }

  /** The walk over the bytes finds the first entry seen with the tag, if there is one. */
  lemma {:induction false} FindSerialized(body: Bytes, pre: Bytes, es: seq<Entry>, tag: Octet, k: nat)
    requires body == pre + Serialize(es) && k == IndexOf(es, tag)
    ensures Find(body, |pre|, tag) == if k < |es| then |pre| + OffsetOf(es, k) else -1
    decreases |es|
  {
    if es == [] {
    } else {
      var next, rest := pre + Item(es[0].tag, es[0].value), Serialize(es[1..]);
      FindStep(body, pre, es[0], rest, tag);
      if es[0].value == [] && rest == [] {
      }
      if !(es[0].tag == tag && Seen(es, 0)) {
        FindSerialized(body, next, es[1..], tag, k - 1);
        if k < |es| {
          OffsetNext(es, k - 1);
        }
      }
    }
  }

  /** In a list of items every tag is found where the list has it. */
  lemma FindsIndex(es: seq<Entry>, tag: Octet)
    ensures var k := IndexOf(es, tag);
            Find(Serialize(es), 0, tag) == if k < |es| then OffsetOf(es, k) else -1
  {
    FindSerialized(Serialize(es), [], es, tag, IndexOf(es, tag));
  }

  /** And it is read as the list means it. */
  lemma ReadsMeaning(es: seq<Entry>, tag: Octet)
    ensures Intact(Serialize(es), tag) && LookupIn(Serialize(es), tag) == Meaning(es, tag)
  {
    var k := IndexOf(es, tag);
    FindsIndex(es, tag);
    if k < |es| {
      EntryAt(es, k);
    }
  }

  lemma WithoutRefines(es: seq<Entry>, k: nat)
    requires k < |es|
    ensures var body, d := Serialize(es), OffsetOf(es, k);
            && d + 2 <= |body| && body[d + 1] == |es[k].value| && d + 2 + body[d + 1] <= |body|
            && Without(body, d) == Serialize(WithoutEntry(es, k))
  {
    EntrySplit(es, k);
    WithoutMiddle(Serialize(es), Serialize(es[..k]), es[k].tag, es[k].value, Serialize(es[k + 1..]));
    SerializeConcat(es[..k], es[k + 1..]);
  }

  lemma OverwriteRefines(es: seq<Entry>, fs: seq<Entry>, k: nat, value: Value)
    requires k < |es| && |value| == |es[k].value| && fs == es[k := Entry(es[k].tag, value)]
    ensures OffsetOf(es, k) + 2 + |value| <= |Serialize(es)|
    ensures Overwritten(Serialize(es), OffsetOf(es, k), value) == Serialize(fs)
  {
    EntrySplit(es, k);
    EntrySplit(fs, k);
    assert fs[..k] == es[..k] && fs[k + 1..] == es[k + 1..];
    OverwrittenMiddle(Serialize(es), Serialize(es[..k]), es[k].tag, es[k].value, value, Serialize(es[k + 1..]));
  }

  lemma AppendRefines(es: seq<Entry>, tag: Octet, value: Value)
    ensures Appended(Serialize(es), tag, value) == Serialize(AppendedEntry(es, tag, value))
  {
    var e := Entry(tag, value);
    SerializeConcat(es, [e]);
    assert Serialize([e]) == Item(tag, value) + Serialize([]) == Item(tag, value);
  }

  lemma SetRefinesInPlace(es: seq<Entry>, tag: Octet, value: Value)
    requires SameSize(es, tag, |value|) && Intact(Serialize(es), tag)
    ensures SetBody(Serialize(es), tag, value) == (Serialize(es[IndexOf(es, tag) := Entry(tag, value)]), true)
  {
    var k := IndexOf(es, tag);
    FindsIndex(es, tag);
    EntryAt(es, k);
    OverwriteRefines(es, es[k := Entry(tag, value)], k, value);
  }

  /** What is left of the bytes once an item of another size is gone. */
  lemma OthersRefine(es: seq<Entry>, tag: Octet, size: nat)
    requires !SameSize(es, tag, size)
    ensures var body, d := Serialize(es), Find(Serialize(es), 0, tag);
            if d >= 0 then
              d + 2 <= |body| && body[d + 1] != size && d + 2 + body[d + 1] <= |body| && Without(body, d) == Serialize(Others(es, tag))
            else body == Serialize(Others(es, tag))
  {
    FindsIndex(es, tag);
    var k := IndexOf(es, tag);
    if k < |es| {
      WithoutRefines(es, k);
    }
  }

  /** Setting a tag among the bytes sets it in the list, with the same outcome. */
  lemma SetRefines(es: seq<Entry>, tag: Octet, value: Value)
    ensures Intact(Serialize(es), tag)
    ensures var (after, done) := SetEntries(es, tag, value);
            SetBody(Serialize(es), tag, value) == (Serialize(after), done)
  {
    ReadsMeaning(es, tag);
    if SameSize(es, tag, |value|) {
      SetRefinesInPlace(es, tag, value);
    } else {
      OthersRefine(es, tag, |value|);
      AppendRefines(Others(es, tag), tag, value);
    }
  }

  // ------------------------------------------------------------- what a set means

  /** The value of the first entry with the tag, seen or not. */
  function First(es: seq<Entry>, tag: Octet): Lookup {
    if es == [] then Missing else if es[0].tag == tag then Found(es[0].value) else First(es[1..], tag)
  }

  /** The only entry with this tag is an empty one that comes last. */
  predicate Hidden(es: seq<Entry>, tag: Octet) {
    es != [] && es[|es| - 1] == Entry(tag, []) && First(es[..|es| - 1], tag) == Missing
  }

  lemma {:induction false} FirstConcat(a: seq<Entry>, b: seq<Entry>, tag: Octet)
    ensures First(a + b, tag) == if First(a, tag) == Missing then First(b, tag) else First(a, tag)
  {
    if a == [] {
      assert a + b == b;
    } else {
      assert (a + b)[1..] == a[1..] + b;
      FirstConcat(a[1..], b, tag);
    }
  }

  lemma {:induction false} FirstMisses(es: seq<Entry>, tag: Octet)
    ensures First(es, tag) == Missing <==> forall i :: 0 <= i < |es| ==> es[i].tag != tag
  {
    if es != [] {
      FirstMisses(es[1..], tag);
      assert forall i :: 1 <= i < |es| ==> es[i] == es[1..][i - 1];
    }
  }

  lemma {:induction false} MeaningIsFirst(es: seq<Entry>, tag: Octet)
    ensures Meaning(es, tag) == if Hidden(es, tag) then Missing else First(es, tag)
    decreases |es|
  {
    if es != [] && es[0].tag != tag {
      MeaningIsFirst(es[1..], tag);
      if |es| > 1 {
        assert es[..|es| - 1][1..] == es[1..][..|es| - 2];
      }
    }
  }

  lemma HiddenIsEmpty(es: seq<Entry>, tag: Octet)
    requires Hidden(es, tag)
    ensures First(es, tag) == Found([])
  {
    var init, last := es[..|es| - 1], es[|es| - 1];
    FirstConcat(init, [last], tag);
    assert es == init + [last];
  }

  lemma FirstOfParts(es: seq<Entry>, k: nat, tag: Octet)
    requires k < |es|
    ensures First(es, tag) == if First(es[..k], tag) != Missing then First(es[..k], tag)
                              else if es[k].tag == tag then Found(es[k].value) else First(es[k + 1..], tag)
  {
    FirstConcat(es[..k], es[k..], tag);
    assert es == es[..k] + es[k..] && es[k..][1..] == es[k + 1..];
  }

  /** A set keeps the first entry of every other tag. */
  lemma FirstKept(es: seq<Entry>, tag: Octet, value: Value, other: Octet)
    requires other != tag
    ensures First(SetEntries(es, tag, value).0, other) == First(es, other)
  {
    var k, rest, e := IndexOf(es, tag), Others(es, tag), Entry(tag, value);
    if k < |es| {
      var fs := es[k := e];
      FirstOfParts(es, k, other);
      FirstOfParts(fs, k, other);
      assert fs[..k] == es[..k] && fs[k + 1..] == es[k + 1..];
      FirstConcat(es[..k], es[k + 1..], other);
    }
    FirstConcat(rest, [e], other);
  }

  /**
   * A set keeps what another tag means if and only if it neither hides nor uncovers an
   * empty item of that tag at the end of the list.
   */
  lemma OtherTagsExactly(es: seq<Entry>, tag: Octet, value: Value, other: Octet)
    requires other != tag
    ensures var after := SetEntries(es, tag, value).0;
            Meaning(after, other) == Meaning(es, other) <==> (Hidden(after, other) <==> Hidden(es, other))
  {
    var after := SetEntries(es, tag, value).0;
    FirstKept(es, tag, value, other);
    MeaningIsFirst(es, other);
    MeaningIsFirst(after, other);
    if Hidden(es, other) {
      HiddenIsEmpty(es, other);
    }
    if Hidden(after, other) {
      HiddenIsEmpty(after, other);
    }
  }

  lemma ReadsBackInPlace(es: seq<Entry>, tag: Octet, value: Value)
    requires value != [] && SameSize(es, tag, |value|)
    ensures Meaning(SetEntries(es, tag, value).0, tag) == Found(value)
  {
    var k := IndexOf(es, tag);
    var fs := es[k := Entry(tag, value)];
    forall i | 0 <= i < k ensures fs[i].tag != tag {
      assert Seen(es, i);
    }
    assert Seen(fs, k);
  }

  /**
   * A value that was set is read back if and only if it took the place of one of its own
   * size, or no other value of the tag is left in front of it. A list in which the tag
   * comes twice can break that.
   */
  lemma ReadsBackExactly(es: seq<Entry>, tag: Octet, value: Value)
    requires value != [] && SetEntries(es, tag, value).1
    ensures Meaning(SetEntries(es, tag, value).0, tag) == Found(value) <==>
            SameSize(es, tag, |value|) || First(Others(es, tag), tag) in {Missing, Found(value)}
  {
    if SameSize(es, tag, |value|) {
      ReadsBackInPlace(es, tag, value);
    } else {
      var rest := Others(es, tag);
      var after := rest + [Entry(tag, value)];
      MeaningIsFirst(after, tag);
      FirstConcat(rest, [Entry(tag, value)], tag);
    }
  }

  /** Here it is not: the first entry of the tag goes, and the second hides the new one. */
  lemma SecondEntryShadows()
    ensures var es := [Entry(1, [5, 5]), Entry(1, [6])];
            SetEntries(es, 1, [7]) == ([Entry(1, [6]), Entry(1, [7])], true) && Meaning(SetEntries(es, 1, [7]).0, 1) == Found([6])
  {
    var es, rest := [Entry(1, [5, 5]), Entry(1, [6])], [Entry(1, [6])];
    assert IndexOf(es, 1) == 0 && Others(es, 1) == rest;
    assert Serialize(rest) == Item(1, [6]) + Serialize([]);
    assert SetEntries(es, 1, [7]) == (rest + [Entry(1, [7])], true);
    assert rest + [Entry(1, [7])] == [Entry(1, [6]), Entry(1, [7])];
  }

  // ------------------------------------------------------------- lists that are maps

  /** A list as this store makes it: no tag repeats, no value is empty. */
  ghost predicate Clean(es: seq<Entry>) {
    && (forall i :: 0 <= i < |es| ==> es[i].value != [])
    && forall i, j :: 0 <= i < j < |es| ==> es[i].tag != es[j].tag
  }

  /** The map a reader sees. */
  function Info(es: seq<Entry>): map<Octet, Bytes> {
    map t: Octet | 0 <= t < 256 && IndexOf(es, t) < |es| :: es[IndexOf(es, t)].value
  }

  /** What a map means to a reader of a tag. */
  function At(m: map<Octet, Bytes>, tag: Octet): Lookup {
    if tag in m then Found(m[tag]) else Missing
  }

  lemma InfoIsMeaning(es: seq<Entry>, tag: Octet)
    ensures At(Info(es), tag) == Meaning(es, tag)
  {
  }

  lemma MapsAgree(m: map<Octet, Bytes>, n: map<Octet, Bytes>)
    requires forall t: Octet :: At(m, t) == At(n, t)
    ensures m == n
  {
    forall t: Octet ensures (t in m <==> t in n) && (t in m ==> m[t] == n[t]) {
      assert At(m, t) == At(n, t);
    }
  }

  /** What setting a tag of a map means: update, removal when the new value is empty. */
  function Updated(m: map<Octet, Bytes>, tag: Octet, value: Bytes): map<Octet, Bytes> {
    if value == [] then m - {tag} else m[tag := value]
  }

  /**
   * A value fits when it replaces one of its own size, or when there is room for it in an
   * image of this total size once the old value is gone.
   */
  predicate Fits(m: map<Octet, Bytes>, total: int, tag: Octet, size: nat) {
    || (tag in m && |m[tag]| == size)
    || total - (if tag in m then 2 + |m[tag]| else 0) + 2 + size <= CBI_IMAGE_SIZE
  }

  lemma CleanHidesNothing(es: seq<Entry>, tag: Octet)
    requires Clean(es)
    ensures !Hidden(es, tag) && First(Others(es, tag), tag) == Missing
  {
    var k, rest := IndexOf(es, tag), Others(es, tag);
    forall i | 0 <= i < |rest| ensures rest[i].tag != tag {
      if k < |es| {
        assert rest[i] == if i < k then es[i] else es[i + 1];
      } else {
        assert Seen(es, i);
      }
    }
    FirstMisses(rest, tag);
  }

  lemma CleanWithout(es: seq<Entry>, k: nat)
    requires Clean(es) && k <= |es|
    ensures Clean(WithoutEntry(es, k))
  {
    if k < |es| {
      var rest := WithoutEntry(es, k);
      assert forall i :: 0 <= i < |rest| ==> rest[i] == if i < k then es[i] else es[i + 1];
    }
  }

  lemma CleanAppended(es: seq<Entry>, tag: Octet, value: Value)
    requires Clean(es) && First(es, tag) == Missing
    ensures Clean(AppendedEntry(es, tag, value))
  {
    FirstMisses(es, tag);
  }

  /** The store keeps its lists clean. */
  lemma SetKeepsClean(es: seq<Entry>, tag: Octet, value: Value)
    requires Clean(es)
    ensures Clean(SetEntries(es, tag, value).0)
  {
    var k := IndexOf(es, tag);
    if SameSize(es, tag, |value|) {
    } else {
      CleanHidesNothing(es, tag);
      CleanWithout(es, k);
      CleanAppended(Others(es, tag), tag, value);
    }
  }

  lemma RoomIsFit(es: seq<Entry>, tag: Octet, value: Value)
    ensures SetEntries(es, tag, value).1 <==> Fits(Info(es), HEADER + |Serialize(es)|, tag, |value|)
  {
    var k := IndexOf(es, tag);
    if k < |es| {
      EntrySplit(es, k);
      SerializeConcat(es[..k], es[k + 1..]);
    }
  }

  /** What a clean list means after a set, tag by tag. */
  lemma MeaningAfter(es: seq<Entry>, tag: Octet, value: Value, other: Octet)
    requires Clean(es)
    ensures var (after, done) := SetEntries(es, tag, value);
            Meaning(after, other) == if other != tag then Meaning(es, other)
                                     else if done && value != [] then Found(value) else Missing
  {
    var (after, done) := SetEntries(es, tag, value);
    SetKeepsClean(es, tag, value);
    CleanHidesNothing(es, other);
    CleanHidesNothing(after, other);
    CleanHidesNothing(es, tag);
    if other != tag {
      OtherTagsExactly(es, tag, value, other);
    } else if done && value != [] {
      ReadsBackExactly(es, tag, value);
    } else {
      MeaningIsFirst(after, tag);
    }
  }

  lemma UpdatedAt(m: map<Octet, Bytes>, tag: Octet, value: Bytes, t: Octet)
    ensures At(Updated(m, tag, value), t) ==
            if t != tag then At(m, t) else if value == [] then Missing else Found(value)
    ensures At(m - {tag}, t) == if t != tag then At(m, t) else Missing
  {
  }

  /** On the lists this store makes, a set is exactly the update of a map, and no room costs exactly the tag. */
  lemma SetIsMapUpdate(es: seq<Entry>, tag: Octet, value: Value)
    requires Clean(es)
    ensures var (after, done) := SetEntries(es, tag, value);
            && Clean(after) && (done <==> Fits(Info(es), HEADER + |Serialize(es)|, tag, |value|))
            && Info(after) == if done then Updated(Info(es), tag, value) else Info(es) - {tag}
  {
    var (after, done) := SetEntries(es, tag, value);
    SetKeepsClean(es, tag, value);
    RoomIsFit(es, tag, value);
    var now := if done then Updated(Info(es), tag, value) else Info(es) - {tag};
    forall t: Octet ensures At(Info(after), t) == At(now, t) {
      MeaningAfter(es, tag, value, t);
      InfoIsMeaning(after, t);
      InfoIsMeaning(es, t);
      UpdatedAt(Info(es), tag, value, t);
    }
    MapsAgree(Info(after), now);
  }

  /** Set and read back, from the bytes to the map. */
  lemma ReadAfterSet(es: seq<Entry>, tag: Octet, value: Value, other: Octet)
    requires Clean(es)
    ensures Intact(Serialize(es), tag)
    ensures var (body, done) := SetBody(Serialize(es), tag, value);
            && Intact(body, other)
            && LookupIn(body, other) == At(if done then Updated(Info(es), tag, value) else Info(es) - {tag}, other)
  {
    var after := SetEntries(es, tag, value).0;
    SetRefines(es, tag, value);
    SetIsMapUpdate(es, tag, value);
    ReadsMeaning(after, other);
    InfoIsMeaning(after, other);
  }
}
