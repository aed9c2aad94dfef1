// Data channel selection of Bluetooth Low Energy (common/bluetooth_le.c), section 4.5.8 of
// the Bluetooth Core Specification 4.1, volume 6, part B.
module BleHopping {

  const CHANNELS := 37

  type ChannelMap = m: seq<bv8> | |m| == 5 witness [0, 0, 0, 0, 0]

  predicate Enabled(map5: ChannelMap, i: nat)
    requires i < CHANNELS
  {
    map5[i / 8] & ((1 as bv8) << (i % 8)) != 0
  }

  /** Channel 8 b + k is bit k of byte b, the least significant one first. */
  lemma EnabledIsBit(map5: ChannelMap, i: nat)
    requires i < CHANNELS
    ensures var b := map5[i / 8];
            Enabled(map5, i) <==> match i % 8
              case 0 => b & 1 != 0 case 1 => b & 2 != 0 case 2 => b & 4 != 0 case 3 => b & 8 != 0
              case 4 => b & 16 != 0 case 5 => b & 32 != 0 case 6 => b & 64 != 0 case _ => b & 128 != 0
  {
  }

  /** The enabled channels among the first n, in ascending order. */
  function EnabledBelow(map5: ChannelMap, n: nat): seq<nat>
    requires n <= CHANNELS
  {
    if n == 0 then [] else EnabledBelow(map5, n - 1) + (if Enabled(map5, n - 1) then [n - 1] else [])
  }

  function Used(map5: ChannelMap): seq<nat> {
    EnabledBelow(map5, CHANNELS)
  }

  lemma {:induction false} EnabledBelowIs(map5: ChannelMap, n: nat)
    requires n <= CHANNELS
    ensures var u := EnabledBelow(map5, n);
            && |u| <= n
            && (forall a :: 0 <= a < |u| ==> u[a] < n && Enabled(map5, u[a]))
            && (forall a, b :: 0 <= a < b < |u| ==> u[a] < u[b])
            && forall i: nat :: i < n && Enabled(map5, i) ==> i in u
  {
    if n > 0 {
      EnabledBelowIs(map5, n - 1);
      var v, u := EnabledBelow(map5, n - 1), EnabledBelow(map5, n);
      assert forall a :: 0 <= a < |v| ==> u[a] == v[a];
      if Enabled(map5, n - 1) {
        assert u[|v|] == n - 1;
        forall i: nat | i < n && Enabled(map5, i) ensures i in u {
          assert i < n - 1 ==> i in v;
        }
      }
    }
  }

  /** The channel used for an unmapped channel: itself when enabled, else one from the table. */
  function Remapped(map5: ChannelMap, unmapped: nat): nat
    requires unmapped < CHANNELS && Used(map5) != []
  {
    if Enabled(map5, unmapped) then unmapped else Used(map5)[unmapped % |Used(map5)|]
  }

  /** The channel is always one of the map, provided the map has one. */
  lemma RemappedIsEnabled(map5: ChannelMap, unmapped: nat)
    requires unmapped < CHANNELS && Used(map5) != []
    ensures Remapped(map5, unmapped) < CHANNELS && Enabled(map5, Remapped(map5, unmapped))
  {
    EnabledBelowIs(map5, CHANNELS);
  }

  // ------------------------------------------------------------- the walk

  /** The unmapped channel after k calls. */
  function Walk(start: nat, hop: nat, k: nat): nat {
    if k == 0 then start else (Walk(start, hop, k - 1) + hop) % CHANNELS
  }

  /** Walking on from where a walk has led to. */
  lemma {:induction false} WalkOn(start: nat, hop: nat, j: nat, k: nat)
    ensures Walk(Walk(start, hop, j), hop, k) == Walk(start, hop, j + k)
  {
    if k > 0 {
      WalkOn(start, hop, j, k - 1);
    }
  }

  /** Walk is start + k * hop up to a multiple of 37. */
  lemma {:induction false} WalkIs(start: nat, hop: nat, k: nat) returns (q: int)
    ensures Walk(start, hop, k) == start + k * hop - CHANNELS * q
  {
    if k == 0 {
      q := 0;
    } else {
      var p := WalkIs(start, hop, k - 1);
      q := p + (Walk(start, hop, k - 1) + hop) / CHANNELS;
      assert (k - 1) * hop + hop == k * hop;
    }
  }

  /** Inverses modulo 37. */
  const INVERSES: seq<int> := [
    0, 1, 19, 25, 28, 15, 31, 16, 14, 33, 26, 27, 34, 20, 8, 5, 7, 24, 35,
    2, 13, 30, 32, 29, 17, 3, 10, 11, 4, 23, 21, 6, 22, 9, 12, 18, 36]

  lemma Inverse(hop: nat) returns (inv: int, m: int)
    requires hop % CHANNELS != 0
    ensures hop * inv == CHANNELS * m + 1
  {
    var r, d := hop % CHANNELS, hop / CHANNELS;
    inv := INVERSES[r];
    var n := InverseOfResidue(r);
    m := d * inv + n;
  }

  lemma InverseOfResidue(r: nat) returns (n: int)
    requires 0 < r < CHANNELS
    ensures r * INVERSES[r] == CHANNELS * n + 1
  {
    n := r * INVERSES[r] / CHANNELS;
  }

  /** Multiples of 37 closer than 37 to each other are the same. */
  lemma NoMultipleBetween(d: int, z: int)
    requires -CHANNELS < d < CHANNELS && d == CHANNELS * z
    ensures d == 0
  {
  }

  lemma CancelHop(d: int, hop: int, inv: int, m: int, q: int)
    requires hop * inv == CHANNELS * m + 1 && d * hop == CHANNELS * q
    ensures d == CHANNELS * (q * inv - d * m)
  {
    assert (d * hop) * inv == d * (hop * inv);
    assert (CHANNELS * q) * inv == CHANNELS * (q * inv);
    assert d * (CHANNELS * m + 1) == CHANNELS * (d * m) + d;
  }

  /** Within 37 calls no unmapped channel comes twice. */
  lemma WalkIsInjective(start: nat, hop: nat, j: nat, k: nat)
    requires start < CHANNELS && hop % CHANNELS != 0
    requires 0 < j <= CHANNELS && 0 < k <= CHANNELS && Walk(start, hop, j) == Walk(start, hop, k)
    ensures j == k
  {
    var p := WalkIs(start, hop, j);
    var q := WalkIs(start, hop, k);
    var inv, m := Inverse(hop);
    assert (j - k) * hop == j * hop - k * hop == CHANNELS * (p - q);
    CancelHop(j - k, hop, inv, m, p - q);
    NoMultipleBetween(j - k, (p - q) * inv - (j - k) * m);
  }

  lemma Solve(start: int, c: int, hop: int, inv: int, m: int, t: int, k: int)
    requires hop * inv == CHANNELS * m + 1 && k == (c - start) * inv - CHANNELS * t
    ensures start + k * hop == c + CHANNELS * ((c - start) * m - t * hop)
  {
    assert k * hop == (c - start) * inv * hop - CHANNELS * t * hop;
    assert (c - start) * inv * hop == (c - start) * (hop * inv);
    assert (c - start) * (CHANNELS * m + 1) == CHANNELS * ((c - start) * m) + (c - start);
    assert CHANNELS * t * hop == CHANNELS * (t * hop);
  }

  /** Within 37 calls every unmapped channel comes. */
  lemma WalkReaches(start: nat, hop: nat, c: nat) returns (k: nat)
    requires start < CHANNELS && c < CHANNELS && hop % CHANNELS != 0
    ensures 0 < k <= CHANNELS && Walk(start, hop, k) == c
  {
    var inv, m := Inverse(hop);
    var x := (c - start) * inv - 1;
    k := x % CHANNELS + 1;
    var t := x / CHANNELS;
    assert k == (c - start) * inv - CHANNELS * t;
    Solve(start, c, hop, inv, m, t, k);
    var q := WalkIs(start, hop, k);
    NoMultipleBetween(Walk(start, hop, k) - c, (c - start) * m - t * hop - q);
  }

  /** Every channel comes exactly once in these 37 calls. */
  ghost predicate VisitsAllOnce(start: nat, hop: nat) {
    forall c: nat :: c < CHANNELS ==> Once(start, hop, c)
  }

  ghost predicate Once(start: nat, hop: nat, c: nat) {
    && (exists k: nat :: 0 < k <= CHANNELS && Walk(start, hop, k) == c)
    && forall j: nat, k: nat ::
         0 < j <= CHANNELS && 0 < k <= CHANNELS && Walk(start, hop, j) == c && Walk(start, hop, k) == c ==> j == k
  }

  lemma {:induction false} WalkStaysPut(start: nat, hop: nat, k: nat)
    requires start < CHANNELS && hop % CHANNELS == 0
    ensures Walk(start, hop, k) == start
  {
    if k > 0 {
      WalkStaysPut(start, hop, k - 1);
    }
  }

  /**
   * From any channel, 37 consecutive calls visit each unmapped channel exactly once, if and
   * only if the hop is not a multiple of 37. All legal hops, 5 to 16, are of that kind.
   */
  lemma VisitsAllOnceExactly(start: nat, hop: nat)
    requires start < CHANNELS
    ensures VisitsAllOnce(start, hop) <==> hop % CHANNELS != 0
    ensures 5 <= hop <= 16 ==> VisitsAllOnce(start, hop)
  {
    if hop % CHANNELS != 0 {
      forall c: nat | c < CHANNELS ensures Once(start, hop, c) {
        var k := WalkReaches(start, hop, c);
        forall i: nat, j: nat | 0 < i <= CHANNELS && 0 < j <= CHANNELS
                                && Walk(start, hop, i) == c && Walk(start, hop, j) == c
          ensures i == j
        {
          WalkIsInjective(start, hop, i, j);
        }
      }
    } else {
      WalkStaysPut(start, hop, 1);
      WalkStaysPut(start, hop, 2);
      assert !Once(start, hop, start);
    }
  }

  /** So every channel of the map is used in any 37 consecutive calls. */
  lemma EveryEnabledChannelIsUsed(map5: ChannelMap, start: nat, hop: nat, c: nat) returns (k: nat)
    requires start < CHANNELS && hop % CHANNELS != 0
    requires c < CHANNELS && Enabled(map5, c)
    ensures 0 < k <= CHANNELS && Walk(start, hop, k) < CHANNELS
    ensures Used(map5) != [] && Remapped(map5, Walk(start, hop, k)) == c
  {
    EnabledBelowIs(map5, CHANNELS);
    k := WalkReaches(start, hop, c);
  }

  /** The k-th call after a start uses this channel, which is one of the map. */
  ghost predicate IsHop(map5: ChannelMap, start: nat, hop: nat, k: nat, channel: nat)
    requires Used(map5) != []
  {
    && Walk(start, hop, k) < CHANNELS && channel == Remapped(map5, Walk(start, hop, k))
    && channel < CHANNELS && Enabled(map5, channel)
  }

  // ------------------------------------------------------------- the table

  class RemappingTable {
    const remappingIndex: array<nat>
    const chanMap: array<bv8>
    var numUsedChannels: nat
    var hopIncrement: nat
    var lastUnmappedChannel: nat

    ghost predicate Valid()
      reads this, remappingIndex, chanMap
    {
      && remappingIndex.Length == CHANNELS && chanMap.Length == 5
      && numUsedChannels <= CHANNELS && remappingIndex[..numUsedChannels] == Used(chanMap[..])
      && lastUnmappedChannel < CHANNELS
    }

    constructor ()
      ensures remappingIndex.Length == CHANNELS && chanMap.Length == 5
      ensures fresh(remappingIndex) && fresh(chanMap)
    {
      remappingIndex := new nat[CHANNELS];
      chanMap := new bv8[5];
      numUsedChannels, hopIncrement, lastUnmappedChannel := 0, 0, 0;
    }

    /** fill_remapping_table: the enabled channels in ascending order. */
    method Fill(map5: ChannelMap, hop: nat)
      requires remappingIndex.Length == CHANNELS && chanMap.Length == 5
      modifies this, remappingIndex, chanMap
      ensures Valid() && chanMap[..] == map5 && hopIncrement == hop && lastUnmappedChannel == 0
      ensures remappingIndex[..numUsedChannels] == Used(map5)
    {
      numUsedChannels, lastUnmappedChannel, hopIncrement := 0, 0, hop;
      var i := 0;
      while i < CHANNELS
        invariant i <= CHANNELS && numUsedChannels <= i
        invariant remappingIndex[..numUsedChannels] == EnabledBelow(map5, i)
        invariant lastUnmappedChannel == 0 && hopIncrement == hop
      {
        if Enabled(map5, i) {
          remappingIndex[numUsedChannels] := i;
          numUsedChannels := numUsedChannels + 1;
        }
        i := i + 1;
      }
      forall j | 0 <= j < 5 {
        chanMap[j] := map5[j];
      }
      assert chanMap[..] == map5;
    }

    /** get_next_data_channel: one step of the walk, and a channel of the map. */
    method GetNextDataChannel() returns (channel: nat)
      requires Valid() && Used(chanMap[..]) != []
      modifies `lastUnmappedChannel
      ensures Valid()
      ensures lastUnmappedChannel == Walk(old(lastUnmappedChannel), hopIncrement, 1)
                                  == (old(lastUnmappedChannel) + hopIncrement) % 37
      ensures channel == Remapped(chanMap[..], lastUnmappedChannel)
      ensures channel == if Enabled(chanMap[..], lastUnmappedChannel) then lastUnmappedChannel
                         else Used(chanMap[..])[lastUnmappedChannel % |Used(chanMap[..])|]
      ensures channel < CHANNELS && Enabled(chanMap[..], channel)
    {
      lastUnmappedChannel := (lastUnmappedChannel + hopIncrement) % CHANNELS;
      RemappedIsEnabled(chanMap[..], lastUnmappedChannel);
      var u := lastUnmappedChannel;
      if chanMap[u / 8] & ((1 as bv8) << (u % 8)) != 0 {
        return u;
      }
      assert remappingIndex[..numUsedChannels][u % numUsedChannels] == remappingIndex[u % numUsedChannels];
      return remappingIndex[u % numUsedChannels];
    }

    /**
     * k consecutive calls, whatever was called before: the walk goes on, and from 37 calls
     * on every channel of the map is used, unless the hop is a multiple of 37.
     */
    method NextDataChannels(k: nat) returns (channels: seq<nat>)
      requires Valid() && Used(chanMap[..]) != []
      modifies `lastUnmappedChannel
      ensures Valid() && |channels| == k
      ensures lastUnmappedChannel == Walk(old(lastUnmappedChannel), hopIncrement, k)
      ensures forall i :: 0 <= i < k ==>
        IsHop(chanMap[..], old(lastUnmappedChannel), hopIncrement, i + 1, channels[i])
      ensures k >= CHANNELS && hopIncrement % CHANNELS != 0 ==>
        forall c: nat :: c < CHANNELS && Enabled(chanMap[..], c) ==> c in channels
    {
      ghost var start := lastUnmappedChannel;
      channels := [];
      for i := 0 to k
        invariant Valid() && |channels| == i && lastUnmappedChannel == Walk(start, hopIncrement, i)
        invariant forall j :: 0 <= j < i ==> IsHop(chanMap[..], start, hopIncrement, j + 1, channels[j])
      {
        WalkOn(start, hopIncrement, i, 1);
        var channel := GetNextDataChannel();
        channels := channels + [channel];
      }
      if k >= CHANNELS && hopIncrement % CHANNELS != 0 {
        forall c: nat | c < CHANNELS && Enabled(chanMap[..], c) ensures c in channels {
          var j := EveryEnabledChannelIsUsed(chanMap[..], start, hopIncrement, c);
          assert IsHop(chanMap[..], start, hopIncrement, j - 1 + 1, channels[j - 1]);
        }
      }
    }
  }
}
