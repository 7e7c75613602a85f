/** The payloads: struct layouts, control-frame encoders and telemetry decoders. */
module Codec {
  import opened Bytes
  import opened Framing
  import opened Wrappers

  const T_UPLINK: byte := 0x01
  const T_NODE_STATS: byte := 0x06
  const T_SET_ARMED: byte := 0x81
  const T_SET_EPOCH: byte := 0x82
  const T_SET_SLOTMAP: byte := 0x83
  const T_SET_TIMING: byte := 0x84

  // ----- packed little-endian structs -----

  function Total(widths: seq<nat>): nat {
    if widths == [] then 0 else widths[0] + Total(widths[1..])
  }

  /** One little-endian integer after the other, without padding. */
  function Pack(values: seq<int>, widths: seq<nat>): (s: seq<byte>)
    requires |values| == |widths|
    ensures |s| == Total(widths)
    decreases |widths|
  {
    if widths == [] then [] else Le(values[0], widths[0]) + Pack(values[1..], widths[1..])
  }

  function Unpack(s: seq<byte>, widths: seq<nat>): (values: seq<nat>)
    requires |s| == Total(widths)
    ensures |values| == |widths|
    decreases |widths|
  {
    if widths == [] then [] else [FromLe(s[..widths[0]])] + Unpack(s[widths[0]..], widths[1..])
  }

  /** Every field of a packed struct comes back reduced to its width. */
  lemma {:induction false} UnpackPack(values: seq<int>, widths: seq<nat>)
    requires |values| == |widths|
    ensures var back := Unpack(Pack(values, widths), widths);
      forall i | 0 <= i < |widths| :: back[i] == values[i] % Pow256(widths[i])
    decreases |widths|
  {
    if widths != [] {
      var head, tail := Le(values[0], widths[0]), Pack(values[1..], widths[1..]);
      assert (head + tail)[..widths[0]] == head && (head + tail)[widths[0]..] == tail;
      LeRoundTrip(values[0], widths[0]);
      UnpackPack(values[1..], widths[1..]);
    }
  }

  lemma {:induction false} PackUnpack(s: seq<byte>, widths: seq<nat>)
    requires |s| == Total(widths)
    ensures Pack(Unpack(s, widths), widths) == s
    decreases |widths|
  {
    if widths != [] {
      FromLeRoundTrip(s[..widths[0]]);
      PackUnpack(s[widths[0]..], widths[1..]);
      var values := Unpack(s, widths);
      assert values[1..] == Unpack(s[widths[0]..], widths[1..]);
      assert s == s[..widths[0]] + s[widths[0]..];
    }
  }

  predicate Fits(x: int, width: nat) {
    0 <= x < Pow256(width)
  }

  predicate FitsSigned(x: int, width: nat) {
    -(Pow256(width) as int) <= 2 * x < Pow256(width)
  }

  // ----- control frames (gateway to base) -----

  const TIMING_LAYOUT: seq<nat> := [1, 2, 2]
  const EPOCH_LAYOUT: seq<nat> := [8]

  function TimingPayload(slotCount: int, toaMs: int, guardMs: int): seq<byte> {
    Pack([slotCount, toaMs, guardMs], TIMING_LAYOUT)
  }

  function EpochPayload(frameEpochMs: int): seq<byte> {
    Pack([frameEpochMs], EPOCH_LAYOUT)
  }

  /** A u8 count, then a (u16 node, u8 slot) pair for each entry. */
  function SlotmapPayload(entries: seq<(int, int)>): seq<byte> {
    [|entries| % 256] + Pairs(entries)
  }

  function Pairs(entries: seq<(int, int)>): (s: seq<byte>)
    ensures |s| == 3 * |entries|
    decreases |entries|
  {
    if entries == [] then []
    else
      var last := entries[|entries| - 1];
      Pairs(entries[..|entries| - 1]) + SlotEntry(last)
  }

  function SlotEntry(e: (int, int)): (s: seq<byte>)
    ensures |s| == 3
  {
    Le(e.0, 2) + Le(e.1, 1)
  }

  function ArmedPayload(armed: bool): seq<byte> {
    [if armed then 1 else 0]
  }

  method EncodeSetSlotmap(entries: seq<(int, int)>) returns (r: EncodeResult)
    ensures r == Framed(T_SET_SLOTMAP, SlotmapPayload(entries))
  {
    hide SlotEntry, Framed;
    var payload: seq<byte> := [|entries| % 256];
    for i := 0 to |entries|
      invariant payload == [|entries| % 256] + Pairs(entries[..i])
    {
      payload := payload + SlotEntry(entries[i]);
      assert entries[..i + 1][..i] == entries[..i];
    }
    assert entries[..|entries|] == entries;
    r := EncodeFrame(T_SET_SLOTMAP, payload);
  }

  // ----- what the base makes of them: the payload layouts read back -----

  function ReadTiming(p: seq<byte>): Option<(int, int, int)> {
    if |p| != 5 then None else Some((FromLe(p[0..1]), FromLe(p[1..3]), FromLe(p[3..5])))
  }

  function ReadEpoch(p: seq<byte>): Option<int> {
    if |p| != 8 then None else Some(FromLe(p))
  }

  /** count pairs, as announced by the first byte; what follows them is ignored. */
  function ReadSlotmap(p: seq<byte>): Option<seq<(int, int)>> {
    if p == [] then None
    else
      var count: nat := p[0];
      if |p| < 1 + 3 * count then None else Some(ReadPairs(p[1..1 + 3 * count], count))
  }

  function ReadPairs(s: seq<byte>, count: nat): (entries: seq<(int, int)>)
    requires |s| == 3 * count
    ensures |entries| == count
    decreases count
  {
    if count == 0 then []
    else
      var k := 3 * (count - 1);
      ReadPairs(s[..k], count - 1) + [(FromLe(s[k..k + 2]), FromLe(s[k + 2..k + 3]))]
  }

  function ReadArmed(p: seq<byte>): Option<bool> {
    if |p| != 1 then None else Some(p[0] != 0)
  }

  lemma TimingRoundTrip(slotCount: int, toaMs: int, guardMs: int)
    ensures ReadTiming(TimingPayload(slotCount, toaMs, guardMs))
         == Some((slotCount % 0x100, toaMs % 0x1_0000, guardMs % 0x1_0000))
  {
    hide Le, FromLe;
    var s := TimingPayload(slotCount, toaMs, guardMs);
    LeRoundTrip(slotCount, 1);
    LeRoundTrip(toaMs, 2);
    LeRoundTrip(guardMs, 2);
    PackThree(slotCount, toaMs, guardMs, 1, 2, 2);
    assert s[0..1] == Le(slotCount, 1) && s[1..3] == Le(toaMs, 2) && s[3..5] == Le(guardMs, 2);
    assert Pow256(1) == 0x100 && Pow256(2) == 0x1_0000;
  }

  lemma PackThree(a: int, b: int, c: int, i: nat, j: nat, k: nat)
    ensures Pack([a, b, c], [i, j, k]) == Le(a, i) + Le(b, j) + Le(c, k)
  {
    hide Le;
    assert [a, b, c][1..] == [b, c] && [i, j, k][1..] == [j, k];
    assert [b, c][1..] == [c] && [j, k][1..] == [k];
    assert [c][1..] == [] && [k][1..] == [];
    assert Pack([c], [k]) == Le(c, k) + [] == Le(c, k);
    assert Pack([b, c], [j, k]) == Le(b, j) + Le(c, k);
    assert Le(a, i) + (Le(b, j) + Le(c, k)) == Le(a, i) + Le(b, j) + Le(c, k);
  }

  lemma EpochRoundTrip(frameEpochMs: int)
    ensures ReadEpoch(EpochPayload(frameEpochMs)) == Some(frameEpochMs % 0x1_0000_0000_0000_0000)
  {
    LeRoundTrip(frameEpochMs, 8);
    assert [frameEpochMs][1..] == [] && EPOCH_LAYOUT[1..] == [];
    assert EpochPayload(frameEpochMs) == Le(frameEpochMs, 8);
    assert Pow256(4) == 0x1_0000_0000;
    assert Pow256(8) == 0x1_0000_0000 * Pow256(4) by {
      assert Pow256(6) == 0x1_0000 * Pow256(4);
    }
  }

  lemma LeBytes(x: int)
    ensures Le(x, 1) == [x % 256] && Le(x, 2) == [x % 256, x / 256 % 256]
  {
    assert Pow256(0) == 1 && Pow256(1) == 256;
    LeAt(x, 1, 0);
    LeAt(x, 2, 0);
    LeAt(x, 2, 1);
  }

  /** The bytes of the fixed-size control payloads. */
  lemma ControlBytes(slotCount: int, toaMs: int, guardMs: int, frameEpochMs: int, armed: bool)
    ensures TimingPayload(slotCount, toaMs, guardMs)
         == [slotCount % 256, toaMs % 256, toaMs / 256 % 256, guardMs % 256, guardMs / 256 % 256]
    ensures |EpochPayload(frameEpochMs)| == 8
    ensures forall k | 0 <= k < 8 :: EpochPayload(frameEpochMs)[k] == frameEpochMs / Pow256(k) % 256
    ensures ArmedPayload(armed) == [if armed then 0x01 else 0x00]
  {
    hide Le, Pow256;
    PackThree(slotCount, toaMs, guardMs, 1, 2, 2);
    LeBytes(slotCount);
    LeBytes(toaMs);
    LeBytes(guardMs);
    EpochIsLe(frameEpochMs);
    forall k | 0 <= k < 8
      ensures Le(frameEpochMs, 8)[k] == frameEpochMs / Pow256(k) % 256
    {
      LeAt(frameEpochMs, 8, k);
    }
  }

  lemma EpochIsLe(frameEpochMs: int)
    ensures EpochPayload(frameEpochMs) == Le(frameEpochMs, 8)
  {
    assert [frameEpochMs][1..] == [] && EPOCH_LAYOUT[1..] == [];
    assert Pack([], []) == [];
  }

  /** The bytes of a slot map: the count, then three bytes for each entry. */
  lemma SlotmapBytes(entries: seq<(int, int)>, i: nat)
    requires i < |entries|
    ensures var p, (node, slot) := SlotmapPayload(entries), entries[i];
      && |p| == 1 + 3 * |entries| && p[0] == |entries| % 256
      && p[1 + 3 * i..4 + 3 * i] == [node % 256, node / 256 % 256, slot % 256]
  {
    hide Pairs, Le;
    PairAt(entries, i);
    LeBytes(entries[i].0);
    LeBytes(entries[i].1);
    assert SlotmapPayload(entries)[1 + 3 * i..4 + 3 * i] == Pairs(entries)[3 * i..3 * i + 3];
  }

  lemma {:induction false} PairAt(entries: seq<(int, int)>, i: nat)
    requires i < |entries|
    ensures Pairs(entries)[3 * i..3 * i + 3] == SlotEntry(entries[i])
    decreases |entries|
  {
    hide SlotEntry;
    var n := |entries| - 1;
    if i < n {
      PairAt(entries[..n], i);
      assert Pairs(entries)[3 * i..3 * i + 3] == Pairs(entries[..n])[3 * i..3 * i + 3];
    }
  }

  function Masked(e: (int, int)): (int, int) {
    (e.0 % 0x1_0000, e.1 % 0x100)
  }

  lemma {:induction false} PairsRoundTrip(entries: seq<(int, int)>)
    ensures ReadPairs(Pairs(entries), |entries|) == seq(|entries|, i requires 0 <= i < |entries| => Masked(entries[i]))
    decreases |entries|
  {
    hide Le, FromLe;
    if entries != [] {
      var n := |entries| - 1;
      var init, last := entries[..n], entries[n];
      var s := Pairs(entries);
      PairsRoundTrip(init);
      LeRoundTrip(last.0, 2);
      LeRoundTrip(last.1, 1);
      assert Pow256(1) == 0x100 && Pow256(2) == 0x1_0000;
      assert s[..3 * n] == Pairs(init);
      assert s[3 * n..3 * n + 2] == Le(last.0, 2) && s[3 * n + 2..3 * n + 3] == Le(last.1, 1);
    }
  }

  lemma {:induction false} PairsPrefix(entries: seq<(int, int)>, k: nat)
    requires k <= |entries|
    ensures Pairs(entries)[..3 * k] == Pairs(entries[..k])
    decreases |entries|
  {
    if k == |entries| {
      assert entries[..k] == entries;
    } else {
      var init := entries[..|entries| - 1];
      PairsPrefix(init, k);
      assert init[..k] == entries[..k];
      assert Pairs(entries)[..3 * k] == Pairs(init)[..3 * k];
    }
  }

  /** The count byte is the length modulo 256, so the base reads back that many leading entries,
      each reduced to its field widths. */
  lemma SlotmapRoundTrip(entries: seq<(int, int)>)
    ensures var n := |entries| % 256;
      ReadSlotmap(SlotmapPayload(entries)) == Some(seq(n, i requires 0 <= i < n => Masked(entries[i])))
  {
    hide Pairs, ReadPairs;
    var n := |entries| % 256;
    var p := SlotmapPayload(entries);
    PairsPrefix(entries, n);
    PairsRoundTrip(entries[..n]);
    assert p[1..1 + 3 * n] == Pairs(entries)[..3 * n];
    assert seq(n, i requires 0 <= i < n => Masked(entries[..n][i]))
        == seq(n, i requires 0 <= i < n => Masked(entries[i]));
  }

  // ----- telemetry (base to gateway) -----

  /** An UPLINK payload; positions and Doppler-derived values are kept as the raw integers. */
  datatype Uplink = Uplink(version: int, nodeId: int, sequence: int, latE7: int, lonE7: int,
                           speedCms: int, courseCdeg: int, batteryMv: int, gpsTime: int, subsecMs: int,
                           flags: int, rssiDbm: int, snrCdb: int, rxTimeMs: int)
  {
    function TsMs(): int {
      gpsTime * 1000 + subsecMs
    }
  }

  const UPLINK_LAYOUT: seq<nat> := [1, 2, 2, 4, 4, 2, 2, 2, 4, 2, 1, 2, 2, 8]

  lemma UplinkLayoutTotal()
    ensures Total(UPLINK_LAYOUT) == 38
  {
    hide Total;
    var a: seq<nat>, b: seq<nat>, c: seq<nat>, d: seq<nat> := [1, 2, 2, 4], [4, 2, 2], [2, 4, 2, 1], [2, 2, 8];
    assert UPLINK_LAYOUT == (a + b) + (c + d);
    TotalConcat(a + b, c + d);
    TotalConcat(a, b);
    TotalConcat(c, d);
    TotalFour(a);
    TotalFour(b + [0]);
    TotalConcat(b, [0]);
    TotalFour(c);
    TotalFour(d + [0]);
    TotalConcat(d, [0]);
    TotalOne(0);
  }

  lemma TotalOne(x: nat)
    ensures Total([x]) == x
  {
    assert [x][1..] == [];
  }

  lemma TotalFour(w: seq<nat>)
    requires |w| == 4
    ensures Total(w) == w[0] + w[1] + w[2] + w[3]
  {
    assert w[1..][1..] == w[2..] && w[2..][1..] == w[3..] && w[3..][1..] == [];
    assert Total(w[3..]) == w[3] && Total(w[2..]) == w[2] + Total(w[3..]) && Total(w[1..]) == w[1] + Total(w[2..]);
  }

  lemma {:induction false} TotalConcat(a: seq<nat>, b: seq<nat>)
    ensures Total(a + b) == Total(a) + Total(b)
    decreases |a|
  {
    if a == [] {
      assert a + b == b;
    } else {
      assert (a + b)[1..] == a[1..] + b;
      TotalConcat(a[1..], b);
    }
  }

  /** None stands for the undecodable payload, which the dispatcher drops. */
  function DecodeUplink(payload: seq<byte>): Option<Uplink> {
    if |payload| != 38 then None
    else
      UplinkLayoutTotal();
      Some(FromFields(Unpack(payload, UPLINK_LAYOUT)))
  }

  function FromFields(v: seq<nat>): Uplink
    requires |v| == 14
  {
    Uplink(v[0], v[1], v[2], Signed(v[3], 4), Signed(v[4], 4), v[5], v[6], v[7], v[8], v[9], v[10],
           Signed(v[11], 2), Signed(v[12], 2), v[13])
  }

  /** The fields in the order of the layout. */
  function UplinkValues(u: Uplink): (values: seq<int>)
    ensures |values| == 14
  {
    [u.version, u.nodeId, u.sequence, u.latE7, u.lonE7, u.speedCms, u.courseCdeg, u.batteryMv, u.gpsTime,
     u.subsecMs, u.flags, u.rssiDbm, u.snrCdb, u.rxTimeMs]
  }

  /** The base's side: struct.pack of the fourteen fields. */
  function EncodeUplink(u: Uplink): (payload: seq<byte>)
    ensures |payload| == Total(UPLINK_LAYOUT)
  {
    Pack(UplinkValues(u), UPLINK_LAYOUT)
  }

  predicate InUplinkRange(u: Uplink) {
    && Fits(u.version, 1) && Fits(u.nodeId, 2) && Fits(u.sequence, 2)
    && FitsSigned(u.latE7, 4) && FitsSigned(u.lonE7, 4)
    && Fits(u.speedCms, 2) && Fits(u.courseCdeg, 2) && Fits(u.batteryMv, 2)
    && Fits(u.gpsTime, 4) && Fits(u.subsecMs, 2) && Fits(u.flags, 1)
    && FitsSigned(u.rssiDbm, 2) && FitsSigned(u.snrCdb, 2) && Fits(u.rxTimeMs, 8)
  }

  lemma SignedOfMod(x: int, width: nat)
    requires width > 0 && FitsSigned(x, width)
    ensures Signed(x % Pow256(width), width) == x
  {
    LeRoundTrip(x, width);
    SignedRoundTrip(x, width);
  }

  lemma FitsMod(x: int, width: nat)
    requires Fits(x, width)
    ensures x % Pow256(width) == x
  {
    ModUnique(x, Pow256(width), 0, x);
  }

  /** Every fix the base can pack is decoded to exactly the values it packed. */
  lemma UplinkRoundTrip(u: Uplink)
    requires InUplinkRange(u)
    ensures DecodeUplink(EncodeUplink(u)) == Some(u)
  {
    hide Pack, Unpack, Signed, Pow256;
    UplinkLayoutTotal();
    UnpackPack(UplinkValues(u), UPLINK_LAYOUT);
    FitsMod(u.version, 1); FitsMod(u.nodeId, 2); FitsMod(u.sequence, 2);
    SignedOfMod(u.latE7, 4); SignedOfMod(u.lonE7, 4);
    FitsMod(u.speedCms, 2); FitsMod(u.courseCdeg, 2); FitsMod(u.batteryMv, 2);
    FitsMod(u.gpsTime, 4); FitsMod(u.subsecMs, 2); FitsMod(u.flags, 1);
    SignedOfMod(u.rssiDbm, 2); SignedOfMod(u.snrCdb, 2); FitsMod(u.rxTimeMs, 8);
  }

  /** Packing looks only at the values modulo the widths. */
  lemma LeReduces(x: int, width: nat)
    ensures Le(x, width) == Le(x % Pow256(width), width)
  {
    LeRoundTrip(x, width);
    FromLeRoundTrip(Le(x, width));
  }

  lemma {:induction false} PackReduces(a: seq<int>, b: seq<int>, widths: seq<nat>)
    requires |a| == |b| == |widths|
    requires forall i | 0 <= i < |widths| :: a[i] % Pow256(widths[i]) == b[i] % Pow256(widths[i])
    ensures Pack(a, widths) == Pack(b, widths)
    decreases |widths|
  {
    hide Le, Pow256;
    if widths != [] {
      LeReduces(a[0], widths[0]);
      LeReduces(b[0], widths[0]);
      PackReduces(a[1..], b[1..], widths[1..]);
    }
  }

  lemma {:induction false} UnpackFits(s: seq<byte>, widths: seq<nat>)
    requires |s| == Total(widths)
    ensures forall i | 0 <= i < |widths| :: Unpack(s, widths)[i] < Pow256(widths[i])
    decreases |widths|
  {
    hide FromLe, Pow256;
    if widths != [] {
      FromLeRoundTrip(s[..widths[0]]);
      UnpackFits(s[widths[0]..], widths[1..]);
    }
  }

  lemma SignedFits(x: nat, width: nat)
    requires width > 0 && x < Pow256(width)
    ensures FitsSigned(Signed(x, width), width)
    ensures Signed(x, width) % Pow256(width) == x % Pow256(width)
  {
    ModUnique(x, Pow256(width), 0, x);
    if 2 * x >= Pow256(width) {
      ModUnique(x - Pow256(width), Pow256(width), -1, x);
    }
  }

  ghost predicate FieldsFit(v: seq<nat>) {
    |v| == 14 && forall i | 0 <= i < 14 :: v[i] < Pow256(UPLINK_LAYOUT[i])
  }

  lemma FieldsInRange(v: seq<nat>)
    requires FieldsFit(v)
    ensures InUplinkRange(FromFields(v))
  {
    hide Pow256, Signed, FitsSigned;
    SignedFits(v[3], 4); SignedFits(v[4], 4); SignedFits(v[11], 2); SignedFits(v[12], 2);
    assert v[0] < Pow256(1) && v[1] < Pow256(2) && v[2] < Pow256(2) && v[5] < Pow256(2) && v[6] < Pow256(2);
    assert v[7] < Pow256(2) && v[8] < Pow256(4) && v[9] < Pow256(2) && v[10] < Pow256(1) && v[13] < Pow256(8);
  }

  lemma FieldReduces(v: seq<nat>, i: nat)
    requires FieldsFit(v) && i < 14
    ensures UplinkValues(FromFields(v))[i] % Pow256(UPLINK_LAYOUT[i]) == v[i] % Pow256(UPLINK_LAYOUT[i])
  {
    hide Pow256, Signed, FitsSigned;
    if i == 3 || i == 4 || i == 11 || i == 12 {
      SignedFits(v[i], UPLINK_LAYOUT[i]);
    }
  }

  /** Any 38 bytes are the packing of exactly one fix in range, and that fix is decoded. */
  lemma UplinkDecodesExactly(payload: seq<byte>)
    ensures DecodeUplink(payload).Some? <==> |payload| == 38
    ensures |payload| == 38 ==>
      InUplinkRange(DecodeUplink(payload).value) && EncodeUplink(DecodeUplink(payload).value) == payload
  {
    hide Unpack, Pack, InUplinkRange, FromFields, UplinkValues, Pow256;
    if |payload| == 38 {
      UplinkLayoutTotal();
      var v := Unpack(payload, UPLINK_LAYOUT);
      UnpackFits(payload, UPLINK_LAYOUT);
      FieldsInRange(v);
      forall i | 0 <= i < 14
        ensures UplinkValues(FromFields(v))[i] % Pow256(UPLINK_LAYOUT[i]) == v[i] % Pow256(UPLINK_LAYOUT[i])
      {
        FieldReduces(v, i);
      }
      PackReduces(UplinkValues(FromFields(v)), v, UPLINK_LAYOUT);
      PackUnpack(payload, UPLINK_LAYOUT);
    }
  }

  // ----- where the fields stand -----

  /** Each field of a struct is read from its own bytes, after those before it. */
  lemma {:induction false} UnpackAt(s: seq<byte>, widths: seq<nat>, i: nat)
    requires |s| == Total(widths) && i < |widths|
    ensures var off := Total(widths[..i]);
      off + widths[i] <= |s| && Unpack(s, widths)[i] == FromLe(s[off..off + widths[i]])
    decreases |widths|
  {
    hide FromLe;
    if i > 0 {
      UnpackAt(s[widths[0]..], widths[1..], i - 1);
      assert widths[..i][1..] == widths[1..][..i - 1];
      var off := Total(widths[1..][..i - 1]);
      assert s[widths[0]..][off..off + widths[i]] == s[widths[0] + off..widths[0] + off + widths[i]];
    } else {
      assert widths[..0] == [];
    }
  }

  lemma TotalNext(widths: seq<nat>, i: nat)
    requires i < |widths|
    ensures Total(widths[..i + 1]) == Total(widths[..i]) + widths[i]
  {
    assert widths[..i + 1] == widths[..i] + [widths[i]];
    TotalConcat(widths[..i], [widths[i]]);
    TotalOne(widths[i]);
  }

  /** Where the i-th field of an UPLINK begins. */
  const UPLINK_OFFSETS: seq<nat> := [0, 1, 3, 5, 9, 13, 15, 17, 19, 23, 25, 26, 28, 30]

  lemma {:induction false} UplinkOffset(i: nat)
    requires i < 14
    ensures Total(UPLINK_LAYOUT[..i]) == UPLINK_OFFSETS[i]
  {
    hide Total;
    if i == 0 {
      assert UPLINK_LAYOUT[..0] == [];
      NoFields();
    } else {
      UplinkOffset(i - 1);
      TotalNext(UPLINK_LAYOUT, i - 1);
    }
  }

  lemma NoFields()
    ensures Total([]) == 0
  {
  }

  lemma UplinkFieldAt(p: seq<byte>, i: nat)
    requires |p| == 38 && i < 14
    ensures Total(UPLINK_LAYOUT) == 38
    ensures var off := UPLINK_OFFSETS[i];
      off + UPLINK_LAYOUT[i] <= 38 && Unpack(p, UPLINK_LAYOUT)[i] == FromLe(p[off..off + UPLINK_LAYOUT[i]])
  {
    hide Total, Unpack, FromLe;
    UplinkLayoutTotal();
    UnpackAt(p, UPLINK_LAYOUT, i);
    UplinkOffset(i);
  }

  /** What a decoded UPLINK says, field by field, of the bytes received; the four signed fields in
      two's complement. */
  lemma UplinkFields(p: seq<byte>)
    requires |p| == 38
    ensures DecodeUplink(p).Some?
    ensures var u := DecodeUplink(p).value;
      && u.version == FromLe(p[0..1]) && u.nodeId == FromLe(p[1..3]) && u.sequence == FromLe(p[3..5])
      && u.latE7 == Signed(FromLe(p[5..9]), 4) && u.lonE7 == Signed(FromLe(p[9..13]), 4)
      && u.speedCms == FromLe(p[13..15]) && u.courseCdeg == FromLe(p[15..17]) && u.batteryMv == FromLe(p[17..19])
      && u.gpsTime == FromLe(p[19..23]) && u.subsecMs == FromLe(p[23..25]) && u.flags == FromLe(p[25..26])
      && u.rssiDbm == Signed(FromLe(p[26..28]), 2) && u.snrCdb == Signed(FromLe(p[28..30]), 2)
      && u.rxTimeMs == FromLe(p[30..38])
      && u.TsMs() == 1000 * FromLe(p[19..23]) + FromLe(p[23..25])
  {
    hide Total, Unpack, FromLe, Signed;
    UplinkLayoutTotal();
    UplinkFieldAt(p, 0); UplinkFieldAt(p, 1); UplinkFieldAt(p, 2); UplinkFieldAt(p, 3); UplinkFieldAt(p, 4);
    UplinkFieldAt(p, 5); UplinkFieldAt(p, 6); UplinkFieldAt(p, 7); UplinkFieldAt(p, 8); UplinkFieldAt(p, 9);
    UplinkFieldAt(p, 10); UplinkFieldAt(p, 11); UplinkFieldAt(p, 12); UplinkFieldAt(p, 13);
  }

  /** One entry of a NODE_STATS payload. */
  datatype NodeStat = NodeStat(nodeId: int, lastRssiDbm: int, packets: int, lastHeardMs: int)

  const STAT_LAYOUT: seq<nat> := [2, 2, 4, 8]

  lemma StatLayoutTotal()
    ensures Total(STAT_LAYOUT) == 16
  {
    TotalFour(STAT_LAYOUT);
  }

  function ReadStat(s: seq<byte>): NodeStat
    requires |s| == 16
  {
    StatLayoutTotal();
    var v := Unpack(s, STAT_LAYOUT);
    NodeStat(v[0], Signed(v[1], 2), v[2], v[3])
  }

  lemma StatOffset(i: nat)
    requires i < 4
    ensures Total(STAT_LAYOUT[..i]) == [0, 2, 4, 8][i]
  {
    hide Total;
    assert STAT_LAYOUT[..0] == [];
    NoFields();
    TotalNext(STAT_LAYOUT, 0);
    TotalNext(STAT_LAYOUT, 1);
    TotalNext(STAT_LAYOUT, 2);
  }

  /** What a NODE_STATS entry says of its 16 bytes. */
  lemma StatFields(s: seq<byte>)
    requires |s| == 16
    ensures var e := ReadStat(s);
      && e.nodeId == FromLe(s[0..2]) && e.lastRssiDbm == Signed(FromLe(s[2..4]), 2)
      && e.packets == FromLe(s[4..8]) && e.lastHeardMs == FromLe(s[8..16])
  {
    hide Total, Unpack, FromLe, Signed;
    StatLayoutTotal();
    StatOffset(0); StatOffset(1); StatOffset(2); StatOffset(3);
    UnpackAt(s, STAT_LAYOUT, 0);
    UnpackAt(s, STAT_LAYOUT, 1);
    UnpackAt(s, STAT_LAYOUT, 2);
    UnpackAt(s, STAT_LAYOUT, 3);
  }

  lemma StatFits(s: seq<byte>)
    requires |s| == 16
    ensures var e := ReadStat(s); Fits(e.nodeId, 2) && Fits(e.lastHeardMs, 8) && FitsSigned(e.lastRssiDbm, 2)
  {
    hide FromLe, Signed, Pow256, FitsSigned, ReadStat;
    StatFields(s);
    FromLeRoundTrip(s[0..2]);
    FromLeRoundTrip(s[2..4]);
    FromLeRoundTrip(s[8..16]);
    SignedFits(FromLe(s[2..4]), 2);
  }

  function Min(a: nat, b: nat): nat {
    if a < b then a else b
  }

  /** The whole entries that are announced and present. */
  function StatEntries(payload: seq<byte>): seq<NodeStat> {
    if payload == [] then []
    else
      var n := Min(payload[0], (|payload| - 1) / 16);
      seq(n, i requires 0 <= i < n => ReadStat(payload[1 + 16 * i..17 + 16 * i]))
  }

  /** decode_node_stats: as many whole entries as announced and present; None for an empty payload. */
  method DecodeNodeStats(payload: seq<byte>) returns (r: Option<seq<NodeStat>>)
    ensures r.None? <==> payload == []
    ensures r.Some? ==> |r.value| == Min(payload[0], (|payload| - 1) / 16)
    ensures r.Some? ==> forall i | 0 <= i < |r.value| :: r.value[i] == ReadStat(payload[1 + 16 * i..17 + 16 * i])
  {
    if |payload| < 1 {
      return None;
    }
    var count := payload[0];
    var entries := [];
    var off := 1;
    var k := 0;
    while k < count
      invariant 0 <= k <= count && off == 1 + 16 * k <= |payload| && |entries| == k
      invariant forall i | 0 <= i < k :: entries[i] == ReadStat(payload[1 + 16 * i..17 + 16 * i])
    {
      if off + 16 > |payload| {
        break;
      }
      entries := entries + [ReadStat(payload[off..off + 16])];
      off := off + 16;
      k := k + 1;
    }
    r := Some(entries);
  }
}
