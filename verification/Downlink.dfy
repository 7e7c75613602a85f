/** CloudDownlinker: change detection and the ordered programming of the base. */
module Downlink {
  import opened Bytes
  import opened Framing
  import opened Wrappers
  import opened Codec
  import opened Fingerprints

  // ----- the base: four registers, fed by control frames -----

  datatype Registers = Registers(timing: Option<(int, int, int)>, epoch: Option<int>,
                                 slots: Option<seq<(int, int)>>, armed: Option<bool>)

  /** The registers, and what they were each time SET_ARMED had just been received. */
  datatype Base = Base(regs: Registers, armings: seq<Registers>)

  const BLANK: Registers := Registers(None, None, None, None)

  /** A control frame sets its register; malformed payloads and other types are ignored. */
  function Apply(b: Base, f: Frame): Base {
    if f.ftype == T_SET_TIMING && ReadTiming(f.payload).Some? then b.(regs := b.regs.(timing := ReadTiming(f.payload)))
    else if f.ftype == T_SET_EPOCH && ReadEpoch(f.payload).Some? then b.(regs := b.regs.(epoch := ReadEpoch(f.payload)))
    else if f.ftype == T_SET_SLOTMAP && ReadSlotmap(f.payload).Some?
    then b.(regs := b.regs.(slots := ReadSlotmap(f.payload)))
    else if f.ftype == T_SET_ARMED && ReadArmed(f.payload).Some? then
      var regs := b.regs.(armed := ReadArmed(f.payload));
      Base(regs, b.armings + [regs])
    else b
  }

  function ApplyAll(b: Base, frames: seq<Frame>): Base
    decreases |frames|
  {
    if frames == [] then b else Apply(ApplyAll(b, frames[..|frames| - 1]), frames[|frames| - 1])
  }

  /** The base de-frames the bytes of one whole write. */
  function Receive(b: Base, wire: seq<byte>): Base {
    ApplyAll(b, Parse(wire).frames)
  }

  // ----- the four frames -----

  function TimingFrame(c: Canonical): Frame {
    Frame(T_SET_TIMING, TimingPayload(c.slotCount, c.toaMs, c.guardMs))
  }

  function EpochFrame(c: Canonical): Frame {
    Frame(T_SET_EPOCH, EpochPayload(c.frameEpochMs))
  }

  function SlotmapFrame(c: Canonical): Frame {
    Frame(T_SET_SLOTMAP, SlotmapPayload(c.slots))
  }

  function ArmedFrame(c: Canonical): Frame {
    Frame(T_SET_ARMED, ArmedPayload(c.armed))
  }

  function ControlFrames(c: Canonical): (frames: seq<Frame>)
    ensures |frames| == 4
  {
    [TimingFrame(c), EpochFrame(c), SlotmapFrame(c), ArmedFrame(c)]
  }

  /** More than 682 slots do not fit a payload: encode_frame raises ValueError. */
  predicate Encodable(c: Canonical) {
    |c.slots| <= 682
  }

  /** _build_frames: the four SET_* frames in contractual order; None if an encoder raises. */
  method BuildFrames(c: Canonical) returns (r: Option<seq<seq<byte>>>)
    ensures r == if Encodable(c) then Some(Wires(c)) else None
    ensures r.Some? <==> |c.slots| <= 682
    ensures r.Some? ==> AreFramesOf(c, r.value)
  {
    hide Wire, Pairs, Pack, AreFramesOf;
    if Encodable(c) {
      WiresAreFrames(c);
    }
    SmallFrames(c);
    var timing := EncodeFrame(T_SET_TIMING, TimingPayload(c.slotCount, c.toaMs, c.guardMs));
    var epoch := EncodeFrame(T_SET_EPOCH, EpochPayload(c.frameEpochMs));
    var slotmap := EncodeSetSlotmap(c.slots);
    if timing.PayloadTooLarge? || epoch.PayloadTooLarge? || slotmap.PayloadTooLarge? {
      return None;
    }
    var armed := EncodeFrame(T_SET_ARMED, ArmedPayload(c.armed));
    r := Some([timing.wire, epoch.wire, slotmap.wire, armed.wire]);
  }

  lemma SmallFrames(c: Canonical)
    ensures Sendable(TimingFrame(c)) && Sendable(EpochFrame(c)) && Sendable(ArmedFrame(c))
    ensures Sendable(SlotmapFrame(c)) <==> Encodable(c)
  {
    hide Pack, Pairs;
    assert TIMING_LAYOUT[1..] == [2, 2] && TIMING_LAYOUT[1..][1..] == [2] && TIMING_LAYOUT[1..][1..][1..] == [];
    assert EPOCH_LAYOUT[1..] == [];
    assert |TimingFrame(c).payload| == 5 && |EpochFrame(c).payload| == 8;
    assert |SlotmapPayload(c.slots)| == 1 + 3 * |c.slots|;
  }

  function Wires(c: Canonical): (wires: seq<seq<byte>>)
    ensures |wires| == 4
  {
    [Wire(TimingFrame(c)), Wire(EpochFrame(c)), Wire(SlotmapFrame(c)), Wire(ArmedFrame(c))]
  }

  /** The four frames byte by byte: 0x84 with slot count, TOA and guard; 0x82 with the epoch; 0x83 with
      the count and three bytes a slot; and last 0x81 with the armed flag. */
  ghost predicate AreFramesOf(c: Canonical, wires: seq<seq<byte>>) {
    var n := |c.slots|;
    && |wires| == 4
    && IsWireImage(wires[0], 0x84, [c.slotCount % 256, c.toaMs % 256, c.toaMs / 256 % 256,
                                    c.guardMs % 256, c.guardMs / 256 % 256])
    && |wires[1]| == 14 && IsWireImage(wires[1], 0x82, wires[1][4..12])
    && (forall k | 0 <= k < 8 :: wires[1][4..12][k] == c.frameEpochMs / Pow256(k) % 256)
    && |wires[2]| == 7 + 3 * n && IsWireImage(wires[2], 0x83, wires[2][4..5 + 3 * n])
    && wires[2][4] == n % 256
    && (forall i | 0 <= i < n :: SlotBytes(wires[2][4..5 + 3 * n], i, c.slots[i]))
    && IsWireImage(wires[3], 0x81, [if c.armed then 1 else 0])
  }

  predicate SlotBytes(payload: seq<byte>, i: nat, entry: (int, int)) {
    |payload| >= 4 + 3 * i
    && payload[1 + 3 * i..4 + 3 * i] == [entry.0 % 256, entry.0 / 256 % 256, entry.1 % 256]
  }

  lemma WiresAreFrames(c: Canonical)
    requires Encodable(c)
    ensures AreFramesOf(c, Wires(c))
  {
    hide Wire, Pairs, Pack, IsWireImage, Pow256;
    SmallFrames(c);
    ControlBytes(c.slotCount, c.toaMs, c.guardMs, c.frameEpochMs, c.armed);
    WireCarries(TimingFrame(c));
    WireCarries(EpochFrame(c));
    WireCarries(SlotmapFrame(c));
    WireCarries(ArmedFrame(c));
    forall i | 0 <= i < |c.slots|
      ensures SlotBytes(SlotmapPayload(c.slots), i, c.slots[i])
    {
      SlotmapBytes(c.slots, i);
    }
    assert Wires(c)[2][4] == Wires(c)[2][4..5 + 3 * |c.slots|][0];
  }

  lemma WireCarries(f: Frame)
    requires Sendable(f)
    ensures var n := |f.payload|;
      |Wire(f)| == n + 6 && Wire(f)[4..n + 4] == f.payload && IsWireImage(Wire(f), f.ftype, f.payload)
  {
    WireImage(f);
  }

  // ----- what the four frames mean -----

  /** What the base decodes from the four frames of c. */
  function Target(c: Canonical): Registers {
    var n := |c.slots| % 256;
    Registers(Some((c.slotCount % 0x100, c.toaMs % 0x1_0000, c.guardMs % 0x1_0000)),
              Some(c.frameEpochMs % 0x1_0000_0000_0000_0000),
              Some(seq(n, i requires 0 <= i < n => Masked(c.slots[i]))),
              Some(c.armed))
  }

  /** The race state itself, unmasked. */
  function Exact(c: Canonical): Registers {
    Registers(Some((c.slotCount, c.toaMs, c.guardMs)), Some(c.frameEpochMs), Some(c.slots), Some(c.armed))
  }

  predicate InRange(c: Canonical) {
    && 0 <= c.slotCount < 0x100 && 0 <= c.toaMs < 0x1_0000 && 0 <= c.guardMs < 0x1_0000
    && 0 <= c.frameEpochMs < 0x1_0000_0000_0000_0000
    && |c.slots| < 256
    && forall i | 0 <= i < |c.slots| :: 0 <= c.slots[i].0 < 0x1_0000 && 0 <= c.slots[i].1 < 0x100
  }

  lemma ModIsIdentity(x: int, m: int)
    requires m > 0
    ensures x % m == x <==> 0 <= x < m
  {
    if 0 <= x < m {
      ModUnique(x, m, 0, x);
    }
  }

  /** The encoders mask silently: what the base holds after the four frames is the race state if
      and only if every value fits its field. */
  lemma ProgrammedExactlyIff(c: Canonical)
    ensures Target(c) == Exact(c) <==> InRange(c)
  {
    ModIsIdentity(c.slotCount, 0x100);
    ModIsIdentity(c.toaMs, 0x1_0000);
    ModIsIdentity(c.guardMs, 0x1_0000);
    ModIsIdentity(c.frameEpochMs, 0x1_0000_0000_0000_0000);
    ModIsIdentity(|c.slots|, 256);
    var masked := Target(c).slots.value;
    forall i | 0 <= i < |masked|
      ensures masked[i] == c.slots[i] <==> 0 <= c.slots[i].0 < 0x1_0000 && 0 <= c.slots[i].1 < 0x100
    {
      ModIsIdentity(c.slots[i].0, 0x1_0000);
      ModIsIdentity(c.slots[i].1, 0x100);
    }
    if masked == c.slots {
      assert forall i | 0 <= i < |c.slots| :: masked[i] == c.slots[i];
    } else if |masked| == |c.slots| {
      assert exists i :: 0 <= i < |masked| && masked[i] != c.slots[i];
    }
  }

  // ----- the registers in terms of the race document -----

  /** The first n slots of a list, reduced to the widths of their fields. */
  ghost predicate SlotsMasked(slots: seq<(int, int)>, n: nat, held: seq<(int, int)>) {
    && |held| == n <= |slots|
    && forall i | 0 <= i < n :: held[i] == (slots[i].0 % 0x1_0000, slots[i].1 % 0x100)
  }

  /** Register k holds what the race document says: TOA and the like reduced to the widths of their
      fields, an absent value as 0, an absent flag as disarmed, the slots in sorted order. */
  ghost predicate RegisterIs(r: Race, k: nat, regs: Registers) {
    match k
    case 0 => regs.timing == Some(((if r.slotCount.Some? then r.slotCount.value else 0) % 0x100,
                                   (if r.toaMs.Some? then r.toaMs.value else 0) % 0x1_0000,
                                   (if r.guardMs.Some? then r.guardMs.value else 0) % 0x1_0000))
    case 1 => regs.epoch == Some((if r.frameEpochMs.Some? then r.frameEpochMs.value else 0) % 0x1_0000_0000_0000_0000)
    case 2 =>
      exists sorted: seq<(int, int)> ::
        && IsSorted(sorted) && multiset(sorted) == multiset(if r.slots.Some? then r.slots.value else [])
        && regs.slots.Some? && SlotsMasked(sorted, |sorted| % 256, regs.slots.value)
    case _ => regs.armed == Some(r.armed == Some(true))
  }

  /** The registers hold the race. */
  ghost predicate Programs(r: Race, regs: Registers) {
    RegisterIs(r, 0, regs) && RegisterIs(r, 1, regs) && RegisterIs(r, 2, regs) && RegisterIs(r, 3, regs)
  }

  /** Every value of the document fits its field. */
  predicate FitsFields(r: Race) {
    && (r.slotCount.Some? ==> 0 <= r.slotCount.value < 0x100)
    && (r.toaMs.Some? ==> 0 <= r.toaMs.value < 0x1_0000) && (r.guardMs.Some? ==> 0 <= r.guardMs.value < 0x1_0000)
    && (r.frameEpochMs.Some? ==> 0 <= r.frameEpochMs.value < 0x1_0000_0000_0000_0000)
    && (r.slots.Some? ==>
          && |r.slots.value| < 256
          && forall e | e in r.slots.value :: 0 <= e.0 < 0x1_0000 && 0 <= e.1 < 0x100)
  }

  /** Then they hold it without loss. */
  ghost predicate ProgramsExactly(r: Race, regs: Registers) {
    && regs.timing == Some((if r.slotCount.Some? then r.slotCount.value else 0,
                            if r.toaMs.Some? then r.toaMs.value else 0,
                            if r.guardMs.Some? then r.guardMs.value else 0))
    && regs.epoch == Some(if r.frameEpochMs.Some? then r.frameEpochMs.value else 0)
    && regs.slots.Some? && IsSorted(regs.slots.value)
    && multiset(regs.slots.value) == multiset(if r.slots.Some? then r.slots.value else [])
    && regs.armed == Some(r.armed == Some(true))
  }

  lemma TargetIsTheRace(r: Race)
    ensures Programs(r, Target(Canonicalize(r)))
  {
    hide Sorted, IsSorted;
    var slots := if r.slots.Some? then r.slots.value else [];
    SortedSorts(slots);
    var held := Target(Canonicalize(r)).slots.value;
    assert SlotsMasked(Sorted(slots), |Sorted(slots)| % 256, held);
  }

  lemma TargetIsExact(r: Race)
    requires FitsFields(r)
    ensures ProgramsExactly(r, Target(Canonicalize(r)))
  {
    hide Sorted, IsSorted, Target;
    var slots := if r.slots.Some? then r.slots.value else [];
    SortedSorts(slots);
    var sorted := Sorted(slots);
    assert |sorted| == |multiset(sorted)| == |multiset(slots)| == |slots|;
    forall i | 0 <= i < |sorted|
      ensures 0 <= sorted[i].0 < 0x1_0000 && 0 <= sorted[i].1 < 0x100
    {
      assert sorted[i] in multiset(sorted);
      assert sorted[i] in slots;
    }
    ProgrammedExactlyIff(Canonicalize(r));
  }

  /** The first k registers of t written over r. */
  function Overwrite(r: Registers, t: Registers, k: nat): Registers {
    Registers(if k > 0 then t.timing else r.timing, if k > 1 then t.epoch else r.epoch,
              if k > 2 then t.slots else r.slots, if k > 3 then t.armed else r.armed)
  }

  function Program(b: Base, c: Canonical, k: nat): Base {
    Base(Overwrite(b.regs, Target(c), k), b.armings + if k > 3 then [Target(c)] else [])
  }

  lemma ReceiveOne(b: Base, f: Frame)
    requires Sendable(f)
    ensures Receive(b, Wire(f)) == Apply(b, f)
  {
    hide Wire, Apply, Parse;
    WireParses(f);
    assert [f][..0] == [];
    assert ApplyAll(b, []) == b;
  }

  /** Register k of t written over r. */
  function WithRegister(r: Registers, t: Registers, k: nat): Registers
    requires k < 4
  {
    match k
    case 0 => r.(timing := t.timing)
    case 1 => r.(epoch := t.epoch)
    case 2 => r.(slots := t.slots)
    case 3 => r.(armed := t.armed)
  }

  /** Whatever the base holds, the k-th frame on the wire sets the k-th register to the value that
      the race state has there and no other, and only SET_ARMED arms. */
  lemma FrameSetsRegister(b: Base, c: Canonical, k: nat)
    requires Encodable(c) && k < 4
    ensures var regs := WithRegister(b.regs, Target(c), k);
      Receive(b, Wires(c)[k]) == Base(regs, b.armings + if k == 3 then [regs] else [])
  {
    hide Wire, Pack, Pairs, ReadTiming, ReadEpoch, ReadSlotmap, Parse, Receive;
    SmallFrames(c);
    ReceiveOne(b, ControlFrames(c)[k]);
    TimingRoundTrip(c.slotCount, c.toaMs, c.guardMs);
    EpochRoundTrip(c.frameEpochMs);
    SlotmapRoundTrip(c.slots);
    assert b.armings + [] == b.armings;
  }

  /** So the frames in their order program one register after the other, and SET_ARMED finds the
      three others programmed. */
  lemma NextFrameProgramsNext(b: Base, c: Canonical, k: nat)
    requires Encodable(c) && k < 4
    ensures Receive(Program(b, c, k), Wires(c)[k]) == Program(b, c, k + 1)
  {
    hide Wires, Target, Receive;
    FrameSetsRegister(Program(b, c, k), c, k);
    assert b.armings + [] == b.armings;
  }

  // ----- the serial link -----

  /** What happens to the n-th send: it succeeds, or it raises with the frame delivered or not. */
  datatype SendOutcome = Sent | Fails(delivered: bool)

  type Outcomes = nat -> SendOutcome

  class Link {
    const outcomes: Outcomes
    var sends: nat
    var base: Base

    constructor (outcomes: Outcomes, base: Base)
      ensures this.outcomes == outcomes && sends == 0 && this.base == base
    {
      this.outcomes, this.base, sends := outcomes, base, 0;
    }

    method SendFrame(wire: seq<byte>) returns (ok: bool)
      modifies this
      ensures sends == old(sends) + 1
      ensures ok == outcomes(old(sends)).Sent?
      ensures base == if outcomes(old(sends)) == Fails(false) then old(base) else Receive(old(base), wire)
    {
      var outcome := outcomes(sends);
      sends := sends + 1;
      if outcome != Fails(false) {
        base := Receive(base, wire);
      }
      ok := outcome.Sent?;
    }
  }

  /** Of the four sends from the n-th on: how many succeed before the first failure, and how many
      frames reach the base. */
  datatype Attempt = Attempt(sent: nat, delivered: nat)

  predicate AttemptOk(a: Attempt) {
    a.sent <= 4 && a.sent <= a.delivered <= a.sent + 1 && a.delivered <= 4
  }

  function AttemptFrom(outcomes: Outcomes, n: nat, sent: nat): (a: Attempt)
    requires sent <= 4
    ensures AttemptOk(a) && a.sent >= sent
    ensures (a.sent == 4 ==> a.delivered == 4)
    decreases 4 - sent
  {
    if sent == 4 then Attempt(4, 4)
    else
      match outcomes(n)
      case Sent => AttemptFrom(outcomes, n + 1, sent + 1)
      case Fails(delivered) => Attempt(sent, sent + if delivered then 1 else 0)
  }

  // ----- poll_once -----

  /** None covers a failed fetch, a bad answer and 204. */
  datatype PollStatus = PollIdle | PollUnchanged | PollApplied | PollError | PollRaised

  datatype Control = Control(cache: Option<string>, base: Base)

  /** One poll, given what was fetched and what became of the sends if it comes to them. */
  function Poll(s: Control, fetched: Option<Race>, force: bool, a: Attempt): (Control, PollStatus) {
    if fetched.None? then (s, PollIdle)
    else
      var c := Canonicalize(fetched.value);
      var fp := Fingerprint(c);
      if s.cache == Some(fp) && !force then (s, PollUnchanged)
      else if !Encodable(c) then (s, PollRaised)
      else if a.sent == 4 then (Control(Some(fp), Program(s.base, c, 4)), PollApplied)
      else (s.(base := Program(s.base, c, a.delivered)), PollError)
  }

  /** What a poll leaves behind, in terms of the race document: if applied, the base holds the race
      and was armed on it; if a send failed, the registers whose frames went out hold it; otherwise
      the base is untouched, and only an applied poll touches the cache. */
  ghost predicate PolledAs(before: Control, fetched: Option<Race>, force: bool, sent: nat, after: Control,
                           status: PollStatus) {
    && (fetched.None? <==> status == PollIdle)
    && (status == PollUnchanged ==> !force && before.cache.Some?)
    && (status != PollApplied ==> after.cache == before.cache)
    && (status == PollRaised ==> fetched.value.slots.Some? && |fetched.value.slots.value| > 682)
    && (status == PollIdle || status == PollUnchanged || status == PollRaised ==> after.base == before.base)
    && (status == PollApplied ==>
          && Programs(fetched.value, after.base.regs) && after.cache.Some?
          && after.base.armings == before.base.armings + [after.base.regs])
    && (status == PollError ==>
          && sent < 4 && (forall k | 0 <= k < sent :: RegisterIs(fetched.value, k, after.base.regs))
          && (after.base.armings == before.base.armings
              || (Programs(fetched.value, after.base.regs)
                  && after.base.armings == before.base.armings + [after.base.regs])))
  }

  lemma PollMeans(s: Control, fetched: Option<Race>, force: bool, a: Attempt)
    requires AttemptOk(a)
    ensures var (s', status) := Poll(s, fetched, force, a);
      PolledAs(s, fetched, force, if status == PollApplied || status == PollError then a.sent else 0, s', status)
  {
    hide Fingerprint, Canonicalize, Target, RegisterIs;
    if fetched.Some? {
      var t := Target(Canonicalize(fetched.value));
      TargetIsTheRace(fetched.value);
      SlotsKept(fetched.value);
      assert s.base.armings + [] == s.base.armings;
      forall k | 0 <= k < a.delivered
        ensures RegisterIs(fetched.value, k, Overwrite(s.base.regs, t, a.delivered))
      {
        OverwrittenIs(fetched.value, s.base.regs, t, k, a.delivered);
      }
      assert Overwrite(s.base.regs, t, 4) == t;
    }
  }

  lemma SlotsKept(r: Race)
    ensures |Canonicalize(r).slots| == if r.slots.Some? then |r.slots.value| else 0
  {
    var slots := if r.slots.Some? then r.slots.value else [];
    SortedSorts(slots);
    assert |Sorted(slots)| == |multiset(Sorted(slots))| == |multiset(slots)| == |slots|;
  }

  lemma OverwrittenIs(r: Race, before: Registers, t: Registers, k: nat, n: nat)
    requires k < n <= 4 && Programs(r, t)
    ensures RegisterIs(r, k, Overwrite(before, t, n))
  {
  }

  datatype PollResult = PollResult(status: PollStatus, sent: nat)

  class CloudDownlinker {
    const link: Link
    var cache: Option<string>
    var lastDownlinkOk: Option<Canonical>

    constructor (link: Link, cache: Option<string>)
      ensures this.link == link && this.cache == cache && lastDownlinkOk == None
    {
      this.link, this.cache, lastDownlinkOk := link, cache, None;
    }

    ghost function View(): Control
      reads this, link
    {
      Control(cache, link.base)
    }

    method PollOnce(fetched: Option<Race>, force: bool) returns (r: PollResult)
      modifies this, link
      ensures var a := AttemptFrom(link.outcomes, old(link.sends), 0);
        && (View(), r.status) == Poll(old(View()), fetched, force, a)
        && r.sent == (if r.status == PollApplied || r.status == PollError then a.sent else 0)
      ensures r.status == PollApplied ==> lastDownlinkOk == Some(Canonicalize(fetched.value)) && r.sent == 4
      ensures PolledAs(old(View()), fetched, force, r.sent, View(), r.status)
    {
      hide Fingerprint, Receive, Wires, Program, Canonicalize, PolledAs, AreFramesOf;
      PollMeans(View(), fetched, force, AttemptFrom(link.outcomes, link.sends, 0));
      r := PollResult(PollIdle, 0);
      if fetched.None? {
        return;
      }
      var state := Canonicalize(fetched.value);
      var fp := Fingerprint(state);
      if cache == Some(fp) && !force {
        return PollResult(PollUnchanged, 0);
      }
      var frames := BuildFrames(state);
      if frames.None? {
        return PollResult(PollRaised, 0);
      }
      ghost var before := link.base;
      ghost var start := link.sends;
      NothingProgrammed(before, state);
      var sent := 0;
      while sent < |frames.value|
        invariant 0 <= sent <= 4 == |frames.value| && link.sends == start + sent
        invariant link.base == Program(before, state, sent)
        invariant AttemptFrom(link.outcomes, start, 0) == AttemptFrom(link.outcomes, start + sent, sent)
        invariant cache == old(cache)
      {
        NextFrameProgramsNext(before, state, sent);
        var ok := link.SendFrame(frames.value[sent]);
        if !ok {
          return PollResult(PollError, sent);
        }
        sent := sent + 1;
      }
      cache := Some(fp);
      lastDownlinkOk := Some(state);
      r := PollResult(PollApplied, sent);
    }
  }

  lemma NothingProgrammed(b: Base, c: Canonical)
    ensures Program(b, c, 0) == b
  {
    assert b.armings + [] == b.armings;
  }
}
