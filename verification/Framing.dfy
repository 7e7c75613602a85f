/** The serial link's framing, [MAGIC][TYPE][LEN u16][PAYLOAD][CRC16], and the greedy parse of
    a byte stream. */
module Framing {
  import opened Bytes
  import opened Crc16

  const MAGIC: byte := 0xA5
  const OVERHEAD: nat := 6
  const MAX_PAYLOAD: nat := 2048

  datatype Frame = Frame(ftype: byte, payload: seq<byte>)
  datatype EncodeResult = Encoded(wire: seq<byte>) | PayloadTooLarge

  /** TYPE, LEN and PAYLOAD: what the CRC covers. */
  function Body(f: Frame): (s: seq<byte>)
    ensures |s| == |f.payload| + 3
  {
    [f.ftype] + Le(|f.payload|, 2) + f.payload
  }

  /** A frame as it travels on the wire. */
  function Wire(f: Frame): (s: seq<byte>)
    ensures |s| == WireLen(f)
  {
    [MAGIC] + Body(f) + Le(Crc(Body(f)), 2)
  }

  function WireLen(f: Frame): nat {
    |f.payload| + OVERHEAD
  }

  predicate Sendable(f: Frame) {
    |f.payload| <= MAX_PAYLOAD
  }

  /** The wire image of a message: the type is masked to eight bits, an oversized payload is refused. */
  function Framed(frameType: int, payload: seq<byte>): EncodeResult {
    if |payload| > MAX_PAYLOAD then PayloadTooLarge
    else Encoded(Wire(Frame(frameType % 256, payload)))
  }

  method EncodeFrame(frameType: int, payload: seq<byte>) returns (r: EncodeResult)
    ensures r == Framed(frameType, payload)
    ensures r.PayloadTooLarge? <==> |payload| > 2048
    ensures r.Encoded? ==> IsWireImage(r.wire, frameType % 256, payload)
  {
    hide Crc, Le;
    if |payload| <= MAX_PAYLOAD {
      WireImage(Frame(frameType % 256, payload));
    }
    if |payload| > MAX_PAYLOAD {
      return PayloadTooLarge;
    }
    var out: seq<byte> := [];
    out := out + [MAGIC];
    out := out + [frameType % 256];
    out := out + Le(|payload|, 2);
    out := out + payload;
    var crc := Crc16CcittFalse(out, 1, |out|);
    assert out[1..|out|] == Body(Frame(frameType % 256, payload));
    out := out + Le(crc, 2);
    r := Encoded(out);
  }

  /** The frame byte by byte: 0xA5, the type, the length and, at the end, the CRC of all that lies
      between, both low byte first. */
  ghost predicate IsWireImage(wire: seq<byte>, ftype: byte, payload: seq<byte>) {
    var n := |payload|;
    && |wire| == n + 6 && wire[0] == 0xA5 && wire[1] == ftype
    && wire[2] == n % 256 && wire[3] == n / 256 && wire[4..n + 4] == payload
    && wire[n + 4] == Crc(wire[1..n + 4]) % 256 && wire[n + 5] == Crc(wire[1..n + 4]) / 256
  }

  lemma WireImage(f: Frame)
    requires Sendable(f)
    ensures |f.payload| <= 2048 && IsWireImage(Wire(f), f.ftype, f.payload)
  {
    hide Crc;
    var n, w, crc := |f.payload|, Wire(f), Crc(Body(f));
    CrcBound(Body(f));
    LeTwo(n);
    LeTwo(crc);
    WireParts(f, w);
    assert w[2] == w[2..4][0] && w[3] == w[2..4][1];
    assert w[n + 4] == w[n + 4..n + 6][0] && w[n + 5] == w[n + 4..n + 6][1];
  }

  lemma LeTwo(x: nat)
    requires x < 65536
    ensures Le(x, 2) == [x % 256, x / 256]
  {
    LeAt(x, 2, 0);
    LeAt(x, 2, 1);
    assert Pow256(1) == 256 && Pow256(0) == 1;
  }

  // ----- one decision of the de-framer -----

  datatype Verdict = NeedMore | Skip | Reject | Deliver(frame: Frame)

  /** What the de-framer decides when its cursor stands at the start of s. */
  function Decide(s: seq<byte>): (v: Verdict)
    ensures Advance(v) <= |s|
    ensures v != NeedMore ==> Advance(v) > 0
  {
    if s == [] then NeedMore
    else if s[0] != MAGIC then Skip
    else if |s| < 4 then NeedMore
    else
      var length := FromLe(s[2..4]);
      if length > MAX_PAYLOAD then Reject
      else if |s| < length + OVERHEAD then NeedMore
      else if Crc(s[1..4 + length]) != FromLe(s[4 + length..6 + length]) then Reject
      else Deliver(Frame(s[1], s[4..4 + length]))
  }

  /** How many bytes a decision consumes. */
  function Advance(v: Verdict): nat {
    match v
    case NeedMore => 0
    case Skip => 1
    case Reject => 1
    case Deliver(f) => WireLen(f)
  }

  lemma LengthField(f: Frame)
    requires Sendable(f)
    ensures FromLe(Le(|f.payload|, 2)) == |f.payload|
    ensures FromLe(Le(Crc(Body(f)), 2)) == Crc(Body(f))
  {
    assert Pow256(2) == 65536;
    LeRoundTrip(|f.payload|, 2);
    CrcBound(Body(f));
    LeRoundTrip(Crc(Body(f)), 2);
  }

  /** Where the fields of a frame stand in a buffer that begins with it. */
  lemma WireParts(f: Frame, s: seq<byte>)
    requires Wire(f) <= s
    ensures var n := |f.payload|;
      && s[0] == MAGIC && s[1] == f.ftype && s[2..4] == Le(n, 2) && s[4..4 + n] == f.payload
      && s[1..4 + n] == Body(f) && s[4 + n..6 + n] == Le(Crc(Body(f)), 2)
  {
    hide Crc;
    var n, w := |f.payload|, Wire(f);
    assert forall i | 0 <= i < |w| :: s[i] == w[i];
    assert s[1..4 + n] == w[1..4 + n] == Body(f);
    assert s[2..4] == w[2..4] == Body(f)[1..3];
    assert s[4..4 + n] == w[4..4 + n] == Body(f)[3..];
    assert s[4 + n..6 + n] == w[4 + n..];
  }

  lemma DecideDelivers(s: seq<byte>, f: Frame)
    requires Sendable(f) && Wire(f) <= s
    ensures Decide(s) == Deliver(f)
  {
    hide Crc;
    LengthField(f);
    var n := |f.payload|;
    assert s[..n + 6] == Wire(f);
    WireParts(f, s);
  }

  lemma DeliveredIsPrefix(s: seq<byte>, f: Frame)
    ensures Decide(s) == Deliver(f) ==> Sendable(f) && Wire(f) <= s
  {
    hide Crc, FromLe, Le;
    if Decide(s) != Deliver(f) {
      return;
    }
    var n := |f.payload|;
    FromLeRoundTrip(s[2..4]);
    FromLeRoundTrip(s[4 + n..6 + n]);
    assert s[2..4] == Le(n, 2);
    assert s[1..4 + n] == Body(f) by {
      assert s[1..4 + n] == [s[1]] + s[2..4] + s[4..4 + n];
    }
    assert s[..n + 6] == [s[0]] + s[1..4 + n] + s[4 + n..6 + n];
  }

  /** A frame is delivered at the cursor exactly when its encoding stands there. */
  lemma DeliverIff(s: seq<byte>, f: Frame)
    ensures Decide(s) == Deliver(f) <==> Sendable(f) && Wire(f) <= s
  {
    if Decide(s) == Deliver(f) {
      DeliveredIsPrefix(s, f);
    }
    if Sendable(f) && Wire(f) <= s {
      DecideDelivers(s, f);
    }
  }

  /** A decision is never revised when more bytes arrive. */
  lemma DecideStable(s: seq<byte>, t: seq<byte>)
    requires Decide(s) != NeedMore
    ensures Decide(s + t) == Decide(s)
  {
    hide Crc, FromLe;
    var u := s + t;
    if s[0] == MAGIC {
      assert u[2..4] == s[2..4];
      var n := FromLe(s[2..4]);
      if n <= MAX_PAYLOAD {
        assert u[1..4 + n] == s[1..4 + n] && u[4 + n..6 + n] == s[4 + n..6 + n] && u[4..4 + n] == s[4..4 + n];
      }
    }
  }

  /** Nothing is thrown away that could still have become a frame: when the byte at the cursor is
      skipped or rejected, no continuation of the stream makes a frame start there. */
  lemma DiscardIsSound(s: seq<byte>, t: seq<byte>, f: Frame)
    requires Decide(s) == Skip || Decide(s) == Reject
    requires Sendable(f)
    ensures !(Wire(f) <= s + t)
  {
    hide Decide;
    DecideStable(s, t);
    if Wire(f) <= s + t {
      DecideDelivers(s + t, f);
    }
  }

  // ----- the greedy parse of a whole stream -----

  /** The frames delivered, the bytes dropped at a false or damaged frame start, the bytes
      skipped in search of MAGIC, and the undecided tail. */
  datatype Scan = Scan(frames: seq<Frame>, errors: nat, skipped: nat, rest: seq<byte>)

  function Parse(s: seq<byte>): Scan
    decreases |s|
  {
    match Decide(s)
    case NeedMore => Scan([], 0, 0, s)
    case Skip => var r := Parse(s[1..]); r.(skipped := r.skipped + 1)
    case Reject => var r := Parse(s[1..]); r.(errors := r.errors + 1)
    case Deliver(f) => var r := Parse(s[WireLen(f)..]); r.(frames := [f] + r.frames)
  }

  /** What a scan has found, followed by what a later scan finds. */
  function Then(a: Scan, b: Scan): Scan {
    Scan(a.frames + b.frames, a.errors + b.errors, a.skipped + b.skipped, b.rest)
  }

  lemma ThenAssoc(a: Scan, b: Scan, c: Scan)
    ensures Then(Then(a, b), c) == Then(a, Then(b, c))
  {
    assert a.frames + b.frames + c.frames == a.frames + (b.frames + c.frames);
  }

  /** A single decision as a scan of the bytes it consumes. */
  function One(v: Verdict): Scan {
    match v
    case NeedMore => Scan([], 0, 0, [])
    case Skip => Scan([], 0, 1, [])
    case Reject => Scan([], 1, 0, [])
    case Deliver(f) => Scan([f], 0, 0, [])
  }

  lemma ParseStep(s: seq<byte>)
    requires Decide(s) != NeedMore
    ensures 0 < Advance(Decide(s)) <= |s|
    ensures Parse(s) == Then(One(Decide(s)), Parse(s[Advance(Decide(s))..]))
  {
    hide Decide;
  }

  /** A complete header and frame at the front of s that cannot be one. */
  predicate Bad(s: seq<byte>)
    requires |s| >= 4
  {
    var n := Pair(s[2], s[3]);
    n > 2048 || (|s| >= n + 6 && Crc(s[1..n + 4]) != Pair(s[n + 4], s[n + 5]))
  }

  lemma BadIsRejected(s: seq<byte>)
    requires |s| >= 4 && s[0] == 0xA5
    ensures Decide(s) == Reject <==> Bad(s)
  {
    hide Crc, FromLe, Pair;
    var n := Pair(s[2], s[3]);
    FromLePair(s[2], s[3]);
    assert s[2..4] == [s[2], s[3]];
    if n <= 2048 && |s| >= n + 6 {
      FromLePair(s[n + 4], s[n + 5]);
      assert s[4 + n..6 + n] == [s[n + 4], s[n + 5]];
    }
  }

  /** What is counted where: a byte that is not 0xA5 is skipped; a 0xA5 in front of a length above
      2048, or of a complete frame whose check bytes are wrong, is an error. */
  lemma CountedAs(s: seq<byte>)
    requires s != []
    ensures var later := Parse(s[1..]);
      && (s[0] != 0xA5 ==> Parse(s) == later.(skipped := later.skipped + 1))
      && (s[0] == 0xA5 && |s| >= 4 && Bad(s) ==> Parse(s) == later.(errors := later.errors + 1))
  {
    hide Decide, Bad;
    if s[0] == 0xA5 && |s| >= 4 {
      BadIsRejected(s);
    } else if s[0] != 0xA5 {
      SkipDecided(s);
    }
  }

  /** Parsing a stream in two pieces, keeping the undecided tail of the first, is parsing it whole. */
  lemma {:induction false} ParseSplit(s: seq<byte>, t: seq<byte>)
    ensures Parse(s + t) == Then(Parse(s), Parse(Parse(s).rest + t))
    decreases |s|
  {
    hide Decide;
    var v := Decide(s);
    if v == NeedMore {
      var p := Parse(s + t);
      assert [] + p.frames == p.frames;
    } else {
      var k := Advance(v);
      DecideStable(s, t);
      ParseStep(s);
      ParseStep(s + t);
      assert (s + t)[k..] == s[k..] + t;
      ParseSplit(s[k..], t);
      ThenAssoc(One(v), Parse(s[k..]), Parse(Parse(s[k..]).rest + t));
    }
  }

  /** After a parse the tail is empty or starts with MAGIC, is undecided, and is shorter than the
      longest frame. */
  lemma {:induction false} RestBounded(s: seq<byte>)
    ensures var rest := Parse(s).rest;
      && Decide(rest) == NeedMore
      && |rest| < 2054
      && (rest == [] || rest[0] == 0xA5)
      && |rest| <= |s| && rest == s[|s| - |rest|..]
    decreases |s|
  {
    var v := Decide(s);
    if v != NeedMore {
      ParseStep(s);
      RestBounded(s[Advance(v)..]);
    }
  }

  function TotalWireLen(frames: seq<Frame>): nat {
    if frames == [] then 0 else WireLen(frames[0]) + TotalWireLen(frames[1..])
  }

  /** Every byte is accounted for once: in a frame, as an error, as skipped, or in the tail. */
  lemma {:induction false} Conservation(s: seq<byte>)
    ensures var p := Parse(s); |s| == TotalWireLen(p.frames) + p.errors + p.skipped + |p.rest|
    decreases |s|
  {
    hide Decide;
    var v := Decide(s);
    if v != NeedMore {
      ParseStep(s);
      Conservation(s[Advance(v)..]);
      if v.Deliver? {
        assert Parse(s).frames[1..] == Parse(s[Advance(v)..]).frames;
      }
    }
  }

  // ----- where in the stream the frames lie -----

  /** The frames that the parse of s[at..] delivers, with their offsets in s. */
  function Located(s: seq<byte>, at: nat): seq<(nat, Frame)>
    requires at <= |s|
    decreases |s| - at
  {
    match Decide(s[at..])
    case NeedMore => []
    case Skip => Located(s, at + 1)
    case Reject => Located(s, at + 1)
    case Deliver(f) => [(at, f)] + Located(s, at + WireLen(f))
  }

  /** A well-formed frame stands at offset p. */
  predicate FrameAt(s: seq<byte>, p: nat, f: Frame) {
    p <= |s| && Sendable(f) && Wire(f) <= s[p..]
  }

  /** The deliveries d, from offset at on, are the frames, each stands where it is said to, and
      they come in stream order without overlap. */
  ghost predicate InOrder(s: seq<byte>, at: nat, d: seq<(nat, Frame)>, frames: seq<Frame>) {
    && |d| == |frames|
    && (forall k | 0 <= k < |d| :: d[k].1 == frames[k] && at <= d[k].0 && FrameAt(s, d[k].0, d[k].1))
    && (forall j, k | 0 <= j < k < |d| :: d[j].0 + WireLen(d[j].1) <= d[k].0)
  }

  lemma InOrderPrepend(s: seq<byte>, at: nat, f: Frame, d: seq<(nat, Frame)>, frames: seq<Frame>)
    requires FrameAt(s, at, f) && InOrder(s, at + WireLen(f), d, frames)
    ensures InOrder(s, at, [(at, f)] + d, [f] + frames)
  {
    hide FrameAt;
  }

  /** Everything delivered is a well-formed frame of the stream, the deliveries do not overlap,
      and they come in stream order. */
  lemma {:induction false} DeliveredAreFrames(s: seq<byte>, at: nat)
    requires at <= |s|
    ensures InOrder(s, at, Located(s, at), Parse(s[at..]).frames)
    decreases |s| - at
  {
    hide Decide, Wire, InOrder, FrameAt;
    var v := Decide(s[at..]);
    if v == NeedMore {
      NothingInOrder(s, at);
    } else {
      ParseStep(s[at..]);
      var next := at + Advance(v);
      assert s[at..][Advance(v)..] == s[next..];
      DeliveredAreFrames(s, next);
      var d, frames := Located(s, next), Parse(s[next..]).frames;
      if v.Deliver? {
        DeliverIff(s[at..], v.frame);
        StandsAt(s, at, v.frame);
        InOrderPrepend(s, at, v.frame, d, frames);
      } else {
        assert [] + frames == frames;
        InOrderFrom(s, at, next, d, frames);
      }
    }
  }

  lemma NothingInOrder(s: seq<byte>, at: nat)
    ensures InOrder(s, at, [], [])
  {
  }

  lemma StandsAt(s: seq<byte>, p: nat, f: Frame)
    requires p <= |s| && Sendable(f) && Wire(f) <= s[p..]
    ensures FrameAt(s, p, f)
  {
  }

  lemma InOrderFrom(s: seq<byte>, at: nat, next: nat, d: seq<(nat, Frame)>, frames: seq<Frame>)
    requires at <= next && InOrder(s, next, d, frames)
    ensures InOrder(s, at, d, frames)
  {
  }

  lemma UndecidedIsShort(s: seq<byte>)
    requires Decide(s) == NeedMore
    ensures |s| < MAX_PAYLOAD + OVERHEAD
  {
  }

  /** Resynchronisation: a well-formed frame at offset p is, once p + 2053 bytes have arrived,
      delivered at p, or starts strictly inside a frame that was delivered before it. */
  lemma {:induction false} Resync(s: seq<byte>, at: nat, p: nat, f: Frame)
    requires at <= p && FrameAt(s, p, f)
    requires |s| >= p + 2053
    ensures (p, f) in Located(s, at)
            || exists o, g :: (o, g) in Located(s, at) && o < p < o + WireLen(g)
    decreases p - at
  {
    hide Decide, Wire;
    var v := Decide(s[at..]);
    DeliverIff(s[p..], f);
    var d := Located(s, at);
    match v
    case NeedMore =>
      UndecidedIsShort(s[at..]);
    case Skip =>
      Resync(s, at + 1, p, f);
    case Reject =>
      Resync(s, at + 1, p, f);
    case Deliver(g) =>
      DeliverIff(s[at..], g);
      var next := at + WireLen(g);
      assert d == [(at, g)] + Located(s, next);
      if next <= p {
        Resync(s, next, p, f);
        assert forall x | x in Located(s, next) :: x in d;
      } else {
        assert (at, g) in d;
      }
  }

  /** The bound is sharp: a stray MAGIC in front of a frame of type 0 with 8 payload bytes reads
      as a header announcing 2048 bytes, and until 2053 bytes of the real frame and what follows
      have arrived nothing is delivered at all. */
  lemma ResyncBoundIsSharp(payload: seq<byte>, more: seq<byte>)
    requires |payload| == 8
    ensures var f := Frame(0, payload);
      var s := [MAGIC] + Wire(f) + more;
      && FrameAt(s, 1, f)
      && (|s| < 1 + 2053 ==> Parse(s) == Scan([], 0, 0, s))
  {
    hide Crc;
    var f := Frame(0, payload);
    var w := Wire(f);
    var s := [MAGIC] + w + more;
    assert s[1..] == w + more;
    LengthField(f);
    assert Le(8, 2) == [8] + Le(0, 1) && w[1] == 0 && w[2] == 8;
    assert s[2..4] == [0, 8];
    assert FromLe([0, 8]) == 0 + 256 * FromLe([0, 8][1..]);
    assert FromLe([0, 8][1..]) == 8 + 256 * FromLe([]);
  }

  // ----- the round trip -----

  predicate MagicFree(g: seq<byte>) {
    MAGIC !in g
  }

  /** Frames with garbage before, between and after them. */
  function Stream(frames: seq<Frame>, gaps: seq<seq<byte>>): seq<byte>
    requires |gaps| == |frames| + 1
  {
    if frames == [] then gaps[0]
    else gaps[0] + (Wire(frames[0]) + Stream(frames[1..], gaps[1..]))
  }

  function TotalLength(gaps: seq<seq<byte>>): nat {
    if gaps == [] then 0 else |gaps[0]| + TotalLength(gaps[1..])
  }

  lemma SkipDecided(s: seq<byte>)
    requires s != [] && s[0] != MAGIC
    ensures Decide(s) == Skip
  {
  }

  lemma {:induction false} SkipGarbage(g: seq<byte>, s: seq<byte>)
    requires MagicFree(g)
    ensures Parse(g + s) == Then(Scan([], 0, |g|, []), Parse(s))
    decreases |g|
  {
    hide Decide;
    var p := Parse(s);
    assert [] + p.frames == p.frames;
    if g == [] {
      assert g + s == s;
    } else {
      assert g[0] in g;
      SkipDecided(g + s);
      ParseStep(g + s);
      assert (g + s)[1..] == g[1..] + s;
      SkipGarbage(g[1..], s);
      ThenAssoc(One(Skip), Scan([], 0, |g| - 1, []), p);
    }
  }

  lemma EmptyParse()
    ensures Parse([]) == Scan([], 0, 0, [])
  {
  }

  lemma FrameThenTail(f: Frame, tail: seq<byte>)
    requires Sendable(f)
    ensures Parse(Wire(f) + tail) == Then(Scan([f], 0, 0, []), Parse(tail))
  {
    hide Decide, Wire;
    DecideDelivers(Wire(f) + tail, f);
    ParseStep(Wire(f) + tail);
    assert (Wire(f) + tail)[WireLen(f)..] == tail;
  }

  /** Framing round trip: any list of frames, separated by any MAGIC-free garbage, parses back to
      exactly that list, without errors and without a tail. */
  lemma {:induction false} StreamRoundTrip(frames: seq<Frame>, gaps: seq<seq<byte>>)
    requires |gaps| == |frames| + 1
    requires forall f | f in frames :: Sendable(f)
    requires forall g | g in gaps :: MagicFree(g)
    ensures Parse(Stream(frames, gaps)) == Scan(frames, 0, TotalLength(gaps), [])
    decreases |frames|
  {
    hide Decide, Wire, Parse;
    if frames == [] {
      assert gaps[0] + [] == gaps[0] && gaps[1..] == [];
      SkipGarbage(gaps[0], []);
      EmptyParse();
    } else {
      var f, tail := frames[0], Stream(frames[1..], gaps[1..]);
      StreamRoundTrip(frames[1..], gaps[1..]);
      SkipGarbage(gaps[0], Wire(f) + tail);
      FrameThenTail(f, tail);
      assert [f] + frames[1..] == frames && [] + frames == frames;
    }
  }

  lemma WireParses(f: Frame)
    requires Sendable(f)
    ensures Parse(Wire(f)) == Scan([f], 0, 0, [])
  {
    hide Decide, Wire;
    FrameThenTail(f, []);
    EmptyParse();
    assert Wire(f) + [] == Wire(f);
  }

  // ----- damaged frames -----

  lemma DamagedParts(g: Frame, crc: seq<byte>, tail: seq<byte>)
    requires |crc| == 2
    ensures var n, s := |g.payload|, [MAGIC] + Body(g) + crc + tail;
      s[0] == MAGIC && s[2..4] == Le(n, 2) && s[1..4 + n] == Body(g) && s[4 + n..6 + n] == crc
  {
    hide Le;
    var n, s := |g.payload|, [MAGIC] + Body(g) + crc + tail;
    assert s[2..4] == Body(g)[1..3];
  }

  /** Damage that leaves LEN alone is decided by the two check bytes. */
  lemma DamagedDecision(g: Frame, crc: seq<byte>, tail: seq<byte>)
    requires Sendable(g) && |crc| == 2
    ensures Decide([MAGIC] + Body(g) + crc + tail) == if Crc(Body(g)) == FromLe(crc) then Deliver(g) else Reject
  {
    hide Crc;
    LengthField(g);
    DamagedParts(g, crc, tail);
    var n, s := |g.payload|, [MAGIC] + Body(g) + crc + tail;
    assert s[1] == Body(g)[0] == g.ftype;
    assert s[4..4 + n] == Body(g)[3..] == g.payload;
  }

  /** The exact condition: whatever of a frame is damaged, with LEN intact, the damaged frame is
      delivered if and only if the flips in its check bytes are the syndrome of the flips in the
      bytes they protect; otherwise it is rejected at its own start. */
  lemma DamagedFrameIff(f: Frame, g: Frame, crc: seq<byte>, tail: seq<byte>)
    requires Sendable(f) && |g.payload| == |f.payload| && |crc| == 2
    ensures Decide([MAGIC] + Body(g) + crc + tail)
         == if XorBits(BitsOf(Crc(Body(f)), 16), BitsOf(FromLe(crc), 16))
               == Syndrome(XorBits(Bits(Body(f)), Bits(Body(g))))
            then Deliver(g) else Reject
  {
    hide Crc, Bits, BitsOf, Syndrome;
    DamagedDecision(g, crc, tail);
    FromLeRoundTrip(crc);
    assert Pow256(2) == 65536;
    DamageIff(Body(f), Body(g), FromLe(crc));
  }

  /** Flips on both sides of the boundary between PAYLOAD and CRC, in the last payload byte and in
      the first check byte, which is the low one: the damaged frame is delivered if and only if
      these flips are exactly 0x89 and 0xA1. */
  lemma BoundaryDamageIff(f: Frame, last: byte, low: byte, tail: seq<byte>)
    requires Sendable(f) && f.payload != []
    ensures var n, check := |f.payload| - 1, Le(Crc(Body(f)), 2);
      var g := f.(payload := f.payload[..n] + [last]);
      Decide([MAGIC] + Body(g) + [low, check[1]] + tail)
      == if (last == f.payload[n] && low == check[0])
            || (Flips(f.payload[n], last) == BitsOf(0x89, 8) && Flips(check[0], low) == BitsOf(0xA1, 8))
         then Deliver(g) else Reject
  {
    hide Crc, Flips;
    var n, check := |f.payload| - 1, Le(Crc(Body(f)), 2);
    var g, m := f.(payload := f.payload[..n] + [last]), [f.ftype] + Le(|f.payload|, 2) + f.payload[..n];
    assert f.payload == f.payload[..n] + [f.payload[n]];
    assert Body(f) == m + [f.payload[n]] && Body(g) == m + [last];
    DamagedDecision(g, [low, check[1]], tail);
    LengthField(f);
    FromLePair(check[0], check[1]);
    FromLePair(low, check[1]);
    assert check == [check[0], check[1]];
    LastByteAndLowByte(m, f.payload[n], last, check[1], check[0], low);
    FlipPatterns();
  }

  /** Damage outside LEN that flips an odd number of bits in all, on either side of the boundary or
      across it, is always noticed. */
  lemma OddDamageIsRejected(f: Frame, g: Frame, crc: seq<byte>, tail: seq<byte>)
    requires Sendable(f) && |g.payload| == |f.payload| && |crc| == 2
    ensures Odd(XorBits(Bits(Body(f)), Bits(Body(g))) + XorBits(BitsOf(Crc(Body(f)), 16), BitsOf(FromLe(crc), 16)))
            ==> Decide([MAGIC] + Body(g) + crc + tail) == Reject
  {
    hide Crc, Bits, BitsOf, Syndrome, Odd, Decide;
    var flips := XorBits(Bits(Body(f)), Bits(Body(g)));
    var check := XorBits(BitsOf(Crc(Body(f)), 16), BitsOf(FromLe(crc), 16));
    DamagedFrameIff(f, g, crc, tail);
    OddConcat(flips, check);
    SyndromeParity(flips);
  }

  /** A frame whose TYPE or PAYLOAD was altered within 16 consecutive bits, or whose CRC bytes
      alone were altered, is rejected at its own start, whatever follows it. */
  lemma DamageIsRejected(f: Frame, g: Frame, crc: seq<byte>, p: nat, tail: seq<byte>)
    requires Sendable(f) && |g.payload| == |f.payload| && |crc| == 2
    requires || (g != f && crc == Le(Crc(Body(f)), 2)
                 && forall i | 0 <= i < 8 * |Body(f)| && !(p <= i < p + 16) :: Bits(Body(f))[i] == Bits(Body(g))[i])
             || (g == f && crc != Le(Crc(Body(f)), 2))
    ensures Decide([MAGIC] + Body(g) + crc + tail) == Reject
  {
    hide Crc, Bits;
    LengthField(f);
    DamagedDecision(g, crc, tail);
    if g != f {
      assert Body(f)[0] == f.ftype && Body(f)[3..] == f.payload;
      assert Body(g)[0] == g.ftype && Body(g)[3..] == g.payload;
      BurstDetected(Body(f), Body(g), p);
    } else {
      FromLeRoundTrip(crc);
    }
  }
}
