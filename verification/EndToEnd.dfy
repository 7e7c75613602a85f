/** The layers put together: bytes, frames, fixes, rows, cloud. */
module EndToEnd {
  import opened Bytes
  import opened Framing
  import opened Deframer
  import opened Wrappers
  import opened Codec
  import opened Storage
  import Dedup
  import opened NodeSummary
  import opened UplinkProtocol
  import opened Uplinker

  // ----- from bytes to store calls -----

  /** The store call that a NODE_STATS entry leads to: its time and its RSSI. */
  function ReportOf(e: NodeStat): NodeEvent {
    Report(e.nodeId, NodeRow(Some(e.lastHeardMs), None, Some(e.lastRssiDbm)))
  }

  function ReportCalls(entries: seq<NodeStat>): (events: seq<NodeEvent>)
    ensures |events| == |entries|
  {
    seq(|entries|, i requires 0 <= i < |entries| => ReportOf(entries[i]))
  }

  /** The store calls that the dispatcher makes for a frame: a decodable UPLINK is inserted, and
      every entry of a NODE_STATS is passed on.  The other types do not touch the store. */
  function CallsOf(f: Frame): seq<NodeEvent> {
    if f.ftype == T_UPLINK then
      var decoded := DecodeUplink(f.payload);
      if decoded.Some? then [Fix(decoded.value)] else []
    else if f.ftype == T_NODE_STATS then ReportCalls(StatEntries(f.payload))
    else []
  }

  /** The calls in plain terms: of the frames, only 0x01 with 38 bytes inserts, and only 0x06 reports:
      for each whole entry announced and present, the node in its bytes 0 and 1, the time in its
      bytes 8 to 15, the RSSI in its bytes 2 and 3, and no battery. */
  lemma CallsAre(f: Frame)
    ensures f.ftype == 0x01 ==>
      CallsOf(f) == if |f.payload| == 38 then [Fix(DecodeUplink(f.payload).value)] else []
    ensures f.ftype == 0x06 ==>
      && |CallsOf(f)| == (if f.payload == [] then 0 else Min(f.payload[0], (|f.payload| - 1) / 16))
      && forall i | 0 <= i < |CallsOf(f)| ::
           var e := f.payload[1 + 16 * i..17 + 16 * i];
           CallsOf(f)[i] == Report(FromLe(e[0..2]),
                                   NodeRow(Some(FromLe(e[8..16])), None, Some(Signed(FromLe(e[2..4]), 2))))
    ensures f.ftype != 0x01 && f.ftype != 0x06 ==> CallsOf(f) == []
  {
    hide DecodeUplink, ReadStat, FromLe, Signed;
    UplinkDecodesExactly(f.payload);
    if f.ftype == 0x06 {
      forall i | 0 <= i < |CallsOf(f)|
        ensures var e := f.payload[1 + 16 * i..17 + 16 * i];
          CallsOf(f)[i] == Report(FromLe(e[0..2]),
                                  NodeRow(Some(FromLe(e[8..16])), None, Some(Signed(FromLe(e[2..4]), 2))))
      {
        StatFields(f.payload[1 + 16 * i..17 + 16 * i]);
      }
    }
  }

  function Calls(frames: seq<Frame>): seq<NodeEvent>
    decreases |frames|
  {
    if frames == [] then [] else Calls(frames[..|frames| - 1]) + CallsOf(frames[|frames| - 1])
  }

  lemma {:induction false} FrameMakesItsCalls(frames: seq<Frame>, f: Frame)
    requires f in frames
    ensures forall e | e in CallsOf(f) :: e in Calls(frames)
    decreases |frames|
  {
    hide CallsOf;
    var init, last := frames[..|frames| - 1], frames[|frames| - 1];
    if f != last {
      FrameMakesItsCalls(init, f);
    }
  }

  /** At which statement SQLite fails in the n-th store call, 0 for none. */
  type Faults = nat -> nat

  /** Does the call raise, after those in done have taken effect? */
  ghost predicate CallRaises(done: seq<NodeEvent>, e: NodeEvent, fault: nat) {
    match e
    case Fix(u) => InsertRaises(Run(FixesOf(done)), u, fault)
    case Report(n, given) => fault == 1 || !GivenBinds(n, given)
  }

  /** What has taken effect in the store after the calls: those of before, and the calls that did
      not raise. */
  ghost function Effective(before: seq<NodeEvent>, calls: seq<NodeEvent>, faults: Faults): seq<NodeEvent>
    decreases |calls|
  {
    if calls == [] then before
    else
      var n := |calls| - 1;
      var done := Effective(before, calls[..n], faults);
      if CallRaises(done, calls[n], faults(n)) then done else done + [calls[n]]
  }

  ghost predicate Raises(before: seq<NodeEvent>, calls: seq<NodeEvent>, faults: Faults, n: nat)
    requires n < |calls|
  {
    CallRaises(Effective(before, calls[..n], faults), calls[n], faults(n))
  }

  /** The values of a call made for a frame fit the widths of the wire. */
  ghost predicate FromTheWire(e: NodeEvent) {
    match e
    case Fix(u) => InUplinkRange(u)
    case Report(n, given) =>
      && FromNodeStats(given) && Fits(n, 2) && Fits(given.lastSeen.value, 8) && FitsSigned(given.lastRssi.value, 2)
  }

  lemma CallsFit(f: Frame)
    ensures forall e | e in CallsOf(f) :: FromTheWire(e)
  {
    hide DecodeUplink, EncodeUplink, InUplinkRange, ReadStat, FromTheWire, ReportOf;
    if f.ftype == T_UPLINK {
      FixFits(f.payload);
    } else if f.ftype == T_NODE_STATS {
      var calls := ReportCalls(StatEntries(f.payload));
      forall i | 0 <= i < |calls|
        ensures FromTheWire(calls[i])
      {
        ReportFits(f.payload[1 + 16 * i..17 + 16 * i]);
      }
    }
  }

  lemma FixFits(payload: seq<byte>)
    ensures DecodeUplink(payload).Some? ==> FromTheWire(Fix(DecodeUplink(payload).value))
  {
    hide DecodeUplink, EncodeUplink, InUplinkRange;
    UplinkDecodesExactly(payload);
  }

  lemma ReportFits(s: seq<byte>)
    requires |s| == 16
    ensures FromTheWire(ReportOf(ReadStat(s)))
  {
    hide ReadStat, Fits, FitsSigned;
    StatFits(s);
  }

  /** When no statement fails, a call with the values of the wire raises only for a new fix, or a
      report, whose time has its top bit set.  A fault numbered beyond the statements is none. */
  lemma FaultlessCallRaisesIff(done: seq<NodeEvent>, e: NodeEvent, fault: nat)
    requires FromTheWire(e) && (fault == 0 || fault > 5)
    ensures CallRaises(done, e, fault)
            <==> match e
                 case Fix(u) => IsNew(Run(FixesOf(done)), u) && u.rxTimeMs >= 0x8000_0000_0000_0000
                 case Report(n, given) => given.lastSeen.value >= 0x8000_0000_0000_0000
  {
    hide Run, FixesOf, IsNew, InUplinkRange, FindSlot, Fits, FitsSigned, InsertRaises, GivenBinds;
    match e
    case Fix(u) => WireFixRaisesIff(Run(FixesOf(done)), u, fault);
    case Report(n, given) => WireReportBindsIff(n, given.lastSeen.value, given.lastRssi.value);
  }

  lemma EffectiveNext(before: seq<NodeEvent>, calls: seq<NodeEvent>, e: NodeEvent, faults: Faults)
    ensures var done := Effective(before, calls, faults);
      Effective(before, calls + [e], faults) == if CallRaises(done, e, faults(|calls|)) then done else done + [e]
  {
    assert (calls + [e])[..|calls|] == calls;
  }

  /** A call that does not raise takes effect. */
  lemma {:induction false} EffectiveIff(before: seq<NodeEvent>, calls: seq<NodeEvent>, faults: Faults, n: nat)
    requires n < |calls| && !Raises(before, calls, faults, n)
    ensures calls[n] in Effective(before, calls, faults)
    decreases |calls|
  {
    hide CallRaises;
    var k := |calls| - 1;
    if n < k {
      assert calls[..k][..n] == calls[..n];
      EffectiveIff(before, calls[..k], faults, n);
    }
  }

  lemma {:induction false} FixOfEvents(events: seq<NodeEvent>, u: Uplink)
    requires Fix(u) in events
    ensures u in FixesOf(events)
    decreases |events|
  {
    var init, last := events[..|events| - 1], events[|events| - 1];
    if Fix(u) in init {
      FixOfEvents(init, u);
    } else {
      assert last == Fix(u);
    }
  }

  lemma RaisingIgnoresSynced(a: seq<Row>, b: seq<Row>, u: Uplink, fault: nat)
    requires SameButSynced(a, b)
    ensures InsertRaises(a, u, fault) == InsertRaises(b, u, fault)
  {
    hide FindSlot, SelectBinds, InsertBinds, SummaryBinds;
    SlotIgnoresSynced(a, b, u.nodeId, u.sequence);
  }

  /** The table after inserting us, in order. */
  function AfterAll(rows: seq<Row>, us: seq<Uplink>): seq<Row>
    decreases |us|
  {
    if us == [] then rows else AfterInsert(AfterAll(rows, us[..|us| - 1]), us[|us| - 1])
  }

  lemma AfterAllNext(rows: seq<Row>, us: seq<Uplink>, u: Uplink)
    ensures AfterAll(rows, us + [u]) == AfterInsert(AfterAll(rows, us), u)
  {
    assert (us + [u])[..|us|] == us;
  }

  /** The path of the live gateway: each chunk read is de-framed and its frames are dispatched.
      A store call that raises is logged, and what it should have recorded is dropped. */
  class Ingest {
    const parser: FrameParser
    const store: Store
    const faults: Faults
    var calls: nat

    /** What the store had recorded before this process started. */
    ghost const before: seq<NodeEvent>

    /** The tables depend only on the bytes received, not on how they were cut into chunks, and on
        which statements fail. */
    ghost predicate Valid()
      reads this, parser, store
    {
      parser.Valid() && Dispatched(Calls(Parse(parser.received).frames))
    }

    ghost predicate Dispatched(made: seq<NodeEvent>)
      reads this, store
    {
      store.Valid() && calls == |made| && store.nodeEvents == Effective(before, made, faults)
    }

    constructor (store: Store, faults: Faults)
      requires store.Valid()
      ensures Valid() && fresh(parser) && parser.received == []
      ensures this.store == store && this.faults == faults && before == store.nodeEvents
    {
      parser := new FrameParser();
      this.store, this.faults, calls, before := store, faults, 0, store.nodeEvents;
      new;
      EmptyParse();
    }

    /** The deliveries and the table, since they were ds and rows, have grown by the inserts of us. */
    ghost predicate Grown(ds: seq<Uplink>, rows: seq<Row>, us: seq<Uplink>)
      reads store
    {
      store.deliveries == ds + us && store.fixes == AfterAll(rows, us)
    }

    method Insert(u: Uplink, ghost made: seq<NodeEvent>) returns (ghost added: seq<Uplink>)
      requires Dispatched(made)
      modifies this`calls, store`fixes, store`nodes, store`deliveries, store`nodeEvents
      ensures Dispatched(made + [Fix(u)])
      ensures Grown(old(store.deliveries), old(store.fixes), added)
    {
      hide Run, AfterInsert, NodesAfter, FixesOf, InsertRaises, IsNew;
      RaisingIgnoresSynced(store.fixes, Run(store.deliveries), u, faults(calls));
      EffectiveNext(before, made, Fix(u), faults);
      AfterAllNext(store.fixes, [], u);
      assert [] + [u] == [u];
      assert store.deliveries + [] == store.deliveries;
      var r := store.InsertFix(u, faults(calls));
      added := if r.Raised? then [] else [u];
      calls := calls + 1;
    }

    method Upsert(e: NodeStat, ghost made: seq<NodeEvent>)
      requires Dispatched(made)
      modifies this`calls, store`nodes, store`nodeEvents
      ensures Dispatched(made + [ReportOf(e)])
    {
      hide Run, NodesAfter, FixesOf, GivenBinds;
      EffectiveNext(before, made, ReportOf(e), faults);
      var given := NodeRow(Some(e.lastHeardMs), None, Some(e.lastRssiDbm));
      var ok := store.UpsertNode(e.nodeId, given, faults(calls) == 1);
      calls := calls + 1;
    }

    /** The dispatcher: its branches for UPLINK and NODE_STATS. */
    method OnFrame(f: Frame, ghost made: seq<NodeEvent>) returns (ghost added: seq<Uplink>)
      requires Dispatched(made)
      modifies this`calls, store`fixes, store`nodes, store`deliveries, store`nodeEvents
      ensures Dispatched(made + CallsOf(f))
      ensures Grown(old(store.deliveries), old(store.fixes), added)
    {
      hide DecodeUplink, ReadStat, Dispatched, ReportOf, AfterInsert;
      added := [];
      assert made + [] == made && store.deliveries + [] == store.deliveries;
      if f.ftype == T_UPLINK {
        var decoded := DecodeUplink(f.payload);
        if decoded.Some? {
          added := Insert(decoded.value, made);
        }
      } else if f.ftype == T_NODE_STATS {
        var entries := DecodeNodeStats(f.payload);
        if entries.Some? {
          assert entries.value == StatEntries(f.payload);
          for i := 0 to |entries.value|
            invariant Dispatched(made + ReportCalls(entries.value[..i]))
            invariant store.fixes == old(store.fixes) && store.deliveries == old(store.deliveries)
          {
            Upsert(entries.value[i], made + ReportCalls(entries.value[..i]));
            assert made + ReportCalls(entries.value[..i]) + [ReportOf(entries.value[i])]
                == made + ReportCalls(entries.value[..i + 1]);
          }
          assert entries.value[..|entries.value|] == entries.value;
        }
      }
    }

    /** Chunk by chunk.  Ingest leaves the cursors and the dead letters alone, and changes the table
        by inserts only. */
    method OnChunk(chunk: seq<byte>) returns (ghost added: seq<Uplink>)
      requires Valid()
      modifies this`calls, parser, store`fixes, store`nodes, store`deliveries, store`nodeEvents
      ensures Valid() && parser.received == old(parser.received) + chunk
      ensures Grown(old(store.deliveries), old(store.fixes), added)
    {
      hide Parse, CallsOf, Dispatched, Calls, AfterAll;
      var frames := parser.Push(chunk);
      ghost var before := old(parser.delivered);
      assert before + [] == before;
      NothingAdded(store.fixes);
      added := [];
      for i := 0 to |frames|
        invariant parser.Valid() && parser.received == old(parser.received) + chunk
        invariant parser.delivered == before + frames
        invariant Dispatched(Calls(before + frames[..i]))
        invariant Grown(old(store.deliveries), old(store.fixes), added)
      {
        CallsNext(before + frames[..i], frames[i]);
        assert before + frames[..i] + [frames[i]] == before + frames[..i + 1];
        var more := OnFrame(frames[i], Calls(before + frames[..i]));
        AfterAllConcat(old(store.fixes), added, more);
        assert old(store.deliveries) + added + more == old(store.deliveries) + (added + more);
        added := added + more;
      }
      assert frames[..|frames|] == frames;
    }
  }

  lemma NothingAdded(rows: seq<Row>)
    ensures AfterAll(rows, []) == rows
  {
  }

  lemma {:induction false} AfterAllConcat(rows: seq<Row>, a: seq<Uplink>, b: seq<Uplink>)
    ensures AfterAll(rows, a + b) == AfterAll(AfterAll(rows, a), b)
    decreases |b|
  {
    hide AfterInsert;
    if b == [] {
      assert a + b == a;
    } else {
      assert (a + b)[..|a + b| - 1] == a + b[..|b| - 1];
      AfterAllConcat(rows, a, b[..|b| - 1]);
    }
  }

  lemma CallsNext(frames: seq<Frame>, f: Frame)
    ensures Calls(frames + [f]) == Calls(frames) + CallsOf(f)
  {
    assert (frames + [f])[..|frames|] == frames;
  }

  // ----- from deliveries to rows -----

  /** The fixes inserted in the course of a run of the delivery protocol. */
  function Inserts(steps: seq<Step>): seq<Uplink>
    decreases |steps|
  {
    if steps == [] then []
    else Inserts(steps[..|steps| - 1]) + if steps[|steps| - 1].Insert? then [steps[|steps| - 1].u] else []
  }

  lemma MarkIgnoresSynced(rows: seq<Row>, ids: seq<int>, other: seq<Row>)
    requires SameButSynced(rows, other)
    ensures SameButSynced(Mark(rows, ids), other)
  {
  }

  lemma NextRows(s: State, step: Step, ds: seq<Uplink>)
    requires s.w.origin == Dedup.Stored(ds) && SameButSynced(s.w.rows, Run(ds))
    ensures var w, ds' := Next(s, step).w, (if step.Insert? then ds + [step.u] else ds);
      w.origin == Dedup.Stored(ds') && SameButSynced(w.rows, Run(ds'))
  {
    hide Run, Dedup.Stored, AfterInsert, Mark;
    match step
    case Insert(u) =>
      InsertIgnoresSynced(s.w.rows, Run(ds), u);
      Dedup.RunLast(ds + [u]);
      assert (ds + [u])[..|ds|] == ds;
    case Commit =>
      match s.pc {
        case Accepting(ids, todo) => MarkIgnoresSynced(s.w.rows, ids, Run(ds));
        case Removing(id, todo) => MarkIgnoresSynced(s.w.rows, [id], Run(ds));
        case _ =>
      }
    case _ =>
  }

  /** In every run the table is that of the fixes inserted, whatever the uplinker does meanwhile. */
  lemma {:induction false} RowsOfARun(steps: seq<Step>)
    ensures var w := Exec(INITIAL, steps).w;
      w.origin == Dedup.Stored(Inserts(steps)) && SameButSynced(w.rows, Run(Inserts(steps)))
    decreases |steps|
  {
    hide Dedup.Stored, Run, Next;
    if steps == [] {
      NothingStored();
    } else {
      var init, last := steps[..|steps| - 1], steps[|steps| - 1];
      RowsOfARun(init);
      NextRows(Exec(INITIAL, init), last, Inserts(init));
      assert Inserts(init) + [] == Inserts(init);
    }
  }

  lemma NothingStored()
    ensures Dedup.Stored([]) == [] && Run([]) == [] && SameButSynced([], Run([]))
  {
  }

  /** An insert_fix by the reader's thread is the protocol's Insert step, seen from the uplinker
      that shares the store, or, if it raises, no step at all. */
  method InsertBeside(up: CloudUplinker, u: Uplink, fault: nat) returns (r: InsertResult)
    requires up.store.Valid()
    modifies up.store
    ensures up.store.Valid()
    ensures r.Raised? <==> InsertRaises(old(up.store.fixes), u, fault)
    ensures up.View() == if r.Raised? then old(up.View()) else Next(State(old(up.View()), Idle), Insert(u)).w
    ensures r.Done? ==> r.inserted == (|up.View().rows| > |old(up.View()).rows|)
  {
    hide Run, Dedup.Stored, InsertRaises, AfterInsert, IsNew, FindSlot, NodesAfter, FixesOf, AfterFix;
    ghost var ds := up.store.deliveries;
    InsertIgnoresSynced(up.store.fixes, Run(ds), u);
    Dedup.RunLast(ds + [u]);
    assert (ds + [u])[..|ds|] == ds;
    InsertKeepsTable(up.store.fixes, u);
    r := up.store.InsertFix(u, fault);
  }

  /** What the cloud is told about a fix: the measured values, and the sequence number unless the
      slot has been retired. */
  predicate Reports(p: Row, u: Uplink) {
    && p.nodeId == u.nodeId && p.tsMs == u.gpsTime * 1000 + u.subsecMs
    && p.latE7 == u.latE7 && p.lonE7 == u.lonE7 && p.speedCms == u.speedCms && p.courseCdeg == u.courseCdeg
    && p.batteryMv == u.batteryMv && p.rssiDbm == u.rssiDbm && p.snrCdb == u.snrCdb && p.flags == u.flags
    && (p.sequence == Some(u.sequence) || p.sequence == None)
  }

  /** Nothing is invented: in every run, whatever is posted reports a fix that was inserted. */
  lemma PostsReportReceivedFixes(steps: seq<Step>, k: nat, p: Row)
    requires var w := Exec(INITIAL, steps).w; k < |w.posts| && p in w.posts[k]
    ensures exists u :: u in Inserts(steps) && Reports(p, u)
  {
    hide Exec, Run, Dedup.Stored, Inserts;
    var w := Exec(INITIAL, steps).w;
    InvHolds(INITIAL, steps);
    RowsOfARun(steps);
    assert CopiesOf(w.posts[k], w.origin);
    assert CopyOf(p, w.origin);
    var u := w.origin[p.id - 1];
    Dedup.StoredWereDelivered(Inserts(steps), u);
    assert Reports(p, u);
  }

  // ----- from a frame on the wire to the cloud -----

  /** The row with this id was made of a fix of the same node and sequence number whose time is
      within the window of u's: possibly u itself, an earlier reception of it, or another fix that
      the dedup takes for it. */
  ghost predicate Carries(w: World, id: int, u: Uplink) {
    && 1 <= id <= |w.rows| == |w.origin| && w.rows[id - 1].id == id
    && Dedup.SameKey(w.origin[id - 1], u) && Near(u.TsMs(), w.origin[id - 1].TsMs())
    && Agrees(NewRow(id, w.origin[id - 1]), w.rows[id - 1])
  }

  /** Offset p lies strictly inside a frame that was delivered. */
  ghost predicate Swallowed(s: seq<byte>, p: nat) {
    exists o, g :: (o, g) in Located(s, 0) && o < p < o + WireLen(g)
  }

  /** A row that covers the fix, and that has left the queue only into the cloud or into the
      dead-letter table, the latter only if the cloud rejected it on its own. */
  ghost predicate SafeUnder(w: World, id: int, u: Uplink) {
    && Carries(w, id, u)
    && (w.rows[id - 1].synced ==> id in w.ingested || id in w.dead)
    && (id in w.dead ==> id in w.rejected)
  }

  /** A safe row that was made of a reception of the fix itself. */
  ghost predicate OwnRow(w: World, id: int, u: Uplink) {
    SafeUnder(w, id, u) && Dedup.SameEmission(w.origin[id - 1], u)
  }

  /** The whole path.  An UPLINK frame with any 38 bytes of payload stands at offset p of the bytes
      read, and at least 2053 bytes from there on have been read.  Unless it starts inside a frame
      delivered before it, the dispatcher makes the call that inserts its fix.  If that call does
      not raise, then in every run of the delivery protocol with the inserts that took effect,
      whatever replies, lost answers and crashes occur: some row covers the fix, and leaves the
      queue only into the cloud or the dead-letter table; that row is the fix's own if fixes of
      one (node, seq) are more than the window apart; and without that, the fix has a row of its
      own if and only if some reception of it found its slot free or taken more than the window
      away. */
  lemma FromWireToCloud(before: seq<NodeEvent>, s: seq<byte>, faults: Faults, p: nat, payload: seq<byte>,
                        steps: seq<Step>)
    requires |payload| == 38 && Inserts(steps) == FixesOf(Effective(before, Calls(Parse(s).frames), faults))
    ensures FrameAt(s, p, Frame(0x01, payload)) && |s| >= p + 2053 ==>
      var u := DecodeUplink(payload).value;
      Swallowed(s, p) || ArrivesUnlessRaised(before, Calls(Parse(s).frames), faults, u, steps)
  {
    hide Wire, Parse, Located, DecodeUplink, Calls, CallsOf, Inserts, FrameAt, Effective, FixesOf,
      ArrivesUnlessRaised;
    if FrameAt(s, p, Frame(0x01, payload)) && |s| >= p + 2053 {
      var f := Frame(T_UPLINK, payload);
      UplinkIsInserted(payload);
      Resync(s, 0, p, f);
      if (p, f) in Located(s, 0) {
        LocatedIsDelivered(s, p, f);
        FrameMakesItsCalls(Parse(s).frames, f);
        CallArrives(before, Calls(Parse(s).frames), faults, DecodeUplink(payload).value, steps);
      }
    }
  }

  /** One of the calls made inserts the fix, and it raised or the fix arrives. */
  ghost predicate ArrivesUnlessRaised(before: seq<NodeEvent>, calls: seq<NodeEvent>, faults: Faults, u: Uplink,
                                      steps: seq<Step>) {
    exists n :: 0 <= n < |calls| && calls[n] == Fix(u) && (Raises(before, calls, faults, n) || Arrives(steps, u))
  }

  lemma CallArrives(before: seq<NodeEvent>, calls: seq<NodeEvent>, faults: Faults, u: Uplink, steps: seq<Step>)
    requires Fix(u) in calls && Inserts(steps) == FixesOf(Effective(before, calls, faults))
    ensures ArrivesUnlessRaised(before, calls, faults, u, steps)
  {
    hide Inserts, Effective, FixesOf, Raises, Arrives;
    var n :| 0 <= n < |calls| && calls[n] == Fix(u);
    if !Raises(before, calls, faults, n) {
      EffectiveIff(before, calls, faults, n);
      FixOfEvents(Effective(before, calls, faults), u);
      InsertedArrives(steps, u);
    }
  }

  lemma UplinkIsInserted(payload: seq<byte>)
    requires |payload| == 38
    ensures DecodeUplink(payload).Some? && Fix(DecodeUplink(payload).value) in CallsOf(Frame(T_UPLINK, payload))
  {
    hide DecodeUplink, EncodeUplink, InUplinkRange;
    UplinkDecodesExactly(payload);
  }

  /** What is promised of an inserted fix at the end of a run. */
  ghost predicate Arrives(steps: seq<Step>, u: Uplink) {
    var w, ds := Exec(INITIAL, steps).w, Inserts(steps);
    && (exists id :: SafeUnder(w, id, u))
    && (Dedup.Spaced(ds) ==> exists id :: OwnRow(w, id, u))
    && ((exists id :: OwnRow(w, id, u)) <==>
          exists i :: 0 <= i < |ds| && Dedup.SameEmission(ds[i], u) && Dedup.FindsSlotFree(ds, i))
  }

  lemma InsertedArrives(steps: seq<Step>, u: Uplink)
    requires u in Inserts(steps)
    ensures Arrives(steps, u)
  {
    hide Exec, Run, Dedup.Stored, OwnRow, SafeUnder, Dedup.FindsSlotFree, Dedup.Spaced, Inserts;
    var id := RowThatCarries(steps, u);
    CarrierIsSafe(steps, id, u);
    OwnRowIff(steps, u);
    Dedup.HasRowIff(Inserts(steps), u);
    if Dedup.Spaced(Inserts(steps)) {
      var i :| 0 <= i < |Inserts(steps)| && Inserts(steps)[i] == u;
      Dedup.EmissionsHaveRows(Inserts(steps), i);
    }
  }

  lemma CarrierIsSafe(steps: seq<Step>, id: int, u: Uplink)
    requires Carries(Exec(INITIAL, steps).w, id, u)
    ensures SafeUnder(Exec(INITIAL, steps).w, id, u)
  {
    hide Exec;
    InvHolds(INITIAL, steps);
  }

  /** The fix has a safe row of its own exactly when the dedup gave it one. */
  lemma OwnRowIff(steps: seq<Step>, u: Uplink)
    ensures (exists id :: OwnRow(Exec(INITIAL, steps).w, id, u)) <==> Dedup.HasRow(Inserts(steps), u)
  {
    hide Exec, Run, Dedup.Stored, Inserts, SafeUnder;
    var w := Exec(INITIAL, steps).w;
    RowsOfARun(steps);
    if id :| OwnRow(w, id, u) {
      IdsOfSafeRows(w, id, u);
      assert w.origin[id - 1] in Dedup.Stored(Inserts(steps));
    }
    if Dedup.HasRow(Inserts(steps), u) {
      var r :| r in Dedup.Stored(Inserts(steps)) && Dedup.SameEmission(r, u);
      var k :| 0 <= k < |w.origin| && w.origin[k] == r;
      OriginCarries(steps, k, u);
      CarrierIsSafe(steps, k + 1, u);
      assert OwnRow(w, k + 1, u);
    }
  }

  lemma IdsOfSafeRows(w: World, id: int, u: Uplink)
    requires SafeUnder(w, id, u)
    ensures 1 <= id <= |w.origin|
  {
  }

  lemma OriginCarries(steps: seq<Step>, k: nat, u: Uplink)
    requires var w := Exec(INITIAL, steps).w;
      k < |w.origin| && Dedup.SameKey(w.origin[k], u) && Near(u.TsMs(), w.origin[k].TsMs())
    ensures Carries(Exec(INITIAL, steps).w, k + 1, u)
  {
    hide Exec, Run, Dedup.Stored, Inserts;
    var w := Exec(INITIAL, steps).w;
    InvHolds(INITIAL, steps);
    assert w.rows[k] in w.rows;
    assert CopyOf(w.rows[k], w.origin);
  }

  lemma LocatedIsDelivered(s: seq<byte>, p: nat, f: Frame)
    requires (p, f) in Located(s, 0)
    ensures f in Parse(s).frames
  {
    hide Wire, Parse, Located;
    DeliveredAreFrames(s, 0);
    assert s[0..] == s;
    var k :| 0 <= k < |Located(s, 0)| && Located(s, 0)[k] == (p, f);
    assert Parse(s).frames[k] == f;
  }

  lemma RowThatCarries(steps: seq<Step>, u: Uplink) returns (id: int)
    requires u in Inserts(steps)
    ensures Carries(Exec(INITIAL, steps).w, id, u)
  {
    hide Exec, Run, Dedup.Stored, Inserts;
    var ds := Inserts(steps);
    var w := Exec(INITIAL, steps).w;
    RowsOfARun(steps);
    var i :| 0 <= i < |ds| && ds[i] == u;
    Dedup.EveryDeliveryIsCovered(ds, i);
    var r :| r in Dedup.Stored(ds) && Dedup.SameKey(r, u) && Near(u.TsMs(), r.TsMs());
    var k :| 0 <= k < |w.origin| && w.origin[k] == r;
    id := k + 1;
    OriginCarries(steps, k, u);
  }
}
