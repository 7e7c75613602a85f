/** The durable store: the append-only fixes table with its wrap-aware dedup, the per-node
    summary, and the cursors. */
module Storage {
  import opened Bytes
  import opened Wrappers
  import opened Codec

  const DEDUP_WINDOW_MS: int := 60 * 60 * 1000

  /** A row of the fixes table.  sequence is NULL once a later wrap cycle has taken the slot. */
  datatype Row = Row(id: int, nodeId: int, tsMs: int, latE7: int, lonE7: int, speedCms: int, courseCdeg: int,
                     batteryMv: int, sequence: Option<int>, rssiDbm: int, snrCdb: int, flags: int,
                     synced: bool, rxTimeMs: int)

  function NewRow(id: int, u: Uplink): Row {
    Row(id, u.nodeId, u.TsMs(), u.latE7, u.lonE7, u.speedCms, u.courseCdeg, u.batteryMv, Some(u.sequence),
        u.rssiDbm, u.snrCdb, u.flags, false, u.rxTimeMs)
  }

  /** The rowid SQLite assigns: one more than the largest, which is the last. */
  function NextId(rows: seq<Row>): int {
    if rows == [] then 1 else rows[|rows| - 1].id + 1
  }

  predicate Holds(r: Row, nodeId: int, sequence: int) {
    r.nodeId == nodeId && r.sequence == Some(sequence)
  }

  /** SELECT ... WHERE node_id=? AND seq=?, as an index into the table. */
  function FindSlot(rows: seq<Row>, nodeId: int, sequence: int): (r: Option<nat>)
    ensures r.Some? ==> r.value < |rows| && Holds(rows[r.value], nodeId, sequence)
    ensures r.None? ==> forall i | 0 <= i < |rows| :: !Holds(rows[i], nodeId, sequence)
    decreases |rows|
  {
    if rows == [] then None
    else if Holds(rows[|rows| - 1], nodeId, sequence) then Some(|rows| - 1)
    else FindSlot(rows[..|rows| - 1], nodeId, sequence)
  }

  predicate Near(a: int, b: int) {
    -DEDUP_WINDOW_MS <= a - b <= DEDUP_WINDOW_MS
  }

  predicate IsNew(rows: seq<Row>, u: Uplink) {
    var slot := FindSlot(rows, u.nodeId, u.sequence);
    slot.None? || !Near(u.TsMs(), rows[slot.value].tsMs)
  }

  function Retire(rows: seq<Row>, slot: Option<nat>): seq<Row>
    requires slot.Some? ==> slot.value < |rows|
  {
    if slot.Some? then rows[slot.value := rows[slot.value].(sequence := None)] else rows
  }

  /** The table after one delivery. */
  function AfterInsert(rows: seq<Row>, u: Uplink): seq<Row> {
    if IsNew(rows, u)
    then Retire(rows, FindSlot(rows, u.nodeId, u.sequence)) + [NewRow(NextId(rows), u)]
    else rows
  }

  /** Ids count from 1 and UNIQUE(node_id, seq) holds. */
  ghost predicate TableOk(rows: seq<Row>) {
    && (forall i | 0 <= i < |rows| :: rows[i].id == i + 1)
    && (forall i, j | 0 <= i < j < |rows| ::
          rows[i].sequence.Some? && rows[i].sequence == rows[j].sequence ==> rows[i].nodeId != rows[j].nodeId)
  }

  /** Two readings of one row: all columns agree, except that seq may since have become NULL
      and synced may since have become 1. */
  predicate Agrees(before: Row, after: Row) {
    && after == before.(sequence := after.sequence, synced := after.synced)
    && (after.sequence == before.sequence || after.sequence == None)
    && (before.synced ==> after.synced)
  }

  /** What the table may become: rows are only added, and an old row changes as Agrees allows. */
  ghost predicate Evolves(before: seq<Row>, after: seq<Row>) {
    |before| <= |after| && forall i | 0 <= i < |before| :: Agrees(before[i], after[i])
  }

  lemma EvolvesTransitive(a: seq<Row>, b: seq<Row>, c: seq<Row>)
    requires Evolves(a, b) && Evolves(b, c)
    ensures Evolves(a, c)
  {
    forall i | 0 <= i < |a|
      ensures Agrees(a[i], c[i])
    {
      assert Agrees(a[i], b[i]) && Agrees(b[i], c[i]);
    }
  }

  lemma InsertKeepsTable(rows: seq<Row>, u: Uplink)
    requires TableOk(rows)
    ensures TableOk(AfterInsert(rows, u)) && Evolves(rows, AfterInsert(rows, u))
    ensures |AfterInsert(rows, u)| == |rows| + if IsNew(rows, u) then 1 else 0
  {
  }

  /** The table after an insert_fix, with nothing taken from the definitions above.  If a row holds
      the (node_id, seq) slot, the fix is new if and only if the timestamps are more than an hour
      apart, and then that row's seq becomes NULL; if none does, it is new.  A new fix is appended
      with its own values, un-synced, under the next id; otherwise nothing changes. */
  ghost predicate InsertedAs(before: seq<Row>, u: Uplink, inserted: bool, after: seq<Row>) {
    var n, ts := |before|, u.gpsTime * 1000 + u.subsecMs;
    && (inserted ==>
          && |after| == n + 1
          && after[n] == Row(n + 1, u.nodeId, ts, u.latE7, u.lonE7, u.speedCms, u.courseCdeg, u.batteryMv,
                             Some(u.sequence), u.rssiDbm, u.snrCdb, u.flags, false, u.rxTimeMs))
    && (!inserted ==> after == before)
    && (forall i | 0 <= i < n && before[i].nodeId == u.nodeId && before[i].sequence == Some(u.sequence) ::
          (inserted <==> ts - before[i].tsMs > 3_600_000 || before[i].tsMs - ts > 3_600_000)
          && (inserted ==> after[i] == before[i].(sequence := None)))
    && (forall i | 0 <= i < n && (before[i].nodeId != u.nodeId || before[i].sequence != Some(u.sequence)) ::
          inserted ==> after[i] == before[i])
    && ((forall i | 0 <= i < n :: before[i].nodeId != u.nodeId || before[i].sequence != Some(u.sequence))
        ==> inserted)
  }

  lemma InsertMeans(rows: seq<Row>, u: Uplink)
    requires TableOk(rows)
    ensures InsertedAs(rows, u, IsNew(rows, u), AfterInsert(rows, u))
  {
    hide FindSlot;
    var slot := FindSlot(rows, u.nodeId, u.sequence);
    forall i | 0 <= i < |rows| && rows[i].nodeId == u.nodeId && rows[i].sequence == Some(u.sequence)
      ensures slot == Some(i)
    {
      assert Holds(rows[i], u.nodeId, u.sequence);
      assert slot.Some? && Holds(rows[slot.value], u.nodeId, u.sequence);
    }
    assert NextId(rows) == |rows| + 1;
  }

  /** A full wrap of the 16-bit counter is never taken for a duplicate: 65536 fixes that are at
      least 55 ms apart last longer than the window. */
  lemma WrapIsNew(rows: seq<Row>, u: Uplink, i: nat)
    requires TableOk(rows) && i < |rows|
    requires rows[i].nodeId == u.nodeId && rows[i].sequence == Some(u.sequence)
    requires u.TsMs() >= rows[i].tsMs + 65536 * 55
    ensures |AfterInsert(rows, u)| == |rows| + 1 && AfterInsert(rows, u)[i].sequence == None
  {
    hide FindSlot, AfterInsert, IsNew;
    InsertMeans(rows, u);
  }

  function MarkRow(r: Row, ids: seq<int>): Row {
    if r.id in ids then r.(synced := true) else r
  }

  /** The table after mark_synced. */
  function Mark(rows: seq<Row>, ids: seq<int>): (marked: seq<Row>)
    ensures |marked| == |rows|
  {
    seq(|rows|, i requires 0 <= i < |rows| => MarkRow(rows[i], ids))
  }

  lemma MarkKeepsTable(rows: seq<Row>, ids: seq<int>)
    requires TableOk(rows)
    ensures TableOk(Mark(rows, ids)) && Evolves(rows, Mark(rows, ids))
  {
  }

  lemma MarkOneMore(rows: seq<Row>, ids: seq<int>, k: nat)
    requires k < |ids|
    ensures Mark(Mark(rows, ids[..k]), [ids[k]]) == Mark(rows, ids[..k + 1])
  {
    assert ids[..k + 1] == ids[..k] + [ids[k]];
  }

  /** The un-synced rows, oldest first. */
  function Pending(rows: seq<Row>): (p: seq<Row>)
    ensures |p| <= |rows|
    decreases |rows|
  {
    if rows == [] then []
    else
      var last := rows[|rows| - 1];
      Pending(rows[..|rows| - 1]) + if last.synced then [] else [last]
  }

  function Take(rows: seq<Row>, limit: nat): seq<Row> {
    if |rows| <= limit then rows else rows[..limit]
  }

  lemma {:induction false} PendingIff(rows: seq<Row>, r: Row)
    ensures r in Pending(rows) <==> r in rows && !r.synced
    decreases |rows|
  {
    if rows != [] {
      PendingIff(rows[..|rows| - 1], r);
      assert rows == rows[..|rows| - 1] + [rows[|rows| - 1]];
    }
  }

  /** The queue keeps the order of insertion. */
  lemma {:induction false} PendingIsOldestFirst(rows: seq<Row>, i: nat, j: nat)
    requires TableOk(rows) && i < j < |Pending(rows)|
    ensures Pending(rows)[i].id < Pending(rows)[j].id
    decreases |rows|
  {
    var init, last := rows[..|rows| - 1], rows[|rows| - 1];
    var before := Pending(init);
    if j < |before| {
      PendingIsOldestFirst(init, i, j);
    } else {
      PendingIff(init, before[i]);
    }
  }

  // ----- the per-node summary -----

  datatype NodeRow = NodeRow(lastSeen: Option<int>, lastBatteryMv: Option<int>, lastRssi: Option<int>)

  /** _upsert_node_from_fix.  A NULL last_seen compares as unknown and MAX with NULL is NULL,
      so it stays NULL. */
  function AfterFix(row: Option<NodeRow>, u: Uplink): NodeRow {
    match row
    case None => NodeRow(Some(u.TsMs()), Some(u.batteryMv), Some(u.rssiDbm))
    case Some(n) =>
      if n.lastSeen.Some? && u.TsMs() >= n.lastSeen.value
      then NodeRow(Some(u.TsMs()), Some(u.batteryMv), Some(u.rssiDbm))
      else n
  }

  function Coalesce<T>(given: Option<T>, known: Option<T>): Option<T> {
    if given.Some? then given else known
  }

  /** upsert_node: only the given fields overwrite. */
  function AfterUpsert(row: Option<NodeRow>, given: NodeRow): NodeRow {
    match row
    case None => given
    case Some(n) => NodeRow(Coalesce(given.lastSeen, n.lastSeen), Coalesce(given.lastBatteryMv, n.lastBatteryMv),
                            Coalesce(given.lastRssi, n.lastRssi))
  }

  function NodeOf(nodes: map<int, NodeRow>, nodeId: int): Option<NodeRow> {
    if nodeId in nodes then Some(nodes[nodeId]) else None
  }

  /** What changes the nodes table: a fix, inserted or found to be a duplicate, and an upsert_node. */
  datatype NodeEvent = Fix(u: Uplink) | Report(reporter: int, given: NodeRow) {
    function NodeId(): int {
      match this
      case Fix(u) => u.nodeId
      case Report(n, _) => n
    }

    function Apply(row: Option<NodeRow>): NodeRow {
      match this
      case Fix(u) => AfterFix(row, u)
      case Report(_, given) => AfterUpsert(row, given)
    }
  }

  function NodesAfter(events: seq<NodeEvent>): map<int, NodeRow>
    decreases |events|
  {
    if events == [] then map[]
    else
      var before, e := NodesAfter(events[..|events| - 1]), events[|events| - 1];
      before[e.NodeId() := e.Apply(NodeOf(before, e.NodeId()))]
  }

  function FixesOf(events: seq<NodeEvent>): seq<Uplink>
    decreases |events|
  {
    if events == [] then []
    else
      var e := events[|events| - 1];
      FixesOf(events[..|events| - 1]) + if e.Fix? then [e.u] else []
  }

  /** How many statements an insert_fix of u executes, the commit included. */
  function Statements(rows: seq<Row>, u: Uplink): nat {
    if !IsNew(rows, u) then 3 else if FindSlot(rows, u.nodeId, u.sequence).None? then 4 else 5
  }

  /** The integers that can be bound to a parameter: sqlite3 raises OverflowError for the others. */
  predicate Storable(x: int) {
    -0x8000_0000_0000_0000 <= x < 0x8000_0000_0000_0000
  }

  predicate SelectBinds(u: Uplink) {
    Storable(u.nodeId) && Storable(u.sequence)
  }

  predicate InsertBinds(u: Uplink) {
    && Storable(u.nodeId) && Storable(u.TsMs()) && Storable(u.batteryMv) && Storable(u.sequence)
    && Storable(u.rssiDbm) && Storable(u.flags) && Storable(u.rxTimeMs)
  }

  predicate SummaryBinds(u: Uplink) {
    Storable(u.nodeId) && Storable(u.TsMs()) && Storable(u.batteryMv) && Storable(u.rssiDbm)
  }

  /** When an insert_fix of u raises: at a statement that fails, or at one that an integer cannot
      be bound to. */
  predicate InsertRaises(rows: seq<Row>, u: Uplink, fault: nat) {
    || 1 <= fault <= Statements(rows, u)
    || !SelectBinds(u) || !SummaryBinds(u) || (IsNew(rows, u) && !InsertBinds(u))
  }

  predicate GivenBinds(nodeId: int, given: NodeRow) {
    && Storable(nodeId) && (given.lastSeen.Some? ==> Storable(given.lastSeen.value))
    && (given.lastBatteryMv.Some? ==> Storable(given.lastBatteryMv.value))
    && (given.lastRssi.Some? ==> Storable(given.lastRssi.value))
  }

  /** Of the fixes that the wire can carry, only a new one whose receive time has its top bit set
      cannot be bound. */
  lemma WireFixRaisesIff(rows: seq<Row>, u: Uplink, fault: nat)
    requires InUplinkRange(u)
    ensures InsertRaises(rows, u, fault)
            <==> 1 <= fault <= Statements(rows, u) || (IsNew(rows, u) && u.rxTimeMs >= 0x8000_0000_0000_0000)
  {
    hide IsNew, Statements;
    assert Pow256(1) == 0x100 && Pow256(2) == 0x1_0000 && Pow256(4) == 0x1_0000_0000;
  }

  /** Of the reports that the wire can carry, only one whose time has its top bit set cannot. */
  lemma WireReportBindsIff(nodeId: int, heardMs: int, rssiDbm: int)
    requires Fits(nodeId, 2) && Fits(heardMs, 8) && FitsSigned(rssiDbm, 2)
    ensures GivenBinds(nodeId, NodeRow(Some(heardMs), None, Some(rssiDbm))) <==> heardMs < 0x8000_0000_0000_0000
  {
    assert Pow256(2) == 0x1_0000;
  }

  /** A field of the nodes table that a report gives is overwritten, one that it does not give is
      kept: NULL if there was no row. */
  ghost predicate Merged(before: Option<NodeRow>, given: NodeRow, after: NodeRow) {
    var known := if before.Some? then before.value else NodeRow(None, None, None);
    && (given.lastSeen.Some? ==> after.lastSeen == given.lastSeen)
    && (given.lastSeen.None? ==> after.lastSeen == known.lastSeen)
    && (given.lastBatteryMv.Some? ==> after.lastBatteryMv == given.lastBatteryMv)
    && (given.lastBatteryMv.None? ==> after.lastBatteryMv == known.lastBatteryMv)
    && (given.lastRssi.Some? ==> after.lastRssi == given.lastRssi)
    && (given.lastRssi.None? ==> after.lastRssi == known.lastRssi)
  }

  datatype InsertResult = Done(inserted: bool) | Raised

  class Store {
    var fixes: seq<Row>
    var nodes: map<int, NodeRow>
    var syncState: map<string, int>
    var deadLetter: map<int, int>

    /** Every fix whose insert_fix was committed, duplicates included. */
    ghost var deliveries: seq<Uplink>

    /** These together with the upsert_node calls, in order. */
    ghost var nodeEvents: seq<NodeEvent>

    /** Apart from the synced flags, the tables are what the committed calls made of them. */
    ghost predicate Valid()
      reads this
    {
      && TableOk(fixes) && SameButSynced(fixes, Run(deliveries))
      && nodes == NodesAfter(nodeEvents) && deliveries == FixesOf(nodeEvents)
    }

    constructor ()
      ensures Valid() && fixes == [] && nodes == map[] && syncState == map[] && deadLetter == map[]
      ensures deliveries == [] && nodeEvents == []
    {
      fixes, nodes, syncState, deadLetter, deliveries, nodeEvents := [], map[], map[], map[], [], [];
    }

    /** One transaction.  fault numbers the statement that SQLite fails, 0 for none; a statement
        also raises if an integer cannot be bound to it.  The rollback restores what the
        transaction had changed. */
    method InsertFix(u: Uplink, fault: nat) returns (r: InsertResult)
      requires Valid()
      modifies this`fixes, this`nodes, this`deliveries, this`nodeEvents
      ensures Valid()
      ensures r.Raised? <==> InsertRaises(old(fixes), u, fault)
      ensures r.Raised? ==>
        fixes == old(fixes) && nodes == old(nodes) && deliveries == old(deliveries) && nodeEvents == old(nodeEvents)
      ensures r.Done? ==>
        && InsertedAs(old(fixes), u, r.inserted, fixes)
        && fixes == AfterInsert(old(fixes), u) && r.inserted == IsNew(old(fixes), u)
        && nodes == old(nodes)[u.nodeId := AfterFix(NodeOf(old(nodes), u.nodeId), u)]
        && deliveries == old(deliveries) + [u] && nodeEvents == old(nodeEvents) + [Fix(u)]
    {
      hide Run, NodesAfter, FixesOf, AfterFix, FindSlot, SelectBinds, InsertBinds, SummaryBinds, InsertedAs;
      var savedFixes, savedNodes := fixes, nodes;
      var statement := 1;
      if fault == statement || !SelectBinds(u) {
        return Raised;
      }
      var slot := FindSlot(fixes, u.nodeId, u.sequence);
      var inserted := false;
      if slot.Some? {
        if Near(u.TsMs(), fixes[slot.value].tsMs) {
          inserted := false;
        } else {
          statement := statement + 1;
          if fault == statement {
            return Raised;
          }
          fixes := fixes[slot.value := fixes[slot.value].(sequence := None)];
          statement := statement + 1;
          if fault == statement || !InsertBinds(u) {
            fixes := savedFixes;
            return Raised;
          }
          fixes := fixes + [NewRow(NextId(fixes), u)];
          inserted := true;
        }
      } else {
        statement := statement + 1;
        if fault == statement || !InsertBinds(u) {
          return Raised;
        }
        fixes := fixes + [NewRow(NextId(fixes), u)];
        inserted := true;
      }
      statement := statement + 1;
      if fault == statement || !SummaryBinds(u) {
        fixes := savedFixes;
        return Raised;
      }
      nodes := nodes[u.nodeId := AfterFix(NodeOf(nodes, u.nodeId), u)];
      statement := statement + 1;
      if fault == statement {
        fixes, nodes := savedFixes, savedNodes;
        return Raised;
      }
      InsertCommitted(savedFixes, deliveries, nodeEvents, u);
      assert fixes == AfterInsert(savedFixes, u);
      InsertMeans(savedFixes, u);
      deliveries, nodeEvents := deliveries + [u], nodeEvents + [Fix(u)];
      r := Done(inserted);
    }

    method GetUnsynced(limit: nat) returns (rows: seq<Row>)
      ensures rows == Take(Pending(fixes), limit)
      ensures rows <= Pending(fixes) && |rows| == Min(limit, |Pending(fixes)|)
    {
      var p: seq<Row> := [];
      for i := 0 to |fixes|
        invariant p == Pending(fixes[..i])
      {
        assert fixes[..i + 1][..i] == fixes[..i];
        if !fixes[i].synced {
          p := p + [fixes[i]];
        }
      }
      assert fixes[..|fixes|] == fixes;
      rows := Take(p, limit);
    }

    /** executemany: one UPDATE per id, then the commit. */
    method MarkSynced(ids: seq<int>)
      requires Valid()
      modifies this`fixes
      ensures Valid() && fixes == Mark(old(fixes), ids)
      ensures forall i | 0 <= i < |fixes| ::
        fixes[i] == old(fixes)[i].(synced := old(fixes)[i].synced || old(fixes)[i].id in ids)
    {
      ghost var before := fixes;
      var k := 0;
      while k < |ids|
        invariant 0 <= k <= |ids| && fixes == Mark(before, ids[..k])
      {
        MarkOneMore(before, ids, k);
        fixes := Mark(fixes, [ids[k]]);
        k := k + 1;
      }
      assert ids[..|ids|] == ids;
      assert fixes == Mark(before, ids);
      MarkKeepsTable(before, ids);
    }

    function GetSyncCursor(key: string, default: int): int
      reads this`syncState
    {
      if key in syncState then syncState[key] else default
    }

    method SetSyncCursor(key: string, value: int)
      requires Valid()
      modifies this`syncState
      ensures Valid()
      ensures syncState == old(syncState)[key := value]
    {
      syncState := syncState[key := value];
    }

    /** INSERT ... ON CONFLICT DO UPDATE into the gateway-local dead_letter table. */
    method Quarantine(id: int, status: int)
      requires Valid()
      modifies this`deadLetter
      ensures Valid()
      ensures deadLetter == old(deadLetter)[id := status]
    {
      deadLetter := deadLetter[id := status];
    }

    /** Only the given fields of the one node are overwritten.  The statement may fail, or not take
        an integer, and then nothing changes. */
    method UpsertNode(nodeId: int, given: NodeRow, fails: bool) returns (ok: bool)
      requires Valid()
      modifies this`nodes, this`nodeEvents
      ensures Valid()
      ensures ok <==> !fails && GivenBinds(nodeId, given)
      ensures !ok ==> nodes == old(nodes) && nodeEvents == old(nodeEvents)
      ensures ok ==>
        && nodeEvents == old(nodeEvents) + [Report(nodeId, given)]
        && nodes.Keys == old(nodes).Keys + {nodeId}
        && (forall n | n in old(nodes) && n != nodeId :: nodes[n] == old(nodes)[n])
        && Merged(NodeOf(old(nodes), nodeId), given, nodes[nodeId])
    {
      hide Run;
      if fails || !GivenBinds(nodeId, given) {
        return false;
      }
      nodes := nodes[nodeId := AfterUpsert(NodeOf(nodes, nodeId), given)];
      nodeEvents := nodeEvents + [Report(nodeId, given)];
      assert nodeEvents[..|nodeEvents| - 1] == old(nodeEvents);
      assert FixesOf(nodeEvents) == FixesOf(old(nodeEvents)) + [];
      ok := true;
    }
  }

  lemma InsertCommitted(rows: seq<Row>, ds: seq<Uplink>, events: seq<NodeEvent>, u: Uplink)
    requires TableOk(rows) && SameButSynced(rows, Run(ds)) && FixesOf(events) == ds
    ensures TableOk(AfterInsert(rows, u)) && SameButSynced(AfterInsert(rows, u), Run(ds + [u]))
    ensures FixesOf(events + [Fix(u)]) == ds + [u]
    ensures NodesAfter(events + [Fix(u)])
         == NodesAfter(events)[u.nodeId := AfterFix(NodeOf(NodesAfter(events), u.nodeId), u)]
  {
    InsertKeepsTable(rows, u);
    InsertIgnoresSynced(rows, Run(ds), u);
    assert (ds + [u])[..|ds|] == ds && (events + [Fix(u)])[..|events|] == events;
  }

  // ----- the table as a run of deliveries -----

  /** The table after delivering ds, in order, to an empty store. */
  function Run(ds: seq<Uplink>): seq<Row>
    decreases |ds|
  {
    if ds == [] then [] else AfterInsert(Run(ds[..|ds| - 1]), ds[|ds| - 1])
  }

  ghost predicate SameButSynced(a: seq<Row>, b: seq<Row>) {
    |a| == |b| && forall i | 0 <= i < |a| :: a[i] == b[i].(synced := a[i].synced)
  }

  lemma {:induction false} SlotIgnoresSynced(a: seq<Row>, b: seq<Row>, nodeId: int, sequence: int)
    requires SameButSynced(a, b)
    ensures FindSlot(a, nodeId, sequence) == FindSlot(b, nodeId, sequence)
    decreases |a|
  {
    if a != [] {
      SlotIgnoresSynced(a[..|a| - 1], b[..|b| - 1], nodeId, sequence);
    }
  }

  lemma InsertIgnoresSynced(a: seq<Row>, b: seq<Row>, u: Uplink)
    requires SameButSynced(a, b)
    ensures SameButSynced(AfterInsert(a, u), AfterInsert(b, u)) && IsNew(a, u) == IsNew(b, u)
  {
    SlotIgnoresSynced(a, b, u.nodeId, u.sequence);
  }
}
