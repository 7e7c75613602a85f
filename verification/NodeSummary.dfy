/** The nodes table over whole runs of insert_fix and upsert_node calls. */
module NodeSummary {
  import opened Wrappers
  import opened Codec
  import opened Storage

  /** A node's row after the events, all of that node. */
  function Summary(row: Option<NodeRow>, events: seq<NodeEvent>): Option<NodeRow>
    decreases |events|
  {
    if events == [] then row else Some(events[|events| - 1].Apply(Summary(row, events[..|events| - 1])))
  }

  function OfNode(events: seq<NodeEvent>, nodeId: int): seq<NodeEvent>
    decreases |events|
  {
    if events == [] then []
    else
      var e := events[|events| - 1];
      OfNode(events[..|events| - 1], nodeId) + if e.NodeId() == nodeId then [e] else []
  }

  /** Nodes do not disturb each other. */
  lemma {:induction false} NodesAreSummaries(events: seq<NodeEvent>, nodeId: int)
    ensures NodeOf(NodesAfter(events), nodeId) == Summary(None, OfNode(events, nodeId))
    decreases |events|
  {
    if events != [] {
      var init, e := events[..|events| - 1], events[|events| - 1];
      NodesAreSummaries(init, nodeId);
      if e.NodeId() == nodeId {
        var mine := OfNode(events, nodeId);
        assert mine[..|mine| - 1] == OfNode(init, nodeId);
      } else {
        assert OfNode(events, nodeId) == OfNode(init, nodeId);
      }
    }
  }

  lemma {:induction false} SummaryConcat(row: Option<NodeRow>, a: seq<NodeEvent>, b: seq<NodeEvent>)
    ensures Summary(row, a + b) == Summary(Summary(row, a), b)
    decreases |b|
  {
    if b == [] {
      assert a + b == a;
    } else {
      assert (a + b)[..|a + b| - 1] == a + b[..|b| - 1];
      SummaryConcat(row, a, b[..|b| - 1]);
    }
  }

  // ----- fixes only -----

  function FixEvents(ds: seq<Uplink>): (events: seq<NodeEvent>)
    ensures |events| == |ds|
  {
    seq(|ds|, i requires 0 <= i < |ds| => Fix(ds[i]))
  }

  function RowOf(u: Uplink): NodeRow {
    NodeRow(Some(u.TsMs()), Some(u.batteryMv), Some(u.rssiDbm))
  }

  lemma LastFix(row: Option<NodeRow>, ds: seq<Uplink>)
    requires ds != []
    ensures var n := |ds| - 1;
      Summary(row, FixEvents(ds)) == Some(AfterFix(Summary(row, FixEvents(ds[..n])), ds[n]))
  {
    assert FixEvents(ds)[..|ds| - 1] == FixEvents(ds[..|ds| - 1]);
  }

  /** The k-th delivery carries the largest timestamp, and is the last one that does. */
  predicate IsLatestMaximum(ds: seq<Uplink>, k: nat) {
    && k < |ds|
    && (forall j | 0 <= j < |ds| :: ds[j].TsMs() <= ds[k].TsMs())
    && (forall j | k < j < |ds| :: ds[j].TsMs() < ds[k].TsMs())
  }

  lemma {:induction false} LatestMaximumExists(ds: seq<Uplink>) returns (k: nat)
    requires ds != []
    ensures IsLatestMaximum(ds, k)
    decreases |ds|
  {
    var n := |ds| - 1;
    if n == 0 {
      k := 0;
    } else {
      k := LatestMaximumExists(ds[..n]);
      assert forall j | 0 <= j < n :: ds[..n][j] == ds[j];
      if ds[k].TsMs() <= ds[n].TsMs() {
        k := n;
      }
    }
  }

  ghost predicate AllOlder(ds: seq<Uplink>, than: int) {
    forall j | 0 <= j < |ds| :: ds[j].TsMs() < than
  }

  /** Fixes older than what is recorded change nothing; with NULL recorded, no fix does. */
  lemma {:induction false} OlderFixesChangeNothing(row: NodeRow, ds: seq<Uplink>)
    requires row.lastSeen.Some? ==> AllOlder(ds, row.lastSeen.value)
    ensures Summary(Some(row), FixEvents(ds)) == Some(row)
    decreases |ds|
  {
    if ds != [] {
      OlderFixesChangeNothing(row, ds[..|ds| - 1]);
      LastFix(Some(row), ds);
    }
  }

  /** last_seen never exceeds what was recorded or delivered. */
  lemma {:induction false} SeenIsBounded(row: Option<NodeRow>, ds: seq<Uplink>, bound: int)
    requires row.Some? ==> row.value.lastSeen.Some? && row.value.lastSeen.value <= bound
    requires forall j | 0 <= j < |ds| :: ds[j].TsMs() <= bound
    ensures var after := Summary(row, FixEvents(ds));
      after.Some? ==> after.value.lastSeen.Some? && after.value.lastSeen.value <= bound
    decreases |ds|
  {
    if ds != [] {
      SeenIsBounded(row, ds[..|ds| - 1], bound);
      LastFix(row, ds);
    }
  }

  /** After any deliveries, duplicates and out-of-order resends included, the summary is that of
      the latest-arriving delivery with the largest timestamp, unless all are older than what
      was recorded before. */
  lemma SummaryIsLatestMaximum(row: Option<NodeRow>, ds: seq<Uplink>, k: nat)
    requires IsLatestMaximum(ds, k)
    requires row.Some? ==> row.value.lastSeen.Some? && row.value.lastSeen.value <= ds[k].TsMs()
    ensures Summary(row, FixEvents(ds)) == Some(RowOf(ds[k]))
  {
    hide Summary, FixEvents;
    var upto, after := ds[..k + 1], ds[k + 1..];
    SeenIsBounded(row, ds[..k], ds[k].TsMs());
    LastFix(row, upto);
    assert upto[..k] == ds[..k];
    assert Summary(row, FixEvents(upto)) == Some(RowOf(ds[k]));
    FixEventsSplit(ds, k + 1);
    SummaryConcat(row, FixEvents(upto), FixEvents(after));
    forall j | 0 <= j < |after|
      ensures after[j].TsMs() < ds[k].TsMs()
    {
      assert after[j] == ds[k + 1 + j];
    }
    OlderFixesChangeNothing(RowOf(ds[k]), after);
  }

  lemma FixEventsSplit(ds: seq<Uplink>, n: nat)
    requires n <= |ds|
    ensures FixEvents(ds) == FixEvents(ds[..n]) + FixEvents(ds[n..])
  {
  }

  // ----- fixes and NODE_STATS reports mixed -----

  /** What the gateway passes on from a NODE_STATS entry: a time and an RSSI, and no battery. */
  predicate FromNodeStats(given: NodeRow) {
    given.lastSeen.Some? && given.lastRssi.Some? && given.lastBatteryMv.None?
  }

  predicate AllFromNodeStats(events: seq<NodeEvent>) {
    forall i | 0 <= i < |events| && events[i].Report? :: FromNodeStats(events[i].given)
  }

  function Battery(row: Option<NodeRow>): Option<int> {
    if row.Some? then row.value.lastBatteryMv else None
  }

  /** The row that a NODE_STATS entry leaves behind: it overwrites the time and the RSSI. */
  function Reported(row: Option<NodeRow>, given: NodeRow): NodeRow {
    NodeRow(given.lastSeen, Battery(row), given.lastRssi)
  }

  /** The index of the last report. */
  function LastReport(events: seq<NodeEvent>): (r: Option<nat>)
    ensures r.Some? ==> r.value < |events| && events[r.value].Report?
    ensures r.Some? ==> forall i | r.value < i < |events| :: events[i].Fix?
    ensures r.None? ==> forall i | 0 <= i < |events| :: events[i].Fix?
    decreases |events|
  {
    if events == [] then None
    else if events[|events| - 1].Report? then Some(|events| - 1)
    else LastReport(events[..|events| - 1])
  }

  lemma {:induction false} FixesOfConcat(a: seq<NodeEvent>, b: seq<NodeEvent>)
    ensures FixesOf(a + b) == FixesOf(a) + FixesOf(b)
    decreases |b|
  {
    if b == [] {
      assert a + b == a;
    } else {
      assert (a + b)[..|a + b| - 1] == a + b[..|b| - 1];
      FixesOfConcat(a, b[..|b| - 1]);
    }
  }

  lemma {:induction false} OnlyFixes(events: seq<NodeEvent>)
    requires forall i | 0 <= i < |events| :: events[i].Fix?
    ensures FixEvents(FixesOf(events)) == events
    decreases |events|
  {
    if events != [] {
      OnlyFixes(events[..|events| - 1]);
    }
  }

  lemma OneEvent(row: Option<NodeRow>, e: NodeEvent)
    ensures Summary(row, [e]) == Some(e.Apply(row))
    ensures e.Report? ==> FixesOf([e]) == []
  {
    assert [e][..0] == [];
  }

  lemma AroundReport(early: seq<NodeEvent>, e: NodeEvent, rest: seq<NodeEvent>)
    requires e.Report?
    ensures FixesOf(early + [e] + rest) == FixesOf(early) + FixesOf(rest)
    ensures Summary(None, early + [e] + rest) == Summary(Some(e.Apply(Summary(None, early))), rest)
  {
    hide Summary, FixesOf;
    FixesOfConcat(early + [e], rest);
    FixesOfConcat(early, [e]);
    OneEvent(Summary(None, early), e);
    SummaryConcat(None, early + [e], rest);
    SummaryConcat(None, early, [e]);
  }

  /** A run with a report is what came before its last report, that report, and fixes. */
  lemma LastReportSplits(events: seq<NodeEvent>, j: nat)
    requires LastReport(events) == Some(j)
    ensures var early, later := events[..j], FixesOf(events[j + 1..]);
      && events == early + [events[j]] + FixEvents(later)
      && FixesOf(events) == FixesOf(early) + later
      && Summary(None, events) == Summary(Some(events[j].Apply(Summary(None, early))), FixEvents(later))
  {
    hide Summary, FixesOf, LastReport;
    var early, rest := events[..j], events[j + 1..];
    OnlyFixes(rest);
    assert events == early + [events[j]] + rest;
    AroundReport(early, events[j], rest);
  }

  /** The row after any mixed run: that of the newest fix since the last report if this fix is not
      older than the reported time; otherwise the reported time and RSSI, with the battery that
      was on record when the report came. */
  lemma MixedRun(events: seq<NodeEvent>, j: nat)
    requires LastReport(events) == Some(j) && FromNodeStats(events[j].given)
    ensures var later, g := FixesOf(events[j + 1..]), events[j].given.lastSeen.value;
      && (AllOlder(later, g) ==> Summary(None, events) == Some(Reported(Summary(None, events[..j]), events[j].given)))
      && (forall k: nat | IsLatestMaximum(later, k) && later[k].TsMs() >= g ::
            Summary(None, events) == Some(RowOf(later[k])))
  {
    var later, g := FixesOf(events[j + 1..]), events[j].given.lastSeen.value;
    var r := Reported(Summary(None, events[..j]), events[j].given);
    LastReportSplits(events, j);
    assert events[j].Apply(Summary(None, events[..j])) == r;
    if AllOlder(later, g) {
      OlderFixesChangeNothing(r, later);
    }
    forall k: nat | IsLatestMaximum(later, k) && later[k].TsMs() >= g
      ensures Summary(None, events) == Some(RowOf(later[k]))
    {
      SummaryIsLatestMaximum(Some(r), later, k);
    }
  }

  /** When the row is that of the newest fix, the k-th: there was no report; or the fix arrived
      after the last report and is not older than the reported time; or it arrived before, and the
      report and the battery on record happen to repeat all of its values. */
  predicate NewestIsShown(events: seq<NodeEvent>, k: nat)
    requires k < |FixesOf(events)|
    requires AllFromNodeStats(events)
  {
    var newest := FixesOf(events)[k];
    match LastReport(events)
    case None => true
    case Some(j) =>
      var early, given := events[..j], events[j].given;
      if k >= |FixesOf(early)| then newest.TsMs() >= given.lastSeen.value
      else
        && given.lastSeen == Some(newest.TsMs()) && given.lastRssi == Some(newest.rssiDbm)
        && Battery(Summary(None, early)) == Some(newest.batteryMv)
  }

  /** Exactly when a node's row is that of its newest fix, over every run of fixes and reports. */
  lemma NewestFixShownIff(events: seq<NodeEvent>, k: nat)
    requires IsLatestMaximum(FixesOf(events), k)
    requires AllFromNodeStats(events)
    ensures Summary(None, events) == Some(RowOf(FixesOf(events)[k])) <==> NewestIsShown(events, k)
  {
    hide Summary, FixesOf;
    var all := FixesOf(events);
    var last := LastReport(events);
    if last.None? {
      OnlyFixes(events);
      SummaryIsLatestMaximum(None, all, k);
    } else {
      var j := last.value;
      var early, later := FixesOf(events[..j]), FixesOf(events[j + 1..]);
      LastReportSplits(events, j);
      MixedRun(events, j);
      if k >= |early| {
        NewestIsAfter(events, j, k);
      } else {
        NewestIsBefore(events, j, k);
      }
    }
  }

  lemma MaximumOfTail(early: seq<Uplink>, later: seq<Uplink>, k: nat)
    requires IsLatestMaximum(early + later, k) && k >= |early|
    ensures IsLatestMaximum(later, k - |early|) && later[k - |early|] == (early + later)[k]
  {
    assert forall i | 0 <= i < |later| :: later[i] == (early + later)[|early| + i];
  }

  lemma NewestIsAfter(events: seq<NodeEvent>, j: nat, k: nat)
    requires LastReport(events) == Some(j) && FromNodeStats(events[j].given)
    requires IsLatestMaximum(FixesOf(events), k) && k >= |FixesOf(events[..j])|
    ensures Summary(None, events) == Some(RowOf(FixesOf(events)[k]))
            <==> FixesOf(events)[k].TsMs() >= events[j].given.lastSeen.value
  {
    hide Summary, FixesOf, LastReport;
    var early, later := FixesOf(events[..j]), FixesOf(events[j + 1..]);
    var newest, g := FixesOf(events)[k], events[j].given.lastSeen.value;
    LastReportSplits(events, j);
    MixedRun(events, j);
    MaximumOfTail(early, later, k);
    if newest.TsMs() < g {
      assert AllOlder(later, g);
    }
  }

  lemma NewestIsBefore(events: seq<NodeEvent>, j: nat, k: nat)
    requires LastReport(events) == Some(j) && FromNodeStats(events[j].given)
    requires IsLatestMaximum(FixesOf(events), k) && k < |FixesOf(events[..j])|
    ensures var newest, given := FixesOf(events)[k], events[j].given;
      Summary(None, events) == Some(RowOf(newest))
      <==> given.lastSeen == Some(newest.TsMs()) && given.lastRssi == Some(newest.rssiDbm)
           && Battery(Summary(None, events[..j])) == Some(newest.batteryMv)
  {
    hide Summary, FixesOf, LastReport, IsLatestMaximum;
    var later, g := FixesOf(events[j + 1..]), events[j].given.lastSeen.value;
    LastReportSplits(events, j);
    MixedRun(events, j);
    TailIsOlder(FixesOf(events[..j]), later, k);
    if !AllOlder(later, g) {
      var m := LatestMaximumExists(later);
      MaximumReaches(later, m, g);
      assert later[m].TsMs() < FixesOf(events)[k].TsMs();
    }
  }

  lemma TailIsOlder(early: seq<Uplink>, later: seq<Uplink>, k: nat)
    requires IsLatestMaximum(early + later, k) && k < |early|
    ensures AllOlder(later, (early + later)[k].TsMs())
  {
    assert forall i | 0 <= i < |later| :: later[i] == (early + later)[|early| + i];
  }

  lemma MaximumReaches(ds: seq<Uplink>, k: nat, than: int)
    requires IsLatestMaximum(ds, k) && !AllOlder(ds, than)
    ensures k < |ds| && ds[k].TsMs() >= than
  {
  }

  lemma {:induction false} OfNodeFromNodeStats(events: seq<NodeEvent>, nodeId: int)
    requires AllFromNodeStats(events)
    ensures AllFromNodeStats(OfNode(events, nodeId))
    decreases |events|
  {
    if events != [] {
      OfNodeFromNodeStats(events[..|events| - 1], nodeId);
    }
  }

  /** The same of any node in the table of the store. */
  lemma NodeShowsNewestIff(events: seq<NodeEvent>, nodeId: int, k: nat)
    requires AllFromNodeStats(events) && IsLatestMaximum(FixesOf(OfNode(events, nodeId)), k)
    ensures AllFromNodeStats(OfNode(events, nodeId))
    ensures NodeOf(NodesAfter(events), nodeId) == Some(RowOf(FixesOf(OfNode(events, nodeId))[k]))
            <==> NewestIsShown(OfNode(events, nodeId), k)
  {
    OfNodeFromNodeStats(events, nodeId);
    NodesAreSummaries(events, nodeId);
    NewestFixShownIff(OfNode(events, nodeId), k);
  }

  /** A failing run: fix a, a report of a later time, and then b, newer than a but older than the
      report.  b is the newest fix, and the row is not its row. */
  lemma NewestFixIsHidden(a: Uplink, heard: int, rssi: int, b: Uplink)
    requires a.TsMs() <= b.TsMs() < heard
    ensures var run := [Fix(a), Report(a.nodeId, NodeRow(Some(heard), None, Some(rssi))), Fix(b)];
      && IsLatestMaximum(FixesOf(run), 1) && FixesOf(run)[1] == b
      && Summary(None, run) == Some(NodeRow(Some(heard), Some(a.batteryMv), Some(rssi)))
      && Summary(None, run) != Some(RowOf(b))
  {
    var run := [Fix(a), Report(a.nodeId, NodeRow(Some(heard), None, Some(rssi))), Fix(b)];
    assert run[..2] == [run[0], run[1]] && run[..2][..1] == [run[0]] && run[..1][..0] == [];
    assert FixesOf(run[..1]) == [a] && FixesOf(run[..2]) == [a];
    assert FixesOf(run) == [a, b];
    assert Summary(None, run[..1]) == Some(RowOf(a));
    assert Summary(None, run[..2]) == Some(NodeRow(Some(heard), Some(a.batteryMv), Some(rssi)));
  }

  /** Another: a report of a time before the newest fix takes last_seen back. */
  lemma OlderReportRegresses(a: Uplink, heard: int, rssi: int)
    requires heard < a.TsMs()
    ensures var run := [Fix(a), Report(a.nodeId, NodeRow(Some(heard), None, Some(rssi)))];
      Summary(None, run) == Some(NodeRow(Some(heard), Some(a.batteryMv), Some(rssi)))
  {
    var run := [Fix(a), Report(a.nodeId, NodeRow(Some(heard), None, Some(rssi)))];
    assert run[..1] == [run[0]] && run[..1][..0] == [];
    assert Summary(None, run[..1]) == Some(RowOf(a));
  }
}
