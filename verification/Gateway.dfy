/** The gateway's objects at work together: one store, filled by the reader and emptied by the uplinker. */
module GatewayRuns {
  import opened Bytes
  import opened Wrappers
  import opened Framing
  import opened Deframer
  import opened Codec
  import opened Storage
  import Dedup
  import opened UplinkProtocol
  import opened Uplinker
  import opened EndToEnd

  function InsertSteps(us: seq<Uplink>): (steps: seq<Step>)
    ensures |steps| == |us|
  {
    seq(|us|, i requires 0 <= i < |us| => Step.Insert(us[i]))
  }

  lemma InsertStepsNext(us: seq<Uplink>)
    requires us != []
    ensures InsertSteps(us) == InsertSteps(us[..|us| - 1]) + [Step.Insert(us[|us| - 1])]
  {
  }

  /** What ingest does to the shared store is a sequence of the protocol's Insert steps. */
  lemma {:induction false} IngestIsInserts(w: World, ds: seq<Uplink>, us: seq<Uplink>)
    requires w.origin == Dedup.Stored(ds) && SameButSynced(w.rows, Run(ds))
    ensures SameButSynced(AfterAll(w.rows, us), Run(ds + us))
    ensures Exec(State(w, Idle), InsertSteps(us))
         == State(w.(rows := AfterAll(w.rows, us), origin := Dedup.Stored(ds + us)), Idle)
    decreases |us|
  {
    hide Run, Dedup.Stored, AfterInsert, IsNew, SameButSynced;
    if us == [] {
      assert ds + us == ds;
    } else {
      var init, last := us[..|us| - 1], us[|us| - 1];
      IngestIsInserts(w, ds, init);
      InsertStepsNext(us);
      assert InsertSteps(us)[..|us| - 1] == InsertSteps(init);
      InsertIgnoresSynced(AfterAll(w.rows, init), Run(ds + init), last);
      assert ds + us == ds + init + [last] && (ds + us)[..|ds + init|] == ds + init;
      Dedup.RunLast(ds + us);
    }
  }

  lemma {:induction false} InsertsOfInsertSteps(us: seq<Uplink>)
    ensures Inserts(InsertSteps(us)) == us
    decreases |us|
  {
    if us != [] {
      InsertsOfInsertSteps(us[..|us| - 1]);
      InsertStepsNext(us);
    }
  }

  lemma {:induction false} InsertsConcat(a: seq<Step>, b: seq<Step>)
    ensures Inserts(a + b) == Inserts(a) + Inserts(b)
    decreases |b|
  {
    if b == [] {
      assert a + b == a;
    } else {
      assert (a + b)[..|a + b| - 1] == a + b[..|b| - 1];
      InsertsConcat(a, b[..|b| - 1]);
    }
  }

  lemma {:induction false} NoInserts(steps: seq<Step>)
    requires forall st | st in steps :: !st.Insert?
    ensures Inserts(steps) == []
    decreases |steps|
  {
    if steps != [] {
      assert forall st | st in steps[..|steps| - 1] :: st in steps;
      NoInserts(steps[..|steps| - 1]);
      assert steps[|steps| - 1] in steps;
    }
  }

  lemma RunOnceInsertsNothing(w: World, batchSize: nat, cloud: Cloud)
    ensures Inserts(RunOnceSteps(w, batchSize, cloud)) == []
  {
    hide RunOnceSteps, Inserts;
    var steps := RunOnceSteps(w, batchSize, cloud);
    RunOnceStepsShape(w, batchSize, cloud);
    forall st | st in steps
      ensures !st.Insert?
    {
      assert steps == [steps[0]] + steps[1..];
    }
    NoInserts(steps);
  }

  lemma CrashAtRest(steps: seq<Step>, w: World)
    requires Exec(INITIAL, steps) == State(w, Idle)
    ensures Exec(INITIAL, steps + [Crash]) == State(w, Idle) && Inserts(steps + [Crash]) == Inserts(steps)
  {
    assert (steps + [Crash])[..|steps|] == steps;
    assert Inserts(steps) + [] == Inserts(steps);
  }

  /** What the threads do in turn: a chunk is read and dispatched, run_once is called, or the process
      ends and a new one takes over the store, with an empty de-framer. */
  datatype Turn = Read(chunk: seq<byte>) | Upload | Restart(faults: Faults)

  /** The tables, and the bytes that the current process has read. */
  datatype Moment = Moment(w: World, received: seq<byte>)

  /** What one turn does: an upload is a call of run_once; a read adds its chunk to the bytes read and
      only inserts; and a restart begins a new stream. */
  ghost predicate TurnedAs(before: Moment, turn: Turn, batchSize: nat, cloud: Cloud, after: Moment) {
    match turn
    case Upload =>
      after.received == before.received && exists stats :: CalledAs(before.w, batchSize, cloud, after.w, stats)
    case Read(chunk) =>
      && after.received == before.received + chunk
      && exists added :: Exec(State(before.w, Idle), InsertSteps(added)) == State(after.w, Idle)
    case Restart(_) => after.received == [] && after.w == before.w
  }

  class Gateway {
    const up: CloudUplinker
    var ingest: Ingest

    /** The run of the delivery protocol so far. */
    ghost var steps: seq<Step>

    /** The two sides of the shared store agree: its tables, with what the cloud knows, are at rest
        after a run of the protocol whose inserts are those of the reader that took effect. */
    ghost predicate Valid()
      reads this, up, up.store, up.network, ingest, ingest.parser
    {
      && ingest.store == up.store && ingest.Valid()
      && Exec(INITIAL, steps) == State(up.View(), Idle)
      && Inserts(steps) == up.store.deliveries
    }

    ghost function Now(): Moment
      reads this, up, up.store, up.network, ingest, ingest.parser
    {
      Moment(up.View(), ingest.parser.received)
    }

    constructor (cloud: Cloud, batchSize: nat, faults: Faults)
      ensures Valid() && steps == [] && ingest.parser.received == [] && ingest.before == []
      ensures fresh(up) && fresh(up.store) && fresh(up.network) && fresh(ingest) && fresh(ingest.parser)
    {
      var store := new Store();
      var network := new Network(cloud);
      up := new CloudUplinker(store, network, batchSize);
      ingest := new Ingest(store, faults);
      steps := [];
      new;
      NothingStored();
    }

    method OnRead(chunk: seq<byte>)
      requires Valid()
      modifies this`steps, ingest`calls, ingest.parser
      modifies up.store`fixes, up.store`nodes, up.store`deliveries, up.store`nodeEvents
      ensures Valid() && old(steps) <= steps
      ensures ingest.parser.received == old(ingest.parser.received) + chunk
      ensures TurnedAs(old(Now()), Read(chunk), up.batchSize, up.network.cloud, Now())
    {
      hide Exec, Inserts, Storage.Run, Dedup.Stored, AfterAll, Parse, Calls, Effective, InsertSteps;
      ghost var w, ds := up.View(), up.store.deliveries;
      var added := ingest.OnChunk(chunk);
      IngestIsInserts(w, ds, added);
      InsertsOfInsertSteps(added);
      ExecConcat(INITIAL, steps, InsertSteps(added));
      InsertsConcat(steps, InsertSteps(added));
      steps := steps + InsertSteps(added);
    }

    method OnUpload() returns (stats: Stats)
      requires Valid()
      modifies this`steps, up`totalSynced, up.store`fixes, up.store`syncState, up.store`deadLetter, up.network
      ensures Valid() && old(steps) <= steps
      ensures (up.View(), stats) == RunOnce(old(up.View()), up.batchSize, up.network.cloud)
      ensures TurnedAs(old(Now()), Upload, up.batchSize, up.network.cloud, Now())
    {
      hide Exec, Inserts, Storage.Run, Dedup.Stored, RunOnce, RunOnceSteps, Parse, Calls, Effective, Inv;
      ghost var w := up.View();
      ghost var code := RunOnceSteps(w, up.batchSize, up.network.cloud);
      stats := up.RunOnceNow();
      RunOnceIsARun(w, up.batchSize, up.network.cloud);
      RunOnceInsertsNothing(w, up.batchSize, up.network.cloud);
      ExecConcat(INITIAL, steps, code);
      InsertsConcat(steps, code);
      assert Inserts(steps) + [] == Inserts(steps);
      steps := steps + code;
    }

    method OnRestart(faults: Faults)
      requires Valid()
      modifies this`steps, this`ingest, up`totalSynced
      ensures Valid() && old(steps) <= steps && fresh(ingest) && fresh(ingest.parser)
      ensures ingest.parser.received == [] && up.View() == old(up.View())
    {
      hide Exec, Inserts, Storage.Run, Dedup.Stored, NodesAfter, FixesOf, Parse, Calls, Effective;
      CrashAtRest(steps, up.View());
      ingest := new Ingest(up.store, faults);
      up.totalSynced := 0;
      steps := steps + [Crash];
    }

    method OnTurn(turn: Turn)
      requires Valid()
      modifies this`steps, this`ingest, ingest`calls, ingest.parser, up`totalSynced, up.store, up.network
      ensures Valid() && old(steps) <= steps
      ensures ingest == old(ingest) || fresh(ingest)
      ensures ingest.parser == old(ingest.parser) || fresh(ingest.parser)
      ensures TurnedAs(old(Now()), turn, up.batchSize, up.network.cloud, Now())
    {
      hide Exec, Inserts, Storage.Run, Parse, Calls, Effective, RunOnce, CalledAs;
      match turn
      case Read(chunk) =>
        OnRead(chunk);
      case Upload =>
        var stats := OnUpload();
      case Restart(faults) =>
        OnRestart(faults);
    }

    /** Any schedule of the two threads and of restarts, and the moments between the turns. */
    method Run(turns: seq<Turn>) returns (ghost moments: seq<Moment>)
      requires Valid()
      modifies this`steps, this`ingest, ingest`calls, ingest.parser, up`totalSynced, up.store, up.network
      ensures Valid() && old(steps) <= steps
      ensures |moments| == |turns| + 1 && moments[0] == old(Now()) && moments[|turns|] == Now()
      ensures forall i | 0 <= i < |turns| ::
        TurnedAs(moments[i], turns[i], up.batchSize, up.network.cloud, moments[i + 1])
    {
      hide Exec, Inserts, Storage.Run, Parse, Calls, Effective, RunOnce, TurnedAs;
      moments := [Now()];
      for i := 0 to |turns|
        invariant Valid() && old(steps) <= steps
        invariant ingest == old(ingest) || fresh(ingest)
        invariant ingest.parser == old(ingest.parser) || fresh(ingest.parser)
        invariant |moments| == i + 1 && moments[0] == old(Now()) && moments[i] == Now()
        invariant forall j | 0 <= j < i ::
          TurnedAs(moments[j], turns[j], up.batchSize, up.network.cloud, moments[j + 1])
      {
        OnTurn(turns[i]);
        moments := moments + [Now()];
      }
    }
  }

  /** Promised of an UPLINK at offset p of the bytes s, once enough bytes after it have been read. */
  ghost predicate Promised(g: Gateway, s: seq<byte>, p: nat, payload: seq<byte>)
    reads g, g.ingest
    requires |payload| == 38
  {
    FrameAt(s, p, Frame(0x01, payload)) && |s| >= p + 2053 ==>
      var u := DecodeUplink(payload).value;
      || Swallowed(s, p)
      || ArrivesUnlessRaised(g.ingest.before, Calls(Parse(s).frames), g.ingest.faults, u, g.steps)
  }

  /** What the running gateway promises of every frame it has read, whatever the schedule was:
      unless it is swallowed by an earlier frame, its fix was inserted or that insert raised, and
      an inserted fix has arrived. */
  lemma GatewayDelivers(g: Gateway, p: nat, payload: seq<byte>)
    requires g.Valid() && |payload| == 38
    ensures Promised(g, g.ingest.parser.received, p, payload)
  {
    hide Exec, Inserts, Storage.Run, Parse, Calls, Effective, FrameAt, Swallowed, ArrivesUnlessRaised, DecodeUplink;
    var s := g.ingest.parser.received;
    if FrameAt(s, p, Frame(0x01, payload)) && |s| >= p + 2053 {
      FromWireToCloud(g.ingest.before, s, g.ingest.faults, p, payload, g.steps);
    }
  }
}
