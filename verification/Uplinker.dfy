/** CloudUplinker: the code that walks through the protocol's steps. */
module Uplinker {
  import opened Codec
  import opened ExponentialBackoff
  import opened Storage
  import Dedup
  import opened UplinkProtocol

  /** The network and the cloud behind it: the reply to the n-th POST, whatever was posted. */
  type Cloud = (nat, seq<Row>) -> Reply

  // ----- run_once as a function of the durable state -----

  datatype RunStatus = RunIdle | RunOk | RunPartial | RunRetry
  datatype Stats = Stats(fetched: nat, synced: nat, deadLettered: nat, retryable: bool, status: RunStatus)

  datatype Isolation = Isolation(w: World, synced: nat, dead: nat, retryLeft: bool)

  function Accept(w: World, ids: seq<int>): World {
    Bumped(w.(rows := Mark(w.rows, ids)), ids)
  }

  function BuryAlone(w: World, id: int, code: int): World {
    w.(dead := w.dead[id := code], rows := Mark(w.rows, [id]))
  }

  function IsolateOne(before: Isolation, row: Row, cloud: Cloud): Isolation {
    var reply := cloud(|before.w.posts|, [row]);
    var w := Posted(before.w, [row], reply);
    if Accepted(reply) then before.(w := Accept(w, [row.id]), synced := before.synced + 1)
    else if Rejected(reply) then before.(w := BuryAlone(w, row.id, reply.code), dead := before.dead + 1)
    else before.(w := w, retryLeft := true)
  }

  function Isolate(w: World, rows: seq<Row>, cloud: Cloud): Isolation
    decreases |rows|
  {
    if rows == [] then Isolation(w, 0, 0, false)
    else IsolateOne(Isolate(w, rows[..|rows| - 1], cloud), rows[|rows| - 1], cloud)
  }

  lemma NothingIsolated(w: World, cloud: Cloud)
    ensures Isolate(w, [], cloud) == Isolation(w, 0, 0, false)
  {
  }

  lemma NextIsolated(w: World, rows: seq<Row>, i: nat, cloud: Cloud)
    requires i < |rows|
    ensures Isolate(w, rows[..i + 1], cloud) == IsolateOne(Isolate(w, rows[..i], cloud), rows[i], cloud)
  {
    hide IsolateOne;
    assert rows[..i + 1][..i] == rows[..i];
  }

  function RunOnce(w: World, batchSize: nat, cloud: Cloud): (World, Stats) {
    var batch := Take(Pending(w.rows), batchSize);
    var n := |batch|;
    if batch == [] then (w, Stats(0, 0, 0, false, RunIdle))
    else
      var reply := cloud(|w.posts|, batch);
      var posted := Posted(w, batch, reply);
      if Accepted(reply) then (Accept(posted, Ids(batch)), Stats(n, n, 0, false, RunOk))
      else if Rejected(reply) then
        var iso := Isolate(posted, batch, cloud);
        (iso.w, Stats(n, iso.synced, iso.dead, iso.retryLeft, RunPartial))
      else (posted, Stats(n, 0, 0, true, RunRetry))
  }

  // ----- what run_once does, by the status codes alone -----

  /** What becomes of the fixes of a body, by the answer to its POST. */
  datatype Fate = Ingested | Refused | Left

  function FateOf(r: Reply): (fate: Fate)
    ensures fate != Left ==> r.Status?
  {
    if r.NoAnswer? then Left
    else if 200 <= r.code <= 299 then Ingested
    else if 400 <= r.code <= 428 || 430 <= r.code <= 499 then Refused
    else Left
  }

  lemma FateIs(r: Reply)
    ensures FateOf(r) == Ingested <==> Accepted(r)
    ensures FateOf(r) == Refused <==> Rejected(r)
    ensures !Accepted(r) && (r.NoAnswer? || RetryableStatus(r.code) || !RejectStatus(r.code)) <==> FateOf(r) == Left
  {
  }

  /** mark_synced of the ids, and the cursor raised to the largest of them. */
  ghost predicate AcceptedAs(before: World, ids: seq<int>, after: World) {
    && after == before.(rows := after.rows, hwm := after.hwm)
    && |after.rows| == |before.rows|
    && (forall i | 0 <= i < |before.rows| ::
          after.rows[i] == before.rows[i].(synced := before.rows[i].synced || before.rows[i].id in ids))
    && after.hwm >= before.hwm && (forall id | id in ids :: after.hwm >= id)
    && (after.hwm == before.hwm || after.hwm in ids)
  }

  lemma {:induction false} MaxIdIsMax(ids: seq<int>)
    requires ids != []
    ensures MaxId(ids) in ids && forall id | id in ids :: id <= MaxId(ids)
    decreases |ids|
  {
    if |ids| > 1 {
      MaxIdIsMax(ids[..|ids| - 1]);
      assert ids == ids[..|ids| - 1] + [ids[|ids| - 1]];
    } else {
      assert ids == [ids[0]];
    }
  }

  lemma AcceptMeans(w: World, ids: seq<int>)
    ensures AcceptedAs(w, ids, Accept(w, ids))
  {
    if ids != [] {
      MaxIdIsMax(ids);
    }
  }

  /** The answers to the POSTs of the rows one by one. */
  function Answers(w: World, rows: seq<Row>, cloud: Cloud): (replies: seq<Reply>)
    ensures |replies| == |rows|
  {
    seq(|rows|, i requires 0 <= i < |rows| => cloud(|w.posts| + i, [rows[i]]))
  }

  function CountFate(replies: seq<Reply>, fate: Fate): nat
    decreases |replies|
  {
    if replies == [] then 0
    else CountFate(replies[..|replies| - 1], fate) + if FateOf(replies[|replies| - 1]) == fate then 1 else 0
  }

  /** Some POST of the row with this id met this fate. */
  ghost predicate Met(rows: seq<Row>, replies: seq<Reply>, id: int, fate: Fate)
    requires |replies| == |rows|
  {
    exists i :: 0 <= i < |rows| && rows[i].id == id && FateOf(replies[i]) == fate
  }

  /** Isolation by the codes alone: each row is posted alone; those answered 2xx and those answered
      4xx other than 429 leave the queue, the latter into the dead-letter table under their code;
      the others are left. */
  ghost predicate IsolatedAs(before: World, rows: seq<Row>, replies: seq<Reply>, after: Isolation)
    requires |replies| == |rows|
  {
    var w := after.w;
    && |w.posts| == |before.posts| + |rows| && before.posts <= w.posts
    && (forall i | 0 <= i < |rows| :: w.posts[|before.posts| + i] == [rows[i]])
    && after.synced == CountFate(replies, Ingested) && after.dead == CountFate(replies, Refused)
    && (after.retryLeft <==> AnyLeft(replies))
    && |w.rows| == |before.rows|
    && (forall j | 0 <= j < |w.rows| :: LeftQueueAs(before.rows[j], rows, replies, w.rows[j]))
    && (forall id :: id in w.dead <==> id in before.dead || Met(rows, replies, id, Refused))
    && (forall i | 0 <= i < |rows| && FateOf(replies[i]) == Refused && !LaterId(rows, i) ::
          rows[i].id in w.dead && w.dead[rows[i].id] == replies[i].code)
  }

  ghost predicate AnyLeft(replies: seq<Reply>) {
    exists i :: 0 <= i < |replies| && FateOf(replies[i]) == Left
  }

  ghost predicate LaterId(rows: seq<Row>, i: nat)
    requires i < |rows|
  {
    exists k :: i < k < |rows| && rows[k].id == rows[i].id
  }

  ghost predicate LeftQueueAs(before: Row, rows: seq<Row>, replies: seq<Reply>, after: Row)
    requires |replies| == |rows|
  {
    after == before.(synced := before.synced || Met(rows, replies, before.id, Ingested)
                                             || Met(rows, replies, before.id, Refused))
  }

  lemma MetNext(rows: seq<Row>, replies: seq<Reply>, id: int, fate: Fate)
    requires |replies| == |rows| > 0
    ensures var n := |rows| - 1;
      Met(rows, replies, id, fate)
      <==> Met(rows[..n], replies[..n], id, fate) || (rows[n].id == id && FateOf(replies[n]) == fate)
  {
    var n := |rows| - 1;
    if Met(rows, replies, id, fate) {
      var i :| 0 <= i < |rows| && rows[i].id == id && FateOf(replies[i]) == fate;
      if i < n {
        assert rows[..n][i] == rows[i] && replies[..n][i] == replies[i];
      }
    }
    if Met(rows[..n], replies[..n], id, fate) {
      var i :| 0 <= i < n && rows[..n][i].id == id && FateOf(replies[..n][i]) == fate;
      assert rows[i].id == id && FateOf(replies[i]) == fate;
    }
  }

  /** One more row: what IsolateOne does, by the code. */
  lemma IsolateOneMeans(before: Isolation, row: Row, cloud: Cloud)
    ensures var reply, after := cloud(|before.w.posts|, [row]), IsolateOne(before, row, cloud);
      var fate := FateOf(reply);
      && after.w.posts == before.w.posts + [[row]]
      && after.synced == before.synced + (if fate == Ingested then 1 else 0)
      && after.dead == before.dead + (if fate == Refused then 1 else 0)
      && (after.retryLeft <==> before.retryLeft || fate == Left)
      && |after.w.rows| == |before.w.rows|
      && (forall j | 0 <= j < |before.w.rows| ::
            after.w.rows[j] == before.w.rows[j].(synced := before.w.rows[j].synced
                                                           || (before.w.rows[j].id == row.id && fate != Left)))
      && after.w.dead == if fate == Refused then before.w.dead[row.id := reply.code] else before.w.dead
  {
    hide IdSet;
    FateIs(cloud(|before.w.posts|, [row]));
  }

  lemma {:induction false} IsolateMeans(w: World, rows: seq<Row>, cloud: Cloud)
    ensures IsolatedAs(w, rows, Answers(w, rows, cloud), Isolate(w, rows, cloud))
    decreases |rows|
  {
    hide IsolateOne, FateOf, Isolate, IsolatedAs;
    var replies := Answers(w, rows, cloud);
    if rows != [] {
      var n := |rows| - 1;
      IsolateMeans(w, rows[..n], cloud);
      assert Answers(w, rows[..n], cloud) == replies[..n];
      PostsSoFar(w, rows[..n], replies[..n], Isolate(w, rows[..n], cloud));
      IsolateOneMeans(Isolate(w, rows[..n], cloud), rows[n], cloud);
      assert rows[..n + 1] == rows;
      NextIsolated(w, rows, n, cloud);
      IsolatedNext(w, rows, replies, Isolate(w, rows[..n], cloud), Isolate(w, rows, cloud));
    } else {
      NothingIsolated(w, cloud);
      IsolatedNone(w);
    }
  }

  lemma PostsSoFar(w: World, rows: seq<Row>, replies: seq<Reply>, after: Isolation)
    requires |replies| == |rows| && IsolatedAs(w, rows, replies, after)
    ensures |after.w.posts| == |w.posts| + |rows|
  {
  }

  lemma IsolatedNone(w: World)
    ensures IsolatedAs(w, [], [], Isolation(w, 0, 0, false))
  {
  }

  /** The step of the induction, for any two states that differ by the last row. */
  lemma IsolatedNext(w: World, rows: seq<Row>, replies: seq<Reply>, before: Isolation, after: Isolation)
    requires |replies| == |rows| > 0
    requires var n := |rows| - 1; IsolatedAs(w, rows[..n], replies[..n], before)
    requires var row, reply := rows[|rows| - 1], replies[|rows| - 1];
      var fate := FateOf(reply);
      && after.w.posts == before.w.posts + [[row]]
      && after.synced == before.synced + (if fate == Ingested then 1 else 0)
      && after.dead == before.dead + (if fate == Refused then 1 else 0)
      && (after.retryLeft <==> before.retryLeft || fate == Left)
      && |after.w.rows| == |before.w.rows|
      && (forall j | 0 <= j < |before.w.rows| ::
            after.w.rows[j] == before.w.rows[j].(synced := before.w.rows[j].synced
                                                           || (before.w.rows[j].id == row.id && fate != Left)))
      && after.w.dead == if fate == Refused then before.w.dead[row.id := reply.code] else before.w.dead
    ensures IsolatedAs(w, rows, replies, after)
  {
    hide FateOf, Met, AnyLeft, LaterId;
    var n := |rows| - 1;
    forall id, fate
      ensures Met(rows, replies, id, fate)
              <==> Met(rows[..n], replies[..n], id, fate) || (rows[n].id == id && FateOf(replies[n]) == fate)
    {
      MetNext(rows, replies, id, fate);
    }
    forall i | 0 <= i < |rows|
      ensures after.w.posts[|w.posts| + i] == [rows[i]]
    {
      if i < n {
        assert rows[..n][i] == rows[i];
      }
    }
    LeftNext(replies);
    forall j | 0 <= j < |w.rows|
      ensures LeftQueueAs(w.rows[j], rows, replies, after.w.rows[j])
    {
      assert LeftQueueAs(w.rows[j], rows[..n], replies[..n], before.w.rows[j]);
    }
    forall i | 0 <= i < |rows| && FateOf(replies[i]) == Refused && !LaterId(rows, i)
      ensures rows[i].id in after.w.dead && after.w.dead[rows[i].id] == replies[i].code
    {
      if i < n {
        NotLaterBefore(rows, i);
        assert rows[..n][i] == rows[i] && replies[..n][i] == replies[i];
        assert rows[n].id != rows[i].id;
      }
    }
  }

  lemma LeftNext(replies: seq<Reply>)
    requires replies != []
    ensures var n := |replies| - 1; AnyLeft(replies) <==> AnyLeft(replies[..n]) || FateOf(replies[n]) == Left
  {
    hide FateOf;
    var init := replies[..|replies| - 1];
    if AnyLeft(init) {
      var i :| 0 <= i < |init| && FateOf(init[i]) == Left;
      assert FateOf(replies[i]) == Left;
    }
    if AnyLeft(replies) {
      var i :| 0 <= i < |replies| && FateOf(replies[i]) == Left;
      assert i < |init| ==> FateOf(init[i]) == Left;
    }
  }

  lemma NotLaterBefore(rows: seq<Row>, i: nat)
    requires i < |rows| - 1 && !LaterId(rows, i)
    ensures !LaterId(rows[..|rows| - 1], i) && rows[|rows| - 1].id != rows[i].id
  {
    var init := rows[..|rows| - 1];
    assert forall k | i < k < |init| :: init[k].id == rows[k].id != rows[i].id;
  }

  /** One call of run_once by the codes alone.  An empty queue is idle.  Otherwise the oldest rows
      are posted: 200 to 299 accepts them all; 400 to 499 without 429 isolates them; no answer or
      any other code changes no table and reports retry. */
  ghost predicate CalledAs(before: World, b: nat, cloud: Cloud, after: World, stats: Stats) {
    var batch := Take(Pending(before.rows), b);
    var reply := cloud(|before.posts|, batch);
    if batch == [] then after == before && stats == Stats(0, 0, 0, false, RunIdle)
    else
      && stats.fetched == |batch| && |before.posts| < |after.posts| && after.posts[|before.posts|] == batch
      && match FateOf(reply)
         case Ingested =>
           && AcceptedAs(Posted(before, batch, reply), Ids(batch), after)
           && stats == Stats(|batch|, |batch|, 0, false, RunOk)
         case Refused =>
           var posted := Posted(before, batch, reply);
           && stats.status == RunPartial
           && IsolatedAs(posted, batch, Answers(posted, batch, cloud),
                         Isolation(after, stats.synced, stats.deadLettered, stats.retryable))
         case Left =>
           && after.rows == before.rows && after.dead == before.dead && after.hwm == before.hwm
           && stats == Stats(|batch|, 0, 0, true, RunRetry)
  }

  lemma RunOnceMeans(w: World, b: nat, cloud: Cloud)
    ensures var (w', stats) := RunOnce(w, b, cloud); CalledAs(w, b, cloud, w', stats)
  {
    hide Pending, Isolate, Accept, IsolatedAs, AcceptedAs, Answers, IdSet, FateOf;
    var batch := Take(Pending(w.rows), b);
    if batch != [] {
      var reply := cloud(|w.posts|, batch);
      var posted := Posted(w, batch, reply);
      FateIs(reply);
      if Accepted(reply) {
        AcceptMeans(posted, Ids(batch));
        AcceptPostsNothing(posted, Ids(batch));
      } else if Rejected(reply) {
        IsolateMeans(posted, batch, cloud);
        IsolatePostsMore(posted, batch, Answers(posted, batch, cloud), Isolate(posted, batch, cloud));
      }
    }
  }

  lemma AcceptPostsNothing(w: World, ids: seq<int>)
    ensures Accept(w, ids).posts == w.posts
  {
  }

  lemma IsolatePostsMore(w: World, rows: seq<Row>, replies: seq<Reply>, after: Isolation)
    requires |replies| == |rows| && IsolatedAs(w, rows, replies, after)
    ensures w.posts <= after.w.posts
  {
  }

  // ----- the objects -----

  class Network {
    const cloud: Cloud
    var posts: seq<seq<Row>>
    ghost var ingested: set<int>
    ghost var rejected: set<int>

    constructor (cloud: Cloud)
      ensures this.cloud == cloud && posts == [] && ingested == {} && rejected == {}
    {
      this.cloud := cloud;
      posts, ingested, rejected := [], {}, {};
    }

    method HttpPost(body: seq<Row>) returns (reply: Reply)
      modifies this
      ensures reply == cloud(old(|posts|), body)
      ensures posts == old(posts) + [body]
      ensures ingested == old(ingested) + (if Accepted(reply) then IdSet(body) else IdSet(body) * reply.reached)
      ensures rejected == old(rejected) + (if Rejected(reply) && |body| == 1 then IdSet(body) else {})
    {
      reply := cloud(|posts|, body);
      posts := posts + [body];
      ingested := ingested + (if Accepted(reply) then IdSet(body) else IdSet(body) * reply.reached);
      rejected := rejected + (if Rejected(reply) && |body| == 1 then IdSet(body) else {});
    }
  }

  const HWM: string := "uplink_hwm"

  class CloudUplinker {
    const store: Store
    const network: Network
    const batchSize: nat
    var totalSynced: nat
    var slept: seq<real>

    /** The state that the protocol speaks of. */
    ghost function View(): World
      reads store, network
    {
      World(store.fixes, store.deadLetter, store.GetSyncCursor("uplink_hwm", 0), Dedup.Stored(store.deliveries),
            network.ingested, network.rejected, network.posts)
    }

    constructor (store: Store, network: Network, batchSize: nat)
      ensures this.store == store && this.network == network && this.batchSize == batchSize
      ensures totalSynced == 0 && slept == []
    {
      this.store, this.network, this.batchSize := store, network, batchSize;
      totalSynced, slept := 0, [];
    }

    method AcceptIds(ids: seq<int>)
      requires store.Valid()
      modifies this`totalSynced, store`fixes, store`syncState
      ensures store.Valid()
      ensures View() == Accept(old(View()), ids) && AcceptedAs(old(View()), ids, View())
      ensures totalSynced == old(totalSynced) + |ids|
    {
      AcceptMeans(View(), ids);
      store.MarkSynced(ids);
      totalSynced := totalSynced + |ids|;
      if ids == [] {
        // max() of nothing raises, which is swallowed
        return;
      }
      var hwm := MaxId(ids);
      var cur := store.GetSyncCursor(HWM, 0);
      if hwm > cur {
        store.SetSyncCursor(HWM, hwm);
      }
    }

    method IsolatePoison(rows: seq<Row>) returns (synced: nat, dead: nat, retryLeft: bool)
      requires store.Valid()
      modifies this`totalSynced, store`fixes, store`syncState, store`deadLetter, network
      ensures store.Valid()
      ensures Isolation(View(), synced, dead, retryLeft) == Isolate(old(View()), rows, network.cloud)
      ensures IsolatedAs(old(View()), rows, Answers(old(View()), rows, network.cloud),
                         Isolation(View(), synced, dead, retryLeft))
      ensures totalSynced == old(totalSynced) + synced
    {
      hide Mark, Accept, IdSet, Isolate, Bumped, Store.Valid, Dedup.Stored, Inv, Grows, IsolatedAs, AcceptedAs, Answers;
      IsolateMeans(View(), rows, network.cloud);
      ghost var w := View();
      NothingIsolated(w, network.cloud);
      synced, dead, retryLeft := 0, 0, false;
      for i := 0 to |rows|
        invariant store.Valid()
        invariant Isolation(View(), synced, dead, retryLeft) == Isolate(w, rows[..i], network.cloud)
        invariant totalSynced == old(totalSynced) + synced
      {
        var row := rows[i];
        NextIsolated(w, rows, i, network.cloud);
        var reply := network.HttpPost([row]);
        if Accepted(reply) {
          AcceptIds([row.id]);
          synced := synced + 1;
        } else if reply.NoAnswer? || RetryableStatus(reply.code) {
          retryLeft := true;
        } else if RejectStatus(reply.code) {
          store.Quarantine(row.id, reply.code);
          store.MarkSynced([row.id]);
          dead := dead + 1;
        } else {
          retryLeft := true;
        }
      }
      assert rows[..|rows|] == rows;
    }

    /** One batch attempt. */
    method RunOnceNow() returns (stats: Stats)
      requires store.Valid()
      modifies this`totalSynced, store`fixes, store`syncState, store`deadLetter, network
      ensures store.Valid()
      ensures (View(), stats) == RunOnce(old(View()), batchSize, network.cloud)
      ensures CalledAs(old(View()), batchSize, network.cloud, View(), stats)
      ensures old(Inv(State(View(), Idle))) ==> Inv(State(View(), Idle)) && Grows(old(View()), View())
      ensures totalSynced == old(totalSynced) + stats.synced
    {
      hide IsolatedAs, AcceptedAs, Answers, CalledAs, Inv, Grows, Pending, Isolate, IdSet, Dedup.Stored, Store.Valid;
      ghost var w := View();
      RunOnceMeans(w, batchSize, network.cloud);
      if Inv(State(w, Idle)) {
        RunOnceCrashSafe(w, batchSize, network.cloud, 0);
      }
      var rows := store.GetUnsynced(batchSize);
      stats := Stats(|rows|, 0, 0, false, RunIdle);
      if rows == [] {
        return;
      }
      var ids := Ids(rows);
      var reply := network.HttpPost(rows);
      if reply.NoAnswer? {
        stats := stats.(retryable := true, status := RunRetry);
      } else if 200 <= reply.code < 300 {
        AcceptIds(ids);
        stats := stats.(synced := |ids|, status := RunOk);
      } else if RetryableStatus(reply.code) {
        stats := stats.(retryable := true, status := RunRetry);
      } else if RejectStatus(reply.code) {
        var synced, dead, retryLeft := IsolatePoison(rows);
        stats := stats.(synced := synced, deadLettered := dead, retryable := retryLeft, status := RunPartial);
      } else {
        stats := stats.(retryable := true, status := RunRetry);
      }
    }

    /** The driver loop, for any number of iterations; backoff parameters in seconds. */
    method RunLoop(iterations: nat, interval: real, base: real, factor: real, maximum: real)
      returns (ghost worlds: seq<World>, ghost history: seq<Stats>)
      requires store.Valid()
      modifies this`totalSynced, this`slept, store`fixes, store`syncState, store`deadLetter, network
      ensures store.Valid()
      ensures var run := Repeat(old(View()), batchSize, network.cloud, iterations);
        View() == run.0 && slept == old(slept) + Sleeps(run.1, interval, base, factor, maximum)
      ensures |history| == iterations && |worlds| == iterations + 1
      ensures worlds[0] == old(View()) && worlds[iterations] == View()
      ensures forall i | 0 <= i < iterations ::
        CalledAs(worlds[i], batchSize, network.cloud, worlds[i + 1], history[i])
      ensures slept == old(slept) + Sleeps(history, interval, base, factor, maximum)
    {
      hide RunOnce, Sleeps, Backoff, Repeat, CalledAs, Inv, Grows;
      var backoff := base;
      worlds, history := [View()], [];
      NothingYet(View(), batchSize, network.cloud, interval, base, factor, maximum);
      for k := 0 to iterations
        invariant store.Valid()
        invariant (View(), history) == Repeat(old(View()), batchSize, network.cloud, k)
        invariant |history| == k && |worlds| == k + 1 && worlds[0] == old(View()) && worlds[k] == View()
        invariant forall i | 0 <= i < k ::
          CalledAs(worlds[i], batchSize, network.cloud, worlds[i + 1], history[i])
        invariant backoff == Backoff(history, base, factor, maximum)
        invariant slept == old(slept) + Sleeps(history, interval, base, factor, maximum)
      {
        var stats := RunOnceNow();
        OneMoreCall(old(View()), batchSize, network.cloud, k, history, stats, interval, base, factor, maximum);
        worlds, history := worlds + [View()], history + [stats];
        if stats.status == RunRetry {
          slept := slept + [backoff];
          backoff := MinReal(Times(backoff, factor), maximum);
          continue;
        }
        backoff := base;
        if stats.status == RunIdle {
          slept := slept + [interval];
        } else if stats.status == RunPartial && stats.retryable {
          slept := slept + [backoff];
        }
      }
    }
  }

  /** k calls of run_once, and what each reported. */
  function Repeat(w: World, batchSize: nat, cloud: Cloud, k: nat): (World, seq<Stats>) {
    if k == 0 then (w, [])
    else
      var before := Repeat(w, batchSize, cloud, k - 1);
      var call := RunOnce(before.0, batchSize, cloud);
      (call.0, before.1 + [call.1])
  }

  // ----- the sleeps of the driver loop -----

  function Backoff(history: seq<Stats>, base: real, factor: real, maximum: real): real
    decreases |history|
  {
    if history == [] || history[|history| - 1].status != RunRetry then base
    else
      MinReal(Times(Backoff(history[..|history| - 1], base, factor, maximum), factor), maximum)
  }

  /** The sleep after the last call, if there is one. */
  function SleepAfter(history: seq<Stats>, interval: real, base: real, factor: real, maximum: real): seq<real>
    requires history != []
  {
    var last := history[|history| - 1];
    if last.status == RunRetry then [Backoff(history[..|history| - 1], base, factor, maximum)]
    else if last.status == RunIdle then [interval]
    else if last.status == RunPartial && last.retryable then [base]
    else []
  }

  function Sleeps(history: seq<Stats>, interval: real, base: real, factor: real, maximum: real): seq<real>
    decreases |history|
  {
    if history == [] then []
    else Sleeps(history[..|history| - 1], interval, base, factor, maximum)
         + SleepAfter(history, interval, base, factor, maximum)
  }

  /** Among all sleeps, those after the i-th call stand between those after the calls before it and
      those after the calls that follow. */
  lemma {:induction false} SleepsAt(history: seq<Stats>, i: nat, interval: real, base: real, factor: real,
                                    maximum: real)
    requires i < |history|
    ensures var before := Sleeps(history[..i], interval, base, factor, maximum);
      before + SleepAfter(history[..i + 1], interval, base, factor, maximum)
      <= Sleeps(history, interval, base, factor, maximum)
    decreases |history|
  {
    hide SleepAfter;
    var n := |history| - 1;
    if i < n {
      SleepsAt(history[..n], i, interval, base, factor, maximum);
      assert history[..n][..i] == history[..i] && history[..n][..i + 1] == history[..i + 1];
    } else {
      assert history[..i + 1] == history;
    }
  }

  lemma NothingYet(w: World, batchSize: nat, cloud: Cloud, interval: real, base: real, factor: real, maximum: real)
    ensures Repeat(w, batchSize, cloud, 0) == (w, [])
    ensures Backoff([], base, factor, maximum) == base && Sleeps([], interval, base, factor, maximum) == []
  {
  }

  lemma OneMoreCall(w: World, batchSize: nat, cloud: Cloud, k: nat, history: seq<Stats>, stats: Stats,
                    interval: real, base: real, factor: real, maximum: real)
    requires Repeat(w, batchSize, cloud, k).1 == history
    requires RunOnce(Repeat(w, batchSize, cloud, k).0, batchSize, cloud).1 == stats
    ensures Repeat(w, batchSize, cloud, k + 1)
         == (RunOnce(Repeat(w, batchSize, cloud, k).0, batchSize, cloud).0, history + [stats])
    ensures var b := Backoff(history, base, factor, maximum);
      && Backoff(history + [stats], base, factor, maximum)
         == (if stats.status != RunRetry then base else MinReal(Times(b, factor), maximum))
      && Sleeps(history + [stats], interval, base, factor, maximum)
         == Sleeps(history, interval, base, factor, maximum)
            + (if stats.status == RunRetry then [b]
               else if stats.status == RunIdle then [interval]
               else if stats.status == RunPartial && stats.retryable then [base]
               else [])
  {
    hide RunOnce;
    assert (history + [stats])[..|history|] == history;
  }

  /** How many calls at the end of the history were retries. */
  function TrailingRetries(history: seq<Stats>): nat
    decreases |history|
  {
    if history == [] || history[|history| - 1].status != RunRetry then 0
    else 1 + TrailingRetries(history[..|history| - 1])
  }

  /** Exponential backoff in closed form: the retry that follows k consecutive retries sleeps
      base * factor^k, capped at the maximum.  The first one is not capped, so the cap holds
      throughout exactly when base <= maximum. */
  lemma {:induction false} BackoffClosedForm(history: seq<Stats>, base: real, factor: real, maximum: real)
    requires maximum >= 0.0 && factor >= 1.0
    ensures var k := TrailingRetries(history);
      Backoff(history, base, factor, maximum)
      == if k == 0 then base else MinReal(Times(base, Power(factor, k)), maximum)
    decreases |history|
  {
    if history != [] && history[|history| - 1].status == RunRetry {
      var init := history[..|history| - 1];
      BackoffClosedForm(init, base, factor, maximum);
      BackoffStep(Backoff(init, base, factor, maximum), TrailingRetries(init), base, factor, maximum);
    }
  }

  lemma BackoffStep(b: real, k: nat, base: real, factor: real, maximum: real)
    requires maximum >= 0.0 && factor >= 1.0
    requires b == if k == 0 then base else MinReal(Times(base, Power(factor, k)), maximum)
    ensures MinReal(Times(b, factor), maximum) == MinReal(Times(base, Power(factor, k + 1)), maximum)
  {
    Reassociate(base, factor, Power(factor, k));
    if k == 0 {
      assert Power(factor, 0) == 1.0 && Times(factor, 1.0) == factor && Power(factor, 1) == factor;
    } else {
      GrowStep(b, Times(base, Power(factor, k)), factor, maximum);
    }
  }

  /** The sleep of the k-th consecutive retry, counted from 0. */
  lemma RetrySleep(history: seq<Stats>, interval: real, base: real, factor: real, maximum: real)
    requires maximum >= 0.0 && factor >= 1.0 && TrailingRetries(history) > 0
    ensures var k := TrailingRetries(history) - 1;
      SleepAfter(history, interval, base, factor, maximum)
      == [if k == 0 then base else MinReal(Times(base, Power(factor, k)), maximum)]
  {
    hide Backoff, Power;
    BackoffClosedForm(history[..|history| - 1], base, factor, maximum);
  }

  /** What the driver loop sleeps after a call, by the codes: the interval when the queue was empty;
      nothing after a batch was accepted or fully isolated; the base backoff after an isolation that
      left something; and after an outage or any other code, which counts as one more retry, the
      backoff grown by the k retries just before. */
  lemma SleepByCode(w: World, b: nat, cloud: Cloud, history: seq<Stats>,
                    interval: real, base: real, factor: real, maximum: real)
    requires maximum >= 0.0 && factor >= 1.0
    ensures var batch := Take(Pending(w.rows), b);
      var reply, k := cloud(|w.posts|, batch), TrailingRetries(history);
      var h := history + [RunOnce(w, b, cloud).1];
      var slept := SleepAfter(h, interval, base, factor, maximum);
      if batch == [] then slept == [interval] && TrailingRetries(h) == 0
      else
        match FateOf(reply)
        case Ingested => slept == [] && TrailingRetries(h) == 0
        case Refused =>
          && slept == (if AnyLeft(Answers(Posted(w, batch, reply), batch, cloud)) then [base] else [])
          && TrailingRetries(h) == 0
        case Left =>
          && slept == [if k == 0 then base else MinReal(Times(base, Power(factor, k)), maximum)]
          && TrailingRetries(h) == k + 1
  {
    hide Pending, RunOnce, Power, Backoff, IsolatedAs, AcceptedAs, Answers, AnyLeft, Posted, FateOf;
    var batch := Take(Pending(w.rows), b);
    var reply := cloud(|w.posts|, batch);
    var stats := RunOnce(w, b, cloud).1;
    var h := history + [stats];
    assert h[..|h| - 1] == history;
    RunOnceMeans(w, b, cloud);
    BackoffClosedForm(history, base, factor, maximum);
    if batch != [] && FateOf(reply) == Refused {
      var posted := Posted(w, batch, reply);
      RetryableIsLeft(posted, batch, Answers(posted, batch, cloud),
                      Isolation(RunOnce(w, b, cloud).0, stats.synced, stats.deadLettered, stats.retryable));
    }
  }

  lemma RetryableIsLeft(w: World, rows: seq<Row>, replies: seq<Reply>, after: Isolation)
    requires |replies| == |rows| && IsolatedAs(w, rows, replies, after)
    ensures after.retryLeft <==> AnyLeft(replies)
  {
  }

  /** The documented cap: every sleep of the retry sequence is at most the maximum, for every
      history, if and only if base is. */
  lemma CapHoldsIff(base: real, factor: real, maximum: real)
    requires maximum >= 0.0 && factor >= 1.0
    ensures (forall history: seq<Stats> :: Backoff(history, base, factor, maximum) <= maximum) <==> base <= maximum
  {
    hide Times, Power;
    var start: seq<Stats> := [];
    assert Backoff(start, base, factor, maximum) == base;
    if base <= maximum {
      forall history: seq<Stats>
        ensures Backoff(history, base, factor, maximum) <= maximum
      {
        Capped(history, base, factor, maximum);
      }
    } else {
      assert Backoff(start, base, factor, maximum) > maximum;
    }
  }

  lemma Capped(history: seq<Stats>, base: real, factor: real, maximum: real)
    requires maximum >= 0.0 && factor >= 1.0 && base <= maximum
    ensures Backoff(history, base, factor, maximum) <= maximum
  {
    hide Times, Power;
    BackoffClosedForm(history, base, factor, maximum);
  }

  // ----- run_once walks through the protocol -----

  /** Executing more steps. */
  lemma {:induction false} ExecConcat(s: State, a: seq<Step>, b: seq<Step>)
    ensures Exec(s, a + b) == Exec(Exec(s, a), b)
    decreases |b|
  {
    if b == [] {
      assert a + b == a;
    } else {
      assert (a + b)[..|a + b| - 1] == a + b[..|b| - 1];
      ExecConcat(s, a, b[..|b| - 1]);
    }
  }

  lemma ExecNone(s: State)
    ensures Exec(s, []) == s
  {
  }

  lemma ExecOne(s: State, a: Step)
    ensures Exec(s, [a]) == Next(s, a)
  {
    assert [a][..0] == [];
    assert Exec(s, []) == s;
  }

  lemma ExecThree(s: State, a: Step, b: Step, c: Step)
    ensures Exec(s, [a, b, c]) == Next(Next(Next(s, a), b), c)
  {
    ExecOne(s, a);
    ExecOne(Next(s, a), b);
    ExecOne(Next(Next(s, a), b), c);
    ExecConcat(s, [a], [b]);
    ExecConcat(s, [a] + [b], [c]);
    assert [a, b, c] == [a] + [b] + [c];
  }

  /** The steps that one fix costs while a batch is isolated. */
  function IsolateOneSteps(reply: Reply): seq<Step> {
    if Accepted(reply) || Rejected(reply) then [Post(reply), Commit, Commit] else [Post(reply)]
  }

  function IsolateSteps(w: World, rows: seq<Row>, cloud: Cloud): seq<Step>
    decreases |rows|
  {
    if rows == [] then []
    else
      var init, last := rows[..|rows| - 1], rows[|rows| - 1];
      var before := Isolate(w, init, cloud).w;
      IsolateSteps(w, init, cloud) + IsolateOneSteps(cloud(|before.posts|, [last]))
  }

  lemma IsolateOneIsARun(before: Isolation, row: Row, todo: seq<Row>, cloud: Cloud)
    ensures Exec(State(before.w, Isolating([row] + todo)), IsolateOneSteps(cloud(|before.w.posts|, [row])))
         == State(IsolateOne(before, row, cloud).w, Resume(todo))
  {
    hide Exec;
    var reply := cloud(|before.w.posts|, [row]);
    var s := State(before.w, Isolating([row] + todo));
    assert ([row] + todo)[..1] == [row] && ([row] + todo)[1..] == todo;
    if Accepted(reply) || Rejected(reply) {
      ExecThree(s, Post(reply), Commit, Commit);
    } else {
      ExecOne(s, Post(reply));
    }
  }

  lemma {:induction false} IsolateIsARun(w: World, rows: seq<Row>, todo: seq<Row>, cloud: Cloud)
    ensures Exec(State(w, Resume(rows + todo)), IsolateSteps(w, rows, cloud))
         == State(Isolate(w, rows, cloud).w, Resume(todo))
    decreases |rows|
  {
    hide Exec, IsolateOne, IsolateOneSteps;
    if rows == [] {
      assert rows + todo == todo;
      ExecNone(State(w, Resume(todo)));
    } else {
      var init, last := rows[..|rows| - 1], rows[|rows| - 1];
      IsolateIsARun(w, init, [last] + todo, cloud);
      assert rows + todo == init + ([last] + todo);
      var before := Isolate(w, init, cloud);
      var more := IsolateOneSteps(cloud(|before.w.posts|, [last]));
      ExecConcat(State(w, Resume(rows + todo)), IsolateSteps(w, init, cloud), more);
      IsolateOneIsARun(before, last, todo, cloud);
    }
  }

  function RunOnceSteps(w: World, batchSize: nat, cloud: Cloud): seq<Step> {
    var batch := Take(Pending(w.rows), batchSize);
    if batch == [] then []
    else
      var reply := cloud(|w.posts|, batch);
      if Accepted(reply) then [Fetch(batchSize), Post(reply)] + [Commit, Commit]
      else if Rejected(reply) then [Fetch(batchSize), Post(reply)] + IsolateSteps(Posted(w, batch, reply), batch, cloud)
      else [Fetch(batchSize), Post(reply)]
  }

  lemma ExecTwo(s: State, a: Step, b: Step)
    ensures Exec(s, [a, b]) == Next(Next(s, a), b)
  {
    ExecOne(s, a);
    ExecOne(Next(s, a), b);
    ExecConcat(s, [a], [b]);
    assert [a, b] == [a] + [b];
  }

  lemma FetchAndPost(w: World, b: nat, batch: seq<Row>, reply: Reply)
    requires batch == Take(Pending(w.rows), b) != []
    ensures Exec(State(w, Idle), [Fetch(b), Post(reply)])
         == State(Posted(w, batch, reply),
                  if Accepted(reply) then Accepting(Ids(batch), [])
                  else if Rejected(reply) then Resume(batch) else Idle)
  {
    hide Exec, Pending, Posted;
    ExecTwo(State(w, Idle), Fetch(b), Post(reply));
  }

  lemma AcceptIsTwoCommits(w: World, ids: seq<int>)
    ensures Exec(State(w, Accepting(ids, [])), [Commit, Commit]) == State(Accept(w, ids), Idle)
  {
    hide Exec, Mark, Bumped;
    ExecTwo(State(w, Accepting(ids, [])), Commit, Commit);
  }

  /** Refinement: run_once is a run of the protocol from rest to rest, so everything proved of the
      protocol's runs, at every intermediate step and with a crash at any of them, holds of it. */
  lemma RunOnceIsARun(w: World, batchSize: nat, cloud: Cloud)
    ensures Exec(State(w, Idle), RunOnceSteps(w, batchSize, cloud)) == State(RunOnce(w, batchSize, cloud).0, Idle)
  {
    hide Exec, Isolate, IsolateSteps, Accept, Posted, Pending;
    var batch := Take(Pending(w.rows), batchSize);
    var s := State(w, Idle);
    if batch == [] {
      ExecNone(s);
    } else {
      var reply := cloud(|w.posts|, batch);
      var posted := Posted(w, batch, reply);
      FetchAndPost(w, batchSize, batch, reply);
      if Accepted(reply) {
        ExecConcat(s, [Fetch(batchSize), Post(reply)], [Commit, Commit]);
        AcceptIsTwoCommits(posted, Ids(batch));
      } else if Rejected(reply) {
        ExecConcat(s, [Fetch(batchSize), Post(reply)], IsolateSteps(posted, batch, cloud));
        assert batch + [] == batch;
        IsolateIsARun(posted, batch, [], cloud);
      }
    }
  }

  /** Zero loss for the code itself: it holds at the end of run_once, and after a crash before any
      of its commits, from any state in which the invariant holds. */
  lemma RunOnceCrashSafe(w: World, batchSize: nat, cloud: Cloud, cut: nat)
    requires Inv(State(w, Idle)) && cut <= |RunOnceSteps(w, batchSize, cloud)|
    ensures var crashed := Exec(State(w, Idle), RunOnceSteps(w, batchSize, cloud)[..cut] + [Crash]);
      Inv(crashed) && Grows(w, crashed.w) && crashed.pc == Idle
    ensures Inv(State(RunOnce(w, batchSize, cloud).0, Idle)) && Grows(w, RunOnce(w, batchSize, cloud).0)
  {
    hide RunOnce;
    var s, steps := State(w, Idle), RunOnceSteps(w, batchSize, cloud);
    InvHolds(s, steps[..cut] + [Crash]);
    RunsGrow(s, steps[..cut] + [Crash]);
    ExecConcat(s, steps[..cut], [Crash]);
    ExecOne(Exec(s, steps[..cut]), Crash);
    RunOnceIsARun(w, batchSize, cloud);
    InvHolds(s, steps);
    RunsGrow(s, steps);
  }

  // ----- inserts between the steps of run_once -----

  function CodeOf(steps: seq<Step>): seq<Step>
    decreases |steps|
  {
    if steps == [] then []
    else
      var last := steps[|steps| - 1];
      CodeOf(steps[..|steps| - 1]) + if last.Insert? then [] else [last]
  }

  function InsertsOf(steps: seq<Step>): seq<Step>
    decreases |steps|
  {
    if steps == [] then []
    else
      var last := steps[|steps| - 1];
      InsertsOf(steps[..|steps| - 1]) + if last.Insert? then [last] else []
  }

  ghost predicate OnlyInserts(steps: seq<Step>) {
    forall st | st in steps :: st.Insert?
  }

  /** The steps that look at the table only through what they hold already. */
  ghost predicate PostsAndCommits(steps: seq<Step>) {
    forall st | st in steps :: st.Post? || st.Commit?
  }

  /** Marking old rows and appending a new one do not interfere. */
  lemma MarkBesideInsert(rows: seq<Row>, ids: seq<int>, u: Uplink)
    requires TableOk(rows) && forall id | id in ids :: 1 <= id <= |rows|
    ensures Mark(AfterInsert(rows, u), ids) == AfterInsert(Mark(rows, ids), u)
    ensures IsNew(Mark(rows, ids), u) == IsNew(rows, u)
  {
    hide FindSlot;
    var marked := Mark(rows, ids);
    SlotIgnoresSynced(marked, rows, u.nodeId, u.sequence);
    assert NextId(marked) == NextId(rows) == |rows| + 1;
    var slot := FindSlot(rows, u.nodeId, u.sequence);
    if IsNew(rows, u) {
      var retired := Retire(rows, slot);
      assert Mark(retired, ids) == Retire(marked, slot);
      assert Mark(retired + [NewRow(NextId(rows), u)], ids) == Mark(retired, ids) + [NewRow(NextId(rows), u)];
    }
  }

  lemma InsertBesidePost(s: State, u: Uplink, reply: Reply)
    ensures Next(Next(s, Insert(u)), Post(reply)) == Next(Next(s, Post(reply)), Insert(u))
  {
    hide AfterInsert, IsNew, IdSet;
  }

  lemma InsertBesideCommit(s: State, u: Uplink)
    requires Inv(s)
    ensures Next(Next(s, Insert(u)), Commit) == Next(Next(s, Commit), Insert(u))
  {
    hide AfterInsert, IsNew, Mark, ZeroLoss, OnlyPoisonIsDead, PostsAreCopies;
    match s.pc
    case Accepting(ids, todo) => MarkBesideInsert(s.w.rows, ids, u);
    case Removing(id, todo) => MarkBesideInsert(s.w.rows, [id], u);
    case _ =>
  }

  /** A post or commit may be moved before any inserts. */
  lemma {:induction false} BeforeInserts(s: State, inserts: seq<Step>, step: Step)
    requires Inv(s) && OnlyInserts(inserts) && (step.Post? || step.Commit?)
    ensures Next(Exec(s, inserts), step) == Exec(Next(s, step), inserts)
    decreases |inserts|
  {
    hide Next, Inv;
    if inserts != [] {
      var init, last := inserts[..|inserts| - 1], inserts[|inserts| - 1];
      assert forall st | st in init :: st in inserts;
      BeforeInserts(s, init, step);
      InvHolds(s, init);
      assert last in inserts;
      if step.Post? {
        InsertBesidePost(Exec(s, init), last.u, step.reply);
      } else {
        InsertBesideCommit(Exec(s, init), last.u);
      }
    }
  }

  lemma {:induction false} InsertsAreInserts(steps: seq<Step>)
    ensures OnlyInserts(InsertsOf(steps))
    decreases |steps|
  {
    if steps != [] {
      InsertsAreInserts(steps[..|steps| - 1]);
    }
  }

  /** Posts and commits with inserts woven in come to the same as the inserts after them all. */
  lemma {:induction false} InsertsLast(s: State, steps: seq<Step>)
    requires Inv(s) && PostsAndCommits(CodeOf(steps))
    ensures Exec(s, steps) == Exec(Exec(s, CodeOf(steps)), InsertsOf(steps))
    decreases |steps|
  {
    hide Next, Inv;
    if steps != [] {
      var init, last := steps[..|steps| - 1], steps[|steps| - 1];
      assert forall st | st in CodeOf(init) :: st in CodeOf(steps);
      InsertsLast(s, init);
      if last.Insert? {
        assert CodeOf(steps) == CodeOf(init);
        assert InsertsOf(steps)[..|InsertsOf(init)|] == InsertsOf(init);
      } else {
        assert InsertsOf(steps) == InsertsOf(init);
        assert CodeOf(steps) == CodeOf(init) + [last] && last in CodeOf(steps);
        assert CodeOf(steps)[..|CodeOf(init)|] == CodeOf(init);
        InvHolds(s, CodeOf(init));
        InsertsAreInserts(init);
        BeforeInserts(Exec(s, CodeOf(init)), InsertsOf(init), last);
      }
    }
  }

  lemma {:induction false} WovenConcat(a: seq<Step>, b: seq<Step>)
    ensures CodeOf(a + b) == CodeOf(a) + CodeOf(b) && InsertsOf(a + b) == InsertsOf(a) + InsertsOf(b)
    decreases |b|
  {
    if b == [] {
      assert a + b == a;
    } else {
      assert (a + b)[..|a + b| - 1] == a + b[..|b| - 1];
      WovenConcat(a, b[..|b| - 1]);
    }
  }

  lemma {:induction false} IsolateStepsShape(w: World, rows: seq<Row>, cloud: Cloud)
    ensures PostsAndCommits(IsolateSteps(w, rows, cloud))
    decreases |rows|
  {
    hide Isolate;
    if rows != [] {
      IsolateStepsShape(w, rows[..|rows| - 1], cloud);
    }
  }

  lemma RunOnceStepsShape(w: World, batchSize: nat, cloud: Cloud)
    ensures var steps := RunOnceSteps(w, batchSize, cloud);
      steps == [] || (steps[0] == Fetch(batchSize) && PostsAndCommits(steps[1..]))
  {
    hide Pending, Posted, IsolateSteps;
    var batch := Take(Pending(w.rows), batchSize);
    if batch != [] {
      var reply := cloud(|w.posts|, batch);
      IsolateStepsShape(Posted(w, batch, reply), batch, cloud);
    }
  }

  lemma {:induction false} OnlyWoven(steps: seq<Step>)
    requires CodeOf(steps) == []
    ensures InsertsOf(steps) == steps
    decreases |steps|
  {
    if steps != [] {
      OnlyWoven(steps[..|steps| - 1]);
    }
  }

  /** The reader thread inserts while run_once is under way.  However its inserts are woven into
      the statements of run_once after the fetch, the outcome is that of run_once undisturbed,
      followed by the inserts in their order: run_once takes effect at its fetch. */
  lemma RunOnceIsLinearizable(w: World, batchSize: nat, cloud: Cloud, steps: seq<Step>)
    requires Inv(State(w, Idle)) && CodeOf(steps) == RunOnceSteps(w, batchSize, cloud)
    requires CodeOf(steps) != [] ==> !steps[0].Insert?
    ensures Exec(State(w, Idle), steps) == Exec(State(RunOnce(w, batchSize, cloud).0, Idle), InsertsOf(steps))
  {
    hide Exec, Next, Inv, RunOnce, RunOnceSteps, CodeOf, InsertsOf;
    var s := State(w, Idle);
    RunOnceIsARun(w, batchSize, cloud);
    RunOnceStepsShape(w, batchSize, cloud);
    if CodeOf(steps) == [] {
      ExecNone(s);
      OnlyWoven(steps);
    } else {
      NothingWoven();
      FirstOfWoven(steps);
      var first, rest := steps[0], steps[1..];
      var s' := Exec(s, [first]);
      InvHolds(s, [first]);
      InsertsLast(s', rest);
      ExecConcat(s, [first], rest);
      ExecConcat(s, [first], CodeOf(rest));
      assert CodeOf(steps)[1..] == CodeOf(rest);
    }
  }

  lemma NothingWoven()
    ensures CodeOf([]) == []
  {
  }

  lemma FirstOfWoven(steps: seq<Step>)
    requires steps != [] && !steps[0].Insert?
    ensures steps == [steps[0]] + steps[1..]
    ensures CodeOf(steps) == [steps[0]] + CodeOf(steps[1..]) && InsertsOf(steps) == InsertsOf(steps[1..])
  {
    var first := [steps[0]];
    assert steps == first + steps[1..];
    WovenConcat(first, steps[1..]);
    assert first[..0] == [];
  }
}
