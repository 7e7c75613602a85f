/** How many calls of run_once empty the queue. */
module Drain {
  import opened Bytes
  import opened Codec
  import opened Storage
  import opened UplinkProtocol
  import opened Uplinker

  ghost predicate HasPoison(body: seq<Row>, poison: set<int>) {
    exists r :: r in body && r.id in poison
  }

  /** A cloud that, apart from transient failures at the POSTs that fails picks out, rejects
      exactly the bodies that contain a poison fix and accepts all others. */
  ghost predicate Honest(cloud: Cloud, poison: set<int>, fails: nat -> bool) {
    forall n, body :: var reply := cloud(n, body);
      if fails(n) then !Accepted(reply) && !Rejected(reply)
      else if HasPoison(body, poison) then Rejected(reply)
      else Accepted(reply)
  }

  /** Transient failures among the POSTs lo, ..., hi - 1. */
  function Count(fails: nat -> bool, lo: nat, hi: nat): nat
    requires lo <= hi
    decreases hi
  {
    if lo == hi then 0 else Count(fails, lo, hi - 1) + if fails(hi - 1) then 1 else 0
  }

  /** From POST lo on there are at most t transient failures in total. */
  ghost predicate AtMost(fails: nat -> bool, lo: nat, t: nat) {
    forall hi | lo <= hi :: Count(fails, lo, hi) <= t
  }

  lemma {:induction false} CountSplits(fails: nat -> bool, lo: nat, mid: nat, hi: nat)
    requires lo <= mid <= hi
    ensures Count(fails, lo, hi) == Count(fails, lo, mid) + Count(fails, mid, hi)
    decreases hi
  {
    if mid < hi {
      CountSplits(fails, lo, mid, hi - 1);
    }
  }

  /** What has been used up of the failures is no longer to come. */
  lemma AtMostLater(fails: nat -> bool, lo: nat, mid: nat, t: nat)
    requires lo <= mid && AtMost(fails, lo, t)
    ensures Count(fails, lo, mid) <= t
    ensures AtMost(fails, mid, t - Count(fails, lo, mid))
  {
    assert Count(fails, lo, mid) <= t;
    forall hi | mid <= hi
      ensures Count(fails, mid, hi) <= t - Count(fails, lo, mid)
    {
      CountSplits(fails, lo, mid, hi);
      assert Count(fails, lo, hi) <= t;
    }
  }

  /** How many batches of size b hold n rows. */
  function Batches(n: nat, b: nat): nat
    requires b > 0
  {
    if n == 0 then 0 else 1 + Batches(if n < b then 0 else n - b, b)
  }

  lemma {:induction false} BatchesGrowSlowly(n: nat, k: nat, b: nat)
    requires b > 0
    ensures Batches(n + k, b) <= Batches(n, b) + k
    decreases k, n
  {
    if k == 1 {
      if n >= b {
        BatchesGrowSlowly(n - b, 1, b);
      }
    } else if k > 1 {
      BatchesGrowSlowly(n, k - 1, b);
      BatchesGrowSlowly(n + k - 1, 1, b);
    }
  }

  /** It is n / b, rounded up. */
  lemma {:induction false} BatchesIsCeiling(n: nat, b: nat)
    requires b > 0
    ensures Batches(n, b) == (n + b - 1) / b
    decreases n
  {
    if n == 0 {
      QuotientIs(b - 1, b, 0);
    } else if n <= b {
      QuotientIs(n + b - 1, b, 1);
      assert Batches(n, b) == 1 + Batches(0, b);
    } else {
      BatchesIsCeiling(n - b, b);
      var q := (n - b + b - 1) / b;
      QuotientOf(n - 1, b);
      QuotientIs(n + b - 1, b, q + 1);
    }
  }

  lemma QuotientOf(x: nat, b: nat)
    requires b > 0
    ensures b * (x / b) <= x < b * (x / b) + b
  {
  }

  lemma QuotientIs(x: nat, b: nat, q: nat)
    requires b > 0 && b * q <= x < b * q + b
    ensures x / b == q
  {
    QuotientOf(x, b);
    var d := x / b - q;
    assert b * d == b * (x / b) - b * q;
    MulAtLeast(b, d);
  }

  // ----- the queue as a set of ids -----

  function Queue(rows: seq<Row>): set<int> {
    set i | 0 <= i < |rows| && !rows[i].synced :: i + 1
  }

  function ToSet(ids: seq<int>): set<int> {
    set id | id in ids
  }

  predicate Distinct(ids: seq<int>) {
    forall i, j | 0 <= i < j < |ids| :: ids[i] != ids[j]
  }

  lemma {:induction false} DistinctCard(ids: seq<int>)
    requires Distinct(ids)
    ensures |ToSet(ids)| == |ids|
    decreases |ids|
  {
    if ids != [] {
      var init, last := ids[..|ids| - 1], ids[|ids| - 1];
      DistinctCard(init);
      assert ids == init + [last];
      assert ToSet(ids) == ToSet(init) + {last};
    }
  }

  lemma MarkedQueue(rows: seq<Row>, ids: seq<int>)
    requires TableOk(rows)
    ensures Queue(Mark(rows, ids)) == Queue(rows) - ToSet(ids)
  {
    var marked := Mark(rows, ids);
    assert forall i | 0 <= i < |rows| :: marked[i].synced <==> rows[i].synced || i + 1 in ids;
  }

  lemma {:induction false} PendingIsQueue(rows: seq<Row>)
    requires forall i | 0 <= i < |rows| :: rows[i].id == i + 1
    ensures var ids := Ids(Pending(rows));
      Distinct(ids) && ToSet(ids) == Queue(rows) && forall id | id in ids :: 1 <= id <= |rows|
    decreases |rows|
  {
    if rows != [] {
      var n := |rows| - 1;
      var init, last := rows[..n], rows[n];
      PendingIsQueue(init);
      assert Queue(rows) == Queue(init) + if last.synced then {} else {last.id};
      var ids, before := Ids(Pending(rows)), Ids(Pending(init));
      assert ids == before + if last.synced then [] else [last.id];
    }
  }

  lemma BatchOfQueue(rows: seq<Row>, b: nat)
    requires TableOk(rows)
    ensures var ids := Ids(Take(Pending(rows), b)); Distinct(ids) && ToSet(ids) <= Queue(rows)
    ensures |Pending(rows)| == |Queue(rows)|
    ensures Queue(rows) == {} <==> Pending(rows) == []
  {
    var all := Ids(Pending(rows));
    PendingIsQueue(rows);
    DistinctCard(all);
    var ids := Ids(Take(Pending(rows), b));
    assert ids == all[..|ids|];
  }

  lemma SubsetCard(a: set<int>, b: set<int>)
    requires a <= b
    ensures |b - a| == |b| - |a|
  {
    assert b == (b - a) + a;
  }

  /** What happened to the rows that left the queue between two states. */
  ghost predicate Settled(w: World, w': World, poison: set<int>) {
    var left := Queue(w.rows) - Queue(w'.rows);
    && Queue(w'.rows) <= Queue(w.rows)
    && w.ingested <= w'.ingested
    && left - poison <= w'.ingested
    && w'.dead.Keys == w.dead.Keys + left * poison
  }

  lemma SettledReflexive(w: World, poison: set<int>)
    ensures Settled(w, w, poison) && Queue(w.rows) - Queue(w.rows) == {}
  {
    hide Queue;
    var none: set<int> := {};
    assert Queue(w.rows) - Queue(w.rows) == none && none * poison == none;
  }

  lemma SettledTransitive(a: World, b: World, c: World, poison: set<int>)
    requires Settled(a, b, poison) && Settled(b, c, poison)
    ensures Settled(a, c, poison)
  {
    var left := Queue(a.rows) - Queue(c.rows);
    assert left == (Queue(a.rows) - Queue(b.rows)) + (Queue(b.rows) - Queue(c.rows));
  }

  lemma AcceptSettles(w: World, ids: seq<int>, poison: set<int>)
    requires TableOk(w.rows) && ToSet(ids) <= Queue(w.rows) && Distinct(ids)
    requires ToSet(ids) <= w.ingested && ToSet(ids) !! poison
    ensures var w' := Accept(w, ids);
      && TableOk(w'.rows) && w'.posts == w.posts
      && Queue(w'.rows) == Queue(w.rows) - ToSet(ids) && |Queue(w'.rows)| == |Queue(w.rows)| - |ids|
      && Settled(w, w', poison)
  {
    MarkKeepsTable(w.rows, ids);
    MarkedQueue(w.rows, ids);
    DistinctCard(ids);
    SubsetCard(ToSet(ids), Queue(w.rows));
  }

  lemma BurySettles(w: World, id: int, code: int, poison: set<int>)
    requires TableOk(w.rows) && id in Queue(w.rows) && id in poison
    ensures var w' := BuryAlone(w, id, code);
      && TableOk(w'.rows) && w'.posts == w.posts
      && Queue(w'.rows) == Queue(w.rows) - {id} && |Queue(w'.rows)| == |Queue(w.rows)| - 1
      && Settled(w, w', poison)
  {
    MarkKeepsTable(w.rows, [id]);
    MarkedQueue(w.rows, [id]);
    assert ToSet([id]) == {id};
  }

  // ----- what the stats say -----

  lemma IsolateOneCounts(before: Isolation, row: Row, cloud: Cloud)
    requires TableOk(before.w.rows) && row.id in Queue(before.w.rows)
    ensures var w, after := before.w, IsolateOne(before, row, cloud);
      var settled := after.synced + after.dead - before.synced - before.dead;
      && TableOk(after.w.rows)
      && |Queue(after.w.rows)| == |Queue(w.rows)| - settled
      && Queue(w.rows) - Queue(after.w.rows) <= {row.id}
      && (settled == 1 || (settled == 0 && after.retryLeft))
      && (settled == 1 ==> after.retryLeft == before.retryLeft)
  {
    hide Mark, Queue, Bumped, Accept, BuryAlone;
    var reply := cloud(|before.w.posts|, [row]);
    var w := Posted(before.w, [row], reply);
    SingleBody(before.w, row, reply, {});
    if Accepted(reply) {
      AcceptSettles(w, [row.id], {});
    } else if Rejected(reply) {
      BurySettles(w, row.id, reply.code, {row.id});
    }
  }

  lemma {:induction false} IsolateCounts(w: World, rows: seq<Row>, cloud: Cloud)
    requires TableOk(w.rows) && Distinct(Ids(rows)) && ToSet(Ids(rows)) <= Queue(w.rows)
    ensures var iso := Isolate(w, rows, cloud);
      && TableOk(iso.w.rows)
      && |Queue(iso.w.rows)| == |Queue(w.rows)| - iso.synced - iso.dead
      && Queue(w.rows) - Queue(iso.w.rows) <= ToSet(Ids(rows))
      && iso.synced + iso.dead <= |rows|
      && (iso.retryLeft <==> iso.synced + iso.dead < |rows|)
    decreases |rows|
  {
    hide Queue, Mark, IsolateOne;
    if rows != [] {
      var n := |rows| - 1;
      var init, row := rows[..n], rows[n];
      var ids := Ids(rows);
      assert Ids(init) == ids[..n] && ids == ids[..n] + [row.id];
      assert row.id !in Ids(init) by {
        assert forall i | 0 <= i < n :: Ids(init)[i] == ids[i] != ids[n];
      }
      assert row.id in ToSet(ids) && ToSet(Ids(init)) <= ToSet(ids);
      IsolateCounts(w, init, cloud);
      var before := Isolate(w, init, cloud);
      assert row.id in Queue(w.rows) && row.id !in ToSet(Ids(init));
      IsolateOneCounts(before, row, cloud);
      var after := IsolateOne(before, row, cloud);
      StillWithin(Queue(w.rows), Queue(before.w.rows), Queue(after.w.rows), ToSet(ids), row.id);
    }
  }

  /** The stats tell the truth, whatever the cloud does: the queue shrinks by exactly the fixes
      reported synced or dead-lettered, a call that reports retry has changed no table, and
      retryable says whether any of the batch is left. */
  lemma StatsAreTrue(w: World, b: nat, cloud: Cloud)
    requires TableOk(w.rows)
    ensures var (w', stats) := RunOnce(w, b, cloud);
      && stats.fetched == Min(b, |Pending(w.rows)|)
      && |Pending(w'.rows)| == |Pending(w.rows)| - stats.synced - stats.deadLettered
      && (stats.status == RunRetry ==> w'.rows == w.rows && w'.dead == w.dead && w'.hwm == w.hwm)
      && (stats.retryable <==> stats.synced + stats.deadLettered < stats.fetched)
  {
    hide Pending, Mark, Queue, Isolate, Accept;
    var batch := Take(Pending(w.rows), b);
    BatchOfQueue(w.rows, b);
    if batch != [] {
      var reply := cloud(|w.posts|, batch);
      var posted := Posted(w, batch, reply);
      if Accepted(reply) {
        forall id
          ensures id in Ids(batch) <==> id in IdSet(batch)
        {
          IdsAreTheSet(batch, id);
        }
        AcceptSettles(posted, Ids(batch), {});
        BatchOfQueue(Accept(posted, Ids(batch)).rows, b);
      } else if Rejected(reply) {
        IsolateCounts(posted, batch, cloud);
        BatchOfQueue(Isolate(posted, batch, cloud).w.rows, b);
      }
    }
  }

  // ----- one call -----

  /** Isolation settles every fix of the batch except those whose own POST failed transiently. */
  lemma {:induction false} IsolateSettles(w: World, rows: seq<Row>, cloud: Cloud, poison: set<int>, fails: nat -> bool)
    requires TableOk(w.rows) && Honest(cloud, poison, fails)
    requires Distinct(Ids(rows)) && ToSet(Ids(rows)) <= Queue(w.rows)
    ensures var w' := Isolate(w, rows, cloud).w;
      && TableOk(w'.rows) && |w'.posts| == |w.posts| + |rows|
      && |Queue(w'.rows)| == |Queue(w.rows)| - |rows| + Count(fails, |w.posts|, |w.posts| + |rows|)
      && Queue(w.rows) - Queue(w'.rows) <= ToSet(Ids(rows))
      && Settled(w, w', poison)
    decreases |rows|
  {
    hide Queue, Mark, Honest, IsolateOne;
    if rows != [] {
      var n := |rows| - 1;
      var init, row := rows[..n], rows[n];
      var ids := Ids(rows);
      assert Ids(init) == ids[..n] && ids == ids[..n] + [row.id];
      assert row.id !in Ids(init) by {
        assert forall i | 0 <= i < n :: Ids(init)[i] == ids[i] != ids[n];
      }
      assert row.id in ToSet(ids) && ToSet(Ids(init)) <= ToSet(ids);
      IsolateSettles(w, init, cloud, poison, fails);
      var before := Isolate(w, init, cloud);
      assert row.id in Queue(w.rows) && row.id !in ToSet(Ids(init));
      IsolateOneSettles(before, row, cloud, poison, fails);
      var after := IsolateOne(before, row, cloud);
      assert |before.w.posts| == |w.posts| + n;
      SettledTransitive(w, before.w, after.w, poison);
      StillWithin(Queue(w.rows), Queue(before.w.rows), Queue(after.w.rows), ToSet(ids), row.id);
    } else {
      SettledReflexive(w, poison);
      assert Count(fails, |w.posts|, |w.posts|) == 0;
    }
  }

  lemma StillWithin(a: set<int>, b: set<int>, c: set<int>, all: set<int>, id: int)
    requires a - b <= all && b - c <= {id} && id in all
    ensures a - c <= all
  {
    assert a - c <= (a - b) + (b - c);
  }

  /** A POST of one fix changes nothing in the tables. */
  lemma SingleBody(w: World, row: Row, reply: Reply, poison: set<int>)
    ensures HasPoison([row], poison) <==> row.id in poison
    ensures ToSet([row.id]) == {row.id}
    ensures Accepted(reply) ==> row.id in Posted(w, [row], reply).ingested
    ensures Settled(w, Posted(w, [row], reply), poison)
  {
    hide Queue;
    assert row in [row] && row.id in [row.id];
    assert row.id in IdSet([row]);
    SettledReflexive(w, poison);
  }

  lemma IsolateOneSettles(before: Isolation, row: Row, cloud: Cloud, poison: set<int>, fails: nat -> bool)
    requires TableOk(before.w.rows) && Honest(cloud, poison, fails) && row.id in Queue(before.w.rows)
    ensures var w, w' := before.w, IsolateOne(before, row, cloud).w;
      && TableOk(w'.rows) && |w'.posts| == |w.posts| + 1
      && |Queue(w'.rows)| == |Queue(w.rows)| - (if fails(|w.posts|) then 0 else 1)
      && Queue(w.rows) - Queue(w'.rows) <= {row.id}
      && Settled(w, w', poison)
  {
    hide Mark, Queue, Bumped, HasPoison, Accept, BuryAlone, Settled;
    var n := |before.w.posts|;
    var reply := cloud(n, [row]);
    var w := Posted(before.w, [row], reply);
    SingleBody(before.w, row, reply, poison);
    assert HasPoison([row], poison) <==> row.id in poison;
    if Accepted(reply) {
      AcceptSettles(w, [row.id], poison);
      SettledTransitive(before.w, w, Accept(w, [row.id]), poison);
    } else if Rejected(reply) {
      BurySettles(w, row.id, reply.code, poison);
      SettledTransitive(before.w, w, BuryAlone(w, row.id, reply.code), poison);
    }
  }

  /** What one call owes: it leaves the table in order, settles what it takes off the queue, and
      uses up a batch or transient failures. */
  ghost predicate Paid(w: World, w': World, b: nat, poison: set<int>, fails: nat -> bool, t: nat, t': nat)
    requires b > 0
  {
    && TableOk(w'.rows) && AtMost(fails, |w'.posts|, t') && Settled(w, w', poison)
    && Batches(|Queue(w'.rows)|, b) + t' < Batches(|Queue(w.rows)|, b) + t
  }

  lemma FailedCall(w: World, w': World, b: nat, poison: set<int>, fails: nat -> bool, t: nat)
    requires TableOk(w.rows) && b > 0 && AtMost(fails, |w.posts|, t) && fails(|w.posts|)
    requires w'.rows == w.rows && w'.dead == w.dead && w.ingested <= w'.ingested && |w'.posts| == |w.posts| + 1
    ensures t > 0 && Paid(w, w', b, poison, fails, t, t - 1)
  {
    var p := |w.posts|;
    assert Count(fails, p, p) == 0;
    AtMostLater(fails, p, p + 1, t);
  }

  lemma AcceptedCall(w: World, posted: World, batch: seq<Row>, b: nat, poison: set<int>, fails: nat -> bool, t: nat)
    requires TableOk(w.rows) && b > 0 && AtMost(fails, |w.posts|, t) && !fails(|w.posts|)
    requires batch == Take(Pending(w.rows), b) != [] && !HasPoison(batch, poison)
    requires posted == w.(posts := posted.posts, ingested := w.ingested + IdSet(batch))
    requires |posted.posts| == |w.posts| + 1
    ensures Paid(w, Accept(posted, Ids(batch)), b, poison, fails, t, t)
  {
    hide Pending, Mark, Queue;
    var p := |w.posts|;
    assert Count(fails, p, p) == 0;
    AtMostLater(fails, p, p + 1, t);
    BatchOfQueue(w.rows, b);
    BatchIsClean(batch, poison);
    AcceptSettles(posted, Ids(batch), poison);
  }

  lemma IsolatedCall(w: World, posted: World, batch: seq<Row>, b: nat, cloud: Cloud, poison: set<int>,
                     fails: nat -> bool, t: nat) returns (t': nat)
    requires TableOk(w.rows) && b > 0 && Honest(cloud, poison, fails)
    requires AtMost(fails, |w.posts|, t) && !fails(|w.posts|)
    requires batch == Take(Pending(w.rows), b) != []
    requires posted.rows == w.rows && posted.dead == w.dead && w.ingested <= posted.ingested
    requires |posted.posts| == |w.posts| + 1
    ensures Paid(w, Isolate(posted, batch, cloud).w, b, poison, fails, t, t')
  {
    hide Pending, Mark, Queue, Isolate;
    var p, m := |w.posts|, |batch|;
    assert Count(fails, p, p) == 0;
    AtMostLater(fails, p, p + 1 + m, t);
    CountSplits(fails, p, p + 1, p + 1 + m);
    CountBound(fails, p + 1, p + 1 + m);
    var c := Count(fails, p + 1, p + 1 + m);
    t' := t - c;
    BatchOfQueue(w.rows, b);
    IsolateSettles(posted, batch, cloud, poison, fails);
    IsolationPays(|Queue(w.rows)|, m, c, b);
  }

  lemma CallProgress(w: World, b: nat, cloud: Cloud, poison: set<int>, fails: nat -> bool, t: nat) returns (t': nat)
    requires TableOk(w.rows) && b > 0 && Honest(cloud, poison, fails) && AtMost(fails, |w.posts|, t)
    requires Pending(w.rows) != []
    ensures Paid(w, RunOnce(w, b, cloud).0, b, poison, fails, t, t')
  {
    hide Isolate, Accept, Pending, Paid, AtMost;
    var batch := Take(Pending(w.rows), b);
    var reply := cloud(|w.posts|, batch);
    var posted := Posted(w, batch, reply);
    if fails(|w.posts|) {
      FailedCall(w, posted, b, poison, fails, t);
      t' := t - 1;
    } else if HasPoison(batch, poison) {
      t' := IsolatedCall(w, posted, batch, b, cloud, poison, fails, t);
    } else {
      AcceptedCall(w, posted, batch, b, poison, fails, t);
      t' := t;
    }
  }

  lemma BatchIsClean(batch: seq<Row>, poison: set<int>)
    requires !HasPoison(batch, poison)
    ensures ToSet(Ids(batch)) == IdSet(batch) && IdSet(batch) !! poison
  {
    forall id
      ensures id in Ids(batch) <==> id in IdSet(batch)
    {
      IdsAreTheSet(batch, id);
    }
  }

  lemma {:induction false} CountBound(fails: nat -> bool, lo: nat, hi: nat)
    requires lo <= hi
    ensures Count(fails, lo, hi) <= hi - lo
    decreases hi
  {
    if lo < hi {
      CountBound(fails, lo, hi - 1);
    }
  }

  /** A batch of m isolated with c of its fixes left over. */
  lemma IsolationPays(n: nat, m: nat, c: nat, b: nat)
    requires b > 0 && n > 0 && m == (if n < b then n else b) && c <= m
    ensures Batches(n - m + c, b) < Batches(n, b) + c
    ensures c == 0 ==> Batches(n - m + c, b) < Batches(n, b)
  {
    BatchesGrowSlowly(n - m, c, b);
  }

  // ----- any number of calls -----

  lemma {:induction false} RepeatFront(w: World, b: nat, cloud: Cloud, k: nat)
    ensures Repeat(w, b, cloud, k + 1).0 == Repeat(RunOnce(w, b, cloud).0, b, cloud, k).0
    decreases k
  {
    hide RunOnce;
    if k > 0 {
      RepeatFront(w, b, cloud, k - 1);
    } else {
      assert Repeat(w, b, cloud, 0).0 == w;
    }
  }

  lemma RunOnceOnEmpty(w: World, b: nat, cloud: Cloud)
    requires Pending(w.rows) == []
    ensures RunOnce(w, b, cloud).0 == w
  {
    hide Isolate, Accept, Posted;
  }

  lemma {:induction false} RepeatOnEmpty(w: World, b: nat, cloud: Cloud, k: nat)
    requires Pending(w.rows) == []
    ensures Repeat(w, b, cloud, k).0 == w
    decreases k
  {
    hide RunOnce;
    RunOnceOnEmpty(w, b, cloud);
    if k > 0 {
      RepeatOnEmpty(w, b, cloud, k - 1);
    }
  }

  lemma {:induction false} DrainsWithin(w: World, b: nat, cloud: Cloud, poison: set<int>, fails: nat -> bool,
                                             t: nat, k: nat)
    requires TableOk(w.rows) && b > 0 && Honest(cloud, poison, fails) && AtMost(fails, |w.posts|, t)
    requires k >= Batches(|Queue(w.rows)|, b) + t
    ensures var w' := Repeat(w, b, cloud, k).0; TableOk(w'.rows) && Queue(w'.rows) == {} && Settled(w, w', poison)
    decreases k
  {
    hide RunOnce, Queue, Repeat, Pending;
    BatchOfQueue(w.rows, b);
    if Pending(w.rows) == [] {
      RepeatOnEmpty(w, b, cloud, k);
    } else {
      var t' := CallProgress(w, b, cloud, poison, fails, t);
      var next := RunOnce(w, b, cloud).0;
      DrainsWithin(next, b, cloud, poison, fails, t', k - 1);
      RepeatFront(w, b, cloud, k - 1);
      SettledTransitive(w, next, Repeat(w, b, cloud, k).0, poison);
    }
  }

  /** Drain bound: with n rows queued, batches of size b, and at most t transient failures to
      come, ceil(n / b) + t calls of run_once empty the queue; every queued fix the cloud does not
      consider poison is then ingested, and exactly the poison ones were added to dead_letter. */
  lemma DrainBound(w: World, b: nat, cloud: Cloud, poison: set<int>, fails: nat -> bool, t: nat, k: nat)
    requires TableOk(w.rows) && b > 0 && Honest(cloud, poison, fails) && AtMost(fails, |w.posts|, t)
    requires k >= (|Pending(w.rows)| + b - 1) / b + t
    ensures var w' := Repeat(w, b, cloud, k).0;
      && Pending(w'.rows) == []
      && (forall r | r in Pending(w.rows) :: r.id !in poison ==> r.id in w'.ingested)
      && (forall id :: id in w'.dead
                       <==> id in w.dead || (id in poison && exists r :: r in Pending(w.rows) && r.id == id))
  {
    hide Repeat, Pending;
    BatchOfQueue(w.rows, b);
    BatchesIsCeiling(|Pending(w.rows)|, b);
    DrainsWithin(w, b, cloud, poison, fails, t, k);
    var w' := Repeat(w, b, cloud, k).0;
    BatchOfQueue(w'.rows, b);
    PendingIsQueue(w.rows);
    forall id
      ensures id in Queue(w.rows) <==> exists r :: r in Pending(w.rows) && r.id == id
    {
      IdsAreTheSet(Pending(w.rows), id);
    }
  }
}
