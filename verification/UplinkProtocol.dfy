/** The delivery protocol as a state machine.  Each step is one atomic action: a committed
    transaction, one POST with whatever became of it, or a crash.  Fixes may be inserted
    between any two steps. */
module UplinkProtocol {
  import opened Wrappers
  import opened Codec
  import opened Storage

  /** What a POST came to.  The cloud may have ingested some of the fixes without confirming:
      an answer that was lost, or an error after part of the work. */
  datatype Reply =
    | NoAnswer(reached: set<int>)
    | Status(code: int, reached: set<int>)

  predicate Accepted(r: Reply) {
    r.Status? && 200 <= r.code < 300
  }

  /** _is_retryable_status */
  predicate RetryableStatus(code: int) {
    code >= 500 || code == 429
  }

  /** _is_reject_status */
  predicate RejectStatus(code: int) {
    400 <= code < 500 && code != 429
  }

  predicate Rejected(r: Reply) {
    r.Status? && RejectStatus(r.code)
  }

  function Ids(rows: seq<Row>): (ids: seq<int>)
    ensures |ids| == |rows|
  {
    seq(|rows|, i requires 0 <= i < |rows| => rows[i].id)
  }

  function IdSet(rows: seq<Row>): set<int> {
    set r | r in rows :: r.id
  }

  /** The durable tables; and beside them, for the record, the delivery behind each row, what the
      cloud has ingested, which fixes it has rejected when posted alone, and every body posted. */
  datatype World = World(rows: seq<Row>, dead: map<int, int>, hwm: int, origin: seq<Uplink>,
                         ingested: set<int>, rejected: set<int>, posts: seq<seq<Row>>)

  /** Where the uplinker stands between two steps; lost in a crash. */
  datatype Pc =
    | Idle
    | Posting(batch: seq<Row>)
    | Accepting(ids: seq<int>, todo: seq<Row>)
    | Bumping(ids: seq<int>, todo: seq<Row>)
    | Isolating(todo: seq<Row>)
    | Quarantining(id: int, code: int, todo: seq<Row>)
    | Removing(id: int, todo: seq<Row>)

  datatype State = State(w: World, pc: Pc)

  datatype Step =
    | Insert(u: Uplink)
    | Fetch(limit: nat)
    | Post(reply: Reply)
    | Commit
    | Crash

  const EMPTY: World := World([], map[], 0, [], {}, {}, [])
  const INITIAL: State := State(EMPTY, Idle)

  function Posted(w: World, body: seq<Row>, reply: Reply): World {
    w.(posts := w.posts + [body],
       ingested := w.ingested + (if Accepted(reply) then IdSet(body) else IdSet(body) * reply.reached),
       rejected := w.rejected + (if Rejected(reply) && |body| == 1 then IdSet(body) else {}))
  }

  function MaxId(ids: seq<int>): int
    requires ids != []
    decreases |ids|
  {
    var last := ids[|ids| - 1];
    if |ids| == 1 then last
    else
      var m := MaxId(ids[..|ids| - 1]);
      if last > m then last else m
  }

  function Bumped(w: World, ids: seq<int>): World {
    if ids != [] && MaxId(ids) > w.hwm then w.(hwm := MaxId(ids)) else w
  }

  function Resume(todo: seq<Row>): Pc {
    if todo == [] then Idle else Isolating(todo)
  }

  function Inserted(w: World, u: Uplink): World {
    w.(rows := AfterInsert(w.rows, u), origin := w.origin + if IsNew(w.rows, u) then [u] else [])
  }

  /** A step that is not enabled leaves the state as it is. */
  function Next(s: State, step: Step): State {
    match step
    case Insert(u) => s.(w := Inserted(s.w, u))
    case Crash => s.(pc := Idle)
    case Fetch(limit) =>
      if s.pc.Idle? then
        var batch := Take(Pending(s.w.rows), limit);
        if batch == [] then s else s.(pc := Posting(batch))
      else s
    case Post(reply) =>
      (match s.pc
       case Posting(batch) =>
         State(Posted(s.w, batch, reply),
               if Accepted(reply) then Accepting(Ids(batch), [])
               else if Rejected(reply) then Resume(batch)
               else Idle)
       case Isolating(todo) =>
         if todo == [] then s
         else
           State(Posted(s.w, todo[..1], reply),
                 if Accepted(reply) then Accepting([todo[0].id], todo[1..])
                 else if Rejected(reply) then Quarantining(todo[0].id, reply.code, todo[1..])
                 else Resume(todo[1..]))
       case _ => s)
    case Commit =>
      match s.pc
      case Accepting(ids, todo) => State(s.w.(rows := Mark(s.w.rows, ids)), Bumping(ids, todo))
      case Bumping(ids, todo) => State(Bumped(s.w, ids), Resume(todo))
      case Quarantining(id, code, todo) => State(s.w.(dead := s.w.dead[id := code]), Removing(id, todo))
      case Removing(id, todo) => State(s.w.(rows := Mark(s.w.rows, [id])), Resume(todo))
      case _ => s
  }

  function Exec(s: State, steps: seq<Step>): State
    decreases |steps|
  {
    if steps == [] then s else Next(Exec(s, steps[..|steps| - 1]), steps[|steps| - 1])
  }

  // ----- the invariant of every run -----

  /** A reading, at any time, of the row with its id: the delivery behind that row, except that
      sequence may have become NULL and synced may have become 1. */
  ghost predicate CopyOf(copy: Row, origin: seq<Uplink>) {
    1 <= copy.id <= |origin| && Agrees(NewRow(copy.id, origin[copy.id - 1]), copy)
  }

  ghost predicate CopiesOf(copies: seq<Row>, origin: seq<Uplink>) {
    forall r | r in copies :: CopyOf(r, origin)
  }

  /** Zero loss: a row leaves the queue only if the cloud has ingested it or it is kept in the
      dead-letter table. */
  ghost predicate ZeroLoss(w: World) {
    forall i | 0 <= i < |w.rows| && w.rows[i].synced :: w.rows[i].id in w.ingested || w.rows[i].id in w.dead
  }

  /** Only fixes that the cloud rejected when they were posted alone are dead-lettered. */
  ghost predicate OnlyPoisonIsDead(w: World) {
    w.dead.Keys <= w.rejected
  }

  /** Every fix ever posted is a reading of the row with its id. */
  ghost predicate PostsAreCopies(w: World) {
    forall k | 0 <= k < |w.posts| :: CopiesOf(w.posts[k], w.origin)
  }

  ghost predicate RowsOk(w: World) {
    TableOk(w.rows) && |w.rows| == |w.origin| && CopiesOf(w.rows, w.origin)
  }

  ghost predicate PcOk(w: World, pc: Pc) {
    match pc
    case Idle => true
    case Posting(batch) => CopiesOf(batch, w.origin)
    case Accepting(ids, todo) =>
      CopiesOf(todo, w.origin) && forall id | id in ids :: id in w.ingested && 1 <= id <= |w.origin|
    case Bumping(ids, todo) => CopiesOf(todo, w.origin)
    case Isolating(todo) => CopiesOf(todo, w.origin)
    case Quarantining(id, code, todo) => CopiesOf(todo, w.origin) && id in w.rejected && 1 <= id <= |w.origin|
    case Removing(id, todo) => CopiesOf(todo, w.origin) && id in w.dead && 1 <= id <= |w.origin|
  }

  ghost predicate Inv(s: State) {
    RowsOk(s.w) && ZeroLoss(s.w) && OnlyPoisonIsDead(s.w) && PostsAreCopies(s.w) && PcOk(s.w, s.pc)
  }

  lemma CopiesSurvive(copies: seq<Row>, before: seq<Uplink>, after: seq<Uplink>)
    requires before <= after && CopiesOf(copies, before)
    ensures CopiesOf(copies, after)
  {
    forall r | r in copies
      ensures CopyOf(r, after)
    {
      assert CopyOf(r, before);
    }
  }

  lemma PendingAreCopies(w: World, limit: nat)
    requires RowsOk(w)
    ensures CopiesOf(Take(Pending(w.rows), limit), w.origin)
  {
    forall r | r in Take(Pending(w.rows), limit)
      ensures CopyOf(r, w.origin)
    {
      PendingIff(w.rows, r);
    }
  }

  lemma PostKeepsInv(s: State, body: seq<Row>, reply: Reply, pc: Pc)
    requires Inv(s) && CopiesOf(body, s.w.origin)
    requires PcOk(Posted(s.w, body, reply), pc)
    ensures Inv(State(Posted(s.w, body, reply), pc))
  {
  }

  lemma IdsAreTheSet(rows: seq<Row>, id: int)
    ensures id in Ids(rows) <==> id in IdSet(rows)
  {
    if id in Ids(rows) {
      var i :| 0 <= i < |rows| && Ids(rows)[i] == id;
      assert rows[i] in rows;
    }
    if id in IdSet(rows) {
      var r :| r in rows && r.id == id;
      var i :| 0 <= i < |rows| && rows[i] == r;
      assert Ids(rows)[i] == id;
    }
  }

  lemma NextKeepsInv(s: State, step: Step)
    requires Inv(s)
    ensures Inv(Next(s, step))
  {
    match step
    case Insert(u) => InsertKeepsInv(s, u);
    case Crash =>
    case Fetch(limit) => PendingAreCopies(s.w, limit);
    case Post(reply) => PostStepKeepsInv(s, reply);
    case Commit => CommitKeepsInv(s);
  }

  lemma InsertKeepsInv(s: State, u: Uplink)
    requires Inv(s)
    ensures Inv(Next(s, Insert(u)))
  {
    var w, w' := s.w, Inserted(s.w, u);
    InsertKeepsTable(w.rows, u);
    InsertedRowsAreCopies(w, u);
    forall k | 0 <= k < |w.posts|
      ensures CopiesOf(w.posts[k], w'.origin)
    {
      CopiesSurvive(w.posts[k], w.origin, w'.origin);
    }
    match s.pc
    case Idle =>
    case Posting(batch) => CopiesSurvive(batch, w.origin, w'.origin);
    case Accepting(ids, todo) => CopiesSurvive(todo, w.origin, w'.origin);
    case Bumping(ids, todo) => CopiesSurvive(todo, w.origin, w'.origin);
    case Isolating(todo) => CopiesSurvive(todo, w.origin, w'.origin);
    case Quarantining(id, code, todo) => CopiesSurvive(todo, w.origin, w'.origin);
    case Removing(id, todo) => CopiesSurvive(todo, w.origin, w'.origin);
  }

  lemma InsertedRowsAreCopies(w: World, u: Uplink)
    requires RowsOk(w)
    ensures RowsOk(Inserted(w, u))
    ensures forall i | 0 <= i < |Inserted(w, u).rows| && Inserted(w, u).rows[i].synced ::
      i < |w.rows| && w.rows[i].synced && Inserted(w, u).rows[i].id == w.rows[i].id
  {
    var w' := Inserted(w, u);
    InsertKeepsTable(w.rows, u);
    forall r | r in w'.rows
      ensures CopyOf(r, w'.origin)
    {
      var i :| 0 <= i < |w'.rows| && w'.rows[i] == r;
      if i < |w.rows| {
        assert CopyOf(w.rows[i], w.origin);
        assert Agrees(w.rows[i], r);
      }
    }
  }

  lemma PostStepKeepsInv(s: State, reply: Reply)
    requires Inv(s)
    ensures Inv(Next(s, Post(reply)))
  {
    var pc := Next(s, Post(reply)).pc;
    match s.pc
    case Posting(batch) =>
      forall id
        ensures id in Ids(batch) <==> id in IdSet(batch)
        ensures id in IdSet(batch) ==> 1 <= id <= |s.w.origin|
      {
        IdsAreTheSet(batch, id);
      }
      PostKeepsInv(s, batch, reply, pc);
    case Isolating(todo) =>
      if todo != [] {
        assert todo[0] in todo[..1] && todo[..1] == [todo[0]];
        assert todo[0].id in IdSet(todo[..1]);
        assert forall r | r in todo[..1] || r in todo[1..] :: r in todo;
        PostKeepsInv(s, todo[..1], reply, pc);
      }
    case _ =>
  }

  lemma MarkedRowsAreCopies(w: World, ids: seq<int>)
    requires RowsOk(w)
    ensures RowsOk(w.(rows := Mark(w.rows, ids)))
  {
    MarkKeepsTable(w.rows, ids);
    forall r | r in Mark(w.rows, ids)
      ensures CopyOf(r, w.origin)
    {
      var i :| 0 <= i < |w.rows| && Mark(w.rows, ids)[i] == r;
      assert CopyOf(w.rows[i], w.origin);
    }
  }

  lemma CommitKeepsInv(s: State)
    requires Inv(s)
    ensures Inv(Next(s, Commit))
  {
    match s.pc
    case Accepting(ids, todo) => MarkedRowsAreCopies(s.w, ids);
    case Removing(id, todo) => MarkedRowsAreCopies(s.w, [id]);
    case _ =>
  }

  lemma {:induction false} InvHolds(s: State, steps: seq<Step>)
    requires Inv(s)
    ensures Inv(Exec(s, steps))
    decreases |steps|
  {
    if steps != [] {
      InvHolds(s, steps[..|steps| - 1]);
      NextKeepsInv(Exec(s, steps[..|steps| - 1]), steps[|steps| - 1]);
    }
  }

  /** Zero loss over all runs: any interleaving of inserts, posts with any outcome, commits and
      crashes.  A row that is no longer queued is in the cloud or in the dead-letter table, and
      only fixes rejected on their own are in the latter. */
  lemma ZeroLossInEveryRun(steps: seq<Step>)
    ensures var w := Exec(INITIAL, steps).w; ZeroLoss(w) && OnlyPoisonIsDead(w) && RowsOk(w)
  {
    InvHolds(INITIAL, steps);
  }

  // ----- what is posted for one id -----

  /** Of two readings of one row, the second is not older: NULL does not turn back into a number. */
  predicate NotOlder(p: Row, q: Row) {
    p.id == q.id && p.sequence.None? ==> q.sequence.None?
  }

  ghost predicate Ordered(a: seq<Row>, b: seq<Row>) {
    forall p, q | p in a && q in b :: NotOlder(p, q)
  }

  /** The readings that the uplinker still holds and may post. */
  function Held(pc: Pc): seq<Row> {
    match pc
    case Idle => []
    case Posting(batch) => batch
    case Accepting(_, todo) => todo
    case Bumping(_, todo) => todo
    case Isolating(todo) => todo
    case Quarantining(_, _, todo) => todo
    case Removing(_, todo) => todo
  }

  /** Posts, then what is held, then the table: each is a later reading than the one before. */
  ghost predicate InOrder(s: State) {
    && (forall j, k | 0 <= j <= k < |s.w.posts| :: Ordered(s.w.posts[j], s.w.posts[k]))
    && (forall k | 0 <= k < |s.w.posts| :: Ordered(s.w.posts[k], Held(s.pc)) && Ordered(s.w.posts[k], s.w.rows))
    && Ordered(Held(s.pc), Held(s.pc)) && Ordered(Held(s.pc), s.w.rows)
  }

  lemma RowsMoveOn(copies: seq<Row>, rows: seq<Row>, rows': seq<Row>)
    requires Ordered(copies, rows) && TableOk(rows) && TableOk(rows') && Evolves(rows, rows')
    requires forall p | p in copies :: 1 <= p.id <= |rows|
    ensures Ordered(copies, rows')
  {
    forall p, q | p in copies && q in rows'
      ensures NotOlder(p, q)
    {
      var i :| 0 <= i < |rows'| && rows'[i] == q;
      if p.id == q.id {
        assert rows[i] in rows && NotOlder(p, rows[i]);
        assert Agrees(rows[i], rows'[i]);
      }
    }
  }

  /** A step that only lets the table evolve and drops some of what is held. */
  lemma OrderSurvives(s: State, s': State)
    requires Inv(s) && Inv(s') && InOrder(s)
    requires Evolves(s.w.rows, s'.w.rows) && s'.w.posts == s.w.posts
    requires forall r | r in Held(s'.pc) :: r in Held(s.pc)
    ensures InOrder(s')
  {
    hide ZeroLoss, OnlyPoisonIsDead, TableOk, Evolves, Agrees;
    forall k | 0 <= k < |s.w.posts|
      ensures Ordered(s'.w.posts[k], s'.w.rows)
    {
      assert CopiesOf(s.w.posts[k], s.w.origin);
      RowsMoveOn(s.w.posts[k], s.w.rows, s'.w.rows);
    }
    HeldAreCopies(s);
    RowsMoveOn(Held(s.pc), s.w.rows, s'.w.rows);
  }

  lemma HeldAreCopies(s: State)
    requires Inv(s)
    ensures CopiesOf(Held(s.pc), s.w.origin)
  {
  }

  lemma FetchInOrder(s: State, limit: nat)
    requires Inv(s) && InOrder(s)
    ensures InOrder(Next(s, Fetch(limit)))
  {
    hide Pending;
    var batch := Take(Pending(s.w.rows), limit);
    forall r | r in batch
      ensures r in s.w.rows
    {
      PendingIff(s.w.rows, r);
    }
  }

  /** What is posted was held, and what is held afterwards was held before. */
  lemma PostedInOrder(s: State, body: seq<Row>, reply: Reply, pc: Pc)
    requires InOrder(s)
    requires forall r | r in body || r in Held(pc) :: r in Held(s.pc)
    ensures InOrder(State(Posted(s.w, body, reply), pc))
  {
    hide NotOlder, IdSet, Held;
    var posts := s.w.posts + [body];
    forall j, k | 0 <= j <= k < |posts|
      ensures Ordered(posts[j], posts[k])
    {
      if k == |s.w.posts| && j < k {
        assert Ordered(s.w.posts[j], Held(s.pc));
      }
    }
  }

  lemma PostInOrder(s: State, reply: Reply)
    requires InOrder(s)
    ensures InOrder(Next(s, Post(reply)))
  {
    hide InOrder, Posted;
    var pc := Next(s, Post(reply)).pc;
    match s.pc
    case Posting(batch) => PostedInOrder(s, batch, reply, pc);
    case Isolating(todo) =>
      if todo != [] {
        assert forall r | r in todo[..1] || r in todo[1..] :: r in todo;
        PostedInOrder(s, todo[..1], reply, pc);
      }
    case _ =>
  }

  lemma NextInOrder(s: State, step: Step)
    requires Inv(s) && InOrder(s)
    ensures InOrder(Next(s, step))
  {
    hide Inv, InOrder, NotOlder;
    NextKeepsInv(s, step);
    match step
    case Insert(u) =>
      NextGrows(s, step);
      OrderSurvives(s, Next(s, step));
    case Crash =>
      NextGrows(s, step);
      OrderSurvives(s, Next(s, step));
    case Fetch(limit) => FetchInOrder(s, limit);
    case Post(reply) => PostInOrder(s, reply);
    case Commit =>
      NextGrows(s, step);
      OrderSurvives(s, Next(s, step));
  }

  lemma {:induction false} OrderHolds(steps: seq<Step>)
    ensures InOrder(Exec(INITIAL, steps))
    decreases |steps|
  {
    hide Next;
    if steps != [] {
      OrderHolds(steps[..|steps| - 1]);
      InvHolds(INITIAL, steps[..|steps| - 1]);
      NextInOrder(Exec(INITIAL, steps[..|steps| - 1]), steps[|steps| - 1]);
    }
  }

  /** Idempotency keys are stable: two posts of the same id, at any two times of a run, carry the
      same fields, except that sequence may have become NULL in between; it never comes back. */
  lemma PostsOfOneIdAgree(steps: seq<Step>, j: nat, k: nat, p: Row, q: Row)
    requires var w := Exec(INITIAL, steps).w;
      j <= k < |w.posts| && p in w.posts[j] && q in w.posts[k] && p.id == q.id
    ensures q == p.(sequence := q.sequence, synced := q.synced)
    ensures q.sequence == p.sequence || q.sequence == None
  {
    hide Exec;
    InvHolds(INITIAL, steps);
    OrderHolds(steps);
    var w := Exec(INITIAL, steps).w;
    assert CopiesOf(w.posts[j], w.origin) && CopiesOf(w.posts[k], w.origin);
    assert CopyOf(p, w.origin) && CopyOf(q, w.origin);
    assert Ordered(w.posts[j], w.posts[k]) && NotOlder(p, q);
  }

  // ----- what never goes back -----

  /** The table is append-only, and the other durable facts only grow. */
  ghost predicate Grows(a: World, b: World) {
    && Evolves(a.rows, b.rows)
    && a.ingested <= b.ingested && a.dead.Keys <= b.dead.Keys && a.rejected <= b.rejected
    && a.hwm <= b.hwm && a.posts <= b.posts && a.origin <= b.origin
  }

  lemma NextGrows(s: State, step: Step)
    requires Inv(s)
    ensures Grows(s.w, Next(s, step).w)
  {
    match step
    case Insert(u) => InsertKeepsTable(s.w.rows, u);
    case Commit =>
      match s.pc {
        case Accepting(ids, todo) => MarkKeepsTable(s.w.rows, ids);
        case Removing(id, todo) => MarkKeepsTable(s.w.rows, [id]);
        case _ =>
      }
    case _ =>
  }

  lemma {:induction false} RunsGrow(s: State, steps: seq<Step>)
    requires Inv(s)
    ensures Grows(s.w, Exec(s, steps).w)
    decreases |steps|
  {
    if steps != [] {
      var mid := Exec(s, steps[..|steps| - 1]);
      RunsGrow(s, steps[..|steps| - 1]);
      InvHolds(s, steps[..|steps| - 1]);
      NextGrows(mid, steps[|steps| - 1]);
      EvolvesTransitive(s.w.rows, mid.w.rows, Exec(s, steps).w.rows);
    }
  }

  // ----- FIFO -----

  /** Exactly the first k rows are synced. */
  ghost predicate SyncedPrefix(rows: seq<Row>, k: nat) {
    k <= |rows| && forall i | 0 <= i < |rows| :: rows[i].synced <==> i < k
  }

  function CountUp(from: int, n: nat): (ids: seq<int>)
    ensures |ids| == n
  {
    seq(n, i => from + i)
  }

  /** In a run without rejections the uplinker only ever handles the oldest unsynced rows. */
  ghost predicate FifoPc(s: State, k: nat) {
    match s.pc
    case Idle => true
    case Posting(batch) => k + |batch| <= |s.w.rows| && Ids(batch) == CountUp(k + 1, |batch|)
    case Accepting(ids, todo) => todo == [] && k + |ids| <= |s.w.rows| && ids == CountUp(k + 1, |ids|)
    case Bumping(ids, todo) => todo == [] && |ids| <= k && ids == CountUp(k - |ids| + 1, |ids|)
    case _ => false
  }

  ghost predicate Fifo(s: State, k: nat) {
    SyncedPrefix(s.w.rows, k) && 0 <= s.w.hwm <= k && FifoPc(s, k)
  }

  predicate RejectionFree(steps: seq<Step>) {
    forall st | st in steps :: st.Post? ==> !Rejected(st.reply)
  }

  lemma {:induction false} PendingOfPrefix(rows: seq<Row>, k: nat)
    requires SyncedPrefix(rows, k)
    ensures Pending(rows) == rows[k..]
    decreases |rows|
  {
    if |rows| > k {
      PendingOfPrefix(rows[..|rows| - 1], k);
      assert rows[k..] == rows[..|rows| - 1][k..] + [rows[|rows| - 1]];
    } else if rows != [] {
      PendingOfPrefix(rows[..|rows| - 1], k - 1);
    }
  }

  lemma {:induction false} MaxOfCountUp(from: int, n: nat)
    requires n > 0
    ensures MaxId(CountUp(from, n)) == from + n - 1
    decreases n
  {
    if n > 1 {
      assert CountUp(from, n)[..n - 1] == CountUp(from, n - 1);
      MaxOfCountUp(from, n - 1);
    }
  }

  lemma FifoNext(s: State, step: Step, k: nat) returns (k': nat)
    requires Inv(s) && Fifo(s, k)
    requires step.Post? ==> !Rejected(step.reply)
    ensures k <= k' && Fifo(Next(s, step), k')
  {
    hide Mark, AfterInsert, ZeroLoss, PostsAreCopies, OnlyPoisonIsDead, PcOk;
    k' := k;
    var rows := s.w.rows;
    match step
    case Insert(u) =>
      InsertFifo(s, u, k);
    case Crash =>
    case Fetch(limit) =>
      PendingOfPrefix(rows, k);
      var batch := Take(rows[k..], limit);
      assert Ids(batch) == CountUp(k + 1, |batch|);
    case Post(reply) =>
    case Commit =>
      k' := FifoCommit(s, k);
  }

  lemma FifoCommit(s: State, k: nat) returns (k': nat)
    requires Inv(s) && Fifo(s, k)
    ensures k <= k' && Fifo(Next(s, Commit), k')
  {
    hide Mark, ZeroLoss, PostsAreCopies, OnlyPoisonIsDead, PcOk;
    k' := k;
    match s.pc
    case Accepting(ids, todo) =>
      k' := k + |ids|;
      MarkPrefix(s.w.rows, ids, k);
    case Bumping(ids, todo) =>
      if ids != [] {
        MaxOfCountUp(k - |ids| + 1, |ids|);
      }
    case _ =>
  }

  lemma InsertFifo(s: State, u: Uplink, k: nat)
    requires Inv(s) && Fifo(s, k)
    ensures Fifo(Next(s, Insert(u)), k)
  {
    var rows, rows' := s.w.rows, AfterInsert(s.w.rows, u);
    InsertKeepsTable(rows, u);
    forall i | 0 <= i < |rows'|
      ensures rows'[i].synced <==> i < k
    {
    }
  }

  lemma MarkPrefix(rows: seq<Row>, ids: seq<int>, k: nat)
    requires TableOk(rows) && SyncedPrefix(rows, k)
    requires k + |ids| <= |rows| && ids == CountUp(k + 1, |ids|)
    ensures SyncedPrefix(Mark(rows, ids), k + |ids|)
  {
    forall i | 0 <= i < |rows|
      ensures Mark(rows, ids)[i].synced <==> i < k + |ids|
    {
      if k <= i < k + |ids| {
        assert ids[i - k] == rows[i].id;
      }
    }
  }

  lemma {:induction false} FifoRun(steps: seq<Step>) returns (k: nat)
    requires RejectionFree(steps)
    ensures Inv(Exec(INITIAL, steps)) && Fifo(Exec(INITIAL, steps), k)
    decreases |steps|
  {
    InvHolds(INITIAL, steps);
    if steps == [] {
      k := 0;
    } else {
      var init := steps[..|steps| - 1];
      var k0 := FifoRun(init);
      InvHolds(INITIAL, init);
      assert steps[|steps| - 1] in steps;
      k := FifoNext(Exec(INITIAL, init), steps[|steps| - 1], k0);
    }
  }

  /** FIFO: in every run without a rejection, with any crashes, lost answers and concurrent
      inserts, the synced rows are an initial segment of insertion order, and the high-water
      cursor never passes its end. */
  lemma SyncedIsAPrefix(steps: seq<Step>)
    requires RejectionFree(steps)
    ensures exists k :: SyncedPrefix(Exec(INITIAL, steps).w.rows, k) && 0 <= Exec(INITIAL, steps).w.hwm <= k
  {
    var k := FifoRun(steps);
  }
}
