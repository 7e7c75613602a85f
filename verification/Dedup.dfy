/** What the wrap-aware dedup achieves over whole runs of deliveries. */
module Dedup {
  import opened Wrappers
  import opened Codec
  import opened Storage

  predicate SameKey(u: Uplink, v: Uplink) {
    u.nodeId == v.nodeId && u.sequence == v.sequence
  }

  /** The same emission, possibly received more than once. */
  predicate SameEmission(u: Uplink, v: Uplink) {
    SameKey(u, v) && u.TsMs() == v.TsMs()
  }

  /** The i-th delivery gets a row of its own. */
  predicate Accepted(ds: seq<Uplink>, i: nat)
    requires i < |ds|
  {
    IsNew(Run(ds[..i]), ds[i])
  }

  /** The deliveries that got a row, in order: the origin of each row of Run(ds). */
  function Stored(ds: seq<Uplink>): seq<Uplink>
    decreases |ds|
  {
    if ds == [] then []
    else
      var init, last := ds[..|ds| - 1], ds[|ds| - 1];
      Stored(init) + if IsNew(Run(init), last) then [last] else []
  }

  /** A later row has the same (node, seq). */
  ghost predicate Superseded(stored: seq<Uplink>, i: nat)
    requires i < |stored|
  {
    exists j :: i < j < |stored| && SameKey(stored[i], stored[j])
  }

  /** Every row holds its delivery's data under the next id; its sequence slot is still live
      exactly when no later row has the same (node, seq). */
  lemma {:induction false} RowsAreStored(ds: seq<Uplink>)
    ensures TableOk(Run(ds)) && |Run(ds)| == |Stored(ds)|
    ensures forall i | 0 <= i < |Run(ds)| ::
      && Run(ds)[i] == NewRow(i + 1, Stored(ds)[i]).(sequence := Run(ds)[i].sequence)
      && Run(ds)[i].sequence == if Superseded(Stored(ds), i) then None else Some(Stored(ds)[i].sequence)
    decreases |ds|
  {
    if ds != [] {
      hide Run, Stored;
      var init, u := ds[..|ds| - 1], ds[|ds| - 1];
      RowsAreStored(init);
      RunLast(ds);
      InsertKeepsTable(Run(init), u);
      AppendedRow(Run(init), Stored(init), u);
    } else {
      assert Run(ds) == [];
    }
  }

  lemma RunLast(ds: seq<Uplink>)
    requires ds != []
    ensures var init, u := ds[..|ds| - 1], ds[|ds| - 1];
      Run(ds) == AfterInsert(Run(init), u) && Stored(ds) == Stored(init) + if IsNew(Run(init), u) then [u] else []
  {
  }

  ghost predicate RowsMatch(rows: seq<Row>, stored: seq<Uplink>) {
    && |rows| == |stored|
    && forall i | 0 <= i < |rows| ::
      && rows[i] == NewRow(i + 1, stored[i]).(sequence := rows[i].sequence)
      && rows[i].sequence == if Superseded(stored, i) then None else Some(stored[i].sequence)
  }

  lemma SupersededByLast(stored: seq<Uplink>, u: Uplink, i: nat)
    requires i < |stored|
    ensures Superseded(stored + [u], i) <==> Superseded(stored, i) || SameKey(stored[i], u)
  {
    var stored' := stored + [u];
    if Superseded(stored, i) {
      var j :| i < j < |stored| && SameKey(stored[i], stored[j]);
      assert stored'[j] == stored[j];
    }
    if SameKey(stored[i], u) {
      assert stored'[|stored|] == u;
    }
    if Superseded(stored', i) {
      var j :| i < j < |stored'| && SameKey(stored'[i], stored'[j]);
      assert j < |stored| ==> stored'[j] == stored[j];
    }
  }

  lemma AppendedRow(rows: seq<Row>, stored: seq<Uplink>, u: Uplink)
    requires TableOk(rows) && RowsMatch(rows, stored)
    ensures RowsMatch(AfterInsert(rows, u), stored + if IsNew(rows, u) then [u] else [])
  {
    hide Superseded, FindSlot;
    if IsNew(rows, u) {
      var rows', stored' := AfterInsert(rows, u), stored + [u];
      forall i | 0 <= i < |rows|
        ensures rows'[i] == NewRow(i + 1, stored'[i]).(sequence := rows'[i].sequence)
        ensures rows'[i].sequence == if Superseded(stored', i) then None else Some(stored'[i].sequence)
      {
        SupersededByLast(stored, u, i);
        assert rows[i] == NewRow(i + 1, stored[i]).(sequence := rows[i].sequence);
        assert rows[i].sequence == if Superseded(stored, i) then None else Some(stored[i].sequence);
      }
      NotSuperseded(stored, u);
    } else {
      assert stored + [] == stored;
    }
  }

  lemma NotSuperseded(stored: seq<Uplink>, u: Uplink)
    ensures !Superseded(stored + [u], |stored|)
  {
  }

  // ----- every delivery is covered -----

  /** Unconditionally: every delivery has a row of the same node and sequence number whose
      timestamp is within the window of its own. */
  lemma {:induction false} EveryDeliveryIsCovered(ds: seq<Uplink>, i: nat)
    requires i < |ds|
    ensures exists r :: r in Stored(ds) && SameKey(r, ds[i]) && Near(ds[i].TsMs(), r.TsMs())
    decreases |ds|
  {
    var init, last := ds[..|ds| - 1], ds[|ds| - 1];
    if i < |init| {
      EveryDeliveryIsCovered(init, i);
      var r :| r in Stored(init) && SameKey(r, init[i]) && Near(init[i].TsMs(), r.TsMs());
      assert r in Stored(ds);
    } else if IsNew(Run(init), last) {
      assert Stored(ds) == Stored(init) + [last];
      assert last in Stored(ds) && SameKey(last, ds[i]);
    } else {
      RowsAreStored(init);
      var k := FindSlot(Run(init), last.nodeId, last.sequence).value;
      var r := Stored(init)[k];
      assert Run(init)[k] == NewRow(k + 1, r).(sequence := Run(init)[k].sequence);
      assert r in Stored(ds);
    }
  }

  // ----- exactly once -----

  /** The timestamp that holds the (node, seq) slot after ds. */
  function SlotTs(ds: seq<Uplink>, key: Uplink): Option<int>
    decreases |ds|
  {
    if ds == [] then None
    else
      var before, last := SlotTs(ds[..|ds| - 1], key), ds[|ds| - 1];
      if SameKey(last, key) && (before.None? || !Near(last.TsMs(), before.value)) then Some(last.TsMs()) else before
  }

  lemma SlotIsUnique(rows: seq<Row>, i: nat, nodeId: int, sequence: int)
    requires TableOk(rows) && i < |rows| && Holds(rows[i], nodeId, sequence)
    ensures FindSlot(rows, nodeId, sequence) == Some(i)
  {
    var k := FindSlot(rows, nodeId, sequence).value;
    assert Holds(rows[k], nodeId, sequence);
  }

  lemma {:induction false} SlotTsIsTheTable(ds: seq<Uplink>, key: Uplink)
    ensures var slot := FindSlot(Run(ds), key.nodeId, key.sequence);
      SlotTs(ds, key) == if slot.Some? then Some(Run(ds)[slot.value].tsMs) else None
    decreases |ds|
  {
    if ds != [] {
      hide Run, FindSlot;
      var init, u := ds[..|ds| - 1], ds[|ds| - 1];
      RunLast(ds);
      RowsAreStored(init);
      RowsAreStored(ds);
      SlotTsIsTheTable(init, key);
      SlotAfterInsert(Run(init), u, key);
    } else {
      assert Run(ds) == [] && FindSlot([], key.nodeId, key.sequence) == None;
    }
  }

  lemma SlotAfterInsert(rows: seq<Row>, u: Uplink, key: Uplink)
    requires TableOk(rows) && TableOk(AfterInsert(rows, u))
    ensures FindSlot(AfterInsert(rows, u), key.nodeId, key.sequence)
         == if IsNew(rows, u) && SameKey(u, key) then Some(|rows|) else FindSlot(rows, key.nodeId, key.sequence)
  {
    hide FindSlot;
    var rows' := AfterInsert(rows, u);
    var slot := FindSlot(rows, key.nodeId, key.sequence);
    if IsNew(rows, u) {
      if SameKey(u, key) {
        SlotIsUnique(rows', |rows|, key.nodeId, key.sequence);
      } else if slot.Some? {
        SlotIsUnique(rows', slot.value, key.nodeId, key.sequence);
      }
    }
  }

  /** Different emissions that share (node, seq) lie more than the window apart. */
  ghost predicate Spaced(ds: seq<Uplink>) {
    forall i, j | 0 <= i < |ds| && 0 <= j < |ds| && SameKey(ds[i], ds[j]) && ds[i].TsMs() != ds[j].TsMs() ::
      !Near(ds[i].TsMs(), ds[j].TsMs())
  }

  /** No emission is received again after a different one with the same (node, seq). */
  ghost predicate NoComeback(ds: seq<Uplink>) {
    forall i, j, k | 0 <= i < j < k < |ds| && SameKey(ds[i], ds[j]) && SameEmission(ds[i], ds[k]) ::
      SameEmission(ds[i], ds[j])
  }

  /** Per (node, seq), no fix of an earlier cycle arrives after one of a later cycle. */
  ghost predicate CyclesInOrder(ds: seq<Uplink>) {
    forall i, j | 0 <= i < j < |ds| && SameKey(ds[i], ds[j]) :: ds[i].TsMs() <= ds[j].TsMs()
  }

  ghost predicate FirstTime(ds: seq<Uplink>, i: nat)
    requires i < |ds|
  {
    forall j | 0 <= j < i :: !SameEmission(ds[j], ds[i])
  }

  /** The most recent delivery before n with the key of key, if any. */
  function LastIndex(ds: seq<Uplink>, key: Uplink, n: nat): (r: Option<nat>)
    requires n <= |ds|
    ensures r.Some? ==> r.value < n && SameKey(ds[r.value], key)
    ensures r.Some? ==> forall j | r.value < j < n :: !SameKey(ds[j], key)
    ensures r.None? ==> forall j | 0 <= j < n :: !SameKey(ds[j], key)
  {
    if n == 0 then None
    else if SameKey(ds[n - 1], key) then Some(n - 1)
    else LastIndex(ds, key, n - 1)
  }

  /** When emissions are spaced, the slot always belongs to the emission received last. */
  lemma {:induction false} SlotIsLatest(ds: seq<Uplink>, key: Uplink, n: nat)
    requires n <= |ds| && Spaced(ds)
    ensures var k := LastIndex(ds, key, n);
      SlotTs(ds[..n], key) == if k.Some? then Some(ds[k.value].TsMs()) else None
    decreases n
  {
    if n > 0 {
      assert ds[..n][..n - 1] == ds[..n - 1];
      SlotIsLatest(ds, key, n - 1);
      var k := LastIndex(ds, key, n - 1);
      if k.Some? && SameKey(ds[n - 1], key) {
        assert SameKey(ds[n - 1], ds[k.value]);
      }
    }
  }

  lemma AcceptedIff(ds: seq<Uplink>, i: nat)
    requires i < |ds| && Spaced(ds)
    ensures var k := LastIndex(ds, ds[i], i);
      Accepted(ds, i) <==> k.None? || !SameEmission(ds[k.value], ds[i])
  {
    hide Run, FindSlot, SlotTs, LastIndex;
    SlotTsIsTheTable(ds[..i], ds[i]);
    SlotIsLatest(ds, ds[i], i);
    var k := LastIndex(ds, ds[i], i);
    if k.Some? {
      assert SameKey(ds[i], ds[k.value]);
    }
  }

  ghost predicate ExactlyOnce(ds: seq<Uplink>) {
    forall i | 0 <= i < |ds| :: Accepted(ds, i) <==> FirstTime(ds, i)
  }

  /** A delivery is accepted when its slot is free or was taken more than the window away. */
  lemma AcceptedIffSlot(ds: seq<Uplink>, i: nat)
    requires i < |ds|
    ensures var slot := SlotTs(ds[..i], ds[i]);
      Accepted(ds, i) <==> slot.None? || !Near(ds[i].TsMs(), slot.value)
  {
    hide Run, FindSlot, SlotTs;
    SlotTsIsTheTable(ds[..i], ds[i]);
  }

  /** The most recent first reception before n of an emission with the key of key, if any. */
  ghost function LastFirst(ds: seq<Uplink>, key: Uplink, n: nat): (r: Option<nat>)
    requires n <= |ds|
    ensures r.Some? ==> r.value < n && SameKey(ds[r.value], key) && FirstTime(ds, r.value)
    ensures r.Some? ==> forall j | r.value < j < n && SameKey(ds[j], key) :: !FirstTime(ds, j)
    ensures r.None? ==> forall j | 0 <= j < n && SameKey(ds[j], key) :: !FirstTime(ds, j)
  {
    if n == 0 then None
    else if SameKey(ds[n - 1], key) && FirstTime(ds, n - 1) then Some(n - 1)
    else LastFirst(ds, key, n - 1)
  }

  /** No first reception of the same (node, seq) has come before the i-th delivery, or the most
      recent one lies more than the window away. */
  ghost predicate ApartFromLastFirst(ds: seq<Uplink>, i: nat)
    requires i < |ds|
  {
    var k := LastFirst(ds, ds[i], i);
    k.None? || !Near(ds[i].TsMs(), ds[k.value].TsMs())
  }

  ghost predicate ExactUpTo(ds: seq<Uplink>, n: nat)
    requires n <= |ds|
  {
    forall i | 0 <= i < n :: Accepted(ds, i) <==> FirstTime(ds, i)
  }

  /** As long as exactly the first receptions are accepted, one of them holds the slot. */
  lemma {:induction false} SlotIsLastFirst(ds: seq<Uplink>, key: Uplink, n: nat)
    requires n <= |ds| && ExactUpTo(ds, n)
    ensures var k := LastFirst(ds, key, n);
      SlotTs(ds[..n], key) == if k.Some? then Some(ds[k.value].TsMs()) else None
    decreases n
  {
    hide Accepted, FirstTime;
    if n > 0 {
      assert ds[..n][..n - 1] == ds[..n - 1];
      SlotIsLastFirst(ds, key, n - 1);
      AcceptedIffSlot(ds, n - 1);
      if SameKey(ds[n - 1], key) {
        SlotTsIsTheTable(ds[..n - 1], key);
        SlotTsIsTheTable(ds[..n - 1], ds[n - 1]);
      }
    }
  }

  lemma AcceptedIffApart(ds: seq<Uplink>, i: nat)
    requires i < |ds| && ExactUpTo(ds, i)
    ensures Accepted(ds, i) <==> ApartFromLastFirst(ds, i)
  {
    hide Accepted, FirstTime, SlotTs, LastFirst;
    SlotIsLastFirst(ds, ds[i], i);
    AcceptedIffSlot(ds, i);
  }

  /** Deduplication is exact, meaning that insert_fix returns True exactly at the first reception
      of each emission, if and only if the first receptions are exactly the deliveries that lie
      more than the window from the most recent first reception of their (node, seq). */
  lemma DedupIsExactIff(ds: seq<Uplink>)
    ensures ExactlyOnce(ds) <==> forall i | 0 <= i < |ds| :: FirstTime(ds, i) <==> ApartFromLastFirst(ds, i)
  {
    hide Accepted, FirstTime, ApartFromLastFirst;
    if ExactlyOnce(ds) {
      forall i | 0 <= i < |ds|
        ensures FirstTime(ds, i) <==> ApartFromLastFirst(ds, i)
      {
        AcceptedIffApart(ds, i);
      }
    }
    if forall i | 0 <= i < |ds| :: FirstTime(ds, i) <==> ApartFromLastFirst(ds, i) {
      for n := 0 to |ds|
        invariant ExactUpTo(ds, n)
      {
        AcceptedIffApart(ds, n);
      }
    }
  }

  /** If every first reception and nothing else is accepted, no emission comes back. */
  lemma {:induction false} ComebackIsAccepted(ds: seq<Uplink>, i: nat, j: nat, k: nat)
    requires i < j < k < |ds| && Spaced(ds) && ExactlyOnce(ds)
    requires SameKey(ds[i], ds[j]) && SameEmission(ds[i], ds[k])
    ensures SameEmission(ds[i], ds[j])
    decreases k
  {
    AcceptedIff(ds, k);
    var last := LastIndex(ds, ds[k], k);
    assert SameEmission(ds[i], ds[k]) && !FirstTime(ds, k);
    assert !Accepted(ds, k);
    var m := last.value;
    assert SameKey(ds[j], ds[k]);
    if m > j {
      ComebackIsAccepted(ds, i, j, m);
    }
  }

  /** Among deliveries in which different emissions of one (node, seq) are spaced, the same holds
      if and only if no emission comes back after another one has taken its slot. */
  lemma SpacedDedupIsExactIff(ds: seq<Uplink>)
    requires Spaced(ds)
    ensures ExactlyOnce(ds) <==> NoComeback(ds)
  {
    if ExactlyOnce(ds) {
      forall i, j, k | 0 <= i < j < k < |ds| && SameKey(ds[i], ds[j]) && SameEmission(ds[i], ds[k])
        ensures SameEmission(ds[i], ds[j])
      {
        ComebackIsAccepted(ds, i, j, k);
      }
    }
    if NoComeback(ds) {
      forall i | 0 <= i < |ds|
        ensures Accepted(ds, i) <==> FirstTime(ds, i)
      {
        AcceptedIff(ds, i);
        var last := LastIndex(ds, ds[i], i);
        if !FirstTime(ds, i) {
          var m :| 0 <= m < i && SameEmission(ds[m], ds[i]);
          assert last.Some? && m <= last.value;
          if m < last.value {
            assert SameKey(ds[m], ds[last.value]);
            assert SameEmission(ds[m], ds[last.value]);
          }
        }
      }
    }
  }

  /** Wrap cycles in order rule a comeback out. */
  lemma OrderedCyclesAreExact(ds: seq<Uplink>)
    requires Spaced(ds) && CyclesInOrder(ds)
    ensures ExactlyOnce(ds)
  {
    forall i, j, k | 0 <= i < j < k < |ds| && SameKey(ds[i], ds[j]) && SameEmission(ds[i], ds[k])
      ensures SameEmission(ds[i], ds[j])
    {
      assert SameKey(ds[j], ds[k]);
    }
    SpacedDedupIsExactIff(ds);
  }

  /** The failing family: A, then B of another cycle, then A again stores A twice. */
  lemma ComebackStoresTwice(a: Uplink, b: Uplink)
    requires SameKey(a, b) && !Near(a.TsMs(), b.TsMs())
    ensures Stored([a, b, a]) == [a, b, a]
  {
    var ds := [a, b, a];
    assert Spaced(ds);
    AcceptedIff(ds, 0);
    AcceptedIff(ds, 1);
    AcceptedIff(ds, 2);
    assert ds[..2][..1] == ds[..1] && ds[..1][..0] == [] && ds[..2] == [a, b] && ds[..1] == [a] && ds[..0] == [];
    assert Stored(ds[..1]) == [a];
    assert Stored(ds[..2]) == [a, b];
  }

  /** The other failing family: two fixes of one (node, seq) within the window, as when a node
      restarts its counter.  The second is taken for the first and gets no row. */
  lemma NearTwinIsLost(a: Uplink, b: Uplink)
    requires SameKey(a, b) && a.TsMs() != b.TsMs() && Near(b.TsMs(), a.TsMs())
    ensures Stored([a, b]) == [a] && !HasRow([a, b], b)
    ensures NoComeback([a, b]) && !ExactlyOnce([a, b])
  {
    hide Run, FindSlot, Accepted;
    NearTwinStored(a, b);
    assert !Accepted([a, b], 1) && FirstTime([a, b], 1);
    assert !HasRow([a, b], b) by {
      assert forall r | r in [a] :: !SameEmission(r, b);
    }
  }

  lemma NearTwinStored(a: Uplink, b: Uplink)
    requires SameKey(a, b) && Near(b.TsMs(), a.TsMs())
    ensures Stored([a, b]) == [a] && Accepted([a, b], 0) && !Accepted([a, b], 1)
  {
    hide Run, FindSlot, IsNew;
    var ds := [a, b];
    assert ds[..1] == [a] && ds[..0] == [] && [a][..0] == [];
    AcceptedIffSlot(ds, 0);
    AcceptedIffSlot(ds, 1);
    assert SlotTs([a], b) == Some(a.TsMs());
    assert Stored([a]) == [a];
  }

  // ----- the rows are the emissions -----

  lemma {:induction false} StoredByIndex(ds: seq<Uplink>, r: nat)
    requires r < |Stored(ds)|
    ensures exists i :: 0 <= i < |ds| && Accepted(ds, i) && ds[i] == Stored(ds)[r] && Stored(ds[..i]) == Stored(ds)[..r]
    decreases |ds|
  {
    var init := ds[..|ds| - 1];
    if r < |Stored(init)| {
      StoredByIndex(init, r);
      var i :| 0 <= i < |init| && Accepted(init, i) && init[i] == Stored(init)[r]
               && Stored(init[..i]) == Stored(init)[..r];
      assert init[..i] == ds[..i];
      assert Stored(ds)[..r] == Stored(init)[..r];
      assert Accepted(ds, i);
    } else {
      assert Accepted(ds, |ds| - 1);
      assert Stored(ds)[..r] == Stored(init);
    }
  }

  lemma {:induction false} AcceptedIsStored(ds: seq<Uplink>, i: nat)
    requires i < |ds| && Accepted(ds, i)
    ensures ds[i] in Stored(ds)
    decreases |ds|
  {
    var init := ds[..|ds| - 1];
    if i < |init| {
      assert init[..i] == ds[..i];
      AcceptedIsStored(init, i);
    } else {
      assert Stored(ds)[|Stored(ds)| - 1] == ds[i];
    }
  }

  lemma {:induction false} StoredWereDelivered(ds: seq<Uplink>, u: Uplink)
    requires u in Stored(ds)
    ensures exists i :: 0 <= i < |ds| && ds[i] == u
    decreases |ds|
  {
    var init := ds[..|ds| - 1];
    if u in Stored(init) {
      StoredWereDelivered(init, u);
      var i :| 0 <= i < |init| && init[i] == u;
      assert ds[i] == u;
    }
  }

  /** One of the rows is of the same emission as u. */
  ghost predicate HasRow(ds: seq<Uplink>, u: Uplink) {
    exists r :: r in Stored(ds) && SameEmission(r, u)
  }

  /** Without any hypothesis, exactly when a fix has a row of its own: some reception of it found
      its slot free, or taken more than the window away. */
  lemma HasRowIff(ds: seq<Uplink>, u: Uplink)
    ensures HasRow(ds, u) <==> exists i :: 0 <= i < |ds| && SameEmission(ds[i], u) && FindsSlotFree(ds, i)
  {
    hide Stored, Run, FindSlot, SlotTs, Accepted;
    if HasRow(ds, u) {
      var r :| r in Stored(ds) && SameEmission(r, u);
      var k :| 0 <= k < |Stored(ds)| && Stored(ds)[k] == r;
      StoredByIndex(ds, k);
      var i :| 0 <= i < |ds| && Accepted(ds, i) && ds[i] == Stored(ds)[k] && Stored(ds[..i]) == Stored(ds)[..k];
      AcceptedIffSlot(ds, i);
      assert FindsSlotFree(ds, i);
    }
    if i :| 0 <= i < |ds| && SameEmission(ds[i], u) && FindsSlotFree(ds, i) {
      AcceptedIffSlot(ds, i);
      AcceptedIsStored(ds, i);
    }
  }

  predicate FindsSlotFree(ds: seq<Uplink>, i: nat)
    requires i < |ds|
  {
    var slot := SlotTs(ds[..i], ds[i]);
    slot.None? || !Near(ds[i].TsMs(), slot.value)
  }

  lemma SpacedFirstIsAccepted(ds: seq<Uplink>, i: nat)
    requires i < |ds| && Spaced(ds) && FirstTime(ds, i)
    ensures Accepted(ds, i)
  {
    hide Accepted;
    AcceptedIff(ds, i);
  }

  /** Every emission has a row, comebacks or not. */
  lemma EmissionsHaveRows(ds: seq<Uplink>, i: nat)
    requires i < |ds| && Spaced(ds)
    ensures HasRow(ds, ds[i])
  {
    hide Stored, Accepted, Spaced, FirstTime;
    var first := FirstOf(ds, i);
    SpacedFirstIsAccepted(ds, first);
    AcceptedIsStored(ds, first);
  }

  ghost predicate RowsAreDistinct(ds: seq<Uplink>) {
    forall q, r | 0 <= q < r < |Stored(ds)| :: !SameEmission(Stored(ds)[q], Stored(ds)[r])
  }

  /** No two rows are of the same emission if and only if no emission comes back. */
  lemma RowsAreDistinctIff(ds: seq<Uplink>)
    requires Spaced(ds)
    ensures RowsAreDistinct(ds) <==> NoComeback(ds)
  {
    hide Stored, Run, FindSlot, Accepted, Spaced, FirstTime, NoComeback;
    SpacedDedupIsExactIff(ds);
    if !ExactlyOnce(ds) {
      var i :| 0 <= i < |ds| && Accepted(ds, i) != FirstTime(ds, i);
      SecondRow(ds, i);
    } else {
      forall q, r | 0 <= q < r < |Stored(ds)|
        ensures !SameEmission(Stored(ds)[q], Stored(ds)[r])
      {
        DifferentRows(ds, q, r);
      }
    }
  }

  lemma DifferentRows(ds: seq<Uplink>, q: nat, r: nat)
    requires q < r < |Stored(ds)| && ExactlyOnce(ds)
    ensures !SameEmission(Stored(ds)[q], Stored(ds)[r])
  {
    hide Stored, Run, FindSlot, Accepted;
    StoredByIndex(ds, r);
    var i :| 0 <= i < |ds| && Accepted(ds, i) && ds[i] == Stored(ds)[r] && Stored(ds[..i]) == Stored(ds)[..r];
    assert Stored(ds)[q] == Stored(ds[..i])[q];
    StoredWereDelivered(ds[..i], Stored(ds)[q]);
    assert FirstTime(ds, i);
  }

  /** A later reception that is accepted makes a second row of its emission. */
  lemma SecondRow(ds: seq<Uplink>, i: nat)
    requires i < |ds| && Spaced(ds) && Accepted(ds, i) != FirstTime(ds, i)
    ensures !RowsAreDistinct(ds)
  {
    hide Stored, Run, FindSlot, Accepted, Spaced, FirstTime;
    if FirstTime(ds, i) {
      SpacedFirstIsAccepted(ds, i);
    }
    var first := FirstOf(ds, i);
    SpacedFirstIsAccepted(ds, first);
    StoredAt(ds, i);
    StoredAt(ds, first);
    AcceptedInPrefix(ds, first, i);
    StoredAt(ds[..i], first);
    assert ds[..i][..first] == ds[..first];
  }

  lemma AcceptedInPrefix(ds: seq<Uplink>, i: nat, n: nat)
    requires i < n <= |ds|
    ensures Accepted(ds[..n], i) <==> Accepted(ds, i)
  {
    assert ds[..n][..i] == ds[..i];
  }

  /** Where the row of an accepted delivery stands. */
  lemma {:induction false} StoredAt(ds: seq<Uplink>, i: nat)
    requires i < |ds| && Accepted(ds, i)
    ensures |Stored(ds[..i])| < |Stored(ds)| && Stored(ds)[|Stored(ds[..i])|] == ds[i]
    decreases |ds|
  {
    var init := ds[..|ds| - 1];
    if i < |init| {
      assert init[..i] == ds[..i];
      StoredAt(init, i);
    }
  }

  lemma FirstOf(ds: seq<Uplink>, i: nat) returns (first: nat)
    requires i < |ds|
    ensures first <= i && SameEmission(ds[first], ds[i]) && FirstTime(ds, first)
    decreases i
  {
    if FirstTime(ds, i) {
      first := i;
    } else {
      var m :| 0 <= m < i && SameEmission(ds[m], ds[i]);
      first := FirstOf(ds, m);
    }
  }
}
