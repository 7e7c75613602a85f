/** The downlink over whole runs: arming safety, convergence, and when `unchanged` tells the truth. */
module DownlinkRuns {
  import opened Wrappers
  import opened Fingerprints
  import opened Downlink

  /** A poll with whatever was fetched and whatever became of its sends, or a reboot of the base,
      which loses its registers. */
  datatype Event = Polled(fetched: Option<Race>, force: bool, attempt: Attempt) | Reboot

  predicate EventOk(e: Event) {
    e.Polled? ==> AttemptOk(e.attempt)
  }

  function Next(s: Control, e: Event): Control {
    match e
    case Polled(fetched, force, a) => Poll(s, fetched, force, a).0
    case Reboot => s.(base := s.base.(regs := BLANK))
  }

  function Run(s: Control, events: seq<Event>): Control
    decreases |events|
  {
    if events == [] then s else Next(Run(s, events[..|events| - 1]), events[|events| - 1])
  }

  ghost predicate FetchedIn(events: seq<Event>, c: Canonical) {
    exists i :: 0 <= i < |events| && events[i].Polled? && events[i].fetched.Some?
                && Canonicalize(events[i].fetched.value) == c
  }

  // ----- arming safety -----

  /** The four registers are those of one and the same race state of the run. */
  ghost predicate OfOneRace(events: seq<Event>, r: Registers) {
    exists c :: FetchedIn(events, c) && Encodable(c) && r == Target(c)
  }

  /** At every arming since then, the registers were of one race state. */
  ghost predicate ArmedSafely(s: Control, since: nat, events: seq<Event>) {
    since <= |s.base.armings|
    && forall k | since <= k < |s.base.armings| :: OfOneRace(events, s.base.armings[k])
  }

  lemma ArmingStep(s: Control, e: Event)
    requires EventOk(e)
    ensures Next(s, e).base.armings == s.base.armings
            || (e.Polled? && e.fetched.Some? && Encodable(Canonicalize(e.fetched.value))
                && Next(s, e).base.armings == s.base.armings + [Target(Canonicalize(e.fetched.value))])
  {
    hide Fingerprint, Canonicalize, Target;
  }

  lemma FetchedLater(events: seq<Event>, e: Event, c: Canonical)
    requires FetchedIn(events, c)
    ensures FetchedIn(events + [e], c)
  {
    hide Canonicalize;
    var i :| 0 <= i < |events| && events[i].Polled? && events[i].fetched.Some?
             && Canonicalize(events[i].fetched.value) == c;
    assert (events + [e])[i] == events[i];
  }

  /** Arming safety: over any run of polls, forced or not, with failures at any send and reboots
      between polls, whenever the base receives SET_ARMED its timing, epoch and slot map are
      already those of the race state whose armed flag it receives. */
  lemma {:induction false} ArmingIsSafe(s: Control, events: seq<Event>)
    requires forall e | e in events :: EventOk(e)
    ensures ArmedSafely(Run(s, events), |s.base.armings|, events)
    decreases |events|
  {
    hide Fingerprint, Canonicalize, Target, Next;
    if events != [] {
      var init, e := events[..|events| - 1], events[|events| - 1];
      assert events == init + [e];
      assert forall x | x in init :: x in events;
      ArmingIsSafe(s, init);
      var before, after := Run(s, init), Run(s, events);
      assert e in events;
      ArmingStep(before, e);
      assert after == Next(before, e);
      assert ArmedSafely(before, |s.base.armings|, init);
      forall k | |s.base.armings| <= k < |after.base.armings|
        ensures OfOneRace(events, after.base.armings[k])
      {
        if k < |before.base.armings| {
          assert after.base.armings[k] == before.base.armings[k] && OfOneRace(init, before.base.armings[k]);
          var c :| FetchedIn(init, c) && Encodable(c) && before.base.armings[k] == Target(c);
          FetchedLater(init, e, c);
          assert FetchedIn(events, c) && after.base.armings[k] == Target(c);
        } else {
          assert events[|events| - 1] == e;
          var c := Canonicalize(e.fetched.value);
          assert FetchedIn(events, c) && after.base.armings[k] == Target(c);
        }
      }
    }
  }

  /** The i-th event fetched this race document. */
  predicate Fetched(events: seq<Event>, i: nat) {
    i < |events| && events[i].Polled? && events[i].fetched.Some?
  }

  /** In terms of the race documents: at every arming the four registers hold one and the same race
      that was fetched in the run, its armed flag included, and without loss if its values fit
      their fields. */
  lemma ArmingMatchesTheRace(s: Control, events: seq<Event>, k: nat)
    requires forall e | e in events :: EventOk(e)
    requires |s.base.armings| <= k < |Run(s, events).base.armings|
    ensures exists i: nat :: Fetched(events, i)
                        && Programs(events[i].fetched.value, Run(s, events).base.armings[k])
                        && (FitsFields(events[i].fetched.value) ==>
                              ProgramsExactly(events[i].fetched.value, Run(s, events).base.armings[k]))
  {
    hide Run, Target, Canonicalize, Programs, ProgramsExactly, FitsFields;
    ArmingIsSafe(s, events);
    var after := Run(s, events);
    assert OfOneRace(events, after.base.armings[k]);
    var c :| FetchedIn(events, c) && Encodable(c) && after.base.armings[k] == Target(c);
    var i: nat :| i < |events| && events[i].Polled? && events[i].fetched.Some?
                  && Canonicalize(events[i].fetched.value) == c;
    assert Fetched(events, i);
    TargetIsTheRace(events[i].fetched.value);
    if FitsFields(events[i].fetched.value) {
      TargetIsExact(events[i].fetched.value);
    }
  }

  // ----- a base that reboots between the frames of one poll -----

  function Rebooted(b: Base): Base {
    b.(regs := BLANK)
  }

  /** The base after the first k frames of c, all delivered; reboots[i] says whether it reboots just
      before the i-th. */
  function Interrupted(b: Base, c: Canonical, reboots: seq<bool>, k: nat): Base
    requires k <= |reboots| == 4
  {
    if k == 0 then b
    else
      var before := Interrupted(b, c, reboots, k - 1);
      Receive(if reboots[k - 1] then Rebooted(before) else before, Wires(c)[k - 1])
  }

  /** Does a reboot wipe register i before frame k is received? */
  predicate Wiped(reboots: seq<bool>, i: nat, k: nat)
    requires k <= |reboots|
  {
    exists j :: i < j < k && reboots[j]
  }

  /** Register i is programmed, or blank if a reboot came after its frame. */
  predicate Kept(regs: Registers, t: Registers, reboots: seq<bool>, i: nat, k: nat)
    requires k <= |reboots|
  {
    SameRegister(regs, if Wiped(reboots, i, k) then BLANK else t, i)
  }

  predicate RegistersKept(regs: Registers, t: Registers, reboots: seq<bool>, k: nat)
    requires k <= |reboots|
  {
    forall i | 0 <= i < k :: Kept(regs, t, reboots, i, k)
  }

  lemma KeptNext(regs: Registers, t: Registers, reboots: seq<bool>, k: nat)
    requires k < |reboots| == 4 && RegistersKept(regs, t, reboots, k)
    ensures RegistersKept(WithRegister(if reboots[k] then BLANK else regs, t, k), t, reboots, k + 1)
  {
    var regs' := WithRegister(if reboots[k] then BLANK else regs, t, k);
    var n := k + 1;
    forall i | 0 <= i < n
      ensures Kept(regs', t, reboots, i, n)
    {
      if i < k {
        assert Wiped(reboots, i, n) <==> reboots[k] || Wiped(reboots, i, k);
        assert Kept(regs, t, reboots, i, k);
      }
    }
  }

  lemma {:induction false} InterruptedKeeps(b: Base, c: Canonical, reboots: seq<bool>, k: nat)
    requires k <= |reboots| == 4 && Encodable(c)
    ensures RegistersKept(Interrupted(b, c, reboots, k).regs, Target(c), reboots, k)
    ensures var b' := Interrupted(b, c, reboots, k);
      b'.armings == b.armings + if k == 4 then [b'.regs] else []
    decreases k
  {
    hide Target, Wires, Receive, RegistersKept, WithRegister;
    if k > 0 {
      InterruptedKeeps(b, c, reboots, k - 1);
      var before := Interrupted(b, c, reboots, k - 1);
      FrameSetsRegister(if reboots[k - 1] then Rebooted(before) else before, c, k - 1);
      KeptNext(before.regs, Target(c), reboots, k - 1);
    } else {
      assert RegistersKept(b.regs, Target(c), reboots, 0) by {
        NothingKept(b.regs, Target(c), reboots);
      }
    }
  }

  lemma NothingKept(regs: Registers, t: Registers, reboots: seq<bool>)
    ensures RegistersKept(regs, t, reboots, 0)
  {
  }

  /** The exact condition for arming safety within one poll whose frames are all delivered: the base
      is armed on the race state if and only if it did not reboot between its first frame and
      SET_ARMED. */
  lemma ArmingIsSafeIff(b: Base, c: Canonical, reboots: seq<bool>)
    requires |reboots| == 4 && Encodable(c)
    ensures var b' := Interrupted(b, c, reboots, 4);
      && b'.armings == b.armings + [b'.regs]
      && (b'.regs == Target(c) <==> !reboots[1] && !reboots[2] && !reboots[3])
  {
    hide Target, Wires, Receive, Interrupted;
    var regs := Interrupted(b, c, reboots, 4).regs;
    InterruptedKeeps(b, c, reboots, 4);
    TargetIsComplete(c);
    assert Kept(regs, Target(c), reboots, 0, 4);
    assert Kept(regs, Target(c), reboots, 1, 4);
    assert Kept(regs, Target(c), reboots, 2, 4);
    assert Kept(regs, Target(c), reboots, 3, 4);
    assert Wiped(reboots, 0, 4) <==> reboots[1] || reboots[2] || reboots[3];
  }

  lemma TargetIsComplete(c: Canonical)
    ensures Target(c).timing.Some? && Target(c).epoch.Some? && Target(c).slots.Some? && Target(c).armed.Some?
  {
  }

  /** The failing run: the base reboots after SET_TIMING, the gateway sees four successful sends, and
      the base is armed with its timing blank. */
  lemma ArmedOnBlankTiming(b: Base, c: Canonical)
    requires Encodable(c)
    ensures var b' := Interrupted(b, c, [false, true, false, false], 4);
      b'.armings == b.armings + [Target(c).(timing := None)]
  {
    hide Target, Wires, Receive, Interrupted;
    var reboots := [false, true, false, false];
    var regs := Interrupted(b, c, reboots, 4).regs;
    InterruptedKeeps(b, c, reboots, 4);
    assert Wiped(reboots, 0, 4) && !Wiped(reboots, 1, 4) && !Wiped(reboots, 2, 4) && !Wiped(reboots, 3, 4) by {
      assert reboots[1];
    }
    assert Kept(regs, Target(c), reboots, 0, 4) && Kept(regs, Target(c), reboots, 1, 4);
    assert Kept(regs, Target(c), reboots, 2, 4) && Kept(regs, Target(c), reboots, 3, 4);
  }

  /** Without reboots the frames program the base as a poll does. */
  lemma {:induction false} NotInterrupted(b: Base, c: Canonical, k: nat)
    requires k <= 4 && Encodable(c)
    ensures Interrupted(b, c, [false, false, false, false], k) == Program(b, c, k)
    decreases k
  {
    hide Target, Wires, Receive, Program;
    if k == 0 {
      NothingProgrammed(b, c);
    } else {
      NotInterrupted(b, c, k - 1);
      NextFrameProgramsNext(b, c, k - 1);
    }
  }

  // ----- convergence -----

  /** A poll that fetches c or finds no race. */
  predicate Shows(e: Event, c: Canonical) {
    e.Polled? && AttemptOk(e.attempt) && (e.fetched.Some? ==> Canonicalize(e.fetched.value) == c)
  }

  predicate Settled(s: Control, c: Canonical) {
    s.cache == Some(Fingerprint(c)) && s.base.regs == Target(c)
  }

  /** A poll whose four sends succeed programs the base, if the state differs from the cache or
      the poll is forced. */
  lemma AppliedPollSettles(s: Control, e: Event, c: Canonical)
    requires Shows(e, c) && e.fetched.Some? && e.attempt.sent == 4 && Encodable(c)
    requires e.force || s.cache != Some(Fingerprint(c))
    ensures Settled(Next(s, e), c)
    ensures Poll(s, e.fetched, e.force, e.attempt).1 == PollApplied
  {
    hide Fingerprint;
  }

  /** Unforced polls of a cached state change nothing, whatever the base holds. */
  lemma {:induction false} CachedStays(s: Control, events: seq<Event>, c: Canonical)
    requires s.cache == Some(Fingerprint(c))
    requires forall e | e in events :: Shows(e, c) && !e.force
    ensures Run(s, events) == s
    decreases |events|
  {
    if events != [] {
      hide Fingerprint, Canonicalize;
      assert forall e | e in events[..|events| - 1] :: e in events;
      CachedStays(s, events[..|events| - 1], c);
      assert events[|events| - 1] in events;
    }
  }

  /** Until a poll succeeds, failing polls do not touch the cache, so the state is attempted again. */
  lemma {:induction false} FailuresKeepTheCache(s: Control, events: seq<Event>)
    requires forall e | e in events :: e.Reboot? || e.fetched.None? || e.attempt.sent < 4
    ensures Run(s, events).cache == s.cache
    decreases |events|
  {
    if events != [] {
      hide Fingerprint, Canonicalize;
      assert forall e | e in events[..|events| - 1] :: e in events;
      FailuresKeepTheCache(s, events[..|events| - 1]);
      assert events[|events| - 1] in events;
    }
  }

  /** Is a failed state attempted again?  After any failing polls, of this state or others, and
      reboots, the next unforced poll of c sends if and only if the cache did not hold c's
      fingerprint when the failures began. */
  lemma RetriedIff(s: Control, failing: seq<Event>, race: Race, attempt: Attempt)
    requires forall e | e in failing :: e.Reboot? || e.fetched.None? || e.attempt.sent < 4
    requires Encodable(Canonicalize(race))
    ensures var status := Poll(Run(s, failing), Some(race), false, attempt).1;
      && (status == PollApplied || status == PollError <==> s.cache != Some(Fingerprint(Canonicalize(race))))
      && (status == PollUnchanged <==> s.cache == Some(Fingerprint(Canonicalize(race))))
  {
    hide Fingerprint, Canonicalize, Run;
    FailuresKeepTheCache(s, failing);
  }

  lemma {:induction false} RunConcat(s: Control, a: seq<Event>, b: seq<Event>)
    ensures Run(s, a + b) == Run(Run(s, a), b)
    decreases |b|
  {
    if b == [] {
      assert a + b == a;
    } else {
      assert (a + b)[..|a + b| - 1] == a + b[..|b| - 1];
      RunConcat(s, a, b[..|b| - 1]);
    }
  }

  lemma RunOne(s: Control, e: Event)
    ensures Run(s, [e]) == Next(s, e)
  {
    assert [e][..0] == [];
    assert Run(s, []) == s;
  }

  /** Convergence: from any base registers, if all polls show the state c, and c differs from the
      cache or the successful poll is forced, then after any failures, with reboots among
      them, the first poll whose four sends succeed leaves the base programmed and the cache in
      step, and later polls change nothing. */
  lemma Convergence(s: Control, failing: seq<Event>, first: Event, later: seq<Event>, c: Canonical)
    requires Encodable(c)
    requires forall e | e in failing :: e.Reboot? || (Shows(e, c) && (e.fetched.None? || e.attempt.sent < 4))
    requires Shows(first, c) && first.fetched.Some? && first.attempt.sent == 4
    requires first.force || s.cache != Some(Fingerprint(c))
    requires forall e | e in later :: Shows(e, c) && !e.force
    ensures Settled(Run(s, failing + [first] + later), c)
    ensures Programs(first.fetched.value, Run(s, failing + [first] + later).base.regs)
    ensures Run(s, failing + [first] + later) == Run(s, failing + [first])
  {
    hide Fingerprint, Canonicalize, Target, Next, Programs;
    TargetIsTheRace(first.fetched.value);
    FailuresKeepTheCache(s, failing);
    RunConcat(s, failing, [first]);
    RunOne(Run(s, failing), first);
    AppliedPollSettles(Run(s, failing), first, c);
    RunConcat(s, failing + [first], later);
    CachedStays(Run(s, failing + [first]), later, c);
  }

  // ----- when `unchanged` tells the truth -----

  /** Do two register files agree in register number k? */
  predicate SameRegister(a: Registers, b: Registers, k: nat) {
    match k
    case 0 => a.timing == b.timing
    case 1 => a.epoch == b.epoch
    case 2 => a.slots == b.slots
    case _ => a.armed == b.armed
  }

  lemma SameRegisters(a: Registers, b: Registers)
    ensures a == b <==> forall k | 0 <= k < 4 :: SameRegister(a, b, k)
  {
    assert SameRegister(a, b, 0) && SameRegister(a, b, 1) && SameRegister(a, b, 2) && SameRegister(a, b, 3)
           ==> a == b;
  }

  /** A poll that sends frames while the cache says a. */
  predicate Sends(e: Event, a: Canonical) {
    && e.Polled? && e.fetched.Some? && Encodable(Canonicalize(e.fetched.value))
    && (e.force || Canonicalize(e.fetched.value) != a)
  }

  /** Anything but a poll that is applied: a reboot, or a poll that is idle, unchanged, raises, or
      errors after fewer than four sends. */
  predicate NotApplied(e: Event, a: Canonical) {
    e.Polled? ==> AttemptOk(e.attempt) && (Sends(e, a) ==> e.attempt.sent < 4)
  }

  /** What the event writes to register k: a reboot blanks it, and a poll that sends reaches as
      many registers as frames were delivered. */
  function Write(e: Event, a: Canonical, k: nat): Option<Registers> {
    if e.Reboot? then Some(BLANK)
    else if Sends(e, a) && k < e.attempt.delivered then Some(Target(Canonicalize(e.fetched.value)))
    else None
  }

  function LastWrite(events: seq<Event>, a: Canonical, k: nat): Option<Registers>
    decreases |events|
  {
    if events == [] then None
    else
      var w := Write(events[|events| - 1], a, k);
      if w.Some? then w else LastWrite(events[..|events| - 1], a, k)
  }

  /** If anything wrote register k, it was last left with the value that a has there. */
  predicate LeftAs(events: seq<Event>, a: Canonical, k: nat) {
    var w := LastWrite(events, a, k);
    w.Some? ==> SameRegister(w.value, Target(a), k)
  }

  lemma WriteStep(s: Control, e: Event, a: Canonical, t: Registers, k: nat)
    requires s.cache == Some(Fingerprint(a)) && NotApplied(e, a) && k < 4
    ensures Next(s, e).cache == s.cache
    ensures var w := Write(e, a, k);
      SameRegister(Next(s, e).base.regs, t, k) <==> SameRegister(if w.Some? then w.value else s.base.regs, t, k)
  {
    hide Fingerprint, Canonicalize, Target;
    if e.Polled? && e.fetched.Some? {
      var c := Canonicalize(e.fetched.value);
      if Fingerprint(c) == Fingerprint(a) {
        FingerprintInjective(c, a);
      }
    }
  }

  lemma {:induction false} RegisterAfter(s: Control, events: seq<Event>, a: Canonical, t: Registers, k: nat)
    requires s.cache == Some(Fingerprint(a)) && k < 4
    requires forall e | e in events :: NotApplied(e, a)
    ensures Run(s, events).cache == s.cache
    ensures var w := LastWrite(events, a, k);
      SameRegister(Run(s, events).base.regs, t, k)
      <==> SameRegister(if w.Some? then w.value else s.base.regs, t, k)
    decreases |events|
  {
    hide Fingerprint, Next, NotApplied, Write, SameRegister;
    if events != [] {
      var init, last := events[..|events| - 1], events[|events| - 1];
      assert forall e | e in init :: e in events;
      assert last in events;
      RegisterAfter(s, init, a, t, k);
      WriteStep(Run(s, init), last, a, t, k);
    }
  }

  /** The base was programmed with A and the cache says so; then anything happened short of an
      applied poll: errored, idle, unchanged and raising polls of any states, and reboots.  If the
      cloud now shows A, an unforced poll reports `unchanged` and sends nothing, and the base
      holds A if and only if every register written since was last left with A's value. */
  lemma UnchangedIsTrueIff(s: Control, a: Canonical, events: seq<Event>, race: Race, attempt: Attempt)
    requires Settled(s, a) && Canonicalize(race) == a
    requires forall e | e in events :: NotApplied(e, a)
    ensures var s' := Run(s, events);
      && Poll(s', Some(race), false, attempt) == (s', PollUnchanged)
      && (s'.base.regs == Target(a) <==> forall k | 0 <= k < 4 :: LeftAs(events, a, k))
  {
    hide Fingerprint, Canonicalize, Target, LastWrite, SameRegister, NotApplied, Run;
    var r := Run(s, events).base.regs;
    RegisterAfter(s, events, a, Target(a), 0);
    SameRegisters(r, Target(a));
    SameRegisters(Target(a), Target(a));
    forall k | 0 <= k < 4
      ensures SameRegister(r, Target(a), k) <==> LeftAs(events, a, k)
    {
      RegisterAfter(s, events, a, Target(a), k);
    }
  }

  /** In particular `unchanged` is true when no frame has reached the base since, and it has not
      rebooted. */
  lemma UnchangedAfterCleanRun(s: Control, a: Canonical, events: seq<Event>, race: Race, attempt: Attempt)
    requires Settled(s, a) && Canonicalize(race) == a
    requires forall e | e in events :: NotApplied(e, a) && e.Polled? && (Sends(e, a) ==> e.attempt.delivered == 0)
    ensures Poll(Run(s, events), Some(race), false, attempt) == (Run(s, events), PollUnchanged)
    ensures Run(s, events).base.regs == Target(a)
  {
    hide Fingerprint, Canonicalize, Target, SameRegister, NotApplied, Sends, Run;
    UnchangedIsTrueIff(s, a, events, race, attempt);
    forall k | 0 <= k < 4
      ensures LeftAs(events, a, k)
    {
      NothingWritten(events, a, k);
    }
  }

  lemma {:induction false} NothingWritten(events: seq<Event>, a: Canonical, k: nat)
    requires forall e | e in events :: e.Polled? && (Sends(e, a) ==> e.attempt.delivered == 0)
    ensures LastWrite(events, a, k) == None
    decreases |events|
  {
    hide Sends;
    if events != [] {
      assert forall e | e in events[..|events| - 1] :: e in events;
      NothingWritten(events[..|events| - 1], a, k);
      assert events[|events| - 1] in events;
    }
  }

  /** A failing run: after a reboot the base is blank, and `unchanged` is reported all the same. */
  lemma UnchangedAfterReboot(s: Control, race: Race, attempt: Attempt)
    requires Settled(s, Canonicalize(race))
    ensures var s' := Run(s, [Reboot]);
      && Poll(s', Some(race), false, attempt) == (s', PollUnchanged)
      && s'.base.regs == BLANK != Target(Canonicalize(race))
  {
    hide Fingerprint, Canonicalize;
    RunOne(s, Reboot);
  }

  /** Another: A is applied, the poll of B errors with the timing delivered, and the cloud goes
      back to A.  The base keeps the timing of B, and `unchanged` is reported. */
  lemma UnchangedAfterHalfSent(s: Control, raceA: Race, raceB: Race, half: Attempt, attempt: Attempt)
    requires var a, b := Canonicalize(raceA), Canonicalize(raceB);
      && Encodable(a) && Encodable(b) && s.cache != Some(Fingerprint(a))
      && Target(a).timing != Target(b).timing
    requires AttemptOk(half) && half.sent < 4 && half.delivered > 0
    ensures var s' := Run(s, [Polled(Some(raceA), false, Attempt(4, 4)), Polled(Some(raceB), false, half)]);
      && Poll(s', Some(raceA), false, attempt) == (s', PollUnchanged)
      && s'.base.regs.timing == Target(Canonicalize(raceB)).timing != Target(Canonicalize(raceA)).timing
  {
    hide Fingerprint, Canonicalize, Target;
    var first, second := Polled(Some(raceA), false, Attempt(4, 4)), Polled(Some(raceB), false, half);
    var a, b := Canonicalize(raceA), Canonicalize(raceB);
    AppliedPollSettles(s, first, a);
    assert [first, second] == [first] + [second];
    RunConcat(s, [first], [second]);
    RunOne(s, first);
    RunOne(Next(s, first), second);
    WriteStep(Next(s, first), second, a, Target(b), 0);
  }

  // ----- the forced first poll -----

  /** The downlink loop: force is true for the first poll only, however that poll ends. */
  function LoopEvents(fetches: seq<Option<Race>>, attempts: seq<Attempt>): seq<Event>
    requires |fetches| == |attempts|
  {
    seq(|fetches|, i requires 0 <= i < |fetches| => Polled(fetches[i], i == 0, attempts[i]))
  }

  /** The loop itself; a poll that raises is logged and does not end it. */
  method DownlinkLoop(d: CloudDownlinker, fetches: seq<Option<Race>>) returns (ghost attempts: seq<Attempt>)
    modifies d, d.link
    ensures |attempts| == |fetches| && forall t | t in attempts :: AttemptOk(t)
    ensures d.View() == Run(old(d.View()), LoopEvents(fetches, attempts))
  {
    hide Poll;
    attempts := [];
    var first := true;
    assert LoopEvents(fetches[..0], attempts) == [];
    for i := 0 to |fetches|
      invariant |attempts| == i && first == (i == 0)
      invariant forall t | t in attempts :: AttemptOk(t)
      invariant d.View() == Run(old(d.View()), LoopEvents(fetches[..i], attempts))
    {
      ghost var events := LoopEvents(fetches[..i], attempts);
      ghost var a := AttemptFrom(d.link.outcomes, d.link.sends, 0);
      var r := d.PollOnce(fetches[i], first);
      first := false;
      attempts := attempts + [a];
      assert LoopEvents(fetches[..i + 1], attempts) == events + [Polled(fetches[i], i == 0, a)];
    }
    assert fetches[..|fetches|] == fetches;
  }

  /** Startup with a cache that already says A, for example because the base has rebooted: only
      the first poll can send anything.  The base ends up programmed with A, however often the
      loop goes on polling A, if and only if the registers that the first poll did not reach
      already held A's values. */
  lemma ForcedFirstPollDecides(s: Control, fetches: seq<Option<Race>>, attempts: seq<Attempt>, a: Canonical)
    requires |fetches| == |attempts| > 0 && Encodable(a) && s.cache == Some(Fingerprint(a))
    requires forall f | f in fetches :: f.Some? ==> Canonicalize(f.value) == a
    requires forall t | t in attempts :: AttemptOk(t)
    ensures var reached := if fetches[0].None? then 0
                           else if attempts[0].sent == 4 then 4 else attempts[0].delivered;
      Run(s, LoopEvents(fetches, attempts)).base.regs == Target(a)
      <==> forall k | reached <= k < 4 :: SameRegister(s.base.regs, Target(a), k)
  {
    hide Fingerprint, Canonicalize, Target, Next;
    var events := LoopEvents(fetches, attempts);
    var first, later := events[0], events[1..];
    assert events == [first] + later;
    RunConcat(s, [first], later);
    RunOne(s, first);
    var s' := Next(s, first);
    assert fetches[0] in fetches && attempts[0] in attempts;
    FirstPoll(s, first, a);
    forall e | e in later
      ensures Shows(e, a) && !e.force
    {
      var i :| 0 <= i < |later| && later[i] == e;
      assert fetches[i + 1] in fetches && attempts[i + 1] in attempts;
    }
    CachedStays(s', later, a);
  }

  /** A failing run: the base is blank, the cache says A, and the forced first poll finds no race or
      errors before its SET_ARMED is delivered.  However often the loop goes on polling A, it sends
      nothing more, and the base is never armed. */
  lemma FailedStartIsNotRetried(s: Control, fetches: seq<Option<Race>>, attempts: seq<Attempt>, a: Canonical)
    requires |fetches| == |attempts| > 0 && Encodable(a)
    requires s.cache == Some(Fingerprint(a)) && s.base.regs == BLANK
    requires forall f | f in fetches :: f.Some? ==> Canonicalize(f.value) == a
    requires forall t | t in attempts :: AttemptOk(t)
    requires fetches[0].None? || attempts[0].delivered < 4
    ensures var b := Run(s, LoopEvents(fetches, attempts)).base;
      b.regs != Target(a) && b.armings == s.base.armings
    ensures fetches[0].None? || attempts[0].delivered == 0 ==>
      Run(s, LoopEvents(fetches, attempts)).base.regs == BLANK
  {
    hide Fingerprint, Canonicalize, Target, Next;
    var events := LoopEvents(fetches, attempts);
    var first, later := events[0], events[1..];
    assert events == [first] + later;
    RunConcat(s, [first], later);
    RunOne(s, first);
    assert fetches[0] in fetches && attempts[0] in attempts;
    FirstPoll(s, first, a);
    FailedFirstPoll(s, first, a);
    forall e | e in later
      ensures Shows(e, a) && !e.force
    {
      var i :| 0 <= i < |later| && later[i] == e;
      assert fetches[i + 1] in fetches && attempts[i + 1] in attempts;
    }
    CachedStays(Next(s, first), later, a);
  }

  lemma FailedFirstPoll(s: Control, first: Event, a: Canonical)
    requires Encodable(a) && Shows(first, a) && first.force && s.base.regs == BLANK
    requires first.fetched.None? || first.attempt.delivered < 4
    ensures var b := Next(s, first).base; b.regs != Target(a) && b.armings == s.base.armings
    ensures first.fetched.None? || first.attempt.delivered == 0 ==> Next(s, first).base.regs == BLANK
  {
    hide Fingerprint, Canonicalize, Target;
    TargetIsComplete(a);
    assert s.base.armings + [] == s.base.armings;
  }

  lemma FirstPoll(s: Control, first: Event, a: Canonical)
    requires s.cache == Some(Fingerprint(a)) && Encodable(a) && Shows(first, a) && first.force
    ensures var reached := if first.fetched.None? then 0
                           else if first.attempt.sent == 4 then 4 else first.attempt.delivered;
      && Next(s, first).cache == s.cache
      && (Next(s, first).base.regs == Target(a)
          <==> forall k | reached <= k < 4 :: SameRegister(s.base.regs, Target(a), k))
  {
    hide Fingerprint, Canonicalize, Target;
    var t, r := Target(a), s.base.regs;
    var reached := if first.fetched.None? then 0
                   else if first.attempt.sent == 4 then 4 else first.attempt.delivered;
    assert Next(s, first).base.regs == Overwrite(r, t, reached);
    assert SameRegister(r, t, 0) <==> r.timing == t.timing;
    assert SameRegister(r, t, 1) <==> r.epoch == t.epoch;
    assert SameRegister(r, t, 2) <==> r.slots == t.slots;
    assert SameRegister(r, t, 3) <==> r.armed == t.armed;
  }
}
