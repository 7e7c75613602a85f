/** The reconnecting reader: the connection's state machine and what it feeds to the de-framer. */
module SerialIo {
  import opened Bytes
  import opened ExponentialBackoff
  import opened Framing
  import opened Deframer

  // ----- the environment, cycle by cycle -----

  /** One attempt to open the port; an opened object may still report that it is not open. */
  datatype OpenOutcome = OpenRaises | Opened(isOpen: bool)

  /** One read; Chunk([]) is an idle read. */
  datatype ReadOutcome = ReadFault | Chunk(data: seq<byte>)

  /** What one call of poll_once meets: the attempts to open the port, if it comes to that, until
      stop is requested, and the read. */
  datatype Cycle = Cycle(opens: seq<OpenOutcome>, read: ReadOutcome)

  // ----- the connection -----

  datatype Connection = Connection(hasPort: bool, connected: bool, everConnected: bool, reconnects: nat)

  /** The attempt that succeeds, or |opens| if none does before stop. */
  function FirstSuccess(opens: seq<OpenOutcome>): (k: nat)
    ensures k <= |opens|
    ensures forall i | 0 <= i < k :: opens[i].OpenRaises?
    ensures k < |opens| ==> opens[k].Opened?
  {
    if opens == [] || opens[0].Opened? then 0 else 1 + FirstSuccess(opens[1..])
  }

  predicate FirstEver(c: Connection) {
    c.reconnects == 0 && !c.everConnected
  }

  predicate NeedsPort(c: Connection) {
    !c.hasPort || !c.connected
  }

  function Reconnected(c: Connection, opens: seq<OpenOutcome>): Connection {
    var k := FirstSuccess(opens);
    if k == |opens| then c
    else Connection(true, opens[k].isOpen, true, c.reconnects + if FirstEver(c) then 0 else 1)
  }

  /** The connection after one cycle, and the bytes read in it. */
  function AfterCycle(c: Connection, cycle: Cycle): (Connection, seq<byte>) {
    var stopped := NeedsPort(c) && FirstSuccess(cycle.opens) == |cycle.opens|;
    var c' := if NeedsPort(c) then Reconnected(c, cycle.opens) else c;
    if stopped then (c, [])
    else
      match cycle.read
      case ReadFault => (c'.(hasPort := false, connected := false), [])
      case Chunk(data) => (c', data)
  }

  ghost predicate CanOpen(opens: seq<OpenOutcome>) {
    exists k :: 0 <= k < |opens| && opens[k].Opened?
  }

  /** The k-th attempt is the first to succeed. */
  predicate OpensAt(opens: seq<OpenOutcome>, k: nat) {
    k < |opens| && opens[k].Opened? && forall i | 0 <= i < k :: opens[i].OpenRaises?
  }

  lemma SuccessMeans(opens: seq<OpenOutcome>)
    ensures FirstSuccess(opens) < |opens| <==> CanOpen(opens)
  {
  }

  /** One cycle in plain terms.  A port that is there and connected is used; otherwise one is opened,
      and if none can be, nothing else happens.  A read gives its bytes; a read fault gives none and
      leaves the reader without a port and not connected. */
  ghost predicate CycledAs(before: Connection, cycle: Cycle, after: Connection, bytes: seq<byte>) {
    var usable := before.hasPort && before.connected;
    && (!usable && !CanOpen(cycle.opens) ==> after == before && bytes == [])
    && (usable || CanOpen(cycle.opens) ==>
          && (cycle.read.Chunk? ==> bytes == cycle.read.data && after.hasPort)
          && (cycle.read.ReadFault? ==> bytes == [] && !after.hasPort && !after.connected)
          && (usable ==> after.everConnected == before.everConnected && after.reconnects == before.reconnects)
          && (usable && cycle.read.Chunk? ==> after == before)
          && (!usable ==> after.everConnected)
          && (!usable ==>
                after.reconnects == before.reconnects + if before.everConnected || before.reconnects > 0 then 1 else 0)
          && (forall k: nat | !usable && cycle.read.Chunk? && OpensAt(cycle.opens, k) ::
                after.connected == cycle.opens[k].isOpen))
  }

  lemma CycleMeans(c: Connection, cycle: Cycle)
    ensures var (c', bytes) := AfterCycle(c, cycle); CycledAs(c, cycle, c', bytes)
  {
    hide FirstSuccess;
    var k := FirstSuccess(cycle.opens);
    assert CanOpen(cycle.opens) <==> k < |cycle.opens|;
    forall j: nat | OpensAt(cycle.opens, j)
      ensures j == k
    {
    }
  }

  lemma CycleReads(c: Connection, cycle: Cycle)
    ensures AfterCycle(c, cycle).1
         == if ((c.hasPort && c.connected) || CanOpen(cycle.opens)) && cycle.read.Chunk? then cycle.read.data else []
  {
    CycleMeans(c, cycle);
  }

  /** A number of cycles in plain terms: the connections between them, and what each has read. */
  ghost predicate RanAs(conns: seq<Connection>, cycles: seq<Cycle>, chunks: seq<seq<byte>>) {
    && |conns| == |cycles| + 1 && |chunks| == |cycles|
    && forall i | 0 <= i < |cycles| :: CycledAs(conns[i], cycles[i], conns[i + 1], chunks[i])
  }

  lemma NothingRan(c: Connection)
    ensures RanAs([c], [], []) && Concat([]) == [] && AfterCycles(c, []) == (c, [])
  {
  }

  lemma RanNext(conns: seq<Connection>, cycles: seq<Cycle>, chunks: seq<seq<byte>>, cycle: Cycle, c: Connection,
                chunk: seq<byte>)
    requires |conns| == |cycles| + 1 && RanAs(conns, cycles, chunks) && CycledAs(conns[|cycles|], cycle, c, chunk)
    ensures RanAs(conns + [c], cycles + [cycle], chunks + [chunk])
    ensures Concat(chunks + [chunk]) == Concat(chunks) + chunk
  {
    hide CycledAs;
    assert (chunks + [chunk])[..|chunks|] == chunks;
  }

  /** A number of cycles, and all the bytes read in them. */
  function AfterCycles(c: Connection, cycles: seq<Cycle>): (Connection, seq<byte>)
    decreases |cycles|
  {
    if cycles == [] then (c, [])
    else
      var before := AfterCycles(c, cycles[..|cycles| - 1]);
      var now := AfterCycle(before.0, cycles[|cycles| - 1]);
      (now.0, before.1 + now.1)
  }

  lemma CyclesNext(c: Connection, cycles: seq<Cycle>, i: nat)
    requires i < |cycles|
    ensures cycles[..i + 1] == cycles[..i] + [cycles[i]]
    ensures var before := AfterCycles(c, cycles[..i]);
      var now := AfterCycle(before.0, cycles[i]);
      AfterCycles(c, cycles[..i + 1]) == (now.0, before.1 + now.1)
  {
    hide AfterCycle;
    assert cycles[..i + 1][..i] == cycles[..i];
  }

  /** Successful openings in the course of the cycles. */
  function Openings(c: Connection, cycles: seq<Cycle>): nat
    decreases |cycles|
  {
    if cycles == [] then 0
    else
      var init, last := cycles[..|cycles| - 1], cycles[|cycles| - 1];
      Openings(c, init)
      + if NeedsPort(AfterCycles(c, init).0) && FirstSuccess(last.opens) < |last.opens| then 1 else 0
  }

  /** reconnects counts every successful opening except the very first connection. */
  lemma {:induction false} ReconnectsCountsReopenings(c: Connection, cycles: seq<Cycle>)
    requires c.reconnects == 0
    ensures var c', n := AfterCycles(c, cycles).0, Openings(c, cycles);
      && c'.everConnected == (c.everConnected || n > 0)
      && c'.reconnects == if c.everConnected || n == 0 then n else n - 1
    decreases |cycles|
  {
    if cycles != [] {
      ReconnectsCountsReopenings(c, cycles[..|cycles| - 1]);
    }
  }

  // ----- the reconnect delays -----

  function Delay(attempt: nat, base: real, maximum: real): real {
    MinReal(Times(base, Power(2.0, attempt)), maximum)
  }

  /** The sleeps of the first n attempts; the very first connection is attempted without delay. */
  function Delays(n: nat, firstEver: bool, base: real, maximum: real): seq<real> {
    if n == 0 then []
    else
      Delays(n - 1, firstEver, base, maximum)
      + if firstEver && n == 1 then [] else [Delay(n - 1, base, maximum)]
  }

  /** The first delay is the base, each later one twice the one before, all of them under the cap. */
  lemma DelayDoubles(k: nat, base: real, maximum: real)
    requires maximum >= 0.0
    ensures Delay(0, base, maximum) == if base < maximum then base else maximum
    ensures var d := Delay(k, base, maximum);
      Delay(k + 1, base, maximum) == if d * 2.0 < maximum then d * 2.0 else maximum
  {
    assert Times(base, Power(2.0, 0)) == base;
    GrowStep(Delay(k, base, maximum), Times(base, Power(2.0, k)), 2.0, maximum);
    Reassociate(base, 2.0, Power(2.0, k));
    assert Times(Delay(k, base, maximum), 2.0) == Delay(k, base, maximum) * 2.0;
  }

  /** Before the i-th sleep there were i failed attempts, or i + 1 when the very first connection was
      tried at once. */
  lemma {:induction false} DelaysAre(n: nat, firstEver: bool, base: real, maximum: real, i: nat)
    requires var skip := if firstEver then 1 else 0; i + skip < n
    ensures var skip := if firstEver then 1 else 0;
      && |Delays(n, firstEver, base, maximum)| == n - skip
      && Delays(n, firstEver, base, maximum)[i] == Delay(i + skip, base, maximum)
    decreases n
  {
    hide Delay;
    var skip := if firstEver then 1 else 0;
    if i + skip < n - 1 {
      DelaysAre(n - 1, firstEver, base, maximum, i);
    } else {
      DelaysCount(n - 1, firstEver, base, maximum);
    }
  }

  lemma {:induction false} DelaysCount(n: nat, firstEver: bool, base: real, maximum: real)
    ensures |Delays(n, firstEver, base, maximum)| == if firstEver && n > 0 then n - 1 else n
    decreases n
  {
    hide Delay;
    if n > 0 {
      DelaysCount(n - 1, firstEver, base, maximum);
    }
  }

  /** The delays never shrink and never exceed the maximum. */
  lemma {:induction false} DelaysGrow(j: nat, k: nat, base: real, maximum: real)
    requires j <= k && base >= 0.0
    ensures Delay(j, base, maximum) <= Delay(k, base, maximum) <= maximum
    decreases k
  {
    if j < k {
      DelaysGrow(j, k - 1, base, maximum);
      PowerPositive(2.0, k - 1);
      Reassociate(base, 2.0, Power(2.0, k - 1));
      assert base * Power(2.0, k - 1) >= 0.0;
      GrowsBy(Times(base, Power(2.0, k - 1)), 2.0);
    }
  }

  /** Dispatches, among the first n, that returned True. */
  function Delivered(accepts: nat -> bool, n: nat): nat {
    if n == 0 then 0 else Delivered(accepts, n - 1) + if accepts(n - 1) then 1 else 0
  }

  /** It is the number of those dispatches. */
  lemma {:induction false} DeliveredIsCount(accepts: nat -> bool, n: nat)
    ensures Delivered(accepts, n) == |set i: nat | i < n && accepts(i)|
    decreases n
  {
    if n > 0 {
      DeliveredIsCount(accepts, n - 1);
      var before := set i: nat | i < n - 1 && accepts(i);
      assert (set i: nat | i < n && accepts(i)) == before + if accepts(n - 1) then {n - 1} else {};
    }
  }

  // ----- the reader -----

  /** What became of write() followed by flush(): write() may raise after some of the bytes. */
  datatype WriteOutcome = Flushed | WriteRaises(bytes: nat) | FlushRaises

  /** The bytes of the frame that got out. */
  function OnTheWire(frame: seq<byte>, outcome: WriteOutcome): (sent: seq<byte>)
    ensures sent <= frame
    ensures !outcome.WriteRaises? ==> sent == frame
  {
    if outcome.WriteRaises? && outcome.bytes < |frame| then frame[..outcome.bytes] else frame
  }

  class SerialReader {
    /** Whether the n-th dispatch returns True: decoding and the callback did not raise. */
    const accepts: nat -> bool
    const backoffBase: real
    const backoffMax: real
    const parser: FrameParser

    var hasPort: bool
    var connected: bool
    var everConnected: bool
    var reconnects: nat
    var framesTotal: nat
    var dispatched: seq<Frame>
    var slept: seq<real>
    var written: seq<byte>

    /** Every byte ever read, over all connections. */
    ghost var bytesRead: seq<byte>

    /** Whatever the reads, faults and reopenings were: the parser has seen exactly the bytes read,
        and the frames dispatched are those of one greedy parse of all of them. */
    ghost predicate Valid()
      reads this, parser
    {
      && parser.Valid()
      && parser.received == bytesRead
      && dispatched == parser.delivered == Parse(bytesRead).frames
      && framesTotal == Delivered(accepts, |dispatched|)
    }

    function Conn(): Connection
      reads this
    {
      Connection(hasPort, connected, everConnected, reconnects)
    }

    /** port: whether a serial object is injected, and if so whether it is open. */
    constructor (accepts: nat -> bool, backoffBase: real, backoffMax: real, injected: bool, isOpen: bool)
      ensures Valid() && fresh(parser)
      ensures Conn() == Connection(injected, injected && isOpen, injected && isOpen, 0)
      ensures bytesRead == [] && this.accepts == accepts
      ensures this.backoffBase == backoffBase && this.backoffMax == backoffMax
    {
      this.accepts, this.backoffBase, this.backoffMax := accepts, backoffBase, backoffMax;
      hasPort, connected, everConnected := injected, injected && isOpen, injected && isOpen;
      reconnects, framesTotal, dispatched := 0, 0, [];
      slept, written, bytesRead := [], [], [];
      parser := new FrameParser();
      new;
      EmptyParse();
    }

    method Close()
      modifies this`hasPort, this`connected
      ensures !hasPort && !connected
    {
      connected := false;
      hasPort := false;
    }

    /** Retries with growing delays until an attempt succeeds or stop is requested. */
    method Reconnect(opens: seq<OpenOutcome>) returns (ok: bool)
      modifies this`hasPort, this`connected, this`everConnected, this`reconnects, this`slept
      ensures ok <==> FirstSuccess(opens) < |opens|
      ensures ok <==> CanOpen(opens)
      ensures Conn() == Reconnected(old(Conn()), opens)
      ensures slept == old(slept) + Delays(if ok then FirstSuccess(opens) + 1 else |opens|, old(FirstEver(Conn())),
                                           backoffBase, backoffMax)
    {
      hide Delay, CanOpen;
      SuccessMeans(opens);
      var attempt := 0;
      var firstEver := reconnects == 0 && !everConnected;
      while attempt < |opens|
        invariant attempt <= |opens| && FirstSuccess(opens) == attempt + FirstSuccess(opens[attempt..])
        invariant Conn() == old(Conn()) && firstEver == FirstEver(Conn())
        invariant slept == old(slept) + Delays(attempt, firstEver, backoffBase, backoffMax)
      {
        if !(firstEver && attempt == 0) {
          slept := slept + [Delay(attempt, backoffBase, backoffMax)];
        }
        assert slept == old(slept) + Delays(attempt + 1, firstEver, backoffBase, backoffMax);
        assert opens[attempt..][1..] == opens[attempt + 1..];
        match opens[attempt]
        case Opened(isOpen) =>
          hasPort, connected := true, isOpen;
          if !firstEver {
            reconnects := reconnects + 1;
          }
          everConnected := true;
          return true;
        case OpenRaises =>
          attempt := attempt + 1;
      }
      ok := false;
    }

    /** Hands the frames to the callback, one after the other. */
    method DispatchAll(frames: seq<Frame>) returns (delivered: nat)
      requires framesTotal == Delivered(accepts, |dispatched|)
      modifies this`framesTotal, this`dispatched
      ensures dispatched == old(dispatched) + frames
      ensures framesTotal == Delivered(accepts, |dispatched|) == old(framesTotal) + delivered
    {
      delivered := 0;
      for i := 0 to |frames|
        invariant dispatched == old(dispatched) + frames[..i]
        invariant framesTotal == Delivered(accepts, |dispatched|) == old(framesTotal) + delivered
      {
        if accepts(|dispatched|) {
          delivered := delivered + 1;
          framesTotal := framesTotal + 1;
        }
        dispatched := dispatched + [frames[i]];
      }
      assert frames[..|frames|] == frames;
    }

    /** One cycle of connecting, reading, de-framing and dispatching. */
    method PollOnce(cycle: Cycle) returns (delivered: nat)
      requires Valid()
      modifies this, parser
      ensures Valid()
      ensures Conn() == AfterCycle(old(Conn()), cycle).0
      ensures bytesRead == old(bytesRead) + AfterCycle(old(Conn()), cycle).1
      ensures CycledAs(old(Conn()), cycle, Conn(), AfterCycle(old(Conn()), cycle).1)
      ensures var usable := old(hasPort && connected) || CanOpen(cycle.opens);
        bytesRead == old(bytesRead) + if usable && cycle.read.Chunk? then cycle.read.data else []
      ensures framesTotal == old(framesTotal) + delivered
      ensures old(dispatched) <= dispatched && written == old(written)
    {
      hide Parse, FirstSuccess, CycledAs, CanOpen;
      delivered := 0;
      CycleMeans(Conn(), cycle);
      CycleReads(Conn(), cycle);
      assert bytesRead + [] == bytesRead;
      if !hasPort || !connected {
        var ok := Reconnect(cycle.opens);
        if !ok {
          return;
        }
      }
      match cycle.read
      case ReadFault =>
        Close();
      case Chunk(data) =>
        if data == [] {
          return;
        }
        var frames := parser.Push(data);
        delivered := DispatchAll(frames);
        bytesRead := bytesRead + data;
        assert dispatched == parser.delivered;
    }

    /** Any number of cycles. */
    method Run(cycles: seq<Cycle>) returns (ghost conns: seq<Connection>, ghost chunks: seq<seq<byte>>)
      requires Valid()
      modifies this, parser
      ensures Valid()
      ensures |conns| == |cycles| + 1 && RanAs(conns, cycles, chunks)
      ensures conns[0] == old(Conn()) && conns[|cycles|] == Conn()
      ensures bytesRead == old(bytesRead) + Concat(chunks)
      ensures Conn() == AfterCycles(old(Conn()), cycles).0
      ensures bytesRead == old(bytesRead) + AfterCycles(old(Conn()), cycles).1
    {
      hide Parse, AfterCycle, CycledAs, RanAs, Concat, CanOpen, AfterCycles;
      conns, chunks := [Conn()], [];
      NothingRan(Conn());
      for i := 0 to |cycles|
        invariant Valid()
        invariant |conns| == i + 1 && RanAs(conns, cycles[..i], chunks)
        invariant conns[0] == old(Conn()) && conns[i] == Conn()
        invariant bytesRead == old(bytesRead) + Concat(chunks)
        invariant Conn() == AfterCycles(old(Conn()), cycles[..i]).0
        invariant bytesRead == old(bytesRead) + AfterCycles(old(Conn()), cycles[..i]).1
      {
        ghost var chunk := AfterCycle(Conn(), cycles[i]).1;
        CyclesNext(old(Conn()), cycles, i);
        var delivered := PollOnce(cycles[i]);
        RanNext(conns, cycles[..i], chunks, cycles[i], Conn(), chunk);
        conns, chunks := conns + [Conn()], chunks + [chunk];
      }
      assert cycles[..|cycles|] == cycles;
    }

    /** A control frame is written at once or refused; it is never queued.  A failing write or
        flush closes the port, with any part of the frame, or all of it, on the wire. */
    method Send(frame: seq<byte>, outcome: WriteOutcome) returns (ok: bool)
      requires Valid()
      modifies this`hasPort, this`connected, this`written
      ensures Valid()
      ensures ok <==> old(connected && hasPort) && outcome.Flushed?
      ensures written == if old(connected && hasPort) then old(written) + OnTheWire(frame, outcome) else old(written)
      ensures old(connected && hasPort) && outcome.WriteRaises? && outcome.bytes <= |frame| ==>
        written == old(written) + frame[..outcome.bytes]
      ensures old(connected && hasPort) && !outcome.WriteRaises? ==> written == old(written) + frame
      ensures Conn() == if old(connected && hasPort) && !outcome.Flushed?
                        then old(Conn()).(hasPort := false, connected := false) else old(Conn())
    {
      if !connected || !hasPort {
        return false;
      }
      match outcome
      case WriteRaises(n) =>
        written := written + frame[..if n < |frame| then n else |frame|];
        Close();
        ok := false;
      case FlushRaises =>
        written := written + frame;
        Close();
        ok := false;
      case Flushed =>
        written := written + frame;
        ok := true;
    }
  }

  /** Replaying a captured byte log in slices of chunkSize, through a fresh parser. */
  method ReplayByteLog(log: seq<byte>, chunkSize: nat, accepts: nat -> bool)
    returns (delivered: nat, frames: seq<Frame>)
    ensures frames == if chunkSize == 0 then [] else Parse(log).frames
    ensures delivered == Delivered(accepts, |frames|)
  {
    hide Parse;
    EmptyParse();
    var parser := new FrameParser();
    delivered, frames := 0, [];
    var pos := 0;
    while true
      invariant 0 <= pos <= |log| && (chunkSize == 0 ==> pos == 0)
      invariant parser.Valid() && fresh(parser) && parser.received == log[..pos] && parser.delivered == frames
      invariant delivered == Delivered(accepts, |frames|)
      decreases |log| - pos
    {
      var end := if pos + chunkSize < |log| then pos + chunkSize else |log|;
      var chunk := log[pos..end];
      if chunk == [] {
        break;
      }
      var found := parser.Push(chunk);
      assert log[..pos] + chunk == log[..end];
      delivered, frames := DispatchOnto(frames, delivered, found, accepts);
      pos := end;
    }
    assert log[..|log|] == log;
  }

  method DispatchOnto(before: seq<Frame>, count: nat, found: seq<Frame>, accepts: nat -> bool)
    returns (delivered: nat, frames: seq<Frame>)
    requires count == Delivered(accepts, |before|)
    ensures frames == before + found && delivered == Delivered(accepts, |frames|)
  {
    delivered, frames := count, before;
    for i := 0 to |found|
      invariant frames == before + found[..i] && delivered == Delivered(accepts, |frames|)
    {
      if accepts(|frames|) {
        delivered := delivered + 1;
      }
      frames := frames + [found[i]];
    }
    assert found[..|found|] == found;
  }
}
