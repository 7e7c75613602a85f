/** The incremental de-framer. */
module Deframer {
  import opened Bytes
  import opened Crc16
  import opened Framing

  class FrameParser {
    var buf: seq<byte>
    var crcErrors: nat

    /** Every byte ever pushed, every frame ever returned, and every byte passed over. */
    ghost var received: seq<byte>
    ghost var delivered: seq<Frame>
    ghost var skipped: nat

    /** However the stream was cut into chunks, the state is that of one parse of all of it. */
    ghost predicate Valid()
      reads this
    {
      Parse(received) == Scan(delivered, crcErrors, skipped, buf)
    }

    constructor ()
      ensures Valid() && received == [] && delivered == []
    {
      buf, crcErrors := [], 0;
      received, delivered, skipped := [], [], 0;
    }

    method Push(chunk: seq<byte>) returns (frames: seq<Frame>)
      requires Valid()
      modifies this
      ensures Valid()
      ensures received == old(received) + chunk
      ensures delivered == old(delivered) + frames
      ensures frames == Parse(old(buf) + chunk).frames
      ensures buf == [] || (buf[0] == 0xA5 && |buf| < 2054)
    {
      hide Decide, Parse, Then, Crc, Progress;
      ghost var errorsBefore := crcErrors;
      ghost var done := Scan([], 0, 0, []);
      buf := buf + chunk;
      ghost var all := buf;
      frames := [];
      var cursor := 0;
      var n := |buf|;
      Start(all);
      while true
        invariant 0 <= cursor <= n == |buf| && buf == all
        invariant received == old(received) && delivered == old(delivered) && skipped == old(skipped)
        invariant done.frames == frames && errorsBefore + done.errors == crcErrors
        invariant Progress(all, cursor, done)
        decreases n - cursor
      {
        while cursor < n && buf[cursor] != MAGIC
          invariant 0 <= cursor <= n == |buf| && buf == all
          invariant received == old(received) && delivered == old(delivered) && skipped == old(skipped)
          invariant done.frames == frames && errorsBefore + done.errors == crcErrors
          invariant Progress(all, cursor, done)
          decreases n - cursor
        {
          DecideInPlace(all, cursor);
          done := Step(all, cursor, done);
          cursor := cursor + 1;
        }
        DecideInPlace(all, cursor);
        if n - cursor < 4 {
          break;
        }
        var length := Pair(buf[cursor + 2], buf[cursor + 3]);
        if length > MAX_PAYLOAD {
          done := Step(all, cursor, done);
          crcErrors := crcErrors + 1;
          cursor := cursor + 1;
          continue;
        }
        var total := length + OVERHEAD;
        if n - cursor < total {
          break;
        }
        var crcCalc := Crc16CcittFalse(buf, cursor + 1, cursor + 4 + length);
        var crcRx := Pair(buf[cursor + 4 + length], buf[cursor + 5 + length]);
        done := Step(all, cursor, done);
        if crcCalc == crcRx {
          var ftype := buf[cursor + 1];
          var payload := buf[cursor + 4..cursor + 4 + length];
          frames := frames + [Frame(ftype, payload)];
          cursor := cursor + total;
        } else {
          crcErrors := crcErrors + 1;
          cursor := cursor + 1;
        }
      }
      buf := if cursor < n then buf[cursor..] else [];
      Finish(all, cursor, done);
      ParseSplit(received, chunk);
      RestBounded(all);
      JoinScans(Scan(delivered, errorsBefore, skipped, old(buf)), Parse(all));
      received, delivered, skipped := received + chunk, delivered + frames, skipped + done.skipped;
    }
  }

  lemma PairValue(s: seq<byte>, i: nat)
    requires i + 2 <= |s|
    ensures FromLe(s[i..i + 2]) == Pair(s[i], s[i + 1])
  {
    var t := s[i..i + 2];
    assert t[1..] == [s[i + 1]] && [s[i + 1]][1..] == [];
    assert FromLe([s[i + 1]]) == s[i + 1];
  }

  /** The decision at the cursor, read off the buffer in place. */
  lemma DecideInPlace(all: seq<byte>, cursor: nat)
    requires cursor <= |all|
    ensures Decide(all[cursor..]) ==
      if cursor == |all| then NeedMore
      else if all[cursor] != MAGIC then Skip
      else if |all| - cursor < 4 then NeedMore
      else
        var length := Pair(all[cursor + 2], all[cursor + 3]);
        if length > MAX_PAYLOAD then Reject
        else if |all| - cursor < length + OVERHEAD then NeedMore
        else if Crc(all[cursor + 1..cursor + 4 + length])
                != Pair(all[cursor + 4 + length], all[cursor + 5 + length]) then Reject
        else Deliver(Frame(all[cursor + 1], all[cursor + 4..cursor + 4 + length]))
  {
    hide Crc, FromLe;
    var s := all[cursor..];
    if |s| >= 4 && s[0] == MAGIC {
      PairValue(s, 2);
      var length := FromLe(s[2..4]);
      if length <= MAX_PAYLOAD && |s| >= length + OVERHEAD {
        PairValue(s, 4 + length);
        assert s[1..4 + length] == all[cursor + 1..cursor + 4 + length];
        assert s[4..4 + length] == all[cursor + 4..cursor + 4 + length];
      }
    }
  }

  /** What has been done, followed by a parse of the bytes from the cursor on, is the parse of
      the whole buffer. */
  ghost predicate Progress(all: seq<byte>, cursor: nat, done: Scan) {
    cursor <= |all| && done.rest == [] && Then(done, Parse(all[cursor..])) == Parse(all)
  }

  lemma Start(all: seq<byte>)
    ensures Progress(all, 0, Scan([], 0, 0, []))
  {
    hide Parse;
    assert all[0..] == all;
    assert [] + Parse(all).frames == Parse(all).frames;
  }

  /** Consuming one decision moves it from the parse still to do to what has been done. */
  lemma Step(all: seq<byte>, cursor: nat, done: Scan) returns (done': Scan)
    requires Progress(all, cursor, done)
    ensures done' == Then(done, One(Decide(all[cursor..])))
    ensures var v := Decide(all[cursor..]); v != NeedMore ==>
      && done'.frames == done.frames + (if v.Deliver? then [v.frame] else [])
      && done'.errors == done.errors + (if v.Reject? then 1 else 0)
      && Progress(all, cursor + Advance(v), done')
  {
    hide Decide, Parse;
    var v := Decide(all[cursor..]);
    done' := Then(done, One(v));
    if v == NeedMore {
      return;
    }
    ParseStep(all[cursor..]);
    assert all[cursor..][Advance(v)..] == all[cursor + Advance(v)..];
    ThenAssoc(done, One(v), Parse(all[cursor + Advance(v)..]));
  }

  lemma Finish(all: seq<byte>, cursor: nat, done: Scan)
    requires Progress(all, cursor, done) && Decide(all[cursor..]) == NeedMore
    ensures Parse(all) == Scan(done.frames, done.errors, done.skipped, all[cursor..])
  {
    hide Decide;
    assert done.frames + [] == done.frames;
  }

  lemma JoinScans(a: Scan, b: Scan)
    ensures Then(a, b) == Scan(a.frames + b.frames, a.errors + b.errors, a.skipped + b.skipped, b.rest)
  {
  }

  // ----- any chunking -----

  function Concat(chunks: seq<seq<byte>>): seq<byte>
    decreases |chunks|
  {
    if chunks == [] then [] else Concat(chunks[..|chunks| - 1]) + chunks[|chunks| - 1]
  }

  /** What pushing the chunks one after the other does to a fresh parser, chunk by chunk. */
  function PushAll(chunks: seq<seq<byte>>): Scan
    decreases |chunks|
  {
    if chunks == [] then Scan([], 0, 0, [])
    else
      var before := PushAll(chunks[..|chunks| - 1]);
      Then(before, Parse(before.rest + chunks[|chunks| - 1]))
  }

  /** Chunking invariance: frames, error count, skipped bytes and leftover buffer depend only on
      the bytes, not on how they were split. */
  lemma {:induction false} ChunkingInvariance(chunks: seq<seq<byte>>)
    ensures PushAll(chunks) == Parse(Concat(chunks))
    decreases |chunks|
  {
    hide Parse;
    EmptyParse();
    if chunks != [] {
      var init := chunks[..|chunks| - 1];
      ChunkingInvariance(init);
      ParseSplit(Concat(init), chunks[|chunks| - 1]);
    }
  }

  /** Framing round trip in any chunking: encoded frames, separated by MAGIC-free garbage and cut
      anywhere, come back as exactly those frames, with no error and an empty buffer. */
  lemma ChunkedRoundTrip(frames: seq<Frame>, gaps: seq<seq<byte>>, chunks: seq<seq<byte>>)
    requires |gaps| == |frames| + 1
    requires forall f | f in frames :: Sendable(f)
    requires forall g | g in gaps :: MagicFree(g)
    requires Concat(chunks) == Stream(frames, gaps)
    ensures PushAll(chunks) == Scan(frames, 0, TotalLength(gaps), [])
  {
    hide Parse, Stream, PushAll, Concat;
    ChunkingInvariance(chunks);
    StreamRoundTrip(frames, gaps);
  }

  /** The same for the object: a fresh parser fed chunk by chunk. */
  method PushChunks(chunks: seq<seq<byte>>) returns (frames: seq<Frame>, errors: nat, rest: seq<byte>)
    ensures var p := Parse(Concat(chunks)); frames == p.frames && errors == p.errors && rest == p.rest
  {
    var parser := new FrameParser();
    frames := [];
    for i := 0 to |chunks|
      invariant parser.Valid() && fresh(parser)
      invariant parser.received == Concat(chunks[..i]) && parser.delivered == frames
    {
      var found := parser.Push(chunks[i]);
      frames := frames + found;
      assert chunks[..i + 1][..i] == chunks[..i];
    }
    assert chunks[..|chunks|] == chunks;
    errors, rest := parser.crcErrors, parser.buf;
  }
}
