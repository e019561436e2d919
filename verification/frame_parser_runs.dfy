/** Every run of the parser: any interleaving of appends and pops, from an empty buffer. */
module FrameParserRuns {
  import opened Wrappers
  import opened ByteUtils
  import opened Crc8
  import opened FrameFormat
  import opened FrameParsing

  datatype Op = Append(chunk: Bytes) | TryPop

  /** All bytes appended so far, all frames popped so far with their offsets, and the parser. */
  datatype History = History(stream: Bytes, emitted: seq<Token>, parser: ParserState) {
    /** Bytes already removed from the front of the buffer. */
    function Consumed(): int {
      |stream| - |parser.buffer|
    }
  }

  const START := History([], [], INITIAL)

  function Step(mode: string, h: History, op: Op): History {
    match op
    case Append(chunk) =>
      h.(stream := h.stream + chunk, parser := h.parser.(buffer := h.parser.buffer + chunk))
    case TryPop => Outcome(h, Pop(mode, h.parser))
  }

  /** The history after a pop whose outcome is known. */
  function Outcome(h: History, result: (ParserState, Option<Frame>)): History {
    match result.1
    case None => h.(parser := result.0)
    case Some(frame) => Emit(h, result.0, frame)
  }

  function Emit(h: History, p: ParserState, frame: Frame): History {
    History(h.stream, h.emitted + [Token(|h.stream| - |p.buffer| - frame.Size(), frame)], p)
  }

  function Exec(mode: string, h: History, ops: seq<Op>): History
    decreases |ops|
  {
    if ops == [] then h else Exec(mode, Step(mode, h, ops[0]), ops[1..])
  }

  function Fed(ops: seq<Op>): Bytes {
    if ops == [] then []
    else (if ops[0].Append? then ops[0].chunk else []) + Fed(ops[1..])
  }

  function TotalSize(tokens: seq<Token>): nat {
    if tokens == [] then 0 else TotalSize(tokens[..|tokens| - 1]) + tokens[|tokens| - 1].frame.Size()
  }

  /** A further pop changes nothing: the state left by a pop that returned no frame. */
  predicate Drained(mode: string, p: ParserState) {
    Pop(mode, p) == (p, None)
  }

  /** One step of the tokenization. */
  lemma RunUnfold(mode: string, lock: Lock, base: int, s: Bytes)
    ensures var r := Run(mode, lock, base, s);
            match Head(mode, lock, s)
            case NeedMore => r == Tally([], 0, 0, lock, s)
            case Garbage => s != [] && r == Run(mode, lock, base + 1, s[1..])
            case BadLength =>
              && s != []
              && var tail := Run(mode, lock, base + 1, s[1..]);
                 r == tail.(badLengths := tail.badLengths + 1)
            case BadCrc =>
              && s != []
              && var tail := Run(mode, lock, base + 1, s[1..]);
                 r == tail.(crcFailures := tail.crcFailures + 1)
            case Good(frame, next) =>
              var tail := Run(mode, next, base + frame.Size(), s[frame.Size()..]);
              r == tail.(tokens := [Token(base, frame)] + tail.tokens)
  {
    HeadNonEmpty(mode, lock, s);
    hide Head;
  }

  lemma HeadNonEmpty(mode: string, lock: Lock, s: Bytes)
    ensures Head(mode, lock, s) != NeedMore ==> s != []
  {
    hide Accepts, NextLock, ReadLe16;
  }

  /** A first byte that cannot begin a sync pair is garbage, whatever follows. */
  lemma HeadIsGarbage(mode: string, lock: Lock, s: Bytes, t: Bytes)
    requires s != [] && CannotBegin(s, 0)
    ensures Head(mode, lock, s + t) == Garbage
  {
  }

  // ---- The invariant of every run

  function Prepend(h: History, r: Tally): Tally {
    Tally(h.emitted + r.tokens, h.parser.crcFailures + r.crcFailures, h.parser.badLengths + r.badLengths,
          r.lock, r.rest)
  }

  /** Whatever bytes follow, what has been emitted and what the buffer will still give is the
      tokenization of the whole stream. */
  ghost predicate Replays(mode: string, h: History) {
    && h.Consumed() >= 0
    && forall t: Bytes :: ReplaysWith(mode, h, t)
  }

  ghost predicate ReplaysWith(mode: string, h: History, t: Bytes)
    requires h.Consumed() >= 0
  {
    Run(mode, -1, 0, h.stream + t) ==
    Prepend(h, Run(mode, h.parser.lock, h.Consumed(), h.parser.buffer + t))
  }

  /** The lock can no longer change. */
  predicate Settled(mode: string, lock: Lock) {
    mode != "auto" || lock >= 0
  }

  /** The buffer is the unconsumed suffix, and every byte is accounted for. */
  ghost predicate Accounted(mode: string, h: History) {
    && h.Consumed() >= 0
    && h.parser.buffer == h.stream[h.Consumed()..]
    && h.parser.okFrames == |h.emitted|
    && (h.emitted != [] ==> Settled(mode, h.parser.lock))
    && |h.stream| == |h.parser.buffer| + h.parser.discarded + h.parser.badLengths + h.parser.crcFailures
                     + TotalSize(h.emitted)
  }

  ghost predicate Inv(mode: string, h: History) {
    Replays(mode, h) && Accounted(mode, h)
  }

  lemma StartInv(mode: string)
    ensures Inv(mode, START)
  {
    hide Run;
    forall t: Bytes
      ensures ReplaysWith(mode, START, t)
    {
      assert START.stream + t == t;
      var r := Run(mode, -1, 0, t);
      assert [] + r.tokens == r.tokens;
    }
  }

  lemma AppendInv(mode: string, h: History, chunk: Bytes)
    requires Inv(mode, h)
    ensures Inv(mode, Step(mode, h, Append(chunk)))
  {
    var next := Step(mode, h, Append(chunk));
    hide Run, Pop, TotalSize;
    forall t: Bytes
      ensures ReplaysWith(mode, next, t)
    {
      assert ReplaysWith(mode, h, chunk + t);
      assert h.stream + (chunk + t) == next.stream + t;
      assert h.parser.buffer + (chunk + t) == next.parser.buffer + t;
    }
  }

  function Dropped(h: History, k: nat): History
    requires k <= |h.parser.buffer|
  {
    h.(parser := h.parser.(buffer := h.parser.buffer[k..], discarded := h.parser.discarded + k))
  }

  /** Dropping k bytes that begin no sync pair. */
  lemma DropGarbage(mode: string, h: History, k: nat)
    requires Inv(mode, h) && k <= |h.parser.buffer|
    requires forall i :: 0 <= i < k ==> CannotBegin(h.parser.buffer, i)
    ensures Inv(mode, Dropped(h, k))
  {
    hide Run, TotalSize, CannotBegin;
    forall t: Bytes
      ensures ReplaysWith(mode, Dropped(h, k), t)
    {
      assert ReplaysWith(mode, h, t);
      SkipGarbage(mode, h.parser.lock, h.Consumed(), h.parser.buffer, k, t);
    }
  }

  predicate CannotBegin(s: Bytes, i: nat)
    requires i < |s|
  {
    s[i] != SYNC0 || (i + 1 < |s| && s[i + 1] != SYNC1)
  }

  lemma {:induction false} SkipGarbage(mode: string, lock: Lock, base: int, s: Bytes, k: nat, t: Bytes)
    requires k <= |s| && forall i :: 0 <= i < k ==> CannotBegin(s, i)
    ensures Run(mode, lock, base, s + t) == Run(mode, lock, base + k, s[k..] + t)
    decreases k
  {
    if k == 0 {
      assert s[0..] == s;
    } else {
      HeadIsGarbage(mode, lock, s, t);
      hide Head;
      assert (s + t)[1..] == s[1..] + t;
      forall i | 0 <= i < k - 1
        ensures CannotBegin(s[1..], i)
      {
        assert CannotBegin(s, i + 1);
      }
      SkipGarbage(mode, lock, base + 1, s[1..], k - 1, t);
      assert s[1..][k - 1..] == s[k..];
    }
  }

  function Rejected(mode: string, p: ParserState): ParserState
    requires p.buffer != []
  {
    if Head(mode, p.lock, p.buffer) == BadLength then
      p.(buffer := p.buffer[1..], badLengths := p.badLengths + 1)
    else
      p.(buffer := p.buffer[1..], crcFailures := p.crcFailures + 1,
         activeName := ActiveName(mode, p.lock, p.activeName))
  }

  lemma RunRejects(mode: string, lock: Lock, base: int, s: Bytes, t: Bytes)
    requires Head(mode, lock, s).BadLength? || Head(mode, lock, s).BadCrc?
    ensures s != []
    ensures var r := Run(mode, lock, base + 1, s[1..] + t);
            Run(mode, lock, base, s + t) ==
              if Head(mode, lock, s).BadLength? then r.(badLengths := r.badLengths + 1)
              else r.(crcFailures := r.crcFailures + 1)
  {
    HeadStable(mode, lock, s, t);
    HeadNonEmpty(mode, lock, s);
    RunUnfold(mode, lock, base, s + t);
    hide Head, Run;
    assert (s + t)[1..] == s[1..] + t;
  }

  /** Rejecting the head removes one byte and counts one failure. */
  lemma RejectHead(mode: string, h: History)
    requires Inv(mode, h)
    requires h.parser.buffer != []
    requires var v := Head(mode, h.parser.lock, h.parser.buffer); v.BadLength? || v.BadCrc?
    ensures Inv(mode, h.(parser := Rejected(mode, h.parser)))
  {
    var p := h.parser;
    hide Run, Head, TotalSize, ActiveName;
    forall t: Bytes
      ensures ReplaysWith(mode, h.(parser := Rejected(mode, p)), t)
    {
      assert ReplaysWith(mode, h, t);
      RunRejects(mode, p.lock, h.Consumed(), p.buffer, t);
    }
  }

  function Accepted(p: ParserState, good: Verdict, name: string): ParserState
    requires good.Good? && good.frame.Size() <= |p.buffer|
  {
    p.(buffer := p.buffer[good.frame.Size()..], okFrames := p.okFrames + 1, lock := good.lock, activeName := name)
  }

  lemma RunAccepts(mode: string, lock: Lock, base: int, s: Bytes, t: Bytes)
    requires Head(mode, lock, s).Good?
    ensures var good := Head(mode, lock, s);
            var r := Run(mode, good.lock, base + good.frame.Size(), s[good.frame.Size()..] + t);
            Run(mode, lock, base, s + t) == r.(tokens := [Token(base, good.frame)] + r.tokens)
  {
    HeadStable(mode, lock, s, t);
    RunUnfold(mode, lock, base, s + t);
    hide Head, Run;
    var size := Head(mode, lock, s).frame.Size();
    assert (s + t)[size..] == s[size..] + t;
  }

  /** Accepting the head removes exactly the frame. */
  lemma AcceptHead(mode: string, h: History, name: string)
    requires Inv(mode, h) && Head(mode, h.parser.lock, h.parser.buffer).Good?
    ensures var good := Head(mode, h.parser.lock, h.parser.buffer);
            Inv(mode, Emit(h, Accepted(h.parser, good, name), good.frame))
  {
    var good := Head(mode, h.parser.lock, h.parser.buffer);
    var next := Emit(h, Accepted(h.parser, good, name), good.frame);
    hide Run, Head;
    assert next.emitted == h.emitted + [Token(h.Consumed(), good.frame)];
    assert next.emitted[..|h.emitted|] == h.emitted;
    forall t: Bytes
      ensures ReplaysWith(mode, next, t)
    {
      AcceptReplays(mode, h, good, next, t);
    }
  }

  lemma AcceptReplays(mode: string, h: History, good: Verdict, next: History, t: Bytes)
    requires Replays(mode, h)
    requires good == Head(mode, h.parser.lock, h.parser.buffer) && good.Good?
    requires next.stream == h.stream && next.emitted == h.emitted + [Token(h.Consumed(), good.frame)]
    requires next.parser == Accepted(h.parser, good, next.parser.activeName)
    ensures ReplaysWith(mode, next, t)
  {
    hide Run, Head;
    assert ReplaysWith(mode, h, t);
    RunAccepts(mode, h.parser.lock, h.Consumed(), h.parser.buffer, t);
    var r := Run(mode, good.lock, next.Consumed(), next.parser.buffer + t);
    assert h.emitted + ([Token(h.Consumed(), good.frame)] + r.tokens) == next.emitted + r.tokens;
  }

  lemma {:induction false} PopInv(mode: string, h: History)
    requires Inv(mode, h)
    ensures Inv(mode, Outcome(h, Pop(mode, h.parser)))
    decreases |h.parser.buffer|, 1
  {
    var b := h.parser.buffer;
    if |b| < 6 {
      PopShort(mode, h.parser);
      assert h.(parser := h.parser) == h;
    } else if FindSync(b) == |b| {
      UnsyncedPopInv(mode, h);
    } else {
      var k := FindSync(b);
      hide Inv, Pop;
      DropGarbage(mode, h, k);
      SyncedPopInv(mode, h, Dropped(h, k));
    }
  }

  lemma UnsyncedPopInv(mode: string, h: History)
    requires Inv(mode, h)
    requires |h.parser.buffer| >= 6 && FindSync(h.parser.buffer) == |h.parser.buffer|
    ensures Inv(mode, Outcome(h, Pop(mode, h.parser)))
  {
    hide Inv, Pop;
    var b := h.parser.buffer;
    PopUnsynced(mode, h.parser);
    var keep := if b[|b| - 1] == SYNC0 then 1 else 0;
    DropGarbage(mode, h, |b| - keep);
    assert b[|b| - keep..] == if keep == 1 then [b[|b| - 1]] else [];
  }

  /** The same after the garbage before a sync pair is gone. */
  lemma {:induction false} SyncedPopInv(mode: string, h: History, q: History)
    requires |h.parser.buffer| >= 6 && FindSync(h.parser.buffer) < |h.parser.buffer|
    requires q == Dropped(h, FindSync(h.parser.buffer)) && Inv(mode, q)
    ensures Inv(mode, Outcome(h, Pop(mode, h.parser)))
    decreases |h.parser.buffer|, 0
  {
    hide Pop, FindSync, Inv, Head, ActiveName;
    PopUnfold(mode, h.parser);
    var v := Head(mode, q.parser.lock, q.parser.buffer);
    if v.BadLength? || v.BadCrc? {
      RejectHead(mode, q);
      var r := q.(parser := Rejected(mode, q.parser));
      PopInv(mode, r);
      assert Outcome(h, Pop(mode, h.parser)) == Outcome(r, Pop(mode, r.parser));
    } else if v.Good? {
      AcceptHead(mode, q, ActiveName(mode, v.lock, q.parser.activeName));
    }
  }

  lemma {:induction false} ExecInv(mode: string, h: History, ops: seq<Op>)
    requires Inv(mode, h)
    ensures Inv(mode, Exec(mode, h, ops)) && Exec(mode, h, ops).stream == h.stream + Fed(ops)
    decreases |ops|
  {
    hide Inv, Pop;
    if ops != [] {
      if ops[0].Append? {
        AppendInv(mode, h, ops[0].chunk);
        assert (h.stream + ops[0].chunk) + Fed(ops[1..]) == h.stream + (ops[0].chunk + Fed(ops[1..]));
      } else {
        PopInv(mode, h);
        assert [] + Fed(ops[1..]) == Fed(ops[1..]);
      }
      ExecInv(mode, Step(mode, h, ops[0]), ops[1..]);
    }
  }

  lemma {:induction false} ExecAppend(mode: string, h: History, a: seq<Op>, b: seq<Op>)
    ensures Exec(mode, h, a + b) == Exec(mode, Exec(mode, h, a), b)
    decreases |a|
  {
    if a == [] {
      assert a + b == b;
    } else {
      hide Step;
      assert (a + b)[1..] == a[1..] + b;
      ExecAppend(mode, Step(mode, h, a[0]), a[1..], b);
    }
  }

  lemma {:induction false} FedAppend(a: seq<Op>, b: seq<Op>)
    ensures Fed(a + b) == Fed(a) + Fed(b)
  {
    if a == [] {
      assert a + b == b;
    } else {
      assert (a + b)[1..] == a[1..] + b;
      FedAppend(a[1..], b);
    }
  }

  // ---- Drained parsers

  /** Too short to hold a frame, or a sync pair whose frame is incomplete. */
  predicate Stuck(mode: string, p: ParserState) {
    |p.buffer| < 6 || (FindSync(p.buffer) == 0 && Head(mode, p.lock, p.buffer) == NeedMore)
  }

  lemma {:induction false} FailedPopSticks(mode: string, p: ParserState)
    ensures Pop(mode, p).1 == None ==> Stuck(mode, Pop(mode, p).0)
    ensures |Pop(mode, p).0.buffer| <= |p.buffer|
    ensures Pop(mode, p).1.Some? ==> |Pop(mode, p).0.buffer| < |p.buffer|
    decreases |p.buffer|
  {
    var b := p.buffer;
    if |b| < 6 {
      PopShort(mode, p);
    } else if FindSync(b) == |b| {
      PopUnsynced(mode, p);
    } else {
      var q := Synced(p);
      assert FindSync(q.buffer) == 0;
      PopUnfold(mode, p);
      hide Pop, FindSync, ActiveName;
      var v := Head(mode, q.lock, q.buffer);
      if v.BadLength? || v.BadCrc? {
        FailedPopSticks(mode, Rejected(mode, q));
      }
    }
  }

  lemma {:induction false} StuckIsDrained(mode: string, p: ParserState)
    ensures Stuck(mode, p) <==> Drained(mode, p)
  {
    if Stuck(mode, p) {
      if |p.buffer| < 6 {
        PopShort(mode, p);
      } else {
        PopUnfold(mode, p);
        assert p.buffer[0..] == p.buffer;
      }
    } else {
      FailedPopSticks(mode, p);
    }
  }

  lemma {:induction false} StuckRun(mode: string, p: ParserState, base: int)
    requires Stuck(mode, p)
    ensures Run(mode, p.lock, base, p.buffer) == Tally([], 0, 0, p.lock, Trim(p.buffer))
  {
    if |p.buffer| < 6 {
      ShortRun(mode, p.lock, base, p.buffer);
    }
  }

  lemma {:induction false} ShortRun(mode: string, lock: Lock, base: int, s: Bytes)
    requires |s| < 6
    ensures Run(mode, lock, base, s) == Tally([], 0, 0, lock, Trim(s))
    decreases |s|
  {
    if Head(mode, lock, s) == Garbage {
      ShortRun(mode, lock, base + 1, s[1..]);
    }
  }

  // ---- Main results

  /** After a pop that returned no frame the parser is a function of the bytes appended so far: what it
      emitted, where each frame began, its failure counts, its lock and its undecided bytes are those of
      the tokenization of the whole stream. */
  lemma {:induction false} DrainedParserTokenizes(mode: string, ops: seq<Op>)
    ensures var h := Exec(mode, START, ops);
            Drained(mode, h.parser) ==>
              Run(mode, -1, 0, Fed(ops)) ==
              Tally(h.emitted, h.parser.crcFailures, h.parser.badLengths, h.parser.lock, Trim(h.parser.buffer))
  {
    var h := Exec(mode, START, ops);
    StartInv(mode);
    ExecInv(mode, START, ops);
    assert [] + Fed(ops) == Fed(ops);
    hide Inv, Run, Exec, Fed, Drained, Trim;
    if Drained(mode, h.parser) {
      DrainedTally(mode, h);
    }
  }

  lemma DrainedTally(mode: string, h: History)
    requires Inv(mode, h) && Drained(mode, h.parser)
    ensures Run(mode, -1, 0, h.stream) ==
            Tally(h.emitted, h.parser.crcFailures, h.parser.badLengths, h.parser.lock, Trim(h.parser.buffer))
  {
    hide Run, Stuck, Trim, Drained, Accounted;
    StuckIsDrained(mode, h.parser);
    StuckRun(mode, h.parser, h.Consumed());
    assert ReplaysWith(mode, h, []);
    assert h.stream + [] == h.stream && h.parser.buffer + [] == h.parser.buffer;
    assert h.emitted + [] == h.emitted;
  }

  /** Chunking independence: however the same bytes are split, and however pops are interleaved, two
      drained parsers agree on everything but how many of the undecidable bytes they have discarded. */
  lemma {:induction false} ChunkingIndependence(mode: string, ops1: seq<Op>, ops2: seq<Op>)
    requires Fed(ops1) == Fed(ops2)
    requires Drained(mode, Exec(mode, START, ops1).parser) && Drained(mode, Exec(mode, START, ops2).parser)
    ensures var h1, h2 := Exec(mode, START, ops1), Exec(mode, START, ops2);
            var p1, p2 := h1.parser, h2.parser;
            && h1.emitted == h2.emitted && p1.okFrames == p2.okFrames
            && p1.crcFailures == p2.crcFailures && p1.badLengths == p2.badLengths && p1.lock == p2.lock
            && Trim(p1.buffer) == Trim(p2.buffer)
            && p1.discarded + |p1.buffer| == p2.discarded + |p2.buffer|
  {
    DrainedParserTokenizes(mode, ops1);
    DrainedParserTokenizes(mode, ops2);
    StartInv(mode);
    ExecInv(mode, START, ops1);
    ExecInv(mode, START, ops2);
  }

  /** Byte conservation, at every point of every run. */
  lemma {:induction false} ByteConservation(mode: string, ops: seq<Op>)
    ensures var h := Exec(mode, START, ops);
            |Fed(ops)| == |h.parser.buffer| + h.parser.discarded + h.parser.badLengths + h.parser.crcFailures
                          + TotalSize(h.emitted)
    ensures var h := Exec(mode, START, ops);
            0 <= h.Consumed() <= |Fed(ops)| && h.parser.buffer == Fed(ops)[h.Consumed()..]
  {
    StartInv(mode);
    ExecInv(mode, START, ops);
  }

  /** A pop that returns no frame leaves less than one frame of the largest size. */
  lemma {:induction false} BoundedBuffer(mode: string, p: ParserState)
    requires Pop(mode, p).1 == None
    ensures |Pop(mode, p).0.buffer| < 4 + MAX_LENGTH
    ensures Drained(mode, Pop(mode, p).0)
  {
    FailedPopSticks(mode, p);
    StuckIsDrained(mode, Pop(mode, p).0);
    hide Pop, Accepts, NextLock;
  }

  /** How many bytes have been discarded does depend on the chunking: seven zeros at once are all discarded,
      while six and one leave the last one undecided. */
  lemma {:induction false} DiscardedDependsOnChunking(mode: string)
    ensures var six: Bytes := [0, 0, 0, 0, 0, 0];
            var ops1, ops2 := [Append(six + [0]), TryPop], [Append(six), TryPop, Append([0]), TryPop];
            && Fed(ops1) == Fed(ops2)
            && Exec(mode, START, ops1).parser.discarded == 7
            && Exec(mode, START, ops2).parser.discarded == 6
  {
    var six: Bytes := [0, 0, 0, 0, 0, 0];
    ZerosDiscarded(mode, six);
    ZerosDiscarded(mode, six + [0]);
    hide *;
    var h := Exec(mode, START, [Append(six), TryPop]);
    ShortKept(mode, h, [0]);
    TwoRounds(mode, START, six, [0]);
    AppendThenPop(mode, START, six + [0]);
  }

  lemma ZerosDiscarded(mode: string, s: Bytes)
    requires |s| >= 6 && forall i :: 0 <= i < |s| ==> s[i] == 0
    ensures var p := Exec(mode, START, [Append(s), TryPop]).parser;
            p.buffer == [] && p.discarded == |s|
  {
    AppendThenPop(mode, START, s);
    NoSyncInZeros(s);
    PopUnsynced(mode, INITIAL.(buffer := s));
    hide Pop, FindSync, Exec;
    assert [] + s == s;
  }

  lemma ShortKept(mode: string, h: History, s: Bytes)
    requires h.parser.buffer == [] && |s| < 6
    ensures Exec(mode, h, [Append(s), TryPop]).parser.discarded == h.parser.discarded
  {
    AppendThenPop(mode, h, s);
    PopShort(mode, h.parser.(buffer := [] + s));
    hide Pop, Exec;
  }

  lemma AppendThenPop(mode: string, h: History, chunk: Bytes)
    ensures Exec(mode, h, [Append(chunk), TryPop]) == Step(mode, Step(mode, h, Append(chunk)), TryPop)
    ensures Fed([Append(chunk), TryPop]) == chunk
  {
    hide Step;
    var ops := [Append(chunk), TryPop];
    assert ops[1..] == [TryPop] && ops[1..][1..] == [];
    var next := Step(mode, h, Append(chunk));
    assert Exec(mode, next, ops[1..]) == Step(mode, next, TryPop);
    assert Fed(ops[1..]) == [];
  }

  lemma TwoRounds(mode: string, h: History, a: Bytes, b: Bytes)
    ensures Exec(mode, h, [Append(a), TryPop, Append(b), TryPop]) ==
            Exec(mode, Exec(mode, h, [Append(a), TryPop]), [Append(b), TryPop])
    ensures Fed([Append(a), TryPop, Append(b), TryPop]) == a + b
  {
    AppendThenPop(mode, h, a);
    AppendThenPop(mode, h, b);
    hide Step;
    var ops := [Append(a), TryPop, Append(b), TryPop];
    assert ops[1..] == [TryPop, Append(b), TryPop] && ops[1..][1..] == [Append(b), TryPop];
    var next := Step(mode, h, Append(a));
    assert Exec(mode, next, ops[1..]) == Exec(mode, Step(mode, next, TryPop), [Append(b), TryPop]);
    assert Fed(ops[1..]) == [] + Fed(ops[1..][1..]);
  }

  lemma NoSyncInZeros(s: Bytes)
    requires |s| >= 6 && forall i :: 0 <= i < |s| ==> s[i] == 0
    ensures FindSync(s) == |s|
  {
    var k := FindSync(s);
  }

  // ---- The reported profile

  /** The name reported is that of the locked or named profile once a checksum was looked at. */
  predicate Reported(mode: string, p: ParserState) {
    if mode == "auto" then p.activeName == if p.lock >= 0 then PROFILES[p.lock].name else "unknown"
    else if mode == "none" then p.activeName == if p.okFrames > 0 then "none" else "unknown"
    else p.activeName == if ProfileIndex(mode) >= 0 && p.okFrames + p.crcFailures > 0 then mode else "unknown"
  }

  lemma NameAfterCheck(mode: string, p: ParserState, q: ParserState)
    requires Reported(mode, p) && q.activeName == ActiveName(mode, q.lock, p.activeName)
    requires mode == "auto" && p.lock >= 0 ==> q.lock == p.lock
    requires q.okFrames + q.crcFailures == p.okFrames + p.crcFailures + 1
    requires mode == "none" ==> q.okFrames == p.okFrames + 1
    ensures Reported(mode, q)
  {
  }

  lemma CheckOutcome(mode: string, lock: Lock, s: Bytes)
    ensures var v := Head(mode, lock, s);
            && (v.Good? && mode == "auto" && lock >= 0 ==> v.lock == lock)
            && (v.BadCrc? ==> mode != "none")
  {
    hide ReadLe16;
  }

  lemma {:induction false} PopReports(mode: string, p: ParserState)
    requires Reported(mode, p)
    ensures Reported(mode, Pop(mode, p).0)
    decreases |p.buffer|
  {
    if |p.buffer| < 6 {
      PopShort(mode, p);
    } else if FindSync(p.buffer) == |p.buffer| {
      PopUnsynced(mode, p);
    } else {
      hide Pop, FindSync, ActiveName, Head;
      PopUnfold(mode, p);
      var q := Synced(p);
      var v := Head(mode, q.lock, q.buffer);
      CheckOutcome(mode, q.lock, q.buffer);
      assert Reported(mode, q);
      hide Reported;
      if v.BadLength? {
        assert Reported(mode, Rejected(mode, q)) by {
          KeepsName(mode, q, Rejected(mode, q));
        }
        PopReports(mode, Rejected(mode, q));
      } else if v.BadCrc? {
        NameAfterCheck(mode, q, Rejected(mode, q));
        PopReports(mode, Rejected(mode, q));
      } else if v.Good? {
        NameAfterCheck(mode, q, Pop(mode, p).0);
      }
    }
  }

  lemma KeepsName(mode: string, p: ParserState, q: ParserState)
    requires Reported(mode, p) && q == p.(buffer := q.buffer, badLengths := q.badLengths)
    ensures Reported(mode, q)
  {
  }

  /** In every run the reported profile is the one frames are being checked with. */
  lemma {:induction false} ProfileIsReported(mode: string, h: History, ops: seq<Op>)
    requires Reported(mode, h.parser)
    ensures Reported(mode, Exec(mode, h, ops).parser)
    decreases |ops|
  {
    if ops != [] {
      if ops[0].TryPop? {
        PopReports(mode, h.parser);
      }
      hide Pop;
      ProfileIsReported(mode, Step(mode, h, ops[0]), ops[1..]);
    }
  }
}
