/** Which positions of a stream start a frame: the leftmost valid ones, and none is lost. */
module GreedyTokenization {
  import opened ByteUtils
  import opened FrameFormat
  import opened FrameParsing
  import opened FrameParserRuns

  /** A complete frame begins at p: sync, a length in the window, and a checksum valid under lock. */
  predicate ValidFrameAt(mode: string, lock: Lock, s: Bytes, p: int) {
    && 0 <= p && p + 6 <= |s|
    && s[p] == SYNC0 && s[p + 1] == SYNC1
    && var length := ReadLe16(s[p + 2], s[p + 3]);
    && MIN_LENGTH <= length <= MAX_LENGTH
    && p + 4 + length <= |s|
    && Accepts(mode, lock, s[p + 4..p + 3 + length], s[p + 3 + length])
  }

  ghost predicate Starts(tokens: seq<Token>, p: int) {
    exists t :: t in tokens && t.start == p
  }

  ghost predicate Inside(tokens: seq<Token>, p: int) {
    exists t :: t in tokens && t.start < p < t.End()
  }

  /** The lock in force at p: the final one once a frame has begun before p. */
  function LockAt(tokens: seq<Token>, initial: Lock, final: Lock, p: int): Lock {
    if tokens != [] && tokens[0].start < p then final else initial
  }

  ghost predicate GreedyAt(mode: string, s: Bytes, base: int, tokens: seq<Token>, lock: Lock, p: int) {
    Starts(tokens, p) <==> ValidFrameAt(mode, lock, s, p - base) && !Inside(tokens, p)
  }

  lemma HeadIsValidFrame(mode: string, lock: Lock, s: Bytes)
    ensures Head(mode, lock, s).Good? <==> ValidFrameAt(mode, lock, s, 0)
  {
    hide Accepts, NextLock, ReadLe16;
  }

  lemma ValidFrameShifts(mode: string, lock: Lock, s: Bytes, k: nat, p: int)
    requires k <= p && k <= |s|
    ensures ValidFrameAt(mode, lock, s, p) == ValidFrameAt(mode, lock, s[k..], p - k)
  {
    hide Accepts, ReadLe16;
    if 0 <= p && p + 6 <= |s| {
      var w := s[k..];
      assert w[p - k] == s[p] && w[p - k + 1] == s[p + 1] && w[p - k + 2] == s[p + 2] && w[p - k + 3] == s[p + 3];
      var length := ReadLe16(s[p + 2], s[p + 3]);
      if p + 4 + length <= |s| && length >= MIN_LENGTH {
        assert s[k..][p - k + 4..p - k + 3 + length] == s[p + 4..p + 3 + length];
      }
    }
  }

  lemma AcceptSettles(mode: string, lock: Lock, s: Bytes)
    requires Head(mode, lock, s).Good?
    ensures Settled(mode, Head(mode, lock, s).lock)
    ensures Settled(mode, lock) ==> Head(mode, lock, s).lock == lock
  {
  }

  lemma {:induction false} SettledRun(mode: string, lock: Lock, base: int, s: Bytes)
    requires Settled(mode, lock)
    ensures Run(mode, lock, base, s).lock == lock
    decreases |s|
  {
    var v := Head(mode, lock, s);
    if v.Good? {
      AcceptSettles(mode, lock, s);
      SettledRun(mode, v.lock, base + v.frame.Size(), s[v.frame.Size()..]);
    } else if !v.NeedMore? {
      SettledRun(mode, lock, base + 1, s[1..]);
    }
  }

  /** Frames lie inside the tokenized part. */
  lemma {:induction false} RunBounds(mode: string, lock: Lock, base: int, s: Bytes)
    ensures var r := Run(mode, lock, base, s);
            |r.rest| <= |s| && forall t :: t in r.tokens ==> base <= t.start && t.End() <= base + |s| - |r.rest|
    decreases |s|
  {
    hide Run, Head;
    RunUnfold(mode, lock, base, s);
    var v := Head(mode, lock, s);
    if v.Good? {
      RunBounds(mode, v.lock, base + v.frame.Size(), s[v.frame.Size()..]);
    } else if !v.NeedMore? {
      RunBounds(mode, lock, base + 1, s[1..]);
    }
  }

  lemma {:induction false} RunIsGreedy(mode: string, lock: Lock, base: int, s: Bytes, p: int)
    requires base <= p < base + |s| - |Run(mode, lock, base, s).rest|
    ensures var r := Run(mode, lock, base, s);
            GreedyAt(mode, s, base, r.tokens, LockAt(r.tokens, lock, r.lock, p), p)
    decreases |s|
  {
    hide Run, Head, ValidFrameAt, Settled;
    var r := Run(mode, lock, base, s);
    var v := Head(mode, lock, s);
    RunUnfold(mode, lock, base, s);
    HeadIsValidFrame(mode, lock, s);
    if v.Good? {
      var size := v.frame.Size();
      var rest := s[size..];
      AcceptSettles(mode, lock, s);
      SettledRun(mode, v.lock, base + size, rest);
      RunBounds(mode, v.lock, base + size, rest);
      var tail := Run(mode, v.lock, base + size, rest);
      if p >= base + size {
        RunIsGreedy(mode, v.lock, base + size, rest, p);
        ValidFrameShifts(mode, v.lock, s, size, p - base);
      }
      GreedyAfterFrame(mode, lock, base, s, p, Token(base, v.frame), tail.tokens, v.lock);
    } else {
      var tail := Run(mode, lock, base + 1, s[1..]);
      RunBounds(mode, lock, base + 1, s[1..]);
      if p > base {
        RunIsGreedy(mode, lock, base + 1, s[1..], p);
        ValidFrameShifts(mode, LockAt(r.tokens, lock, r.lock, p), s, 1, p - base);
      } else {
        assert !Starts(tail.tokens, p);
      }
    }
  }

  lemma GreedyAfterFrame(mode: string, lock: Lock, base: int, s: Bytes, p: int,
                         first: Token, tail: seq<Token>, next: Lock)
    requires base <= p && first.start == base
    requires forall t :: t in tail ==> first.End() <= t.start
    requires ValidFrameAt(mode, lock, s, 0)
    requires p >= first.End() ==> GreedyAt(mode, s, base, tail, next, p)
    ensures var tokens := [first] + tail;
            GreedyAt(mode, s, base, tokens, LockAt(tokens, lock, next, p), p)
  {
    hide ValidFrameAt;
    var tokens := [first] + tail;
    assert first in tokens && forall t :: t in tokens ==> t == first || t in tail;
    if p >= first.End() {
      assert Starts(tokens, p) <==> Starts(tail, p);
      assert Inside(tokens, p) <==> Inside(tail, p);
    } else if p > base {
      assert Inside(tokens, p) && !Starts(tokens, p);
    } else {
      assert Starts(tokens, p) && !Inside(tokens, p);
    }
  }

  /** The first frame checks under the profile it locks. */
  lemma {:induction false} FirstFrameUnderLock(lock: Lock, base: int, s: Bytes)
    requires Run("auto", lock, base, s).tokens != []
    ensures var r := Run("auto", lock, base, s);
            ValidFrameAt("auto", r.lock, s, r.tokens[0].start - base)
    decreases |s|
  {
    hide Run, ValidFrameAt;
    RunUnfold("auto", lock, base, s);
    var v := Head("auto", lock, s);
    if v.Good? {
      hide Head;
      AcceptedUnderNewLock(lock, s);
      AcceptSettles("auto", lock, s);
      SettledRun("auto", v.lock, base + v.frame.Size(), s[v.frame.Size()..]);
    } else {
      hide Head;
      var r := Run("auto", lock, base + 1, s[1..]);
      FirstFrameUnderLock(lock, base + 1, s[1..]);
      RunBounds("auto", lock, base + 1, s[1..]);
      assert r.tokens[0] in r.tokens;
      ValidFrameShifts("auto", r.lock, s, 1, r.tokens[0].start - base);
    }
  }

  lemma AcceptedUnderNewLock(lock: Lock, s: Bytes)
    requires Head("auto", lock, s).Good?
    ensures ValidFrameAt("auto", Head("auto", lock, s).lock, s, 0)
  {
    hide ReadLe16;
  }

  /** The tokenization of the whole stream: what was emitted, then what the buffer will give. */
  lemma StreamSoFar(mode: string, ops: seq<Op>)
    ensures var h := Exec(mode, START, ops);
            var later := Run(mode, h.parser.lock, h.Consumed(), h.parser.buffer);
            && h.stream == Fed(ops) && 0 <= h.Consumed() && h.parser.buffer == Fed(ops)[h.Consumed()..]
            && Run(mode, -1, 0, Fed(ops)) == Prepend(h, later)
            && (h.emitted != [] ==> Settled(mode, h.parser.lock) && later.lock == h.parser.lock)
  {
    hide Run;
    var h := Exec(mode, START, ops);
    StartInv(mode);
    ExecInv(mode, START, ops);
    assert [] + Fed(ops) == Fed(ops);
    assert ReplaysWith(mode, h, []);
    assert h.stream + [] == h.stream && h.parser.buffer + [] == h.parser.buffer;
    if h.emitted != [] {
      SettledRun(mode, h.parser.lock, h.Consumed(), h.parser.buffer);
    }
  }

  // ---- Main results

  /** At every point of every run, a position already consumed started an emitted frame exactly when a valid
      frame begins there under the profile in force and it is not strictly inside an earlier emitted frame. */
  lemma {:induction false} EmitsGreedily(mode: string, ops: seq<Op>, p: nat)
    requires p < Exec(mode, START, ops).Consumed()
    ensures var h := Exec(mode, START, ops);
            GreedyAt(mode, Fed(ops), 0, h.emitted, LockAt(h.emitted, -1, h.parser.lock, p), p)
  {
    var h := Exec(mode, START, ops);
    var s := Fed(ops);
    var r := Run(mode, -1, 0, s);
    var later := Run(mode, h.parser.lock, h.Consumed(), h.parser.buffer);
    StreamSoFar(mode, ops);
    RunBounds(mode, h.parser.lock, h.Consumed(), h.parser.buffer);
    hide Run, ValidFrameAt, Exec, Fed;
    RunIsGreedy(mode, -1, 0, s, p);
    assert r.tokens == h.emitted + later.tokens;
    assert Starts(r.tokens, p) <==> Starts(h.emitted, p);
    assert Inside(r.tokens, p) <==> Inside(h.emitted, p);
    assert LockAt(r.tokens, -1, r.lock, p) == LockAt(h.emitted, -1, h.parser.lock, p);
  }

  /** In auto mode every frame ever emitted, the first included, checks under the one locked profile. */
  lemma {:induction false} OneProfileForAll(ops: seq<Op>, t: Token)
    requires t in Exec("auto", START, ops).emitted
    ensures var h := Exec("auto", START, ops);
            h.parser.lock >= 0 && ValidFrameAt("auto", h.parser.lock, Fed(ops), t.start)
  {
    var h := Exec("auto", START, ops);
    TokensConsumed("auto", ops);
    StreamSoFar("auto", ops);
    hide ValidFrameAt, Exec, Fed, Run;
    assert TokensInOrder(h);
    if h.emitted[0].start < t.start {
      EmitsGreedily("auto", ops, t.start);
      assert Starts(h.emitted, t.start);
    } else {
      FirstFrameUnderLock(-1, 0, Fed(ops));
      assert Run("auto", -1, 0, Fed(ops)).tokens[0] == h.emitted[0];
    }
  }

  /** Every complete frame is decided within 16 KiB + 4 bytes of its start: once a drained parser has been fed that
      many bytes from a position on, the position is consumed, and it started a frame exactly when one is there. */
  lemma {:induction false} DecidedInTime(mode: string, ops: seq<Op>, p: nat)
    requires Drained(mode, Exec(mode, START, ops).parser) && p + 4 + MAX_LENGTH <= |Fed(ops)|
    ensures var h := Exec(mode, START, ops);
            && p < h.Consumed()
            && GreedyAt(mode, Fed(ops), 0, h.emitted, LockAt(h.emitted, -1, h.parser.lock, p), p)
  {
    ByteConservation(mode, ops);
    BoundedBuffer(mode, Exec(mode, START, ops).parser);
    StartInv(mode);
    ExecInv(mode, START, ops);
    assert [] + Fed(ops) == Fed(ops);
    hide Exec, Fed, Pop, ValidFrameAt, Inv;
    EmitsGreedily(mode, ops, p);
  }

  lemma {:induction false} TokensConsumed(mode: string, ops: seq<Op>)
    ensures TokensInOrder(Exec(mode, START, ops))
  {
    ExecTokens(mode, START, ops);
  }

  /** Emitted frames do not overlap and lie in the consumed part, in stream order. */
  predicate TokensInOrder(h: History) {
    && 0 <= h.Consumed()
    && (forall i :: 0 <= i < |h.emitted| ==> 0 <= h.emitted[i].start && h.emitted[i].End() <= h.Consumed())
    && (forall i, j :: 0 <= i < j < |h.emitted| ==> h.emitted[i].End() <= h.emitted[j].start)
  }

  lemma {:induction false} ExecTokens(mode: string, h: History, ops: seq<Op>)
    requires TokensInOrder(h)
    ensures TokensInOrder(Exec(mode, h, ops))
    decreases |ops|
  {
    if ops != [] {
      if ops[0].TryPop? {
        PopShrinks(mode, h.parser);
      }
      ExecTokens(mode, Step(mode, h, ops[0]), ops[1..]);
    }
  }

  lemma {:induction false} PopShrinks(mode: string, p: ParserState)
    ensures var (q, popped) := Pop(mode, p);
            |q.buffer| + (if popped.Some? then popped.value.Size() else 0) <= |p.buffer|
    decreases |p.buffer|
  {
    var b := p.buffer;
    if |b| < 6 {
      PopShort(mode, p);
    } else if FindSync(b) == |b| {
      PopUnsynced(mode, p);
    } else {
      PopUnfold(mode, p);
      hide Pop, FindSync, ActiveName;
      var q := Synced(p);
      var v := Head(mode, q.lock, q.buffer);
      if v.BadLength? || v.BadCrc? {
        PopShrinks(mode, Rejected(mode, q));
      }
    }
  }
}
