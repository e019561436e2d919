/** What the two failure counters of the parser count. */
module FailureCounts {
  import opened Wrappers
  import opened ByteUtils
  import opened FrameFormat
  import opened FrameParsing
  import opened FrameParserRuns
  import opened GreedyTokenization

  datatype Failure = IllegalLength | WrongChecksum

  /** A failure of this kind begins at p: sync, and a length outside 2..16384, or a legal one with a checksum that is
      not valid under lock. */
  predicate FailsAt(kind: Failure, mode: string, lock: Lock, s: Bytes, p: int) {
    && 0 <= p && p + 6 <= |s|
    && s[p] == 0xA5 && s[p + 1] == 0x5A
    && var length := ReadLe16(s[p + 2], s[p + 3]);
       match kind
       case IllegalLength => length < 2 || length > 16384
       case WrongChecksum =>
         && 2 <= length <= 16384 && p + 4 + length <= |s|
         && !Accepts(mode, lock, s[p + 4..p + 3 + length], s[p + 3 + length])
  }

  /** The failures at from up to to that are not strictly inside a frame; the first byte of s has offset base. */
  ghost function Failures(kind: Failure, mode: string, initial: Lock, final: Lock, s: Bytes, base: int,
                          tokens: seq<Token>, from: int, to: int): set<int>
  {
    set p: int | from <= p < to &&
                 FailsAt(kind, mode, LockAt(tokens, initial, final, p), s, p - base) && !Inside(tokens, p)
  }

  function Counted(kind: Failure, crcFailures: nat, badLengths: nat): nat {
    match kind
    case IllegalLength => badLengths
    case WrongChecksum => crcFailures
  }

  lemma HeadFails(mode: string, lock: Lock, s: Bytes)
    ensures Head(mode, lock, s) == BadLength <==> FailsAt(IllegalLength, mode, lock, s, 0)
    ensures Head(mode, lock, s) == BadCrc <==> FailsAt(WrongChecksum, mode, lock, s, 0)
  {
    hide Accepts, NextLock, ReadLe16;
  }

  lemma FailureShifts(kind: Failure, mode: string, lock: Lock, s: Bytes, k: nat, p: int)
    requires k <= p && k <= |s|
    ensures FailsAt(kind, mode, lock, s, p) == FailsAt(kind, mode, lock, s[k..], p - k)
  {
    hide Accepts, ReadLe16;
    if 0 <= p && p + 6 <= |s| {
      var w := s[k..];
      assert w[p - k] == s[p] && w[p - k + 1] == s[p + 1] && w[p - k + 2] == s[p + 2] && w[p - k + 3] == s[p + 3];
      var length := ReadLe16(s[p + 2], s[p + 3]);
      if p + 4 + length <= |s| && length >= 2 {
        assert s[k..][p - k + 4..p - k + 3 + length] == s[p + 4..p + 3 + length];
      }
    }
  }

  /** Failures past the first k bytes do not need them. */
  lemma FailuresShift(kind: Failure, mode: string, initial: Lock, final: Lock, s: Bytes, base: int,
                      tokens: seq<Token>, k: nat, to: int)
    requires k <= |s|
    ensures Failures(kind, mode, initial, final, s, base, tokens, base + k, to) ==
            Failures(kind, mode, initial, final, s[k..], base + k, tokens, base + k, to)
  {
    hide FailsAt, Inside;
    forall p: int | base + k <= p < to
      ensures var lock := LockAt(tokens, initial, final, p);
              FailsAt(kind, mode, lock, s, p - base) == FailsAt(kind, mode, lock, s[k..], p - (base + k))
    {
      FailureShifts(kind, mode, LockAt(tokens, initial, final, p), s, k, p - base);
    }
  }

  /** The tokenization counts exactly the failures it passes over. */
  lemma {:induction false} RunCountsFailures(kind: Failure, mode: string, lock: Lock, base: int, s: Bytes)
    ensures var r := Run(mode, lock, base, s);
            Counted(kind, r.crcFailures, r.badLengths) ==
            |Failures(kind, mode, lock, r.lock, s, base, r.tokens, base, base + |s| - |r.rest|)|
    decreases |s|
  {
    hide Run, Head, FailsAt;
    var r := Run(mode, lock, base, s);
    var end := base + |s| - |r.rest|;
    var v := Head(mode, lock, s);
    RunUnfold(mode, lock, base, s);
    HeadFails(mode, lock, s);
    if v.NeedMore? {
      assert Failures(kind, mode, lock, r.lock, s, base, r.tokens, base, end) == {};
    } else if v.Good? {
      var size := v.frame.Size();
      RunCountsFailures(kind, mode, v.lock, base + size, s[size..]);
      PastFrame(kind, mode, lock, base, s);
    } else {
      RunCountsFailures(kind, mode, lock, base + 1, s[1..]);
      PastByte(kind, mode, lock, base, s);
    }
  }

  lemma PastByte(kind: Failure, mode: string, lock: Lock, base: int, s: Bytes)
    requires var v := Head(mode, lock, s); !v.NeedMore? && !v.Good?
    ensures s != []
    ensures var r, tail := Run(mode, lock, base, s), Run(mode, lock, base + 1, s[1..]);
            var end := base + |s| - |r.rest|;
            && r.tokens == tail.tokens && r.lock == tail.lock && r.rest == tail.rest
            && |Failures(kind, mode, lock, r.lock, s, base, r.tokens, base, end)| ==
               |Failures(kind, mode, lock, r.lock, s[1..], base + 1, r.tokens, base + 1, end)| +
               if FailsAt(kind, mode, lock, s, 0) then 1 else 0
  {
    hide Run, Head, FailsAt;
    var r := Run(mode, lock, base, s);
    var end := base + |s| - |r.rest|;
    RunUnfold(mode, lock, base, s);
    RunBounds(mode, lock, base + 1, s[1..]);
    FailuresShift(kind, mode, lock, r.lock, s, base, r.tokens, 1, end);
    FailuresCut(kind, mode, lock, r.lock, s, base, r.tokens, base, base + 1, end);
    assert !Inside(r.tokens, base) && LockAt(r.tokens, lock, r.lock, base) == lock;
    assert Failures(kind, mode, lock, r.lock, s, base, r.tokens, base, base + 1) ==
           if FailsAt(kind, mode, lock, s, 0) then {base} else {};
  }

  lemma PastFrame(kind: Failure, mode: string, lock: Lock, base: int, s: Bytes)
    requires Head(mode, lock, s).Good?
    ensures var v, r := Head(mode, lock, s), Run(mode, lock, base, s);
            var size, end := v.frame.Size(), base + |s| - |r.rest|;
            var tail := Run(mode, v.lock, base + size, s[size..]);
            Failures(kind, mode, lock, r.lock, s, base, r.tokens, base, end) ==
            Failures(kind, mode, v.lock, tail.lock, s[size..], base + size, tail.tokens, base + size, end)
  {
    hide Run, Head, FailsAt;
    var v, r := Head(mode, lock, s), Run(mode, lock, base, s);
    var size, end := v.frame.Size(), base + |s| - |r.rest|;
    var tail := Run(mode, v.lock, base + size, s[size..]);
    RunUnfold(mode, lock, base, s);
    RunBounds(mode, v.lock, base + size, s[size..]);
    HeadFails(mode, lock, s);
    AcceptSettles(mode, lock, s);
    hide Settled;
    SettledRun(mode, v.lock, base + size, s[size..]);
    FailuresShift(kind, mode, v.lock, tail.lock, s, base, tail.tokens, size, end);
    var first := Token(base, v.frame);
    assert r.tokens == [first] + tail.tokens && first in r.tokens;
    forall p: int | base <= p < end
      ensures p < base + size ==> p == base || Inside(r.tokens, p)
      ensures p == base ==> LockAt(r.tokens, lock, r.lock, p) == lock
      ensures p >= base + size ==>
                && (Inside(r.tokens, p) <==> Inside(tail.tokens, p))
                && LockAt(r.tokens, lock, r.lock, p) == v.lock == LockAt(tail.tokens, v.lock, tail.lock, p)
    {
      assert forall t :: t in r.tokens <==> t == first || t in tail.tokens;
    }
    hide Inside, LockAt;
    assert !FailsAt(kind, mode, lock, s, 0);
  }

  // ---- Runs of the parser

  lemma {:induction false} PopKeepsLock(mode: string, p: ParserState)
    requires Pop(mode, p).1 == None
    ensures Pop(mode, p).0.lock == p.lock
    decreases |p.buffer|
  {
    if |p.buffer| < 6 {
      PopShort(mode, p);
    } else if FindSync(p.buffer) == |p.buffer| {
      PopUnsynced(mode, p);
    } else {
      PopUnfold(mode, p);
      hide Pop, FindSync, ActiveName, Head;
      var q := Synced(p);
      var v := Head(mode, q.lock, q.buffer);
      if v.BadLength? || v.BadCrc? {
        PopKeepsLock(mode, Rejected(mode, q));
      }
    }
  }

  lemma {:induction false} NoFrameNoLock(mode: string, h: History, ops: seq<Op>)
    requires h.emitted == [] ==> h.parser.lock == -1
    ensures Exec(mode, h, ops).emitted == [] ==> Exec(mode, h, ops).parser.lock == -1
    decreases |ops|
  {
    if ops != [] {
      if ops[0].TryPop? && Pop(mode, h.parser).1 == None {
        PopKeepsLock(mode, h.parser);
      }
      hide Pop;
      NoFrameNoLock(mode, Step(mode, h, ops[0]), ops[1..]);
    }
  }

  lemma LockedByFrames(mode: string, ops: seq<Op>)
    ensures var h := Exec(mode, START, ops);
            h.emitted == [] ==> h.parser.lock == -1
  {
    NoFrameNoLock(mode, START, ops);
  }

  /** At every point of every run each counter is the number of consumed positions where a failure of its kind begins,
      under the profile in force there, that are not strictly inside an emitted frame. */
  lemma {:induction false} FailuresAreCounted(kind: Failure, mode: string, ops: seq<Op>)
    ensures var h := Exec(mode, START, ops);
            Counted(kind, h.parser.crcFailures, h.parser.badLengths) ==
            |Failures(kind, mode, -1, h.parser.lock, Fed(ops), 0, h.emitted, 0, h.Consumed())|
  {
    var h := Exec(mode, START, ops);
    var s, at := Fed(ops), h.Consumed();
    var later := Run(mode, h.parser.lock, at, h.parser.buffer);
    hide *;
    LockedByFrames(mode, ops);
    StreamSoFar(mode, ops);
    TokensConsumed(mode, ops);
    ByteConservation(mode, ops);
    RunBounds(mode, h.parser.lock, at, h.parser.buffer);
    RunCountsFailures(kind, mode, -1, 0, s);
    LaterCount(kind, mode, h.parser.lock, s, at);
    PrependCounts(kind, h, later);
    FailuresSplit(kind, mode, h, s, Prepend(h, later), later);
  }

  lemma PrependCounts(kind: Failure, h: History, later: Tally)
    ensures var r := Prepend(h, later);
            && r.lock == later.lock && r.rest == later.rest
            && Counted(kind, r.crcFailures, r.badLengths) ==
               Counted(kind, h.parser.crcFailures, h.parser.badLengths) +
               Counted(kind, later.crcFailures, later.badLengths)
  {
  }

  lemma LaterCount(kind: Failure, mode: string, lock: Lock, s: Bytes, at: nat)
    requires at <= |s|
    ensures var later := Run(mode, lock, at, s[at..]);
            Counted(kind, later.crcFailures, later.badLengths) ==
            |Failures(kind, mode, lock, later.lock, s, 0, later.tokens, at, |s| - |later.rest|)|
  {
    hide *;
    var later := Run(mode, lock, at, s[at..]);
    RunCountsFailures(kind, mode, lock, at, s[at..]);
    FailuresShift(kind, mode, lock, later.lock, s, 0, later.tokens, at, |s| - |later.rest|);
  }

  lemma FailuresSplit(kind: Failure, mode: string, h: History, s: Bytes, r: Tally, later: Tally)
    requires r == Prepend(h, later) && TokensInOrder(h) && h.Consumed() <= |s| - |r.rest|
    requires forall t :: t in later.tokens ==> h.Consumed() <= t.start
    requires if h.emitted == [] then h.parser.lock == -1 else later.lock == h.parser.lock
    ensures var at, end := h.Consumed(), |s| - |r.rest|;
            |Failures(kind, mode, -1, r.lock, s, 0, r.tokens, 0, end)| ==
            |Failures(kind, mode, -1, h.parser.lock, s, 0, h.emitted, 0, at)| +
            |Failures(kind, mode, h.parser.lock, later.lock, s, 0, later.tokens, at, end)|
  {
    var at, end := h.Consumed(), |s| - |r.rest|;
    hide SameThere, Failures;
    forall p: int | 0 <= p < at
      ensures SameThere(-1, r.lock, r.tokens, -1, h.parser.lock, h.emitted, p)
    {
      SameBefore(h.emitted, later.tokens, -1, r.lock, h.parser.lock, at, p);
    }
    forall p: int | at <= p < end
      ensures SameThere(-1, r.lock, r.tokens, h.parser.lock, later.lock, later.tokens, p)
    {
      SameAfter(h.emitted, later.tokens, -1, h.parser.lock, r.lock, at, p);
    }
    hide TokensInOrder;
    FailuresAgree(kind, mode, -1, r.lock, r.tokens, -1, h.parser.lock, h.emitted, s, 0, at);
    FailuresAgree(kind, mode, -1, r.lock, r.tokens, h.parser.lock, later.lock, later.tokens, s, at, end);
    FailuresCut(kind, mode, -1, r.lock, s, 0, r.tokens, 0, at, end);
  }

  /** Both lists of frames say the same about position p. */
  ghost predicate SameThere(initial1: Lock, final1: Lock, tokens1: seq<Token>,
                            initial2: Lock, final2: Lock, tokens2: seq<Token>, p: int)
  {
    && (Inside(tokens1, p) <==> Inside(tokens2, p))
    && LockAt(tokens1, initial1, final1, p) == LockAt(tokens2, initial2, final2, p)
  }

  lemma SameBefore(tokens: seq<Token>, later: seq<Token>, initial: Lock, final: Lock, lock: Lock, at: int, p: int)
    requires p < at && forall t :: t in later ==> at <= t.start
    requires tokens != [] ==> final == lock
    ensures SameThere(initial, final, tokens + later, initial, lock, tokens, p)
  {
    assert forall t :: t in tokens + later <==> t in tokens || t in later;
  }

  lemma SameAfter(tokens: seq<Token>, later: seq<Token>, initial: Lock, lock: Lock, final: Lock, at: int, p: int)
    requires at <= p && forall i :: 0 <= i < |tokens| ==> tokens[i].End() <= at
    requires if tokens == [] then lock == initial else final == lock
    ensures SameThere(initial, final, tokens + later, lock, final, later, p)
  {
    assert forall t :: t in tokens + later <==> t in tokens || t in later;
    assert forall t :: t in tokens ==> t.End() <= p;
  }

  lemma FailuresAgree(kind: Failure, mode: string, initial1: Lock, final1: Lock, tokens1: seq<Token>,
                      initial2: Lock, final2: Lock, tokens2: seq<Token>, s: Bytes, from: int, to: int)
    requires forall p: int :: from <= p < to ==> SameThere(initial1, final1, tokens1, initial2, final2, tokens2, p)
    ensures Failures(kind, mode, initial1, final1, s, 0, tokens1, from, to) ==
            Failures(kind, mode, initial2, final2, s, 0, tokens2, from, to)
  {
    hide FailsAt, Inside, LockAt;
    var one := Failures(kind, mode, initial1, final1, s, 0, tokens1, from, to);
    var two := Failures(kind, mode, initial2, final2, s, 0, tokens2, from, to);
    forall p: int
      ensures p in one <==> p in two
    {
      if from <= p < to {
        assert SameThere(initial1, final1, tokens1, initial2, final2, tokens2, p);
      }
    }
  }

  lemma FailuresCut(kind: Failure, mode: string, initial: Lock, final: Lock, s: Bytes, base: int,
                    tokens: seq<Token>, from: int, at: int, to: int)
    requires from <= at <= to
    ensures |Failures(kind, mode, initial, final, s, base, tokens, from, to)| ==
            |Failures(kind, mode, initial, final, s, base, tokens, from, at)| +
            |Failures(kind, mode, initial, final, s, base, tokens, at, to)|
  {
    hide FailsAt, Inside, LockAt;
    var before := Failures(kind, mode, initial, final, s, base, tokens, from, at);
    var after := Failures(kind, mode, initial, final, s, base, tokens, at, to);
    assert Failures(kind, mode, initial, final, s, base, tokens, from, to) == before + after && before !! after;
  }
}
