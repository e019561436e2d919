/** What a sender's frames become: the exact condition for a lossless round trip, and what the checksum
    protects. */
module FrameRoundTrip {
  import opened ByteUtils
  import opened Crc8
  import opened Gf2
  import opened Crc8Algebra
  import opened FrameFormat
  import opened FrameParserRuns
  import opened GreedyTokenization

  /** A frame as sent, with line noise before it. */
  datatype Message = Message(garbage: Bytes, frame: Frame)

  /** The bytes the checksum covers. */
  function Covered(f: Frame): Bytes {
    [f.msgId] + f.msgData
  }

  predicate Sendable(f: Frame) {
    |f.msgData| + 2 <= MAX_LENGTH
  }

  function Encode(profile: Profile, f: Frame): (e: Bytes)
    requires Sendable(f)
    ensures |e| == f.Size()
  {
    var length := |f.msgData| + 2;
    [SYNC0, SYNC1] + WriteLe16(length) + Covered(f) + [Crc(profile, Covered(f))]
  }

  /** Noise that holds no sync pair; its last byte may be the first half of one. */
  predicate NoSync(g: Bytes) {
    forall i :: 0 <= i < |g| - 1 ==> !(g[i] == SYNC0 && g[i + 1] == SYNC1)
  }

  predicate Legal(msgs: seq<Message>) {
    forall m :: m in msgs ==> NoSync(m.garbage) && Sendable(m.frame)
  }

  function Wire(profile: Profile, msgs: seq<Message>): Bytes
    requires Legal(msgs)
  {
    if msgs == [] then []
    else msgs[0].garbage + (Encode(profile, msgs[0].frame) + Wire(profile, msgs[1..]))
  }

  function Noise(msgs: seq<Message>): nat {
    if msgs == [] then 0 else |msgs[0].garbage| + Noise(msgs[1..])
  }

  /** The frames with the offsets at which they were put on the wire. */
  function Placed(base: int, msgs: seq<Message>): seq<Token>
    decreases |msgs|
  {
    if msgs == [] then []
    else
      var start := base + |msgs[0].garbage|;
      [Token(start, msgs[0].frame)] + Placed(start + msgs[0].frame.Size(), msgs[1..])
  }

  /** The profile the receiver will check with: named by its mode, or locked by the first frame. */
  function Effective(mode: string, sent: Profile, msgs: seq<Message>): Lock {
    if mode == "auto" && msgs != [] then
      FirstMatch(Covered(msgs[0].frame), Crc(sent, Covered(msgs[0].frame)))
    else ProfileIndex(mode)
  }

  /** Every checksum sent is also the checksum under the receiver's profile. */
  predicate Agrees(mode: string, sent: Profile, msgs: seq<Message>) {
    mode == "none" || msgs == [] || AgreesUnder(Effective(mode, sent, msgs), sent, msgs)
  }

  predicate AgreesUnder(lock: Lock, sent: Profile, msgs: seq<Message>) {
    lock >= 0 && forall m :: m in msgs ==>
      Crc(PROFILES[lock], Covered(m.frame)) == Crc(sent, Covered(m.frame))
  }

  // ---- One frame

  /** A complete frame of legal length is decided by its checksum alone. */
  lemma HeadByChecksum(mode: string, lock: Lock, s: Bytes, length: nat)
    requires MIN_LENGTH <= length <= MAX_LENGTH && 4 + length <= |s|
    requires s[0] == SYNC0 && s[1] == SYNC1 && ReadLe16(s[2], s[3]) == length
    ensures var input, received := s[4..3 + length], s[3 + length];
            Head(mode, lock, s) ==
              if Accepts(mode, lock, input, received)
              then Good(Frame(input[0], input[1..]), NextLock(mode, lock, input, received)) else BadCrc
  {
    hide Accepts, NextLock, ReadLe16;
  }

  lemma {:induction false} HeadOfEncoded(mode: string, lock: Lock, sent: Profile, f: Frame, t: Bytes)
    requires Sendable(f)
    ensures var input, received := Covered(f), Crc(sent, Covered(f));
            Head(mode, lock, Encode(sent, f) + t) ==
              if Accepts(mode, lock, input, received) then Good(f, NextLock(mode, lock, input, received)) else BadCrc
  {
    hide Accepts, NextLock, Crc, ReadLe16, WriteLe16, Head;
    var length := |f.msgData| + 2;
    var s := Encode(sent, f) + t;
    Le16RoundTrip(length);
    assert s[4..3 + length] == Covered(f);
    assert Covered(f)[1..] == f.msgData;
    HeadByChecksum(mode, lock, s, length);
  }

  lemma EncodedRun(mode: string, lock: Lock, base: int, sent: Profile, m: Message, t: Bytes)
    requires NoSync(m.garbage) && Sendable(m.frame)
    ensures var input, received := Covered(m.frame), Crc(sent, Covered(m.frame));
            var start := base + |m.garbage|;
            var r := Run(mode, lock, base, m.garbage + (Encode(sent, m.frame) + t));
            if Accepts(mode, lock, input, received) then
              var tail := Run(mode, NextLock(mode, lock, input, received), start + m.frame.Size(), t);
              r == tail.(tokens := [Token(start, m.frame)] + tail.tokens)
            else r.crcFailures > 0
  {
    var g, e := m.garbage, Encode(sent, m.frame);
    GarbageRun(mode, lock, base, g, e, t);
    HeadOfEncoded(mode, lock, sent, m.frame, t);
    hide Encode, Accepts, NextLock, Head, Run;
    assert (e + t)[|e|..] == t;
    DecidedRun(mode, lock, base + |g|, e + t);
  }

  lemma DecidedRun(mode: string, lock: Lock, base: int, s: Bytes)
    ensures var r := Run(mode, lock, base, s);
            match Head(mode, lock, s)
            case Good(frame, next) =>
              var tail := Run(mode, next, base + frame.Size(), s[frame.Size()..]);
              r == tail.(tokens := [Token(base, frame)] + tail.tokens)
            case BadCrc => r.crcFailures > 0
            case _ => true
  {
  }

  lemma GarbageRun(mode: string, lock: Lock, base: int, g: Bytes, e: Bytes, t: Bytes)
    requires NoSync(g) && e != [] && e[0] == SYNC0
    ensures Run(mode, lock, base, g + (e + t)) == Run(mode, lock, base + |g|, e + t)
  {
    hide Run;
    var s := g + [SYNC0];
    forall i | 0 <= i < |g|
      ensures CannotBegin(s, i)
    {
      assert i < |g| - 1 ==> s[i + 1] == g[i + 1];
    }
    SkipGarbage(mode, lock, base, s, |g|, e[1..] + t);
    assert s + (e[1..] + t) == g + (e + t);
    assert s[|g|..] + (e[1..] + t) == e + t;
  }

  // ---- A list of frames

  /** All checks succeed when each message is checked with the lock its predecessors left. */
  predicate AllAccepted(mode: string, lock: Lock, sent: Profile, msgs: seq<Message>)
    decreases |msgs|
  {
    msgs == [] ||
    (var input, received := Covered(msgs[0].frame), Crc(sent, Covered(msgs[0].frame));
     Accepts(mode, lock, input, received) &&
     AllAccepted(mode, NextLock(mode, lock, input, received), sent, msgs[1..]))
  }

  lemma WireUnfold(mode: string, lock: Lock, base: int, sent: Profile, msgs: seq<Message>)
    requires msgs != [] && Legal(msgs)
    ensures var m, rest := msgs[0], msgs[1..];
            var input, received := Covered(m.frame), Crc(sent, Covered(m.frame));
            var start := base + |m.garbage|;
            && NoSync(m.garbage) && Sendable(m.frame) && Legal(rest)
            && Wire(sent, msgs) == m.garbage + (Encode(sent, m.frame) + Wire(sent, rest))
            && Placed(base, msgs) == [Token(start, m.frame)] + Placed(start + m.frame.Size(), rest)
            && (AllAccepted(mode, lock, sent, msgs) <==>
                  Accepts(mode, lock, input, received) &&
                  AllAccepted(mode, NextLock(mode, lock, input, received), sent, rest))
  {
    hide Accepts, NextLock, Encode, Crc, Covered;
  }

  lemma NothingSent(mode: string, lock: Lock, base: int, sent: Profile, msgs: seq<Message>)
    requires msgs == []
    ensures AllAccepted(mode, lock, sent, msgs) && Run(mode, lock, base, Wire(sent, msgs)) == Tally([], 0, 0, lock, [])
    ensures Placed(base, msgs) == []
  {
  }

  lemma {:induction false} WireRun(mode: string, lock: Lock, base: int, sent: Profile, msgs: seq<Message>)
    requires Legal(msgs)
    ensures var r := Run(mode, lock, base, Wire(sent, msgs));
            if AllAccepted(mode, lock, sent, msgs) then r == Tally(Placed(base, msgs), 0, 0, r.lock, [])
            else r.crcFailures > 0
    decreases |msgs|
  {
    hide *;
    if msgs == [] {
      NothingSent(mode, lock, base, sent, msgs);
    } else {
      var m := msgs[0];
      var next := NextLock(mode, lock, Covered(m.frame), Crc(sent, Covered(m.frame)));
      WireUnfold(mode, lock, base, sent, msgs);
      EncodedRun(mode, lock, base, sent, m, Wire(sent, msgs[1..]));
      WireRun(mode, next, base + |m.garbage| + m.frame.Size(), sent, msgs[1..]);
    }
  }

  lemma {:induction false} AllAcceptedSettled(mode: string, lock: Lock, sent: Profile, msgs: seq<Message>)
    requires Settled(mode, lock) && mode != "none"
    requires mode != "auto" ==> lock == -1
    ensures AllAccepted(mode, lock, sent, msgs) <==>
            msgs == [] || AgreesUnder(if mode == "auto" then lock else ProfileIndex(mode), sent, msgs)
    decreases |msgs|
  {
    hide Crc, Covered;
    if msgs != [] {
      AllAcceptedSettled(mode, lock, sent, msgs[1..]);
      assert forall m :: m in msgs <==> m == msgs[0] || m in msgs[1..];
    }
  }

  lemma {:induction false} AllAcceptedUnchecked(lock: Lock, sent: Profile, msgs: seq<Message>)
    ensures AllAccepted("none", lock, sent, msgs)
    decreases |msgs|
  {
    if msgs != [] {
      AllAcceptedUnchecked(lock, sent, msgs[1..]);
    }
  }

  lemma {:induction false} AllAcceptedMeans(mode: string, sent: Profile, msgs: seq<Message>)
    ensures AllAccepted(mode, -1, sent, msgs) <==> Agrees(mode, sent, msgs)
  {
    hide Crc, Covered;
    if mode == "none" {
      AllAcceptedUnchecked(-1, sent, msgs);
    } else if mode != "auto" {
      AllAcceptedSettled(mode, -1, sent, msgs);
    } else if msgs != [] {
      var lock := Effective(mode, sent, msgs);
      if lock >= 0 {
        AllAcceptedSettled(mode, lock, sent, msgs[1..]);
        assert forall m :: m in msgs <==> m == msgs[0] || m in msgs[1..];
      }
    }
  }

  // ---- Main results

  function Frames(tokens: seq<Token>): seq<Frame> {
    seq(|tokens|, i requires 0 <= i < |tokens| => tokens[i].frame)
  }

  /** For every chunking of what a sender put on the wire: every frame comes out, in order, where it was sent,
      with no failure, nothing left over and exactly the noise discarded, if and only if every checksum sent
      is also the checksum under the profile the receiver ends up with. */
  lemma {:induction false} RoundTrip(mode: string, sent: Profile, msgs: seq<Message>, ops: seq<Op>)
    requires Legal(msgs) && Fed(ops) == Wire(sent, msgs)
    requires Drained(mode, Exec(mode, START, ops).parser)
    ensures var h := Exec(mode, START, ops);
            var p := h.parser;
            Agrees(mode, sent, msgs) <==>
              && h.emitted == Placed(0, msgs) && p.okFrames == |msgs|
              && p.crcFailures == 0 && p.badLengths == 0 && p.buffer == [] && p.discarded == Noise(msgs)
  {
    var h := Exec(mode, START, ops);
    DrainedParserTokenizes(mode, ops);
    AllAcceptedMeans(mode, sent, msgs);
    WireRun(mode, -1, 0, sent, msgs);
    if Agrees(mode, sent, msgs) {
      ByteConservation(mode, ops);
      TokensConsumed(mode, ops);
      PlacedSizes(sent, 0, msgs);
      StartInv(mode);
      ExecInv(mode, START, ops);
    }
  }

  /** Otherwise at least one checksum failure is counted. */
  lemma DisagreementIsCounted(mode: string, sent: Profile, msgs: seq<Message>, ops: seq<Op>)
    requires Legal(msgs) && Fed(ops) == Wire(sent, msgs)
    requires Drained(mode, Exec(mode, START, ops).parser)
    ensures Agrees(mode, sent, msgs) <==> Exec(mode, START, ops).parser.crcFailures == 0
  {
    hide Exec, Fed, Wire, Drained, Agrees, Legal, Run, AllAccepted;
    DrainedParserTokenizes(mode, ops);
    AllAcceptedMeans(mode, sent, msgs);
    WireRun(mode, -1, 0, sent, msgs);
  }

  lemma {:induction false} PlacedSizes(sent: Profile, base: int, msgs: seq<Message>)
    requires Legal(msgs)
    ensures var placed := Placed(base, msgs);
            && |placed| == |msgs|
            && |Wire(sent, msgs)| == Noise(msgs) + TotalSize(placed)
            && (msgs != [] ==> placed[|placed| - 1].End() == base + |Wire(sent, msgs)|)
    decreases |msgs|
  {
    hide Encode;
    if msgs != [] {
      var start := base + |msgs[0].garbage|;
      var next := start + msgs[0].frame.Size();
      PlacedSizes(sent, next, msgs[1..]);
      TotalSizeCons(Token(start, msgs[0].frame), Placed(next, msgs[1..]));
    }
  }

  lemma {:induction false} TotalSizeCons(t: Token, ts: seq<Token>)
    ensures TotalSize([t] + ts) == t.frame.Size() + TotalSize(ts)
  {
    var all := [t] + ts;
    if ts == [] {
      assert all[..0] == [];
    } else {
      assert all[..|ts|] == [t] + ts[..|ts| - 1];
      TotalSizeCons(t, ts[..|ts| - 1]);
    }
  }

  /** The condition holds whenever the receiver names the sender's profile or checks nothing, and in auto
      mode whenever no earlier profile matches the first frame. */
  lemma {:induction false} AgreementIsUsual(mode: string, sent: nat, msgs: seq<Message>)
    requires sent < |PROFILES|
    requires mode == "none" || ProfileIndex(mode) == sent ||
             (mode == "auto" && (msgs != [] ==> forall i: nat :: i < sent ==>
               Crc(PROFILES[i], Covered(msgs[0].frame)) != Crc(PROFILES[sent], Covered(msgs[0].frame))))
    ensures Agrees(mode, PROFILES[sent], msgs)
  {
    hide Crc, Covered;
    if mode == "auto" && msgs != [] {
      assert Effective(mode, PROFILES[sent], msgs) == sent;
    }
  }

  // ---- The condition can fail: auto mode can lock the wrong profile

  function MislockedFrames(): (msgs: seq<Message>)
    ensures Legal(msgs)
  {
    [Message([], Frame(0, [])), Message([], Frame(1, []))]
  }

  lemma MislockChecksums()
    ensures Crc(PROFILES[2], Covered(Frame(0, []))) == 0 && Crc(PROFILES[2], Covered(Frame(1, []))) == 0x5E
    ensures Accepts("auto", -1, Covered(Frame(0, [])), 0) && NextLock("auto", -1, Covered(Frame(0, [])), 0) == 0
    ensures !Accepts("auto", 0, Covered(Frame(1, [])), 0x5E)
  {
    assert Covered(Frame(0, [])) == [0] && Covered(Frame(1, [])) == [1];
    CrcOfOneByte(PROFILES[0], 0);
    CrcOfOneByte(PROFILES[2], 0);
    ShiftsOfZero(0x07, 8);
    ShiftsOfZero(0x31, 8);
    assert Reflect8(0) == 0;
    assert Crc(PROFILES[0], [0]) == 0 == Crc(PROFILES[2], [0]);
    Crc8OfOne();
    MaximOfOne();
  }

  /** Without a first sync byte there is nothing to find. */
  lemma {:induction false} NoSyncRun(mode: string, lock: Lock, base: int, s: Bytes)
    requires forall i :: 0 <= i < |s| ==> s[i] != SYNC0
    ensures Run(mode, lock, base, s) == Tally([], 0, 0, lock, [])
    decreases |s|
  {
    RunUnfold(mode, lock, base, s);
    if s != [] {
      HeadIsGarbage(mode, lock, s, []);
      assert s + [] == s;
      hide Run, Head;
      NoSyncRun(mode, lock, base + 1, s[1..]);
    }
  }

  lemma SecondFrameBytes()
    ensures Encode(PROFILES[2], Frame(1, [])) == [SYNC0, SYNC1, 2, 0, 1, 0x5E]
  {
    MislockChecksums();
    hide Crc, ReadLe16, WriteLe16;
    LengthTwo();
  }

  lemma SecondFrameLost()
    ensures var e := Encode(PROFILES[2], Frame(1, []));
            Run("auto", 0, 6, e) == Tally([], 1, 0, 0, [])
  {
    var e := Encode(PROFILES[2], Frame(1, []));
    MislockChecksums();
    SecondFrameBytes();
    HeadOfEncoded("auto", 0, PROFILES[2], Frame(1, []), []);
    hide *;
    assert e + [] == e;
    RunUnfold("auto", 0, 6, e);
    assert e[1..] == [SYNC1, 2, 0, 1, 0x5E];
    NoSyncRun("auto", 0, 7, e[1..]);
  }

  /** A maxim sender whose first frame happens to check under crc8 too loses its second frame, however the bytes
      are split: the receiver emits the first one only and counts a checksum failure. */
  lemma {:induction false} AutoModeCanMislock(ops: seq<Op>)
    ensures !Agrees("auto", PROFILES[2], MislockedFrames())
    ensures Fed(ops) == Wire(PROFILES[2], MislockedFrames()) && Drained("auto", Exec("auto", START, ops).parser) ==>
              var h := Exec("auto", START, ops);
              Frames(h.emitted) == [Frame(0, [])] && h.parser.crcFailures == 1 && h.parser.lock == 0
  {
    MislockDisagrees();
    MislockedRun();
    var maxim := PROFILES[2];
    hide *;
    if Fed(ops) == Wire(maxim, MislockedFrames()) && Drained("auto", Exec("auto", START, ops).parser) {
      DrainedParserTokenizes("auto", ops);
      OneFrameOnly();
    }
  }

  lemma OneFrameOnly()
    ensures Frames([Token(0, Frame(0, []))]) == [Frame(0, [])]
  {
  }

  lemma MislockDisagrees()
    ensures !Agrees("auto", PROFILES[2], MislockedFrames())
  {
    var msgs := MislockedFrames();
    MislockChecksums();
    hide Crc, Covered;
    assert msgs[1] in msgs;
  }

  lemma MislockedRun()
    ensures Run("auto", -1, 0, Wire(PROFILES[2], MislockedFrames())) == Tally([Token(0, Frame(0, []))], 1, 0, 0, [])
  {
    MislockChecksums();
    SecondFrameLost();
    MislockedWire();
    hide Run, Encode, Accepts, NextLock, Crc, Wire;
    OnlyFirstAccepted(PROFILES[2], Frame(0, []), Encode(PROFILES[2], Frame(1, [])));
  }

  lemma OnlyFirstAccepted(sent: Profile, f: Frame, rest: Bytes)
    requires Sendable(f)
    requires Accepts("auto", -1, Covered(f), Crc(sent, Covered(f)))
    requires NextLock("auto", -1, Covered(f), Crc(sent, Covered(f))) == 0
    requires Run("auto", 0, f.Size(), rest) == Tally([], 1, 0, 0, [])
    ensures Run("auto", -1, 0, [] + (Encode(sent, f) + rest)) == Tally([Token(0, f)], 1, 0, 0, [])
  {
    hide Run, Encode, Accepts, NextLock, Crc, Covered;
    EncodedRun("auto", -1, 0, sent, Message([], f), rest);
    assert [Token(0, f)] + [] == [Token(0, f)];
  }

  lemma MislockedWire()
    ensures Wire(PROFILES[2], MislockedFrames()) ==
            [] + (Encode(PROFILES[2], Frame(0, [])) + Encode(PROFILES[2], Frame(1, [])))
  {
    var msgs := MislockedFrames();
    var e := Encode(PROFILES[2], Frame(1, []));
    hide Encode;
    assert msgs[1..][1..] == [];
    assert Wire(PROFILES[2], msgs[1..]) == [] + (e + []) == e;
  }

  // ---- What the checksum protects

  /** The profile the frame at the head is checked with: an unlocked auto parser takes the first that fits. */
  function CheckedWith(mode: string, lock: Lock, input: Bytes, received: Byte): Lock {
    if mode != "auto" then ProfileIndex(mode)
    else if lock >= 0 then lock
    else FirstMatch(input, received)
  }

  /** t is s with a burst of at most 8 flipped bits among the bytes the checksum covers. */
  ghost predicate BurstInCovered(p: Profile, s: Bytes, t: Bytes, length: nat) {
    && |s| == |t| && MIN_LENGTH <= length && 4 + length <= |s|
    && s[..4] == t[..4] && s[3 + length..] == t[3 + length..]
    && BurstApart(MessageBits(p, s[4..3 + length]), MessageBits(p, t[4..3 + length]), 8)
  }

  lemma SameOutside(p: Profile, s: Bytes, t: Bytes, length: nat)
    requires BurstInCovered(p, s, t, length)
    ensures t[0] == s[0] && t[1] == s[1] && t[2] == s[2] && t[3] == s[3] && t[3 + length] == s[3 + length]
  {
    hide BurstApart, MessageBits;
    assert forall i :: 0 <= i < 4 ==> s[i] == s[..4][i] == t[..4][i] == t[i];
    assert s[3 + length..][0] == t[3 + length..][0];
  }

  /** Some other profile than k gives input the received checksum. */
  predicate OtherMatches(k: Lock, input: Bytes, received: Byte) {
    exists j: nat :: j < |PROFILES| && j != k && Crc(PROFILES[j], input) == received
  }

  /** Corrupted input passes the check only while no profile is locked, and only if another profile fits it. */
  lemma BurstCheck(mode: string, lock: Lock, input: Bytes, corrupt: Bytes, received: Byte)
    requires mode != "none" && Accepts(mode, lock, input, received)
    requires var k := CheckedWith(mode, lock, input, received);
             k >= 0 ==> BurstApart(MessageBits(PROFILES[k], input), MessageBits(PROFILES[k], corrupt), 8)
    ensures var k := CheckedWith(mode, lock, input, received);
            && k >= 0
            && (Accepts(mode, lock, corrupt, received) <==>
                  mode == "auto" && lock < 0 && OtherMatches(k, corrupt, received))
  {
    var k := CheckedWith(mode, lock, input, received);
    hide Crc, MessageBits, BurstApart;
    TableDetectsBursts(k);
    BurstChangesCrc(PROFILES[k], input, corrupt);
    var other := FirstMatch(corrupt, received);
  }

  /** For every receiver that checks at all: a burst of at most 8 flipped bits in a frame's checksummed bytes, in
      the order of the profile it is checked with, makes the frame a checksum failure, except exactly when the
      receiver is in auto mode, has not locked a profile yet, and another profile fits the corrupted frame. */
  lemma {:induction false} BurstIsRejected(mode: string, lock: Lock, s: Bytes, t: Bytes, length: nat)
    requires ValidFrameAt(mode, lock, s, 0) && length == ReadLe16(s[2], s[3]) && mode != "none"
    ensures var k := CheckedWith(mode, lock, s[4..3 + length], s[3 + length]);
            && k >= 0
            && (BurstInCovered(PROFILES[k], s, t, length) ==>
                  var passes := mode == "auto" && lock < 0 && OtherMatches(k, t[4..3 + length], s[3 + length]);
                  if passes then Head(mode, lock, t).Good? && Head(mode, lock, t).frame.msgData == t[5..3 + length]
                  else Head(mode, lock, t) == BadCrc)
  {
    hide NextLock, ReadLe16, BurstApart, MessageBits, Head, Crc, OtherMatches;
    var input, received := s[4..3 + length], s[3 + length];
    assert Accepts(mode, lock, input, received);
    var k := CheckedWith(mode, lock, input, received);
    CheckedWithSomething(mode, lock, input, received);
    hide Accepts, CheckedWith;
    if BurstInCovered(PROFILES[k], s, t, length) {
      SameOutside(PROFILES[k], s, t, length);
      BurstCheck(mode, lock, input, t[4..3 + length], received);
      HeadByChecksum(mode, lock, t, length);
      assert t[4..3 + length][1..] == t[5..3 + length];
    }
  }

  lemma CheckedWithSomething(mode: string, lock: Lock, input: Bytes, received: Byte)
    requires mode != "none" && Accepts(mode, lock, input, received)
    ensures CheckedWith(mode, lock, input, received) >= 0
  {
  }

  /** The exception is real: one byte of a crc8 frame corrupted within 8 bits gives an unlocked auto parser a
      frame that fits crc8_itu, which it accepts, and locks. */
  lemma {:induction false} UnlockedBurstCanPass()
    ensures var s, t: Bytes := [0xA5, 0x5A, 2, 0, 0x01, 0x07], [0xA5, 0x5A, 2, 0, 0xC4, 0x07];
            && Head("auto", -1, s) == Good(Frame(0x01, []), 0)
            && BurstInCovered(PROFILES[0], s, t, 2)
            && Head("auto", -1, t) == Good(Frame(0xC4, []), 1)
  {
    var s, t: Bytes := [0xA5, 0x5A, 2, 0, 0x01, 0x07], [0xA5, 0x5A, 2, 0, 0xC4, 0x07];
    assert s[4..5] == [0x01] && t[4..5] == [0xC4];
    assert s[..4] == t[..4] && s[5..] == t[5..] == [0x07];
    Crc8OfOne();
    ChecksumsOfC4();
    OneByteBurst(PROFILES[0], 0x01, 0xC4);
    LengthTwo();
    hide Crc, ReadLe16;
    HeadByChecksum("auto", -1, s, 2);
    HeadByChecksum("auto", -1, t, 2);
  }

  lemma LengthTwo()
    ensures ReadLe16(2, 0) == 2 && WriteLe16(2) == [2, 0]
  {
    assert ByteOf(2) == 2 && ByteOf(0) == 0;
  }

  lemma OneByteBurst(p: Profile, a: Byte, b: Byte)
    requires a != b && !p.reflectIn
    ensures BurstApart(MessageBits(p, [a]), MessageBits(p, [b]), 8)
  {
    assert [a][..0] == [] && [b][..0] == [];
    assert [] + Bits8(a) == Bits8(a) && [] + Bits8(b) == Bits8(b);
    if Bits8(a) == Bits8(b) {
      Bits8Injective(a, b);
    }
    assert BurstAt(Bits8(a), Bits8(b), 8, 0);
  }

  /** A receiver that checks nothing accepts any bytes in the place of a frame's. */
  lemma {:induction false} UncheckedBurstPasses(lock: Lock, s: Bytes, t: Bytes, length: nat)
    requires ValidFrameAt("none", lock, s, 0) && length == ReadLe16(s[2], s[3])
    requires |t| == |s| && t[..4] == s[..4]
    ensures Head("none", lock, t) == Good(Frame(t[4], t[5..3 + length]), lock)
  {
    hide ReadLe16, Head;
    assert forall i :: 0 <= i < 4 ==> t[i] == t[..4][i] == s[..4][i] == s[i];
    HeadByChecksum("none", lock, t, length);
    assert t[4..3 + length][1..] == t[5..3 + length];
  }
}
