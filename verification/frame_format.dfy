/** The serial frame format, and the tokenization of a whole byte stream that it defines. */
module FrameFormat {
  import opened ByteUtils
  import opened Crc8

  const SYNC0: Byte := 0xA5
  const SYNC1: Byte := 0x5A
  const MIN_LENGTH := 2
  const MAX_LENGTH := 16 * 1024

  type Bytes = seq<Byte>

  /** Index of the locked profile, or -1. */
  type Lock = i: int | -1 <= i < 4

  datatype Frame = Frame(msgId: Byte, msgData: Bytes) {
    /** Bytes on the wire: sync, length, id, data, checksum. */
    function Size(): nat {
      6 + |msgData|
    }
  }

  // ---- Checksum modes

  /** The table index of a profile name at or after k, or -1. */
  function ProfileIndex(name: string, k: nat := 0): (r: Lock)
    ensures r >= 0 ==> k <= r < |PROFILES| && PROFILES[r].name == name
    ensures forall i: nat :: k <= i < |PROFILES| && (i < r || r < 0) ==> PROFILES[i].name != name
    decreases 4 - k
  {
    if k >= |PROFILES| then -1
    else if PROFILES[k].name == name then k
    else ProfileIndex(name, k + 1)
  }

  /** The first profile at or after k under which input has the received checksum, or -1. */
  function FirstMatch(input: Bytes, received: Byte, k: nat := 0): (r: Lock)
    ensures r >= 0 ==> k <= r < |PROFILES| && Crc(PROFILES[r], input) == received
    ensures forall i: nat :: k <= i < |PROFILES| && (i < r || r < 0) ==> Crc(PROFILES[i], input) != received
    decreases 4 - k
  {
    if k >= |PROFILES| then -1
    else if Crc(PROFILES[k], input) == received then k
    else FirstMatch(input, received, k + 1)
  }

  predicate Accepts(mode: string, lock: Lock, input: Bytes, received: Byte) {
    if mode == "none" then true
    else if mode != "auto" then
      var index := ProfileIndex(mode);
      index >= 0 && Crc(PROFILES[index], input) == received
    else if lock >= 0 then Crc(PROFILES[lock], input) == received
    else FirstMatch(input, received) >= 0
  }

  /** The locked profile after a check; only auto mode locks, and only once. */
  function NextLock(mode: string, lock: Lock, input: Bytes, received: Byte): Lock {
    if mode == "auto" && lock < 0 then FirstMatch(input, received) else lock
  }

  /** The name reported after a check that left the given lock. */
  function ActiveName(mode: string, lock: Lock, name: string): string {
    if mode == "none" then "none"
    else
      var index := if mode == "auto" then lock else ProfileIndex(mode);
      if index >= 0 then PROFILES[index].name else name
  }

  // ---- Tokenization of a stream

  /** What the bytes at the head of a stream decide. */
  datatype Verdict = NeedMore | Garbage | BadLength | BadCrc | Good(frame: Frame, lock: Lock)

  function Head(mode: string, lock: Lock, s: Bytes): (v: Verdict)
    ensures v.Good? ==> v.frame.Size() <= |s|
  {
    if s == [] then NeedMore
    else if s[0] != SYNC0 then Garbage
    else if |s| == 1 then NeedMore
    else if s[1] != SYNC1 then Garbage
    else if |s| < 6 then NeedMore
    else
      var length := ReadLe16(s[2], s[3]);
      if length < MIN_LENGTH || length > MAX_LENGTH then BadLength
      else if |s| < 4 + length then NeedMore
      else
        var input, received := s[4..3 + length], s[3 + length];
        if Accepts(mode, lock, input, received) then
          Good(Frame(input[0], input[1..]), NextLock(mode, lock, input, received))
        else BadCrc
  }

  /** A frame found in a stream, with the offset of its first byte. */
  datatype Token = Token(start: int, frame: Frame) {
    function End(): int {
      start + frame.Size()
    }
  }

  datatype Tally = Tally(tokens: seq<Token>, crcFailures: nat, badLengths: nat, lock: Lock, rest: Bytes)

  /** Tokenize s, whose first byte has offset base, until its head is undecided. */
  function Run(mode: string, lock: Lock, base: int, s: Bytes): Tally
    decreases |s|
  {
    match Head(mode, lock, s)
    case NeedMore => Tally([], 0, 0, lock, s)
    case Garbage => Run(mode, lock, base + 1, s[1..])
    case BadLength =>
      var r := Run(mode, lock, base + 1, s[1..]);
      r.(badLengths := r.badLengths + 1)
    case BadCrc =>
      var r := Run(mode, lock, base + 1, s[1..]);
      r.(crcFailures := r.crcFailures + 1)
    case Good(frame, next) =>
      var r := Run(mode, next, base + frame.Size(), s[frame.Size()..]);
      r.(tokens := [Token(base, frame)] + r.tokens)
  }

  /** The suffix from the first byte that can still begin a sync pair. */
  function Trim(s: Bytes): Bytes {
    if s == [] || (s[0] == SYNC0 && (|s| == 1 || s[1] == SYNC1)) then s else Trim(s[1..])
  }

  /** A decided head stays decided, whatever arrives next. */
  lemma {:induction false} HeadStable(mode: string, lock: Lock, s: Bytes, t: Bytes)
    requires Head(mode, lock, s) != NeedMore
    ensures Head(mode, lock, s + t) == Head(mode, lock, s)
  {
    hide Accepts, NextLock, ReadLe16;
    assert |s| > 1 ==> (s + t)[1] == s[1];
    if Head(mode, lock, s).Good? || Head(mode, lock, s).BadCrc? {
      var length := ReadLe16(s[2], s[3]);
      assert (s + t)[4..3 + length] == s[4..3 + length];
    }
  }
}
