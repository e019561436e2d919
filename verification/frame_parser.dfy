/** The incremental parser: a buffer that is appended to and popped from, with its counters. */
module FrameParsing {
  import opened Wrappers
  import opened ByteUtils
  import opened Crc8
  import opened FrameFormat

  datatype ParserState = ParserState(
    buffer: Bytes, lock: Lock, activeName: string,
    crcFailures: nat, badLengths: nat, discarded: nat, okFrames: nat)

  const INITIAL := ParserState([], -1, "unknown", 0, 0, 0, 0)

  /** Offset of the first sync pair, or the length. */
  function FindSync(s: Bytes): (k: nat)
    ensures k <= |s|
    ensures k < |s| ==> k + 1 < |s| && s[k] == SYNC0 && s[k + 1] == SYNC1
    ensures forall i :: 0 <= i < k && i + 1 < |s| ==> !(s[i] == SYNC0 && s[i + 1] == SYNC1)
  {
    if |s| < 2 then |s|
    else if s[0] == SYNC0 && s[1] == SYNC1 then 0
    else
      var k := FindSync(s[1..]);
      assert forall i :: 0 < i < |s| ==> s[i] == s[1..][i - 1];
      k + 1
  }

  function Pop(mode: string, p: ParserState): (ParserState, Option<Frame>)
    decreases |p.buffer|
  {
    var b := p.buffer;
    if |b| < 6 then (p, None)
    else
      var k := FindSync(b);
      if k == |b| then
        var keep := if b[|b| - 1] == SYNC0 then 1 else 0;
        (p.(buffer := b[|b| - keep..], discarded := p.discarded + |b| - keep), None)
      else
        var q := p.(buffer := b[k..], discarded := p.discarded + k);
        match Head(mode, q.lock, q.buffer)
        case NeedMore => (q, None)
        case BadLength => Pop(mode, q.(buffer := q.buffer[1..], badLengths := q.badLengths + 1))
        case BadCrc =>
          Pop(mode, q.(buffer := q.buffer[1..], crcFailures := q.crcFailures + 1,
                       activeName := ActiveName(mode, q.lock, q.activeName)))
        case Good(frame, next) =>
          (q.(buffer := q.buffer[frame.Size()..], okFrames := q.okFrames + 1,
              lock := next, activeName := ActiveName(mode, next, q.activeName)),
           Some(frame))
  }

  function Synced(p: ParserState): (q: ParserState)
  {
    var k := FindSync(p.buffer);
    p.(buffer := p.buffer[k..], discarded := p.discarded + k)
  }

  lemma PopUnfold(mode: string, p: ParserState)
    requires |p.buffer| >= 6 && FindSync(p.buffer) < |p.buffer|
    ensures var q := Synced(p);
            match Head(mode, q.lock, q.buffer)
            case NeedMore => Pop(mode, p) == (q, None)
            case Garbage => false
            case BadLength => Pop(mode, p) == Pop(mode, q.(buffer := q.buffer[1..], badLengths := q.badLengths + 1))
            case BadCrc =>
              Pop(mode, p) == Pop(mode, q.(buffer := q.buffer[1..], crcFailures := q.crcFailures + 1,
                                           activeName := ActiveName(mode, q.lock, q.activeName)))
            case Good(frame, next) =>
              Pop(mode, p) == (q.(buffer := q.buffer[frame.Size()..], okFrames := q.okFrames + 1, lock := next,
                                  activeName := ActiveName(mode, next, q.activeName)), Some(frame))
  {
    hide Head, ActiveName, FindSync;
    var b, k := p.buffer, FindSync(p.buffer);
    assert b[k..][0] == b[k] && b[k..][1] == b[k + 1];
    SyncedIsNotGarbage(mode, p.lock, b[k..]);
  }

  lemma SyncedIsNotGarbage(mode: string, lock: Lock, s: Bytes)
    requires |s| >= 2 && s[0] == SYNC0 && s[1] == SYNC1
    ensures Head(mode, lock, s) != Garbage
  {
    hide Accepts, NextLock, ReadLe16;
  }

  lemma PopShort(mode: string, p: ParserState)
    requires |p.buffer| < 6
    ensures Pop(mode, p) == (p, None)
  {
  }

  lemma HeadShort(mode: string, lock: Lock, s: Bytes)
    requires 2 <= |s| < 6 && s[0] == SYNC0 && s[1] == SYNC1
    ensures Head(mode, lock, s) == NeedMore
  {
  }

  /** Without a sync pair everything goes, except a last byte that may begin one. */
  lemma PopUnsynced(mode: string, p: ParserState)
    requires |p.buffer| >= 6 && FindSync(p.buffer) == |p.buffer|
    ensures var last := p.buffer[|p.buffer| - 1];
            Pop(mode, p) ==
              if last == SYNC0 then (p.(buffer := [last], discarded := p.discarded + |p.buffer| - 1), None)
              else (p.(buffer := [], discarded := p.discarded + |p.buffer|), None)
  {
    assert p.buffer[|p.buffer| - 1..] == [p.buffer[|p.buffer| - 1]] && p.buffer[|p.buffer|..] == [];
  }

  lemma RejectKeepsLock(mode: string, lock: Lock, input: Bytes, received: Byte)
    ensures !Accepts(mode, lock, input, received) ==> NextLock(mode, lock, input, received) == lock
  {
  }

  class FrameParser {
    const crcMode: string
    var buffer: Bytes
    var lockedProfileIndex: Lock
    var activeCrcName: string
    var crcFailureCount: nat
    var badLengthCount: nat
    var discardedBytes: nat
    var okFrameCount: nat

    function State(): ParserState
      reads this
    {
      ParserState(buffer, lockedProfileIndex, activeCrcName,
                  crcFailureCount, badLengthCount, discardedBytes, okFrameCount)
    }

    constructor (crcMode: string)
      ensures this.crcMode == crcMode && State() == INITIAL
    {
      this.crcMode := crcMode;
      buffer, lockedProfileIndex, activeCrcName := [], -1, "unknown";
      crcFailureCount, badLengthCount, discardedBytes, okFrameCount := 0, 0, 0, 0;
    }

    method Append(data: Bytes)
      modifies this
      ensures State() == old(State()).(buffer := old(buffer) + data)
    {
      buffer := buffer + data;
    }

    static method FindProfileIndex(name: string) returns (index: Lock)
      ensures index == ProfileIndex(name)
    {
      for k := 0 to 4
        invariant ProfileIndex(name) == ProfileIndex(name, k)
      {
        if PROFILES[k].name == name {
          return k;
        }
      }
      return -1;
    }

    method ValidateCrc(data: Bytes, received: Byte) returns (ok: bool)
      modifies this`lockedProfileIndex, this`activeCrcName
      ensures ok == Accepts(crcMode, old(lockedProfileIndex), data, received)
      ensures lockedProfileIndex == NextLock(crcMode, old(lockedProfileIndex), data, received)
      ensures activeCrcName == ActiveName(crcMode, lockedProfileIndex, old(activeCrcName))
    {
      if crcMode == "none" {
        activeCrcName := "none";
        return true;
      }
      if crcMode != "auto" {
        var index := FindProfileIndex(crcMode);
        if index < 0 {
          return false;
        }
        activeCrcName := PROFILES[index].name;
        var checksum := ComputeCrc8(data, PROFILES[index]);
        return checksum == received;
      }
      if lockedProfileIndex >= 0 {
        activeCrcName := PROFILES[lockedProfileIndex].name;
        var checksum := ComputeCrc8(data, PROFILES[lockedProfileIndex]);
        return checksum == received;
      }
      for k := 0 to 4
        invariant FirstMatch(data, received) == FirstMatch(data, received, k)
        invariant lockedProfileIndex == old(lockedProfileIndex) && activeCrcName == old(activeCrcName)
      {
        var checksum := ComputeCrc8(data, PROFILES[k]);
        if checksum == received {
          lockedProfileIndex := k;
          activeCrcName := PROFILES[k].name;
          return true;
        }
      }
      return false;
    }

    /** The next frame, if the buffer holds one. */
    method TryPop() returns (frame: Option<Frame>)
      modifies this
      ensures (State(), frame) == Pop(crcMode, old(State()))
    {
      hide Pop, Head, FindSync, ActiveName;
      while true
        invariant Pop(crcMode, State()) == Pop(crcMode, old(State()))
        decreases |buffer|
      {
        ghost var before := State();
        if |buffer| < 6 {
          PopShort(crcMode, before);
          return None;
        }
        var syncPos := FindSync(buffer);
        if syncPos == |buffer| {
          PopUnsynced(crcMode, before);
          var last := buffer[|buffer| - 1];
          var keepLast := last == SYNC0;
          var removeCount := if keepLast then |buffer| - 1 else |buffer|;
          discardedBytes := discardedBytes + removeCount;
          if keepLast {
            buffer := [last];
          } else {
            buffer := [];
          }
          return None;
        }
        PopUnfold(crcMode, before);
        if syncPos != 0 {
          discardedBytes := discardedBytes + syncPos;
          buffer := buffer[syncPos..];
          if |buffer| < 6 {
            HeadShort(crcMode, lockedProfileIndex, buffer);
            return None;
          }
        }
        assert State() == Synced(before);
        var rejected;
        rejected, frame := TakeHead();
        if !rejected {
          return frame;
        }
        assert |buffer| < |before.buffer|;
      }
    }

    /** The part of TryPop that runs with a sync pair at the front of the buffer. */
    method TakeHead() returns (rejected: bool, frame: Option<Frame>)
      requires |buffer| >= 6 && buffer[0] == SYNC0 && buffer[1] == SYNC1
      modifies this
      ensures var before := old(State());
              match Head(crcMode, before.lock, before.buffer)
              case NeedMore => !rejected && frame == None && State() == before
              case Garbage => false
              case BadLength =>
                rejected && State() == before.(buffer := before.buffer[1..], badLengths := before.badLengths + 1)
              case BadCrc =>
                rejected && State() == before.(buffer := before.buffer[1..], crcFailures := before.crcFailures + 1,
                                               activeName := ActiveName(crcMode, before.lock, before.activeName))
              case Good(good, next) =>
                && !rejected && frame == Some(good)
                && State() == before.(buffer := before.buffer[good.Size()..], okFrames := before.okFrames + 1,
                                      lock := next, activeName := ActiveName(crcMode, next, before.activeName))
    {
      hide ReadLe16, Accepts, NextLock, ActiveName;
      frame := None;
      var length := ReadLe16(buffer[2], buffer[3]);
      if length < MIN_LENGTH || length > MAX_LENGTH {
        badLengthCount := badLengthCount + 1;
        buffer := buffer[1..];
        return true, None;
      }
      var totalSize := 4 + length;
      if |buffer| < totalSize {
        return false, None;
      }
      var crcInput, receivedCrc := buffer[4..3 + length], buffer[totalSize - 1];
      RejectKeepsLock(crcMode, lockedProfileIndex, crcInput, receivedCrc);
      var valid := ValidateCrc(crcInput, receivedCrc);
      if !valid {
        crcFailureCount := crcFailureCount + 1;
        buffer := buffer[1..];
        return true, None;
      }
      var result := Frame(buffer[4], buffer[5..5 + length - 2]);
      assert crcInput[1..] == result.msgData;
      buffer := buffer[totalSize..];
      okFrameCount := okFrameCount + 1;
      return false, Some(result);
    }
  }
}
