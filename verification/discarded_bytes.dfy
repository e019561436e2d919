/** How many bytes a drained parser has discarded: exactly when it depends on how the stream was split. */
module DiscardedBytes {
  import opened ByteUtils
  import opened Crc8
  import opened FrameFormat
  import opened FrameParsing
  import opened FrameParserRuns
  import opened GreedyTokenization

  // ---- The decided part of a stream

  /** The end of the last frame, or the last rejected byte, of s; zero if nothing in it is decided. */
  function Decided(mode: string, lock: Lock, s: Bytes): (k: nat)
    ensures k <= |s|
    decreases |s|
  {
    match Head(mode, lock, s)
    case NeedMore => 0
    case Garbage => After(1, Decided(mode, lock, s[1..]))
    case Good(frame, next) => frame.Size() + Decided(mode, next, s[frame.Size()..])
    case _ => 1 + Decided(mode, lock, s[1..])
  }

  /** An end d behind k garbage bytes. */
  function After(k: nat, d: nat): nat {
    if d == 0 then 0 else k + d
  }

  /** The first byte that is neither decided nor certain to be garbage. */
  function Undecided(mode: string, lock: Lock, base: int, s: Bytes): int {
    |s| - |Run(mode, lock, base, s).rest|
  }

  /** Where a parser that holds n bytes, and no sync pair among the undecided ones, stops discarding. */
  function Leavable(s: Bytes, n: nat): nat
    requires 0 < n <= |s|
  {
    if s[n - 1] == SYNC0 then n - 1 else n
  }

  lemma DecidedUnfold(mode: string, lock: Lock, base: int, s: Bytes)
    ensures match Head(mode, lock, s)
            case NeedMore => Decided(mode, lock, s) == 0 && Undecided(mode, lock, base, s) == 0
            case Garbage =>
              && Decided(mode, lock, s) == After(1, Decided(mode, lock, s[1..]))
              && Undecided(mode, lock, base, s) == 1 + Undecided(mode, lock, base + 1, s[1..])
            case Good(frame, next) =>
              && Decided(mode, lock, s) == frame.Size() + Decided(mode, next, s[frame.Size()..])
              && Undecided(mode, lock, base, s) ==
                 frame.Size() + Undecided(mode, next, base + frame.Size(), s[frame.Size()..])
            case _ =>
              && s != []
              && Decided(mode, lock, s) == 1 + Decided(mode, lock, s[1..])
              && Undecided(mode, lock, base, s) == 1 + Undecided(mode, lock, base + 1, s[1..])
  {
    RunUnfold(mode, lock, base, s);
    HeadNonEmpty(mode, lock, s);
    hide Run, Head;
  }

  lemma {:induction false} SkipDecided(mode: string, lock: Lock, s: Bytes, k: nat, t: Bytes)
    requires k <= |s| && forall i :: 0 <= i < k ==> CannotBegin(s, i)
    ensures Decided(mode, lock, s + t) == After(k, Decided(mode, lock, s[k..] + t))
    decreases k
  {
    if k == 0 {
      assert s[0..] == s;
    } else {
      HeadIsGarbage(mode, lock, s, t);
      hide Head;
      assert (s + t)[1..] == s[1..] + t;
      forall i | 0 <= i < k - 1
        ensures CannotBegin(s[1..], i)
      {
        assert CannotBegin(s, i + 1);
      }
      SkipDecided(mode, lock, s[1..], k - 1, t);
      assert s[1..][k - 1..] == s[k..];
    }
  }

  lemma {:induction false} ShortUndecided(mode: string, lock: Lock, s: Bytes)
    requires |s| < 6
    ensures Decided(mode, lock, s) == 0
    decreases |s|
  {
    if Head(mode, lock, s) == Garbage {
      ShortUndecided(mode, lock, s[1..]);
    }
  }

  lemma PrefixHead(mode: string, lock: Lock, s: Bytes, n: nat)
    requires n <= |s|
    ensures Head(mode, lock, s[..n]) != NeedMore ==> Head(mode, lock, s) == Head(mode, lock, s[..n])
    ensures Head(mode, lock, s[..n]) == NeedMore && n > 1 ==> !Head(mode, lock, s).Garbage?
    ensures Head(mode, lock, s[..n]) == NeedMore && n > 0 ==> s[0] == SYNC0
  {
    assert s[..n] + s[n..] == s;
    if Head(mode, lock, s[..n]) != NeedMore {
      HeadStable(mode, lock, s[..n], s[n..]);
    }
    hide Accepts, NextLock;
  }

  /** A prefix that decides as much as the whole leaves off at the same sync pair, or where it ends. */
  lemma {:induction false} PrefixUndecided(mode: string, lock: Lock, base: int, s: Bytes, n: nat)
    requires n <= |s| && Decided(mode, lock, s[..n]) == Decided(mode, lock, s) < n
    ensures var b, r := Leavable(s, n), Undecided(mode, lock, base, s);
            Undecided(mode, lock, base, s[..n]) == if b < r then b else r
    decreases n
  {
    hide Head, Decided, Undecided;
    var v := Head(mode, lock, s[..n]);
    PrefixHead(mode, lock, s, n);
    DecidedUnfold(mode, lock, base, s);
    DecidedUnfold(mode, lock, base, s[..n]);
    assert s[..n][1..] == s[1..][..n - 1];
    if v.Good? {
      var size := v.frame.Size();
      assert s[..n][size..] == s[size..][..n - size];
      PrefixUndecided(mode, v.lock, base + size, s[size..], n - size);
    } else if v.NeedMore? {
      UndecidedBounds(mode, lock, base, s);
    } else if n > 1 {
      PrefixUndecided(mode, lock, base + 1, s[1..], n - 1);
    } else {
      UndecidedBounds(mode, lock, base + 1, s[1..]);
      UndecidedBounds(mode, lock, base + 1, s[..n][1..]);
      GarbageIsNoSync(mode, lock, s[..n]);
    }
  }

  lemma GarbageIsNoSync(mode: string, lock: Lock, s: Bytes)
    ensures |s| == 1 && Head(mode, lock, s) != NeedMore ==> s[0] != SYNC0
  {
  }

  lemma UndecidedBounds(mode: string, lock: Lock, base: int, s: Bytes)
    ensures 0 <= Undecided(mode, lock, base, s) <= |s|
  {
    RunBounds(mode, lock, base, s);
  }

  // ---- Where a parser can stand

  /** mark is the end of the last decision taken; whatever follows, the stream's is that or the buffer's. */
  ghost predicate Marks(mode: string, h: History, mark: nat) {
    mark <= h.Consumed() && forall t: Bytes :: MarksWith(mode, h, mark, t)
  }

  ghost predicate MarksWith(mode: string, h: History, mark: nat, t: Bytes)
    requires h.Consumed() >= 0
  {
    var d := Decided(mode, h.parser.lock, h.parser.buffer + t);
    Decided(mode, -1, h.stream + t) == if d == 0 then mark else h.Consumed() + d
  }

  /** The parser stands at its last decision, or where some pop with at least lo bytes appended left it. */
  ghost predicate LeftSince(mode: string, h: History, mark: nat, lo: nat) {
    h.Consumed() == mark || exists n: nat :: LeftAt(mode, h, mark, lo, n)
  }

  predicate LeftAt(mode: string, h: History, mark: nat, lo: nat, n: nat) {
    && lo <= n && mark + 6 <= n <= |h.stream|
    && Decided(mode, -1, h.stream[..n]) == mark
    && h.Consumed() == Undecided(mode, -1, 0, h.stream[..n])
  }

  ghost predicate Standing(mode: string, h: History, mark: nat, lo: nat) {
    Inv(mode, h) && Marks(mode, h, mark) && LeftSince(mode, h, mark, lo)
  }

  lemma StartStands(mode: string, lo: nat)
    ensures Standing(mode, START, 0, lo)
  {
    StartInv(mode);
    hide Decided, Inv;
    forall t: Bytes
      ensures MarksWith(mode, START, 0, t)
    {
      assert [] + t == t;
    }
  }

  lemma AppendStands(mode: string, h: History, mark: nat, lo: nat, chunk: Bytes)
    requires Standing(mode, h, mark, lo)
    ensures Standing(mode, Step(mode, h, Append(chunk)), mark, lo)
  {
    var next := Step(mode, h, Append(chunk));
    AppendInv(mode, h, chunk);
    hide Decided, Inv, Undecided, Pop;
    AppendMarks(mode, h, mark, chunk);
    hide Marks;
    if h.Consumed() != mark {
      var n: nat :| LeftAt(mode, h, mark, lo, n);
      assert next.stream[..n] == h.stream[..n];
      assert LeftAt(mode, next, mark, lo, n);
    }
  }

  lemma AppendMarks(mode: string, h: History, mark: nat, chunk: Bytes)
    requires Marks(mode, h, mark)
    ensures Marks(mode, Step(mode, h, Append(chunk)), mark)
  {
    var next := Step(mode, h, Append(chunk));
    hide Decided, Pop;
    forall t: Bytes
      ensures MarksWith(mode, next, mark, t)
    {
      assert MarksWith(mode, h, mark, chunk + t);
      assert h.stream + (chunk + t) == next.stream + t;
      assert h.parser.buffer + (chunk + t) == next.parser.buffer + t;
    }
  }

  lemma DropMarks(mode: string, h: History, mark: nat, k: nat)
    requires Marks(mode, h, mark) && k <= |h.parser.buffer|
    requires forall i :: 0 <= i < k ==> CannotBegin(h.parser.buffer, i)
    ensures Marks(mode, Dropped(h, k), mark)
  {
    hide Decided, CannotBegin;
    forall t: Bytes
      ensures MarksWith(mode, Dropped(h, k), mark, t)
    {
      assert MarksWith(mode, h, mark, t);
      SkipDecided(mode, h.parser.lock, h.parser.buffer, k, t);
    }
  }

  lemma HeadDecides(mode: string, lock: Lock, s: Bytes, size: nat, t: Bytes)
    requires var v := Head(mode, lock, s);
             if v.Good? then size == v.frame.Size() else (v.BadLength? || v.BadCrc?) && size == 1
    ensures size <= |s|
    ensures var v := Head(mode, lock, s);
            Decided(mode, lock, s + t) ==
            size + Decided(mode, if v.Good? then v.lock else lock, s[size..] + t)
  {
    hide *;
    HeadStable(mode, lock, s, t);
    HeadNonEmpty(mode, lock, s);
    DecidedUnfold(mode, lock, 0, s + t);
    assert (s + t)[size..] == s[size..] + t;
  }

  /** A decision at the head of the buffer moves the mark to where the parser then stands. */
  lemma DecisionMarks(mode: string, h: History, mark: nat, next: History)
    requires Marks(mode, h, mark) && next.stream == h.stream
    requires var v := Head(mode, h.parser.lock, h.parser.buffer);
             if v.Good? then
               next.parser.lock == v.lock && next.parser.buffer == h.parser.buffer[v.frame.Size()..]
             else
               (v.BadLength? || v.BadCrc?) && h.parser.buffer != [] &&
               next.parser.lock == h.parser.lock && next.parser.buffer == h.parser.buffer[1..]
    ensures next.Consumed() >= 0 && Marks(mode, next, next.Consumed())
  {
    var p := h.parser;
    var v := Head(mode, p.lock, p.buffer);
    var size := if v.Good? then v.frame.Size() else 1;
    hide Decided;
    forall t: Bytes
      ensures MarksWith(mode, next, next.Consumed(), t)
    {
      assert MarksWith(mode, h, mark, t);
      HeadDecides(mode, p.lock, p.buffer, size, t);
      assert h.stream == next.stream;
    }
  }

  /** With nothing decided in the buffer, a parser that has seen enough stands where the whole stream is. */
  lemma StandsHere(mode: string, h: History, mark: nat, lo: nat)
    requires Inv(mode, h) && Marks(mode, h, mark)
    requires lo <= |h.stream| && mark + 6 <= |h.stream|
    requires Head(mode, h.parser.lock, h.parser.buffer) == NeedMore
    ensures LeftAt(mode, h, mark, lo, |h.stream|)
  {
    hide Run, Head, Decided;
    assert ReplaysWith(mode, h, []) && MarksWith(mode, h, mark, []);
    assert h.stream + [] == h.stream && h.parser.buffer + [] == h.parser.buffer;
    assert h.stream[..|h.stream|] == h.stream;
    DecidedUnfold(mode, h.parser.lock, h.Consumed(), h.parser.buffer);
  }

  lemma {:induction false} PopStands(mode: string, h: History, mark: nat, lo: nat) returns (next: nat)
    requires Standing(mode, h, mark, lo) && lo <= |h.stream|
    ensures Standing(mode, Outcome(h, Pop(mode, h.parser)), next, lo)
    decreases |h.parser.buffer|, 1
  {
    var b := h.parser.buffer;
    next := mark;
    PopInv(mode, h);
    if |b| < 6 {
      PopShort(mode, h.parser);
      assert h.(parser := h.parser) == h;
    } else if FindSync(b) == |b| {
      UnsyncedPopStands(mode, h, mark, lo);
    } else {
      var k := FindSync(b);
      hide Inv, Pop, Marks, LeftSince;
      DropGarbage(mode, h, k);
      DropMarks(mode, h, mark, k);
      next := SyncedPopStands(mode, h, Dropped(h, k), mark, lo);
    }
  }

  lemma UnsyncedPopStands(mode: string, h: History, mark: nat, lo: nat)
    requires Inv(mode, h) && Marks(mode, h, mark) && lo <= |h.stream|
    requires |h.parser.buffer| >= 6 && FindSync(h.parser.buffer) == |h.parser.buffer|
    ensures Standing(mode, Outcome(h, Pop(mode, h.parser)), mark, lo)
  {
    hide Inv, Pop;
    var b := h.parser.buffer;
    PopUnsynced(mode, h.parser);
    var keep := if b[|b| - 1] == SYNC0 then 1 else 0;
    var next := Dropped(h, |b| - keep);
    DropGarbage(mode, h, |b| - keep);
    DropMarks(mode, h, mark, |b| - keep);
    assert next.parser.buffer == if keep == 1 then [b[|b| - 1]] else [];
    hide Marks, FindSync;
    StandsHere(mode, next, mark, lo);
  }

  lemma {:induction false} SyncedPopStands(mode: string, h: History, q: History, mark: nat, lo: nat)
    returns (next: nat)
    requires |h.parser.buffer| >= 6 && FindSync(h.parser.buffer) < |h.parser.buffer|
    requires q == Dropped(h, FindSync(h.parser.buffer)) && Inv(mode, q) && Marks(mode, q, mark)
    requires mark <= h.Consumed() && lo <= |h.stream|
    ensures Standing(mode, Outcome(h, Pop(mode, h.parser)), next, lo)
    decreases |h.parser.buffer|, 0
  {
    hide Pop, FindSync, Inv, Head, ActiveName, Marks;
    PopUnfold(mode, h.parser);
    next := mark;
    var v := Head(mode, q.parser.lock, q.parser.buffer);
    if v.BadLength? || v.BadCrc? {
      RejectHead(mode, q);
      var r := q.(parser := Rejected(mode, q.parser));
      DecisionMarks(mode, q, mark, r);
      next := PopStands(mode, r, r.Consumed(), lo);
      assert Outcome(h, Pop(mode, h.parser)) == Outcome(r, Pop(mode, r.parser));
    } else if v.Good? {
      AcceptHead(mode, q, ActiveName(mode, v.lock, q.parser.activeName));
      var r := Outcome(h, Pop(mode, h.parser));
      DecisionMarks(mode, q, mark, r);
      next := r.Consumed();
    } else {
      StandsHere(mode, q, mark, lo);
    }
  }

  lemma {:induction false} ExecStands(mode: string, h: History, mark: nat, lo: nat, ops: seq<Op>) returns (next: nat)
    requires Standing(mode, h, mark, lo) && lo <= |h.stream|
    ensures Standing(mode, Exec(mode, h, ops), next, lo)
    decreases |ops|
  {
    hide Standing, Pop;
    if ops == [] {
      next := mark;
    } else if ops[0].Append? {
      AppendStands(mode, h, mark, lo, ops[0].chunk);
      next := ExecStands(mode, Step(mode, h, ops[0]), mark, lo, ops[1..]);
    } else {
      var m := PopStands(mode, h, mark, lo);
      next := ExecStands(mode, Step(mode, h, ops[0]), m, lo, ops[1..]);
    }
  }

  // ---- Where a drained parser stands

  lemma {:induction false} TrimShortens(s: Bytes)
    ensures |Trim(s)| <= |s|
  {
    if s != [] {
      TrimShortens(s[1..]);
    }
  }

  /** A drained parser stands at the undecided bytes, or short of them with at most 5 bytes in hand. */
  lemma DrainedStand(mode: string, h: History, mark: nat, lo: nat)
    requires Standing(mode, h, mark, lo) && Drained(mode, h.parser)
    ensures mark == Decided(mode, -1, h.stream)
    ensures var r := Undecided(mode, -1, 0, h.stream);
            h.Consumed() <= r && (h.Consumed() == r || |h.stream| - h.Consumed() < 6)
  {
    var p := h.parser;
    StuckIsDrained(mode, p);
    StuckRun(mode, p, h.Consumed());
    TrimShortens(p.buffer);
    if |p.buffer| < 6 {
      ShortUndecided(mode, p.lock, p.buffer);
    } else {
      DecidedUnfold(mode, p.lock, 0, p.buffer);
    }
    hide Run, Decided, LeftSince, Head, FindSync;
    assert ReplaysWith(mode, h, []) && MarksWith(mode, h, mark, []);
    assert h.stream + [] == h.stream && p.buffer + [] == p.buffer;
  }

  // ---- Two ways of splitting a stream

  function Pops(k: nat): seq<Op> {
    if k == 0 then [] else [TryPop] + Pops(k - 1)
  }

  /** Everything at once, then pops until nothing more comes. */
  function Whole(s: Bytes): seq<Op> {
    [Append(s)] + Pops(|s| + 1)
  }

  function Split(s: Bytes, n: nat): seq<Op>
    requires n <= |s|
  {
    Whole(s[..n]) + [Append(s[n..])]
  }

  lemma {:induction false} PopsDrain(mode: string, h: History, k: nat)
    requires |h.parser.buffer| < k || Drained(mode, h.parser)
    ensures Drained(mode, Exec(mode, h, Pops(k)).parser) && Fed(Pops(k)) == []
    decreases k
  {
    hide Pop, Stuck;
    if k > 0 {
      var next := Step(mode, h, TryPop);
      FailedPopSticks(mode, h.parser);
      StuckIsDrained(mode, next.parser);
      assert Pops(k)[1..] == Pops(k - 1);
      PopsDrain(mode, next, k - 1);
    }
  }

  lemma WholeFeeds(mode: string, s: Bytes)
    ensures Fed(Whole(s)) == s
    ensures Exec(mode, START, Whole(s)) == Exec(mode, Step(mode, START, Append(s)), Pops(|s| + 1))
    ensures Drained(mode, Exec(mode, START, Whole(s)).parser)
  {
    hide Pop, Drained;
    var next := Step(mode, START, Append(s));
    assert Whole(s)[1..] == Pops(|s| + 1);
    assert [] + s == s && s + [] == s;
    PopsDrain(mode, next, |s| + 1);
  }

  /** All at once, a stream that leaves at least 6 bytes undecided is discarded as far as it can be. */
  lemma WholeStands(mode: string, s: Bytes)
    requires Decided(mode, -1, s) + 6 <= |s|
    ensures var h := Exec(mode, START, Whole(s));
            h.stream == s && h.Consumed() == Undecided(mode, -1, 0, s)
  {
    var next := Step(mode, START, Append(s));
    WholeFeeds(mode, s);
    StartStands(mode, |s|);
    AppendStands(mode, START, 0, |s|, s);
    StartInv(mode);
    ExecInv(mode, START, Whole(s));
    assert [] + s == s;
    hide *;
    assert next.stream == s by {
      AppendStream(mode, START, s);
    }
    var mark := ExecStands(mode, next, 0, |s|, Pops(|s| + 1));
    DrainedStand(mode, Exec(mode, START, Whole(s)), mark, |s|);
    AtTheEnd(mode, Exec(mode, START, Whole(s)), mark);
  }

  lemma AppendStream(mode: string, h: History, s: Bytes)
    ensures Step(mode, h, Append(s)).stream == h.stream + s
  {
  }

  lemma AtTheEnd(mode: string, h: History, mark: nat)
    requires Standing(mode, h, mark, |h.stream|) && mark + 6 <= |h.stream|
    requires |h.stream| - h.Consumed() < 6 || h.Consumed() == Undecided(mode, -1, 0, h.stream)
    ensures h.Consumed() == Undecided(mode, -1, 0, h.stream)
  {
    if h.Consumed() != mark {
      var n: nat :| LeftAt(mode, h, mark, |h.stream|, n);
      assert h.stream[..n] == h.stream;
    }
  }

  /** Stopping for a while after n bytes leaves the parser where those bytes leave it. */
  lemma SplitStands(mode: string, s: Bytes, n: nat)
    requires n <= |s| && Decided(mode, -1, s[..n]) + 6 <= n
    requires |s| - 5 <= Undecided(mode, -1, 0, s[..n])
    ensures Fed(Split(s, n)) == s
    ensures var h := Exec(mode, START, Split(s, n));
            && Drained(mode, h.parser) && h.stream == s
            && h.Consumed() == Undecided(mode, -1, 0, s[..n])
  {
    hide *;
    var h := Exec(mode, START, Whole(s[..n]));
    WholeFeeds(mode, s[..n]);
    WholeStands(mode, s[..n]);
    SplitUnfold(mode, s, n);
    OneAppend(mode, h, s[n..]);
    assert s[..n] + s[n..] == s;
    FewBytesDrained(mode, Exec(mode, START, Split(s, n)));
  }

  lemma SplitUnfold(mode: string, s: Bytes, n: nat)
    requires n <= |s|
    ensures Fed(Split(s, n)) == Fed(Whole(s[..n])) + Fed([Append(s[n..])])
    ensures Exec(mode, START, Split(s, n)) == Exec(mode, Exec(mode, START, Whole(s[..n])), [Append(s[n..])])
  {
    hide Whole, Exec, Fed;
    FedAppend(Whole(s[..n]), [Append(s[n..])]);
    ExecAppend(mode, START, Whole(s[..n]), [Append(s[n..])]);
  }

  lemma FewBytesDrained(mode: string, h: History)
    requires |h.stream| - 5 <= h.Consumed()
    ensures Drained(mode, h.parser)
  {
    PopShort(mode, h.parser);
  }

  lemma OneAppend(mode: string, h: History, chunk: Bytes)
    ensures var next := Exec(mode, h, [Append(chunk)]);
            && next.stream == h.stream + chunk && next.Consumed() == h.Consumed()
            && next.parser.buffer == h.parser.buffer + chunk
    ensures Fed([Append(chunk)]) == chunk
  {
    assert [Append(chunk)][1..] == [];
    assert chunk + [] == chunk;
  }

  // ---- Main results

  /** Two drained runs over the same bytes that have discarded different numbers of them. */
  predicate Disagree(mode: string, s: Bytes, ops1: seq<Op>, ops2: seq<Op>) {
    var p1, p2 := Exec(mode, START, ops1).parser, Exec(mode, START, ops2).parser;
    && Fed(ops1) == s && Fed(ops2) == s && Drained(mode, p1) && Drained(mode, p2)
    && p1.discarded != p2.discarded
  }

  /** Stopping after n bytes, once everything is decided that ever will be, leaves at most 5 bytes of the
      stream to come and gives up fewer bytes than the whole stream does. */
  predicate Exposed(mode: string, s: Bytes, n: nat) {
    && Decided(mode, -1, s) + 6 <= n <= |s|
    && Decided(mode, -1, s[..n]) == Decided(mode, -1, s)
    && |s| - 5 <= Leavable(s, n) < Undecided(mode, -1, 0, s)
  }

  /** Every drained run over s stands at its undecided bytes, or at an exposed prefix, or has seen too little. */
  lemma {:induction false} DrainedRunStands(mode: string, s: Bytes, ops: seq<Op>)
    requires Fed(ops) == s && Drained(mode, Exec(mode, START, ops).parser)
    ensures var h := Exec(mode, START, ops);
            var r := Undecided(mode, -1, 0, s);
            && |s| - |h.parser.buffer| == h.Consumed() <= r
            && (h.Consumed() == r || |s| - 5 <= h.Consumed())
            && (|s| < Decided(mode, -1, s) + 6 ==> h.Consumed() == Decided(mode, -1, s))
            && (|s| >= Decided(mode, -1, s) + 6 ==>
                  h.Consumed() == r || exists n: nat :: Exposed(mode, s, n) && Leavable(s, n) == h.Consumed())
  {
    var h := Exec(mode, START, ops);
    StartStands(mode, 0);
    ByteConservation(mode, ops);
    StartInv(mode);
    ExecInv(mode, START, ops);
    assert [] + s == s;
    hide *;
    var mark := ExecStands(mode, START, 0, 0, ops);
    DrainedStand(mode, h, mark, 0);
    StandCases(mode, h, mark);
  }

  lemma StandCases(mode: string, h: History, mark: nat)
    requires Standing(mode, h, mark, 0) && mark == Decided(mode, -1, h.stream)
    requires var r := Undecided(mode, -1, 0, h.stream);
             h.Consumed() <= r && (h.Consumed() == r || |h.stream| - h.Consumed() < 6)
    ensures |h.stream| < mark + 6 ==> h.Consumed() == mark
    ensures |h.stream| >= mark + 6 ==>
              || h.Consumed() == Undecided(mode, -1, 0, h.stream)
              || exists n: nat :: Exposed(mode, h.stream, n) && Leavable(h.stream, n) == h.Consumed()
  {
    hide Inv, Marks, Decided, Undecided;
    if h.Consumed() != mark {
      var n: nat :| LeftAt(mode, h, mark, 0, n);
      PrefixUndecided(mode, -1, 0, h.stream, n);
      if h.Consumed() < Undecided(mode, -1, 0, h.stream) {
        assert Exposed(mode, h.stream, n);
      }
    }
  }

  /** How many bytes of a stream are discarded depends on how it was split exactly when stopping after some
      prefix exposes it. */
  lemma {:induction false} DiscardedVariesExactly(mode: string, s: Bytes)
    ensures (exists ops1, ops2 :: Disagree(mode, s, ops1, ops2)) <==> exists n: nat :: Exposed(mode, s, n)
  {
    if exists ops1, ops2 :: Disagree(mode, s, ops1, ops2) {
      var ops1, ops2 :| Disagree(mode, s, ops1, ops2);
      ChunkingIndependence(mode, ops1, ops2);
      DrainedRunStands(mode, s, ops1);
      DrainedRunStands(mode, s, ops2);
    }
    if exists n: nat :: Exposed(mode, s, n) {
      var n: nat :| Exposed(mode, s, n);
      ExposedDisagrees(mode, s, n);
    }
  }

  lemma ExposedDisagrees(mode: string, s: Bytes, n: nat)
    requires Exposed(mode, s, n)
    ensures Disagree(mode, s, Whole(s), Split(s, n))
  {
    PrefixUndecided(mode, -1, 0, s, n);
    hide Decided, Undecided, Exec, Fed, Whole, Drained;
    WholeFeeds(mode, s);
    WholeStands(mode, s);
    SplitStands(mode, s, n);
    ChunkingIndependence(mode, Whole(s), Split(s, n));
  }

  /** At most 5 bytes are in dispute, and none when the undecided bytes number at least 5 or fewer than 6 follow
      the last decision. */
  lemma {:induction false} DiscardedNearlyAgrees(mode: string, ops1: seq<Op>, ops2: seq<Op>)
    requires Fed(ops1) == Fed(ops2)
    requires Drained(mode, Exec(mode, START, ops1).parser) && Drained(mode, Exec(mode, START, ops2).parser)
    ensures var s := Fed(ops1);
            var d := Exec(mode, START, ops1).parser.discarded - Exec(mode, START, ops2).parser.discarded;
            && -5 <= d <= 5
            && (|Run(mode, -1, 0, s).rest| >= 5 || |s| < Decided(mode, -1, s) + 6 ==> d == 0)
  {
    ChunkingIndependence(mode, ops1, ops2);
    DrainedRunStands(mode, Fed(ops1), ops1);
    DrainedRunStands(mode, Fed(ops1), ops2);
    hide Exec, Fed, Drained, Decided, Run;
    UndecidedBounds(mode, -1, 0, Fed(ops1));
  }

  // ---- Why the prefix must contain everything that decides

  /** An eight-byte stream of a crc8 receiver: a frame whose last byte shows that its checksum fails. All the
      bytes are needed to reject its first one, so no chunking can stop between that and the end, and every
      drained run has discarded the same 7 bytes, although a stop after 7 bytes meets all the other clauses. */
  lemma {:induction false} VerdictComesLate()
    ensures var s: Bytes := [SYNC0, SYNC1, 4, 0, 0, 0, 0, 1];
            && Decided("crc8", -1, s) == 1 && Undecided("crc8", -1, 0, s) == 8
            && Decided("crc8", -1, s) + 6 <= 7 <= |s| && |s| - 5 <= Leavable(s, 7) < Undecided("crc8", -1, 0, s)
            && !exists n: nat :: Exposed("crc8", s, n)
  {
    var s: Bytes := [SYNC0, SYNC1, 4, 0, 0, 0, 0, 1];
    var rest: Bytes := [SYNC1, 4, 0, 0, 0, 0, 1];
    assert s[1..] == rest;
    FrameIncomplete();
    ChecksumFails();
    NoSyncNothingDecided("crc8", -1, 1, rest);
    DecidedUnfold("crc8", -1, 0, s);
    DecidedUnfold("crc8", -1, 0, s[..7]);
    hide Decided, Undecided, Head;
    forall n: nat
      ensures !Exposed("crc8", s, n)
    {
      assert s[..8] == s;
    }
  }

  lemma FrameIncomplete()
    ensures var s: Bytes := [SYNC0, SYNC1, 4, 0, 0, 0, 0, 1];
            Head("crc8", -1, s[..7]) == NeedMore
  {
    LengthFour();
    hide ReadLe16;
  }

  lemma ChecksumFails()
    ensures var s: Bytes := [SYNC0, SYNC1, 4, 0, 0, 0, 0, 1];
            Head("crc8", -1, s) == BadCrc
  {
    var s: Bytes := [SYNC0, SYNC1, 4, 0, 0, 0, 0, 1];
    LengthFour();
    assert s[4..7] == [0, 0, 0];
    ZerosHaveZeroCrc([0, 0, 0]);
    assert !Accepts("crc8", -1, [0, 0, 0], 1);
    hide ReadLe16, Accepts, NextLock;
  }

  lemma LengthFour()
    ensures ReadLe16(4, 0) == 4
  {
  }

  lemma {:induction false} ZerosHaveZeroCrc(data: Bytes)
    requires forall i :: 0 <= i < |data| ==> data[i] == 0
    ensures Crc(PROFILES[0], data) == 0
  {
    if data != [] {
      ZerosHaveZeroCrc(data[..|data| - 1]);
      ShiftsOfZero(0x07, 8);
    }
  }

  lemma {:induction false} NoSyncNothingDecided(mode: string, lock: Lock, base: int, s: Bytes)
    requires forall i :: 0 <= i < |s| ==> s[i] != SYNC0
    ensures Decided(mode, lock, s) == 0 && Undecided(mode, lock, base, s) == |s|
    decreases |s|
  {
    if s != [] {
      NoSyncNothingDecided(mode, lock, base + 1, s[1..]);
    }
  }
}
