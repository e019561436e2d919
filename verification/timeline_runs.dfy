/** Properties of whole runs of the timestamp normalizers. */
module TimelineRuns {
  import opened Wrappers
  import opened TimestampNormalizer

  function Final(kind: Kind, s: Timeline, os: seq<Observed>): Timeline
    decreases |os|
  {
    if os == [] then s else Final(kind, Observe(kind, s, os[0]), os[1..])
  }

  function Outputs(kind: Kind, s: Timeline, os: seq<Observed>): (r: seq<nat>)
    ensures |r| == |os|
    decreases |os|
  {
    if os == [] then []
    else
      var next := Observe(kind, s, os[0]);
      [next.lastOutputUs] + Outputs(kind, next, os[1..])
  }

  function Decisions(kind: Kind, s: Timeline, os: seq<Observed>): (r: seq<Decision>)
    ensures |r| == |os|
    decreases |os|
  {
    if os == [] then []
    else [Judge(kind, s, os[0].sample, os[0].hostUs)] + Decisions(kind, Observe(kind, s, os[0]), os[1..])
  }

  predicate StrictlyIncreasing(xs: seq<nat>) {
    forall i, j :: 0 <= i < j < |xs| ==> xs[i] < xs[j]
  }

  lemma FirstIsFirst(kind: Kind, s: Timeline, x: Sample, hostUs: nat)
    ensures Judge(kind, s, x, hostUs) == First <==> !s.initialized
  {
  }

  /** Every output exceeds the one before, whatever the samples and host times. */
  lemma {:induction false} OutputsIncrease(kind: Kind, s: Timeline, os: seq<Observed>)
    ensures StrictlyIncreasing(Outputs(kind, s, os))
    ensures s.initialized ==> forall i :: 0 <= i < |os| ==> s.lastOutputUs < Outputs(kind, s, os)[i]
    decreases |os|
  {
    if os != [] {
      hide Judge;
      OutputsIncrease(kind, Observe(kind, s, os[0]), os[1..]);
    }
  }

  // ---- Late samples

  /** A sample of a longer run; extra ones are those a shorter run did not see. */
  datatype Tagged = Tagged(o: Observed, extra: bool)

  function Kept(xs: seq<Tagged>): seq<Observed> {
    if xs == [] then [] else (if xs[0].extra then [] else [xs[0].o]) + Kept(xs[1..])
  }

  function Extras(xs: seq<Tagged>): nat {
    if xs == [] then 0 else (if xs[0].extra then 1 else 0) + Extras(xs[1..])
  }

  /** In the longer run every extra sample is judged late when it arrives. */
  predicate ExtrasAreLate(kind: Kind, s: Timeline, xs: seq<Tagged>)
    decreases |xs|
  {
    xs == [] ||
    ((xs[0].extra ==> Judge(kind, s, xs[0].o.sample, xs[0].o.hostUs) == Late) &&
     ExtrasAreLate(kind, Observe(kind, s, xs[0].o), xs[1..]))
  }

  /** Decisions and outputs of the longer run for the samples both runs saw. */
  function KeptResults(kind: Kind, s: Timeline, xs: seq<Tagged>): seq<(Decision, nat)>
    decreases |xs|
  {
    if xs == [] then []
    else
      var next := Observe(kind, s, xs[0].o);
      (if xs[0].extra then [] else [(Judge(kind, s, xs[0].o.sample, xs[0].o.hostUs), next.lastOutputUs)])
      + KeptResults(kind, next, xs[1..])
  }

  /** t is s with its anchor and its last output raised by at most k. */
  predicate Raised(s: Timeline, t: Timeline, k: nat) {
    && t == s.(anchorUs := t.anchorUs, lastOutputUs := t.lastOutputUs)
    && (!s.initialized ==> s == t)
    && 0 <= t.anchorUs - s.anchorUs <= k
    && 0 <= t.lastOutputUs - s.lastOutputUs <= k
  }

  /** No decision depends on the anchor or on the outputs. */
  lemma JudgeIgnoresOutputs(kind: Kind, s: Timeline, t: Timeline, x: Sample, hostUs: nat, k: nat)
    requires Raised(s, t, k)
    ensures Judge(kind, s, x, hostUs) == Judge(kind, t, x, hostUs)
  {
    hide HostElapsedIsMuchSmaller, DivideTowardZero, SecondsForward;
    assert HostElapsed(s, hostUs) == HostElapsed(t, hostUs) && s.previous == t.previous;
    hide HostElapsed;
  }

  lemma RaisedStep(kind: Kind, s: Timeline, t: Timeline, o: Observed, k: nat)
    requires Raised(s, t, k)
    ensures Raised(Observe(kind, s, o), Observe(kind, t, o), k)
  {
    JudgeIgnoresOutputs(kind, s, t, o.sample, o.hostUs, k);
    hide Judge;
  }

  lemma LateStep(kind: Kind, s: Timeline, t: Timeline, o: Observed, k: nat)
    requires Raised(s, t, k) && Judge(kind, t, o.sample, o.hostUs) == Late
    ensures Raised(s, Observe(kind, t, o), k + 1)
  {
  }

  /** Same decisions, and each output raised by at most bound. */
  predicate BarelyRaised(with: seq<(Decision, nat)>, decisions: seq<Decision>, outputs: seq<nat>, bound: nat) {
    && |with| == |decisions| == |outputs|
    && forall i :: 0 <= i < |with| ==> with[i].0 == decisions[i] && 0 <= with[i].1 - outputs[i] <= bound
  }

  /** BarelyRaised, of the longer run from t against the shorter run from s. */
  predicate RunRaised(kind: Kind, s: Timeline, t: Timeline, xs: seq<Tagged>, bound: nat) {
    BarelyRaised(KeptResults(kind, t, xs), Decisions(kind, s, Kept(xs)), Outputs(kind, s, Kept(xs)), bound)
  }

  lemma BarelyRaisedCons(with: seq<(Decision, nat)>, decisions: seq<Decision>, outputs: seq<nat>, bound: nat,
                         d: Decision, low: nat, high: nat)
    requires BarelyRaised(with, decisions, outputs, bound) && 0 <= high - low <= bound
    ensures BarelyRaised([(d, high)] + with, [d] + decisions, [low] + outputs, bound)
  {
  }

  /** Two runs: adding late samples changes no decision about the others, and raises each of their outputs
      by at most the number of samples added, even across restarts. */
  lemma {:induction false} LateSamplesBarelyMatter(kind: Kind, s: Timeline, t: Timeline, xs: seq<Tagged>, k: nat)
    requires Raised(s, t, k) && ExtrasAreLate(kind, t, xs)
    ensures BarelyRaised(KeptResults(kind, t, xs), Decisions(kind, s, Kept(xs)), Outputs(kind, s, Kept(xs)),
                         k + Extras(xs))
    decreases |xs|
  {
    hide *;
    assert RunRaised(kind, s, t, xs, k + Extras(xs)) by {
      if xs == [] {
        NothingRaised(kind, s, t, xs, k);
      } else {
        var o, rest := xs[0].o, xs[1..];
        ExtrasUnfold(kind, t, xs);
        if xs[0].extra {
          LateStep(kind, s, t, o, k);
          LateSamplesBarelyMatter(kind, s, Observe(kind, t, o), rest, k + 1);
          RaisedRun(kind, s, Observe(kind, t, o), rest, k + 1 + Extras(rest));
          ExtraSample(kind, s, t, xs, k);
        } else {
          RaisedStep(kind, s, t, o, k);
          LateSamplesBarelyMatter(kind, Observe(kind, s, o), Observe(kind, t, o), rest, k);
          RaisedRun(kind, Observe(kind, s, o), Observe(kind, t, o), rest, k + Extras(rest));
          KeptSample(kind, s, t, xs, k);
        }
      }
    }
    RaisedRun(kind, s, t, xs, k + Extras(xs));
  }

  lemma RaisedRun(kind: Kind, s: Timeline, t: Timeline, xs: seq<Tagged>, bound: nat)
    ensures RunRaised(kind, s, t, xs, bound) <==>
            BarelyRaised(KeptResults(kind, t, xs), Decisions(kind, s, Kept(xs)), Outputs(kind, s, Kept(xs)), bound)
  {
  }

  lemma ExtrasUnfold(kind: Kind, t: Timeline, xs: seq<Tagged>)
    requires xs != [] && ExtrasAreLate(kind, t, xs)
    ensures xs[0].extra ==> Judge(kind, t, xs[0].o.sample, xs[0].o.hostUs) == Late
    ensures ExtrasAreLate(kind, Observe(kind, t, xs[0].o), xs[1..])
  {
    hide Judge, Observe;
  }

  lemma ExtraSample(kind: Kind, s: Timeline, t: Timeline, xs: seq<Tagged>, k: nat)
    requires xs != [] && xs[0].extra
    requires RunRaised(kind, s, Observe(kind, t, xs[0].o), xs[1..], k + 1 + Extras(xs[1..]))
    ensures RunRaised(kind, s, t, xs, k + Extras(xs))
  {
    hide Judge, Observe, BarelyRaised, Decisions, Outputs;
    assert Kept(xs) == Kept(xs[1..]);
    assert KeptResults(kind, t, xs) == KeptResults(kind, Observe(kind, t, xs[0].o), xs[1..]);
  }

  lemma KeptSample(kind: Kind, s: Timeline, t: Timeline, xs: seq<Tagged>, k: nat)
    requires Raised(s, t, k)
    requires xs != [] && !xs[0].extra
    requires RunRaised(kind, Observe(kind, s, xs[0].o), Observe(kind, t, xs[0].o), xs[1..], k + Extras(xs[1..]))
    ensures RunRaised(kind, s, t, xs, k + Extras(xs))
  {
    hide *;
    var o, rest := xs[0].o, xs[1..];
    var s', t', d := Observe(kind, s, o), Observe(kind, t, o), Judge(kind, t, o.sample, o.hostUs);
    JudgeIgnoresOutputs(kind, s, t, o.sample, o.hostUs, k);
    RaisedStep(kind, s, t, o, k);
    RaisedOutput(s', t', k);
    KeptUnfold(kind, s, t, xs);
    ExtrasOfKept(xs);
    RaisedRun(kind, s', t', rest, k + Extras(rest));
    BarelyRaisedCons(KeptResults(kind, t', rest), Decisions(kind, s', Kept(rest)), Outputs(kind, s', Kept(rest)),
                     k + Extras(rest), d, s'.lastOutputUs, t'.lastOutputUs);
    RaisedRun(kind, s, t, xs, k + Extras(xs));
  }

  lemma RaisedOutput(s: Timeline, t: Timeline, k: nat)
    requires Raised(s, t, k)
    ensures 0 <= t.lastOutputUs - s.lastOutputUs <= k
  {
  }

  lemma ExtrasOfKept(xs: seq<Tagged>)
    requires xs != [] && !xs[0].extra
    ensures Extras(xs) == Extras(xs[1..])
  {
  }

  lemma KeptUnfold(kind: Kind, s: Timeline, t: Timeline, xs: seq<Tagged>)
    requires xs != [] && !xs[0].extra
    ensures var o, rest := xs[0].o, xs[1..];
            var s', t' := Observe(kind, s, o), Observe(kind, t, o);
            && KeptResults(kind, t, xs) ==
               [(Judge(kind, t, o.sample, o.hostUs), t'.lastOutputUs)] + KeptResults(kind, t', rest)
            && Decisions(kind, s, Kept(xs)) ==
               [Judge(kind, s, o.sample, o.hostUs)] + Decisions(kind, s', Kept(rest))
            && Outputs(kind, s, Kept(xs)) == [s'.lastOutputUs] + Outputs(kind, s', Kept(rest))
  {
    hide Judge, Observe;
    assert Kept(xs) == [xs[0].o] + Kept(xs[1..]);
    assert Kept(xs)[1..] == Kept(xs[1..]);
  }

  lemma NothingRaised(kind: Kind, s: Timeline, t: Timeline, xs: seq<Tagged>, k: nat)
    requires xs == []
    ensures RunRaised(kind, s, t, xs, k + Extras(xs))
  {
  }

  /** Exactly the millisecond samples up to 500 ms behind are late. */
  lemma LateMilliseconds(s: Timeline, x: Sample, hostUs: nat)
    ensures Judge(Millisecond, s, x, hostUs) == Late <==>
            s.initialized && 0 < s.previous.major - x.major <= 500
  {
  }

  /** With legal nanosecond fields, exactly the samples one second behind, or behind within the second by a
      microsecond or more, are late. */
  lemma LateSeconds(s: Timeline, x: Sample, hostUs: nat)
    requires s.previous.minor < 1_000_000_000 && x.minor < 1_000_000_000
    ensures Judge(Second, s, x, hostUs) == Late <==>
            s.initialized && (s.previous.major - x.major == 1 ||
                              (s.previous.major == x.major && s.previous.minor - x.minor >= 1000))
  {
  }

  // ---- Bounded advance

  function WrapAllowance(kind: Kind, s: Timeline, os: seq<Observed>): nat
    decreases |os|
  {
    if os == [] then 0
    else
      var d := Judge(kind, s, os[0].sample, os[0].hostUs);
      (if kind == Millisecond && d.Advance? && d.wrapped then 0x8000_0000 * US_PER_MS else 0)
      + WrapAllowance(kind, Observe(kind, s, os[0]), os[1..])
  }

  predicate HostNonDecreasing(from: nat, os: seq<Observed>)
    decreases |os|
  {
    os == [] || (from <= os[0].hostUs && HostNonDecreasing(os[0].hostUs, os[1..]))
  }

  function LastHost(from: nat, os: seq<Observed>): nat {
    if os == [] then from else os[|os| - 1].hostUs
  }

  /** The value the logical clock stands at never exceeds the last output. */
  predicate BaseBelowOutput(s: Timeline) {
    s.initialized ==> s.anchorUs + s.logicalUs <= s.lastOutputUs
  }

  lemma BaseStaysBelow(kind: Kind, s: Timeline, o: Observed)
    requires BaseBelowOutput(s)
    ensures BaseBelowOutput(Observe(kind, s, o))
  {
    hide Judge;
  }

  /** An advance is at most five seconds, or four times the host's, or a 32-bit wrap of milliseconds. */
  lemma AdvanceBound(kind: Kind, s: Timeline, o: Observed)
    requires s.initialized && s.lastHostUs <= o.hostUs
    ensures var d := Judge(kind, s, o.sample, o.hostUs);
            d.Advance? ==>
              d.us <= (if kind == Millisecond && d.wrapped then 0x8000_0000 * US_PER_MS
                       else LARGE_RELATIVE_JUMP_US + 4 * (o.hostUs - s.lastHostUs))
  {
  }

  lemma StepBound(kind: Kind, s: Timeline, o: Observed, bound: nat)
    requires s.initialized && BaseBelowOutput(s) && s.lastHostUs <= o.hostUs
    requires s.lastOutputUs <= bound && s.lastHostUs <= bound
    ensures var next := Observe(kind, s, o);
            var raised := bound + LARGE_RELATIVE_JUMP_US + 4 * (next.lastHostUs - s.lastHostUs)
                          + WrapAllowance(kind, s, [o]);
            && next.initialized && s.lastHostUs <= next.lastHostUs <= o.hostUs
            && next.lastOutputUs <= raised && next.lastHostUs <= raised
  {
    AdvanceBound(kind, s, o);
    hide Judge;
    assert [o][1..] == [];
  }

  lemma WrapAllowanceCons(kind: Kind, s: Timeline, os: seq<Observed>)
    requires os != []
    ensures WrapAllowance(kind, s, os) ==
            WrapAllowance(kind, s, [os[0]]) + WrapAllowance(kind, Observe(kind, s, os[0]), os[1..])
  {
    hide Judge, Observe;
    assert [os[0]][1..] == [];
  }

  /** With non-decreasing host times, the output after n samples is at most 5 seconds per sample plus four times
      the elapsed host time above its start, plus 2^31 ms for each wrap of a millisecond counter. */
  lemma {:induction false} BoundedAdvance(kind: Kind, s: Timeline, os: seq<Observed>, bound: nat, from: nat)
    requires s.initialized && BaseBelowOutput(s)
    requires s.lastHostUs <= from && HostNonDecreasing(from, os)
    requires s.lastOutputUs <= bound && s.lastHostUs <= bound
    ensures var end := Final(kind, s, os);
            && end.lastHostUs <= LastHost(from, os) && s.lastHostUs <= end.lastHostUs
            && end.lastOutputUs <= bound + LARGE_RELATIVE_JUMP_US * |os| + 4 * (end.lastHostUs - s.lastHostUs)
                                   + WrapAllowance(kind, s, os)
    decreases |os|
  {
    if os != [] {
      var next := Observe(kind, s, os[0]);
      StepBound(kind, s, os[0], bound);
      BaseStaysBelow(kind, s, os[0]);
      hide Judge, Observe;
      WrapAllowanceCons(kind, s, os);
      hide WrapAllowance;
      var raised := bound + LARGE_RELATIVE_JUMP_US + 4 * (next.lastHostUs - s.lastHostUs)
                    + WrapAllowance(kind, s, [os[0]]);
      assert LastHost(from, os) == LastHost(os[0].hostUs, os[1..]);
      hide LastHost;
      BoundedAdvance(kind, next, os[1..], raised, os[0].hostUs);
    }
  }

  /** From a fresh normalizer: no quantity the 64-bit code computes reaches 2^64 while host times stay below
      2^60 us, fewer than 2^38 samples were seen and the wrap allowance is below 2^63 us. */
  lemma {:induction false} NoOverflow(kind: Kind, anchorUs: nat, os: seq<Observed>)
    requires os != [] && HostNonDecreasing(0, os)
    requires anchorUs < 0x1000_0000_0000_0000 && LastHost(0, os) < 0x1000_0000_0000_0000
    requires |os| < 0x40_0000_0000
    requires WrapAllowance(kind, Observe(kind, Fresh(anchorUs), os[0]), os[1..]) < 0x8000_0000_0000_0000
    ensures var end := Final(kind, Fresh(anchorUs), os);
            && end.anchorUs + end.logicalUs <= end.lastOutputUs < 0x1_0000_0000_0000_0000
            && end.lastHostUs + HOST_JUMP_SLACK_US < 0x1_0000_0000_0000_0000
  {
    var first := Observe(kind, Fresh(anchorUs), os[0]);
    FirstHostBelowLast(os[0].hostUs, os[1..]);
    BoundedAdvance(kind, first, os[1..], Max(first.lastOutputUs, first.lastHostUs), os[0].hostUs);
    FinalBase(kind, first, os[1..]);
    hide Judge;
    assert os[1..] != [] ==> os[1..][|os| - 2] == os[|os| - 1];
  }

  lemma {:induction false} FirstHostBelowLast(from: nat, os: seq<Observed>)
    requires HostNonDecreasing(from, os)
    ensures from <= LastHost(from, os)
    decreases |os|
  {
    if os != [] {
      FirstHostBelowLast(os[0].hostUs, os[1..]);
    }
  }

  lemma {:induction false} FinalBase(kind: Kind, s: Timeline, os: seq<Observed>)
    requires s.initialized && BaseBelowOutput(s)
    ensures Final(kind, s, os).initialized && BaseBelowOutput(Final(kind, s, os))
    decreases |os|
  {
    if os != [] {
      BaseStaysBelow(kind, s, os[0]);
      hide Judge;
      FinalBase(kind, Observe(kind, s, os[0]), os[1..]);
    }
  }

  // ---- Drift of the second normalizer

  /** A device clock in nanoseconds, as its 32-bit seconds and its nanoseconds. */
  function DeviceSample(ns: nat): Sample {
    Sample((ns / 1_000_000_000) % 0x1_0000_0000, ns % 1_000_000_000)
  }

  datatype Tick = Tick(ns: nat, hostUs: nat)

  /** A sample as it arrives: in turn, or a late one the network delayed. */
  datatype Delivery = InTurn(tick: Tick) | Straggler(o: Observed)

  function AsObserved(d: Delivery): Observed {
    if d.InTurn? then Observed(DeviceSample(d.tick.ns), d.tick.hostUs) else d.o
  }

  function AllObserved(ds: seq<Delivery>): (os: seq<Observed>)
    ensures |os| == |ds|
  {
    seq(|ds|, i requires 0 <= i < |ds| => AsObserved(ds[i]))
  }

  function TicksOf(ds: seq<Delivery>): seq<Tick> {
    if ds == [] then [] else (if ds[0].InTurn? then [ds[0].tick] else []) + TicksOf(ds[1..])
  }

  /** Stragglers are judged late when they arrive, and no sample is taken for a restart. */
  predicate Orderly(s: Timeline, ds: seq<Delivery>) {
    forall i :: 0 <= i < |ds| ==>
      var d := Decisions(Second, s, AllObserved(ds))[i];
      d != Restart && (ds[i].Straggler? ==> d == Late)
  }

  lemma OrderlyUnfold(s: Timeline, ds: seq<Delivery>)
    requires ds != [] && Orderly(s, ds)
    ensures var o := AsObserved(ds[0]);
            var d := Judge(Second, s, o.sample, o.hostUs);
            && d != Restart && (ds[0].Straggler? ==> d == Late)
            && Orderly(Observe(Second, s, o), ds[1..])
            && Final(Second, s, AllObserved(ds)) == Final(Second, Observe(Second, s, o), AllObserved(ds[1..]))
  {
    hide Judge, Observe, AsObserved;
    var os := AllObserved(ds);
    var next := Observe(Second, s, os[0]);
    assert os[1..] == AllObserved(ds[1..]);
    assert Decisions(Second, s, os)[0] == Judge(Second, s, os[0].sample, os[0].hostUs);
    forall i | 0 <= i < |ds| - 1
      ensures var d := Decisions(Second, next, os[1..])[i];
              d != Restart && (ds[1..][i].Straggler? ==> d == Late)
    {
      assert Decisions(Second, s, os)[i + 1] == Decisions(Second, next, os[1..])[i];
      assert ds[1..][i] == ds[i + 1];
    }
  }

  /** The device clock does not run backward, nor forward by 2^31 seconds at once. */
  predicate DeviceRuns(from: nat, ts: seq<Tick>)
    decreases |ts|
  {
    ts == [] ||
    (&& from <= ts[0].ns
     && ts[0].ns / 1_000_000_000 - from / 1_000_000_000 < 0x8000_0000
     && DeviceRuns(ts[0].ns, ts[1..]))
  }

  /** The seconds between two readings are recovered across the 32-bit wrap. */
  lemma {:induction false} SecondsRecovered(a: nat, b: nat)
    requires a <= b && b - a < 0x8000_0000
    ensures SecondsForward(a % 0x1_0000_0000, b % 0x1_0000_0000) == Some(b - a)
  {
    var q, r := a / 0x1_0000_0000, a % 0x1_0000_0000;
    var q', r' := b / 0x1_0000_0000, b % 0x1_0000_0000;
    assert a == q * 0x1_0000_0000 + r && b == q' * 0x1_0000_0000 + r';
    assert q' == q || q' == q + 1;
  }

  /** Cutting nanoseconds to microseconds toward zero loses less than a microsecond. */
  lemma CutError(ns: int)
    ensures -999 <= DivideTowardZero(ns, 1000) * 1000 - ns <= 999
    ensures ns % 1000 == 0 ==> DivideTowardZero(ns, 1000) * 1000 == ns
  {
  }

  lemma SplitElapsed(from: nat, to: nat)
    requires from <= to
    ensures var minor := to % 1_000_000_000 - from % 1_000_000_000;
            var seconds := to / 1_000_000_000 - from / 1_000_000_000;
            && to - from == seconds * 1_000_000_000 + minor
            && seconds >= 0 && -1_000_000_000 < minor < 1_000_000_000 && (seconds == 0 ==> minor >= 0)
            && (from % 1000 == 0 && to % 1000 == 0 ==> minor % 1000 == 0)
  {
  }

  /** One accepted step adds the true advance, cut to whole microseconds toward zero. */
  lemma {:induction false} TickAdvance(s: Timeline, from: nat, t: Tick)
    requires s.initialized && s.previous == DeviceSample(from)
    requires from <= t.ns && t.ns / 1_000_000_000 - from / 1_000_000_000 < 0x8000_0000
    ensures var d := Judge(Second, s, DeviceSample(t.ns), t.hostUs);
            d == Restart ||
            (&& d.Advance?
             && -999 <= d.us * 1000 - (t.ns - from) <= 999
             && (t.ns % 1000 == 0 && from % 1000 == 0 ==> d.us * 1000 == t.ns - from))
  {
    var minor := t.ns % 1_000_000_000 - from % 1_000_000_000;
    SecondsRecovered(from / 1_000_000_000, t.ns / 1_000_000_000);
    SplitElapsed(from, t.ns);
    CutError(minor);
    hide SecondsForward, DivideTowardZero;
  }

  /** The first delivery of a run: an exact advance up to truncation, or nothing at all. */
  lemma FirstDelivery(s: Timeline, from: nat, ds: seq<Delivery>)
    requires ds != [] && s.initialized && s.previous == DeviceSample(from)
    requires DeviceRuns(from, TicksOf(ds)) && Orderly(s, ds)
    ensures var next := Observe(Second, s, AsObserved(ds[0]));
            var to := if ds[0].InTurn? then ds[0].tick.ns else from;
            && from <= to && next.initialized && next.anchorUs == s.anchorUs && next.previous == DeviceSample(to)
            && (ds[0].Straggler? ==> next.logicalUs == s.logicalUs)
            && -999 <= 1000 * (next.logicalUs - s.logicalUs) - (to - from) <= 999
            && (to % 1000 == 0 && from % 1000 == 0 ==> 1000 * (next.logicalUs - s.logicalUs) == to - from)
  {
    OrderlyUnfold(s, ds);
    hide Judge, DeviceSample, Orderly, DeviceRuns;
    if ds[0].InTurn? {
      FirstTick(from, ds);
      TickAdvance(s, from, ds[0].tick);
    }
  }

  lemma FirstTick(from: nat, ds: seq<Delivery>)
    requires ds != [] && ds[0].InTurn? && DeviceRuns(from, TicksOf(ds))
    ensures var t := ds[0].tick;
            && TicksOf(ds) == [t] + TicksOf(ds[1..]) && DeviceRuns(t.ns, TicksOf(ds[1..]))
            && from <= t.ns && t.ns / 1_000_000_000 - from / 1_000_000_000 < 0x8000_0000
  {
    assert TicksOf(ds)[1..] == TicksOf(ds[1..]);
  }

  function Elapsed(from: nat, ts: seq<Tick>): int {
    (if ts == [] then from else ts[|ts| - 1].ns) - from
  }

  predicate WholeMicroseconds(from: nat, ts: seq<Tick>) {
    from % 1000 == 0 && forall t :: t in ts ==> t.ns % 1000 == 0
  }

  /** Logical time against true time, in nanoseconds. */
  predicate DriftBounded(logicalUs: int, from: nat, ts: seq<Tick>) {
    && -999 * |ts| <= 1000 * logicalUs - Elapsed(from, ts) <= 999 * |ts|
    && (WholeMicroseconds(from, ts) ==> 1000 * logicalUs == Elapsed(from, ts))
  }

  lemma DriftAdds(step: int, rest: int, from: nat, t: Tick, ts: seq<Tick>)
    requires -999 <= 1000 * step - (t.ns - from) <= 999
    requires t.ns % 1000 == 0 && from % 1000 == 0 ==> 1000 * step == t.ns - from
    requires DriftBounded(rest, t.ns, ts)
    ensures DriftBounded(step + rest, from, [t] + ts)
  {
    assert t in [t] + ts && forall u :: u in ts ==> u in [t] + ts;
    assert Elapsed(from, [t] + ts) == t.ns - from + Elapsed(t.ns, ts);
  }

  lemma {:induction false} DriftRun(s: Timeline, from: nat, ds: seq<Delivery>)
    requires s.initialized && s.previous == DeviceSample(from)
    requires DeviceRuns(from, TicksOf(ds)) && Orderly(s, ds)
    ensures var end := Final(Second, s, AllObserved(ds));
            end.anchorUs == s.anchorUs && DriftBounded(end.logicalUs - s.logicalUs, from, TicksOf(ds))
    decreases |ds|
  {
    hide *;
    if ds == [] {
      NothingDelivered(s, from, ds);
    } else {
      OrderlyUnfold(s, ds);
      FirstDelivery(s, from, ds);
      var next := Observe(Second, s, AsObserved(ds[0]));
      var end := Final(Second, next, AllObserved(ds[1..]));
      if ds[0].InTurn? {
        var t := ds[0].tick;
        FirstTick(from, ds);
        DriftRun(next, t.ns, ds[1..]);
        DriftAdds(next.logicalUs - s.logicalUs, end.logicalUs - next.logicalUs, from, t, TicksOf(ds[1..]));
      } else {
        NotATick(ds);
        DriftRun(next, from, ds[1..]);
      }
    }
  }

  lemma NothingDelivered(s: Timeline, from: nat, ds: seq<Delivery>)
    requires ds == []
    ensures Final(Second, s, AllObserved(ds)) == s && DriftBounded(0, from, TicksOf(ds))
  {
    assert AllObserved(ds) == [];
  }

  lemma NotATick(ds: seq<Delivery>)
    requires ds != [] && ds[0].Straggler?
    ensures TicksOf(ds) == TicksOf(ds[1..])
  {
  }

  /** Between restarts, after n accepted samples and any number of late ones among them, the logical clock is
      within 999*n ns of the true elapsed device time, and exact when every accepted reading is a whole number of
      microseconds. */
  lemma {:induction false} SecondDrift(s: Timeline, from: nat, ds: seq<Delivery>)
    requires s.initialized && s.previous == DeviceSample(from)
    requires DeviceRuns(from, TicksOf(ds)) && Orderly(s, ds)
    ensures var end, ts := Final(Second, s, AllObserved(ds)), TicksOf(ds);
            var elapsed := (if ts == [] then from else ts[|ts| - 1].ns) - from;
            && end.anchorUs == s.anchorUs
            && -999 * |ts| <= 1000 * (end.logicalUs - s.logicalUs) - elapsed <= 999 * |ts|
            && (from % 1000 == 0 && (forall t :: t in ts ==> t.ns % 1000 == 0) ==>
                  1000 * (end.logicalUs - s.logicalUs) == elapsed)
  {
    hide *;
    DriftRun(s, from, ds);
    DriftMeans(Final(Second, s, AllObserved(ds)).logicalUs - s.logicalUs, from, TicksOf(ds));
  }

  lemma DriftMeans(logicalUs: int, from: nat, ts: seq<Tick>)
    requires DriftBounded(logicalUs, from, ts)
    ensures var elapsed := (if ts == [] then from else ts[|ts| - 1].ns) - from;
            && -999 * |ts| <= 1000 * logicalUs - elapsed <= 999 * |ts|
            && (from % 1000 == 0 && (forall t :: t in ts ==> t.ns % 1000 == 0) ==> 1000 * logicalUs == elapsed)
  {
  }
}
