/** Properties of whole runs of the serial normalizer, which wraps a millisecond timeline in a second clamp. */
module SerialTimelineRuns {
  import opened TimestampNormalizer
  import opened TimelineRuns

  function SerialStep(s: Serial, o: Observed): Serial {
    ObserveSerial(s, o.sample.major, o.hostUs)
  }

  function SerialFinal(s: Serial, os: seq<Observed>): Serial
    decreases |os|
  {
    if os == [] then s else SerialFinal(SerialStep(s, os[0]), os[1..])
  }

  function SerialOutputs(s: Serial, os: seq<Observed>): (r: seq<nat>)
    ensures |r| == |os|
    decreases |os|
  {
    if os == [] then [] else [SerialStep(s, os[0]).lastOutputUs] + SerialOutputs(SerialStep(s, os[0]), os[1..])
  }

  predicate Dated(os: seq<Observed>) {
    forall o :: o in os ==> o.hostUs > 0
  }

  // ---- Coupling of the outer clamp with the inner timeline

  /** Outer and inner predecessors agree, and the outer output is never behind the inner one. */
  predicate Coupled(s: Serial) {
    && s.initialized == s.inner.initialized
    && (s.initialized ==> s.previous == s.inner.previous.major && 0 < s.inner.lastOutputUs <= s.lastOutputUs)
    && (!s.initialized ==> s.lastOutputUs == 0)
  }

  lemma {:induction false} CoupledStep(s: Serial, o: Observed)
    requires Coupled(s) && o.hostUs > 0
    ensures Coupled(SerialStep(s, o)) && SerialStep(s, o).initialized
    ensures s.lastOutputUs < SerialStep(s, o).lastOutputUs
  {
    FirstIsFirst(Millisecond, s.inner, Sample(o.sample.major, 0), o.hostUs);
    FirstIsFirst(Millisecond, Fresh(o.hostUs), Sample(o.sample.major, 0), o.hostUs);
    hide Judge, ChangesNature;
  }

  /** Unless the counter changes nature, the clamp's excess over the inner timeline never grows. */
  lemma {:induction false} ExcessNeverGrows(s: Serial, o: Observed)
    requires Coupled(s) && s.initialized && o.hostUs > 0 && !ChangesNature(s, o.sample.major)
    ensures var next := SerialStep(s, o);
            next.lastOutputUs - next.inner.lastOutputUs <= s.lastOutputUs - s.inner.lastOutputUs
  {
    FirstIsFirst(Millisecond, s.inner, Sample(o.sample.major, 0), o.hostUs);
    hide Judge, ChangesNature;
  }

  predicate NoReset(s: Serial, os: seq<Observed>)
    decreases |os|
  {
    os == [] || (!ChangesNature(s, os[0].sample.major) && NoReset(SerialStep(s, os[0]), os[1..]))
  }

  /** Between resets the excess can only shrink away. */
  lemma {:induction false} ExcessShrinksAway(s: Serial, os: seq<Observed>)
    requires Coupled(s) && s.initialized && Dated(os) && NoReset(s, os)
    ensures var end := SerialFinal(s, os);
            0 <= end.lastOutputUs - end.inner.lastOutputUs <= s.lastOutputUs - s.inner.lastOutputUs
    decreases |os|
  {
    if os != [] {
      ExcessNeverGrows(s, os[0]);
      CoupledStep(s, os[0]);
      hide SerialStep, ChangesNature;
      ExcessShrinksAway(SerialStep(s, os[0]), os[1..]);
    }
  }

  /** In every run the outputs strictly increase and the coupling holds. */
  lemma {:induction false} SerialRun(s: Serial, os: seq<Observed>)
    requires Coupled(s) && Dated(os)
    ensures Coupled(SerialFinal(s, os))
    ensures StrictlyIncreasing(SerialOutputs(s, os))
    ensures forall i :: 0 <= i < |os| ==> s.lastOutputUs < SerialOutputs(s, os)[i]
    decreases |os|
  {
    hide Coupled, SerialStep;
    if os != [] {
      CoupledStep(s, os[0]);
      SerialRun(SerialStep(s, os[0]), os[1..]);
    }
  }

  // ---- Late samples

  /** Whether a sample resets the inner timeline, and how that then judges it. */
  function SerialJudgement(s: Serial, o: Observed): (bool, Decision) {
    var resets := ChangesNature(s, o.sample.major);
    (resets, Judge(Millisecond, if resets then Fresh(o.hostUs) else s.inner, Sample(o.sample.major, 0), o.hostUs))
  }

  function SerialJudgements(s: Serial, os: seq<Observed>): (r: seq<(bool, Decision)>)
    ensures |r| == |os|
    decreases |os|
  {
    if os == [] then [] else [SerialJudgement(s, os[0])] + SerialJudgements(SerialStep(s, os[0]), os[1..])
  }

  /** Judgements and outputs of the longer run for the samples both runs saw. */
  function SerialKept(s: Serial, xs: seq<Tagged>): seq<((bool, Decision), nat)>
    decreases |xs|
  {
    if xs == [] then []
    else
      var next := SerialStep(s, xs[0].o);
      (if xs[0].extra then [] else [(SerialJudgement(s, xs[0].o), next.lastOutputUs)]) + SerialKept(next, xs[1..])
  }

  /** In the longer run every extra sample is 1 to 500 ms behind its predecessor. */
  predicate ExtrasBehind(s: Serial, xs: seq<Tagged>)
    decreases |xs|
  {
    xs == [] ||
    ((xs[0].extra ==> s.initialized && 0 < s.previous - xs[0].o.sample.major <= PPS_WRAP_THRESHOLD_MS) &&
     ExtrasBehind(SerialStep(s, xs[0].o), xs[1..]))
  }

  predicate SerialRaised(s: Serial, t: Serial, k: nat) {
    && Coupled(s) && Coupled(t) && Raised(s.inner, t.inner, k)
    && s.previous == t.previous && 0 <= t.lastOutputUs - s.lastOutputUs <= k
  }

  lemma SerialRaisedStep(s: Serial, t: Serial, o: Observed, k: nat)
    requires SerialRaised(s, t, k) && o.hostUs > 0
    ensures SerialRaised(SerialStep(s, o), SerialStep(t, o), k)
  {
    var x := Observed(Sample(o.sample.major, 0), o.hostUs);
    CoupledStep(s, o);
    CoupledStep(t, o);
    hide Judge;
    if ChangesNature(s, o.sample.major) {
      assert Raised(Fresh(o.hostUs), Fresh(o.hostUs), k);
      RaisedStep(Millisecond, Fresh(o.hostUs), Fresh(o.hostUs), x, k);
    } else {
      RaisedStep(Millisecond, s.inner, t.inner, x, k);
    }
    hide ChangesNature, Observe;
  }

  lemma SerialLateStep(s: Serial, t: Serial, o: Observed, k: nat)
    requires SerialRaised(s, t, k) && o.hostUs > 0
    requires t.initialized && 0 < t.previous - o.sample.major <= PPS_WRAP_THRESHOLD_MS
    ensures SerialRaised(s, SerialStep(t, o), k + 1)
  {
    var x := Observed(Sample(o.sample.major, 0), o.hostUs);
    CoupledStep(t, o);
    LateMilliseconds(t.inner, x.sample, o.hostUs);
    hide Judge;
    LateStep(Millisecond, s.inner, t.inner, x, k);
  }

  lemma SameJudgement(s: Serial, t: Serial, o: Observed, k: nat)
    requires SerialRaised(s, t, k)
    ensures SerialJudgement(s, o) == SerialJudgement(t, o)
  {
    JudgeIgnoresOutputs(Millisecond, s.inner, t.inner, Sample(o.sample.major, 0), o.hostUs, k);
    hide Judge;
  }

  /** Same judgements, and each output raised by at most bound. */
  predicate SerialBarelyRaised(with: seq<((bool, Decision), nat)>, judgements: seq<(bool, Decision)>, outputs: seq<nat>,
                               bound: nat)
  {
    && |with| == |judgements| == |outputs|
    && forall i :: 0 <= i < |with| ==> with[i].0 == judgements[i] && 0 <= with[i].1 - outputs[i] <= bound
  }

  lemma SerialBarelyRaisedCons(with: seq<((bool, Decision), nat)>, judgements: seq<(bool, Decision)>,
                               outputs: seq<nat>, bound: nat, j: (bool, Decision), low: nat, high: nat)
    requires SerialBarelyRaised(with, judgements, outputs, bound) && 0 <= high - low <= bound
    ensures SerialBarelyRaised([(j, high)] + with, [j] + judgements, [low] + outputs, bound)
  {
  }

  /** The two-run property of the inner timeline carries over: late samples added to a serial run change neither
      the resets nor the decisions of the other samples, and raise each of their outputs by at most their number. */
  lemma {:induction false} SerialLateSamplesBarelyMatter(s: Serial, t: Serial, xs: seq<Tagged>, k: nat)
    requires SerialRaised(s, t, k) && ExtrasBehind(t, xs)
    requires forall x :: x in xs ==> x.o.hostUs > 0
    ensures SerialBarelyRaised(SerialKept(t, xs), SerialJudgements(s, Kept(xs)), SerialOutputs(s, Kept(xs)),
                               k + Extras(xs))
    decreases |xs|
  {
    hide SerialStep, Coupled, Raised, SerialBarelyRaised, SerialJudgement;
    if xs == [] {
      NoSamples(k);
    } else {
      var o, rest := xs[0].o, xs[1..];
      assert xs[0] in xs;
      if xs[0].extra {
        SerialLateStep(s, t, o, k);
        SerialLateSamplesBarelyMatter(s, SerialStep(t, o), rest, k + 1);
        hide SerialRaised, ExtrasBehind, SerialOutputs, SerialJudgements;
        assert Kept(xs) == Kept(rest);
        assert SerialKept(t, xs) == SerialKept(SerialStep(t, o), rest);
      } else {
        SerialRaisedStep(s, t, o, k);
        SameJudgement(s, t, o, k);
        var s', t' := SerialStep(s, o), SerialStep(t, o);
        SerialLateSamplesBarelyMatter(s', t', rest, k);
        SerialBarelyRaisedCons(SerialKept(t', rest), SerialJudgements(s', Kept(rest)), SerialOutputs(s', Kept(rest)),
                               k + Extras(rest), SerialJudgement(t, o), s'.lastOutputUs, t'.lastOutputUs);
        hide SerialRaised, ExtrasBehind;
        assert Kept(xs) == [o] + Kept(rest);
        assert Kept(xs)[1..] == Kept(rest);
      }
    }
  }

  lemma NoSamples(k: nat)
    ensures SerialBarelyRaised([], [], [], k)
  {
  }

  // ---- Exact unwrapping

  /** A true, unbounded millisecond clock is read as a 32-bit counter or as the time since a PPS edge. */
  datatype Clock = Counter | Pps

  datatype Reading = Reading(ms: nat, hostUs: nat)

  function Raw(c: Clock, ms: nat): U32 {
    match c
    case Counter => ms % 0x1_0000_0000
    case Pps => ms % 1000
  }

  function LargestGap(c: Clock): nat {
    if c == Counter then 500 else 100
  }

  function Observation(c: Clock, r: Reading): Observed {
    Observed(Sample(Raw(c, r.ms), 0), r.hostUs)
  }

  function Readings(c: Clock, rs: seq<Reading>): seq<Observed> {
    if rs == [] then [] else [Observation(c, rs[0])] + Readings(c, rs[1..])
  }

  predicate GapsUpTo(from: nat, rs: seq<Reading>, gap: nat)
    decreases |rs|
  {
    rs == [] || (1 <= rs[0].ms - from <= gap && rs[0].hostUs > 0 && GapsUpTo(rs[0].ms, rs[1..], gap))
  }

  /** Inner and outer agree and stand exactly at origin plus the true clock. */
  predicate Exact(s: Serial, ms: nat, c: Clock, origin: int) {
    && Coupled(s) && s.initialized
    && s.previous == Raw(c, ms)
    && s.lastOutputUs == s.inner.lastOutputUs == s.inner.anchorUs + s.inner.logicalUs
    && s.lastOutputUs == origin + 1000 * ms
  }

  lemma WrapByOne(c: Clock, ms: nat, gap: nat)
    requires gap <= if c == Counter then 4096 else 100
    ensures var m := if c == Counter then 0x1_0000_0000 else 1000;
            Raw(c, ms + gap) == if Raw(c, ms) + gap < m then Raw(c, ms) + gap else Raw(c, ms) + gap - m
  {
    if c == Counter {
      CounterWraps(ms / 0x1_0000_0000, ms % 0x1_0000_0000, gap);
    } else {
      PpsWraps(ms / 1000, ms % 1000, gap);
    }
  }

  lemma CounterWraps(q: nat, r: nat, gap: nat)
    requires r < 0x1_0000_0000 && gap < 0x1_0000_0000
    ensures (q * 0x1_0000_0000 + r + gap) % 0x1_0000_0000 ==
            if r + gap < 0x1_0000_0000 then r + gap else r + gap - 0x1_0000_0000
  {
  }

  lemma PpsWraps(q: nat, r: nat, gap: nat)
    requires r < 1000 && gap < 1000
    ensures (q * 1000 + r + gap) % 1000 == if r + gap < 1000 then r + gap else r + gap - 1000
  {
  }

  /** A gap within the limit is taken as it is: no reset, no restart, through either wrap. */
  lemma {:induction false} GapIsAdvance(s: Serial, c: Clock, ms: nat, gap: nat, hostUs: nat)
    requires Coupled(s) && s.initialized && s.previous == Raw(c, ms)
    requires 1 <= gap <= LargestGap(c)
    ensures var raw := Raw(c, ms + gap);
            && !ChangesNature(s, raw)
            && var d := Judge(Millisecond, s.inner, Sample(raw, 0), hostUs);
               d.Advance? && d.us == 1000 * gap
  {
    WrapByOne(c, ms, gap);
    PpsBelowPeriod(c, ms);
    hide Raw;
  }

  lemma PpsBelowPeriod(c: Clock, ms: nat)
    ensures c == Pps ==> Raw(c, ms) < 1000
  {
  }

  /** For longer gaps of a 32-bit counter, up to 4096 ms, exactly one case is not a plain advance: a value of at
      most 1000 followed by one above 1500 is taken for a change from PPS time to a counter, and resets. */
  lemma {:induction false} LongGapIsAdvanceExactly(s: Serial, ms: nat, gap: nat, hostUs: nat)
    requires Coupled(s) && s.initialized && s.previous == Raw(Counter, ms)
    requires 1 <= gap <= 4096
    ensures !ChangesNature(s, Raw(Counter, ms + gap)) <==> !(s.previous <= 1000 && s.previous + gap > 1500)
    ensures var d := Judge(Millisecond, s.inner, Sample(Raw(Counter, ms + gap), 0), hostUs);
            d.Advance? && d.us == 1000 * gap
  {
    WrapByOne(Counter, ms, gap);
    hide Raw;
  }

  /** PPS time at phase p, g milliseconds later, is read as exactly g milliseconds on. */
  predicate PpsExactAt(s: Serial, g: nat, hostUs: nat)
    requires s.initialized
  {
    var raw := Raw(Pps, s.previous + g);
    !ChangesNature(s, raw) && Judge(Millisecond, s.inner, Sample(raw, 0), hostUs) == Advance(1000 * g, false)
  }

  /** Within the period, or across the edge out of its last 100 ms into the first 100 of the next, but not by
      half a period. */
  predicate PhaseFits(p: nat, g: nat) {
    p + g < 1000 || (p >= 900 && p + g <= 1100 && g < 500)
  }

  predicate PpsTime(s: Serial) {
    Coupled(s) && s.initialized && s.previous < 1000
  }

  /** At each phase, exactly these gaps are read as they are, whatever the host clock says. */
  lemma {:induction false} PpsGapExactly(s: Serial, g: nat, hostUs: nat)
    requires PpsTime(s) && g > 0
    ensures PpsExactAt(s, g, hostUs) <==> PhaseFits(s.previous, g)
  {
    if g < 1000 {
      WrapOnce(s.previous, g);
    }
    hide Raw;
    PpsBelowPeriod(Pps, s.previous + g);
  }

  lemma WrapOnce(p: nat, g: nat)
    requires p < 1000 && g < 1000
    ensures Raw(Pps, p + g) == if p + g < 1000 then p + g else p + g - 1000
  {
    PpsWraps(0, p, g);
  }

  /** A gap is read exactly at every phase if and only if it is at most 100 ms. */
  lemma {:induction false} PpsGapLimitIsSharp(g: nat)
    requires g > 0
    ensures (forall s: Serial, hostUs: nat :: PpsTime(s) ==> PpsExactAt(s, g, hostUs)) <==> g <= 100
  {
    hide PpsExactAt;
    forall s: Serial, hostUs: nat | PpsTime(s)
      ensures PpsExactAt(s, g, hostUs) <==> PhaseFits(s.previous, g)
    {
      PpsGapExactly(s, g, hostUs);
    }
    var late := Serial(Timeline(true, Sample(899, 0), 0, 1, 0, 1), true, 899, 1);
    assert PpsTime(late) && (PpsExactAt(late, g, 0) <==> PhaseFits(899, g));
  }

  /** Which gaps g from raw reading p are read as they are: of PPS time, those that fit the phase; of a counter,
      up to 4096 ms, those that do not look like a change from PPS time. */
  predicate GapFits(c: Clock, p: U32, g: int) {
    1 <= g && match c
              case Pps => PhaseFits(p, g)
              case Counter => g <= 4096 && !(p <= 1000 && p + g > 1500)
  }

  predicate GapsFit(c: Clock, from: nat, rs: seq<Reading>)
    decreases |rs|
  {
    rs == [] ||
    (GapFits(c, Raw(c, from), rs[0].ms - from) && rs[0].hostUs > 0 && GapsFit(c, rs[0].ms, rs[1..]))
  }

  /** Such a gap is taken as it is: no reset, no restart, through either wrap. */
  lemma FittingGapIsAdvance(s: Serial, c: Clock, ms: nat, gap: nat, hostUs: nat)
    requires Coupled(s) && s.initialized && s.previous == Raw(c, ms) && GapFits(c, Raw(c, ms), gap)
    ensures var raw := Raw(c, ms + gap);
            && !ChangesNature(s, raw)
            && var d := Judge(Millisecond, s.inner, Sample(raw, 0), hostUs);
               d.Advance? && d.us == 1000 * gap
  {
    if c == Counter {
      LongGapIsAdvanceExactly(s, ms, gap, hostUs);
    } else {
      PpsBelowPeriod(c, ms);
      PpsGapExactly(s, gap, hostUs);
      SamePhase(ms, gap);
    }
    hide Judge, ChangesNature, Raw;
  }

  lemma SamePhase(ms: nat, gap: nat)
    ensures Raw(Pps, Raw(Pps, ms) + gap) == Raw(Pps, ms + gap)
  {
    var q, p := (ms % 1000 + gap) / 1000, (ms % 1000 + gap) % 1000;
    assert ms + gap == (ms / 1000 + q) * 1000 + p;
    PpsWraps(ms / 1000 + q, p, 0);
  }

  /** Gaps within the uniform limits fit at every phase of either clock. */
  lemma {:induction false} UniformGapsFit(c: Clock, from: nat, rs: seq<Reading>)
    requires GapsUpTo(from, rs, LargestGap(c))
    ensures GapsFit(c, from, rs)
    decreases |rs|
  {
    if rs != [] {
      PpsBelowPeriod(c, from);
      UniformGapsFit(c, rs[0].ms, rs[1..]);
      hide Raw;
    }
  }

  // ---- Changes between PPS time and a counter

  /** A sample resets the inner timeline exactly when the reading leaves the first second for beyond 1500 ms, or comes
      back to it from further than 500 ms ahead without being close to the 32-bit wrap. */
  lemma {:induction false} ResetsExactly(s: Serial, raw: U32)
    requires s.initialized
    ensures ChangesNature(s, raw) <==>
              || (s.previous <= 1000 && raw > 1500)
              || (1000 < s.previous < 4_294_963_200 && raw <= 1000 && s.previous - raw > 500)
  {
  }

  /** After a reset the output is the host time, or the next microsecond if that is behind, and the inner timeline
      counts from the host time. */
  lemma {:induction false} ResetOutcome(s: Serial, o: Observed)
    requires ChangesNature(s, o.sample.major) && o.hostUs > 0
    ensures var next := SerialStep(s, o);
            && next.lastOutputUs == (if o.hostUs > s.lastOutputUs then o.hostUs else s.lastOutputUs + 1)
            && next.inner.anchorUs == next.inner.lastOutputUs == o.hostUs && next.inner.logicalUs == 0
            && next.previous == o.sample.major && next.initialized
  {
  }

  lemma ExactStep(s: Serial, ms: nat, c: Clock, origin: int, r: Reading)
    requires Exact(s, ms, c, origin) && GapFits(c, Raw(c, ms), r.ms - ms) && r.hostUs > 0
    ensures var next := SerialStep(s, Observation(c, r));
            && Exact(next, r.ms, c, origin) && next.inner.anchorUs == s.inner.anchorUs
  {
    FittingGapIsAdvance(s, c, ms, r.ms - ms, r.hostUs);
    CoupledStep(s, Observation(c, r));
    hide Judge, ChangesNature, Raw;
  }

  lemma {:induction false} ExactRun(s: Serial, ms: nat, c: Clock, origin: int, rs: seq<Reading>)
    requires Exact(s, ms, c, origin) && GapsFit(c, ms, rs)
    ensures var os := Readings(c, rs);
            && |os| == |rs| && SerialFinal(s, os).inner.anchorUs == s.inner.anchorUs
            && forall i :: 0 <= i < |rs| ==> SerialOutputs(s, os)[i] == origin + 1000 * rs[i].ms
    decreases |rs|
  {
    if rs != [] {
      ExactStep(s, ms, c, origin, rs[0]);
      hide SerialStep, Coupled, Observation;
      var next := SerialStep(s, Observation(c, rs[0]));
      ExactRun(next, rs[0].ms, c, origin, rs[1..]);
      assert Readings(c, rs)[1..] == Readings(c, rs[1..]);
      assert next.lastOutputUs == origin + 1000 * rs[0].ms;
      hide Exact, GapsFit, Readings;
    }
  }

  lemma FirstIsExact(anchorUs: nat, c: Clock, first: Reading)
    requires first.hostUs > 0
    ensures var s := SerialStep(FreshSerial(anchorUs), Observation(c, first));
            var start := if anchorUs == 0 then first.hostUs else anchorUs;
            && Exact(s, first.ms, c, start - 1000 * first.ms)
            && s.lastOutputUs == start && s.inner.anchorUs == start
  {
    hide Raw;
  }

  /** A device clock read modulo 2^32 or modulo 1000 is reproduced exactly as long as each gap fits where it occurs,
      and gaps of 1 to 500 ms, or of 1 to 100 ms, always do by UniformGapsFit: every output is the first one plus
      the true elapsed time, through any number of wraps, whatever the host times, and the anchor chosen first is
      kept. */
  lemma {:induction false} ExactUnwrapping(anchorUs: nat, c: Clock, first: Reading, rs: seq<Reading>)
    requires first.hostUs > 0 && GapsFit(c, first.ms, rs)
    ensures var os := [Observation(c, first)] + Readings(c, rs);
            var start := if anchorUs == 0 then first.hostUs else anchorUs;
            var outputs := SerialOutputs(FreshSerial(anchorUs), os);
            && |outputs| == |rs| + 1 && outputs[0] == start
            && SerialFinal(FreshSerial(anchorUs), os).inner.anchorUs == start
            && forall i :: 0 <= i < |rs| ==> outputs[i + 1] == start + 1000 * (rs[i].ms - first.ms)
  {
    FirstIsExact(anchorUs, c, first);
    hide SerialStep, Exact, Observation, FreshSerial, GapsFit, Readings;
    var os := [Observation(c, first)] + Readings(c, rs);
    var start := if anchorUs == 0 then first.hostUs else anchorUs;
    var s := SerialStep(FreshSerial(anchorUs), Observation(c, first));
    assert os[1..] == Readings(c, rs);
    ExactRun(s, first.ms, c, start - 1000 * first.ms, rs);
  }

  /** A device that changes between PPS time and a counter is reproduced exactly again from the host time of the change,
      when that is ahead of what was put out before. */
  lemma {:induction false} ChangeIsReproduced(s: Serial, c: Clock, first: Reading, rs: seq<Reading>)
    requires Coupled(s) && s.initialized && ChangesNature(s, Raw(c, first.ms)) && first.hostUs > s.lastOutputUs
    requires GapsFit(c, first.ms, rs)
    ensures var outputs := SerialOutputs(s, [Observation(c, first)] + Readings(c, rs));
            && |outputs| == |rs| + 1 && outputs[0] == first.hostUs
            && forall i :: 0 <= i < |rs| ==> outputs[i + 1] == first.hostUs + 1000 * (rs[i].ms - first.ms)
  {
    var o := Observation(c, first);
    ResetOutcome(s, o);
    CoupledStep(s, o);
    hide SerialStep, Raw, GapsFit, Readings;
    var next := SerialStep(s, o);
    assert ([o] + Readings(c, rs))[1..] == Readings(c, rs);
    ExactRun(next, first.ms, c, first.hostUs - 1000 * first.ms, rs);
  }
}
