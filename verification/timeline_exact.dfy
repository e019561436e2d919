/** When the millisecond and second normalizers advance and when they restart, in plain numbers, and that a
    well-behaved device clock is reproduced exactly. */
module ExactTimelines {
  import opened Wrappers
  import opened TimestampNormalizer
  import opened TimelineRuns
  import opened SerialTimelineRuns

  // ---- One sample

  /** A host time of zero asks for the system clock. */
  lemma HostTimeIsUsed(hostUs: nat, clockUs: nat)
    ensures ResolveAnchor(hostUs, clockUs) == if hostUs > 0 then hostUs else clockUs
  {
  }

  /** The host time from one observation to a later one, never negative. */
  function HostSince(earlier: nat, later: nat): int {
    if later < earlier then 0 else later - earlier
  }

  /** A device that claims to have advanced more than 5 seconds, and more than 4 times as far as the host with half a
      second of slack. */
  predicate MuchFaster(advanceUs: int, hostGapUs: int) {
    advanceUs > 5_000_000 && hostGapUs + 500_000 < advanceUs / 4
  }

  lemma MuchFasterMeans(s: Timeline, us: nat, hostUs: nat)
    ensures HostElapsedIsMuchSmaller(us, HostElapsed(s, hostUs)) <==> MuchFaster(us, HostSince(s.lastHostUs, hostUs))
  {
  }

  /** For milliseconds a sample restarts the timeline exactly when it is a forward jump much faster than the host, or
      more than 500 ms behind without being either rollover. */
  lemma {:induction false} MillisecondRestartsExactly(s: Timeline, x: Sample, hostUs: nat)
    requires s.initialized
    ensures var p, raw := s.previous.major, x.major;
            Judge(Millisecond, s, x, hostUs) == Restart <==>
              || (raw >= p && MuchFaster(1000 * (raw - p), HostSince(s.lastHostUs, hostUs)))
              || (500 < p - raw <= 2_147_483_647 && !(900 <= p <= 1000 && raw <= 100))
  {
    if x.major >= s.previous.major {
      MuchFasterMeans(s, (x.major - s.previous.major) * US_PER_MS, hostUs);
      hide HostElapsedIsMuchSmaller, HostElapsed, MuchFaster, HostSince;
    }
  }

  /** A sample accepted as an advance moves on by the difference of the readings, modulo the rollover it crosses. */
  lemma {:induction false} MillisecondAdvancesExactly(s: Timeline, x: Sample, hostUs: nat)
    requires s.initialized && Judge(Millisecond, s, x, hostUs).Advance?
    ensures var p, raw := s.previous.major, x.major;
            Judge(Millisecond, s, x, hostUs).us ==
              1000 * (if raw >= p then raw - p
                      else if p - raw > 2_147_483_647 then raw - p + 4_294_967_296
                      else raw - p + 1000)
  {
    hide HostElapsedIsMuchSmaller, HostElapsed;
  }

  /** The advance of a device clock from one time to a later one in whole microseconds: cut toward zero within the
      second, hence down when the nanosecond field went up and up when it went down. */
  function AdvanceUs(from: nat, to: nat): int
    requires from <= to
  {
    if to % 1_000_000_000 >= from % 1_000_000_000 then (to - from) / 1000 else (to - from + 999) / 1000
  }

  lemma CutWithinSecond(from: nat, to: nat)
    requires from <= to
    ensures var seconds := to / 1_000_000_000 - from / 1_000_000_000;
            var minor := to % 1_000_000_000 - from % 1_000_000_000;
            seconds * US_PER_SECOND + DivideTowardZero(minor, 1000) == AdvanceUs(from, to) >= 0
  {
    var seconds := to / 1_000_000_000 - from / 1_000_000_000;
    var minor := to % 1_000_000_000 - from % 1_000_000_000;
    SplitElapsed(from, to);
    CutUpOrDown(seconds, minor);
  }

  lemma CutUpOrDown(seconds: int, minor: int)
    ensures minor >= 0 ==> (seconds * 1_000_000_000 + minor) / 1000 == seconds * 1_000_000 + minor / 1000
    ensures minor < 0 ==> (seconds * 1_000_000_000 + minor + 999) / 1000 == seconds * 1_000_000 - (-minor) / 1000
  {
  }

  /** A forward step of a device clock, however the 32-bit seconds wrap: it restarts the timeline exactly when it is
      much faster than the host, and otherwise advances it by its length. */
  lemma {:induction false} SecondForwardExactly(s: Timeline, from: nat, t: Tick)
    requires s.initialized && s.previous == DeviceSample(from)
    requires from <= t.ns && t.ns / 1_000_000_000 - from / 1_000_000_000 < 0x8000_0000
    ensures var us := AdvanceUs(from, t.ns);
            var d := Judge(Second, s, DeviceSample(t.ns), t.hostUs);
            && (d == Restart <==> MuchFaster(us, HostSince(s.lastHostUs, t.hostUs)))
            && (d != Restart ==> d.Advance? && d.us == us)
  {
    SecondsRecovered(from / 1_000_000_000, t.ns / 1_000_000_000);
    CutWithinSecond(from, t.ns);
    MuchFasterMeans(s, AdvanceUs(from, t.ns), t.hostUs);
    hide SecondsForward, DivideTowardZero, HostElapsedIsMuchSmaller, HostElapsed, AdvanceUs, MuchFaster;
  }

  /** A step back of at least 2 seconds, short of the wrap, restarts the timeline. */
  lemma {:induction false} SecondBackwardExactly(s: Timeline, x: Sample, hostUs: nat)
    requires s.initialized && 0 < s.previous.major - x.major <= 2_147_483_647
    ensures Judge(Second, s, x, hostUs) == if s.previous.major - x.major >= 2 then Restart else Late
  {
  }

  /** What each decision does. The first sample starts at the anchor, or at the host time without one; a restart starts
      again at the host time, or just above the last output; both then count from there. A late sample is given the next
      microsecond and forgotten. Every other sample is remembered with the host time it was observed at. */
  lemma {:induction false} DecisionOutcome(kind: Kind, s: Timeline, o: Observed)
    ensures var d, next := Judge(kind, s, o.sample, o.hostUs), Observe(kind, s, o);
            && (d == First ==> next.lastOutputUs == (if s.anchorUs == 0 then o.hostUs else s.anchorUs))
            && (d == Restart ==> next.lastOutputUs == (if o.hostUs > s.lastOutputUs then o.hostUs
                                                       else s.lastOutputUs + 1))
            && (d == First || d == Restart ==> next.anchorUs == next.lastOutputUs && next.logicalUs == 0)
            && (d == Late ==> next == s.(lastOutputUs := s.lastOutputUs + 1))
            && (d != Late ==> next.initialized && next.previous == o.sample && next.lastHostUs == o.hostUs)
            && (d.Advance? ==>
                  && next.anchorUs == s.anchorUs && next.logicalUs == s.logicalUs + d.us
                  && next.lastOutputUs == (if s.anchorUs + s.logicalUs + d.us > s.lastOutputUs
                                           then s.anchorUs + s.logicalUs + d.us else s.lastOutputUs + 1))
  {
    hide Judge;
  }

  // ---- Whole runs

  /** The output stands where the logical clock does, as after every first sample and every restart. */
  predicate OnTime(s: Timeline) {
    s.initialized && s.lastOutputUs == s.anchorUs + s.logicalUs
  }

  lemma AdvanceStaysOnTime(kind: Kind, s: Timeline, o: Observed)
    requires OnTime(s)
    requires var d := Judge(kind, s, o.sample, o.hostUs); d.Advance? && d.us > 0
    ensures var d, next := Judge(kind, s, o.sample, o.hostUs), Observe(kind, s, o);
            && OnTime(next) && next.lastOutputUs == s.lastOutputUs + d.us
            && next.previous == o.sample && next.lastHostUs == o.hostUs && next.anchorUs == s.anchorUs
  {
    DecisionOutcome(kind, s, o);
    hide Judge, Observe;
  }

  function ElapsedUs(fromNs: int, toNs: int): int {
    (toNs - fromNs) / 1000
  }

  /** A second clock in whole microseconds that runs forward, never much faster than the host. */
  predicate SteadySeconds(from: Tick, ts: seq<Tick>)
    decreases |ts|
  {
    ts == [] ||
    (&& from.ns % 1000 == 0 && ts[0].ns % 1000 == 0 && from.ns < ts[0].ns
     && ts[0].ns / 1_000_000_000 - from.ns / 1_000_000_000 < 0x8000_0000
     && !MuchFaster((ts[0].ns - from.ns) / 1000, HostSince(from.hostUs, ts[0].hostUs))
     && SteadySeconds(ts[0], ts[1..]))
  }

  predicate TickGapsUpTo(from: nat, ts: seq<Tick>, gapNs: nat)
    decreases |ts|
  {
    ts == [] ||
    (from % 1000 == 0 && ts[0].ns % 1000 == 0 && 0 < ts[0].ns - from <= gapNs && TickGapsUpTo(ts[0].ns, ts[1..], gapNs))
  }

  /** Gaps of at most 5 seconds are steady whatever the host clock does. */
  lemma {:induction false} ShortGapsAreSteady(from: Tick, ts: seq<Tick>)
    requires TickGapsUpTo(from.ns, ts, 5_000_000_000)
    ensures SteadySeconds(from, ts)
    decreases |ts|
  {
    if ts != [] {
      ShortGapsAreSteady(ts[0], ts[1..]);
    }
  }

  function Ticks(ts: seq<Tick>): seq<Observed> {
    if ts == [] then [] else [Observed(DeviceSample(ts[0].ns), ts[0].hostUs)] + Ticks(ts[1..])
  }

  lemma WholeAdvance(from: nat, to: nat)
    requires from < to && from % 1000 == 0 && to % 1000 == 0
    ensures AdvanceUs(from, to) == (to - from) / 1000 > 0
    ensures 1000 * AdvanceUs(from, to) == to - from
  {
  }

  lemma TickOnTime(s: Timeline, from: Tick, t: Tick)
    requires OnTime(s) && s.previous == DeviceSample(from.ns) && s.lastHostUs == from.hostUs
    requires SteadySeconds(from, [t])
    ensures var next := Observe(Second, s, Observed(DeviceSample(t.ns), t.hostUs));
            && OnTime(next) && next.lastOutputUs == s.lastOutputUs + ElapsedUs(from.ns, t.ns)
            && next.previous == DeviceSample(t.ns) && next.lastHostUs == t.hostUs && next.anchorUs == s.anchorUs
  {
    SecondForwardExactly(s, from.ns, t);
    WholeAdvance(from.ns, t.ns);
    hide Judge, Observe, DeviceSample, AdvanceUs, MuchFaster;
    AdvanceStaysOnTime(Second, s, Observed(DeviceSample(t.ns), t.hostUs));
  }

  /** A steady second clock is reproduced exactly: every output is the one it starts from plus the true elapsed time,
      through any number of wraps, and the anchor is kept. */
  lemma {:induction false} SecondsReproduced(s: Timeline, from: Tick, ts: seq<Tick>)
    requires OnTime(s) && s.previous == DeviceSample(from.ns) && s.lastHostUs == from.hostUs
    requires SteadySeconds(from, ts)
    ensures |Ticks(ts)| == |ts|
    ensures Final(Second, s, Ticks(ts)).anchorUs == s.anchorUs
    ensures forall i :: 0 <= i < |ts| ==>
              Outputs(Second, s, Ticks(ts))[i] == s.lastOutputUs + ElapsedUs(from.ns, ts[i].ns)
    decreases |ts|
  {
    hide *;
    if ts == [] {
      NoTicks(s, ts);
    } else {
      SteadyUnfold(from, ts);
      TickOnTime(s, from, ts[0]);
      TicksUnfold(s, ts);
      var next := Observe(Second, s, Observed(DeviceSample(ts[0].ns), ts[0].hostUs));
      SecondsReproduced(next, ts[0], ts[1..]);
      forall i | 0 < i < |ts|
        ensures Outputs(Second, s, Ticks(ts))[i] == s.lastOutputUs + ElapsedUs(from.ns, ts[i].ns)
      {
        assert ts[i] == ts[1..][i - 1];
        SumOfWholes(from.ns, ts[0].ns, ts[i].ns);
      }
    }
  }

  lemma NoTicks(s: Timeline, ts: seq<Tick>)
    requires ts == []
    ensures Ticks(ts) == [] && Final(Second, s, Ticks(ts)) == s
  {
  }

  lemma TicksUnfold(s: Timeline, ts: seq<Tick>)
    requires ts != []
    ensures var next := Observe(Second, s, Observed(DeviceSample(ts[0].ns), ts[0].hostUs));
            && |Ticks(ts)| == 1 + |Ticks(ts[1..])|
            && Final(Second, s, Ticks(ts)) == Final(Second, next, Ticks(ts[1..]))
            && Outputs(Second, s, Ticks(ts)) == [next.lastOutputUs] + Outputs(Second, next, Ticks(ts[1..]))
  {
    hide Observe, DeviceSample;
    assert Ticks(ts)[1..] == Ticks(ts[1..]);
  }

  lemma SteadyUnfold(from: Tick, ts: seq<Tick>)
    requires ts != [] && SteadySeconds(from, ts)
    ensures SteadySeconds(from, [ts[0]]) && SteadySeconds(ts[0], ts[1..])
    ensures (ts[0].ns - from.ns) % 1000 == 0
  {
    hide MuchFaster, HostSince;
    assert [ts[0]][1..] == [];
    WholeDifference(from.ns, ts[0].ns);
  }

  lemma WholeDifference(a: int, b: int)
    ensures a % 1000 == 0 && b % 1000 == 0 ==> (b - a) % 1000 == 0
  {
  }

  lemma SumOfWholes(a: int, b: int, c: int)
    requires (b - a) % 1000 == 0
    ensures ElapsedUs(a, b) + ElapsedUs(b, c) == ElapsedUs(a, c)
  {
  }

  /** The same for a 32-bit millisecond counter. */
  predicate SteadyMilliseconds(from: Reading, rs: seq<Reading>)
    decreases |rs|
  {
    rs == [] ||
    (var gap := rs[0].ms - from.ms;
     && 0 < gap < 0x8000_0000
     && (from.ms % 0x1_0000_0000 + gap >= 0x1_0000_0000 ||
         !MuchFaster(1000 * gap, HostSince(from.hostUs, rs[0].hostUs)))
     && SteadyMilliseconds(rs[0], rs[1..]))
  }

  predicate MillisecondGapsUpTo(from: nat, rs: seq<Reading>, gap: nat)
    decreases |rs|
  {
    rs == [] || (0 < rs[0].ms - from <= gap && MillisecondGapsUpTo(rs[0].ms, rs[1..], gap))
  }

  lemma {:induction false} ShortMillisecondGapsAreSteady(from: Reading, rs: seq<Reading>)
    requires MillisecondGapsUpTo(from.ms, rs, 5000)
    ensures SteadyMilliseconds(from, rs)
    decreases |rs|
  {
    if rs != [] {
      ShortMillisecondGapsAreSteady(rs[0], rs[1..]);
    }
  }

  /** A forward step of the true counter, wrapping or not. */
  lemma {:induction false} MillisecondForwardExactly(s: Timeline, ms: nat, gap: nat, hostUs: nat)
    requires s.initialized && s.previous.major == ms % 0x1_0000_0000 && gap < 0x8000_0000
    ensures var wraps := ms % 0x1_0000_0000 + gap >= 0x1_0000_0000;
            var d := Judge(Millisecond, s, Sample((ms + gap) % 0x1_0000_0000, 0), hostUs);
            && (d == Restart <==> !wraps && MuchFaster(1000 * gap, HostSince(s.lastHostUs, hostUs)))
            && (d != Restart ==> d.Advance? && d.us == 1000 * gap)
  {
    CounterWraps(ms / 0x1_0000_0000, ms % 0x1_0000_0000, gap);
    assert ms == (ms / 0x1_0000_0000) * 0x1_0000_0000 + ms % 0x1_0000_0000;
    MuchFasterMeans(s, 1000 * gap, hostUs);
    hide HostElapsedIsMuchSmaller, HostElapsed, MuchFaster, HostSince;
  }

  lemma ReadingOnTime(s: Timeline, from: Reading, r: Reading)
    requires OnTime(s) && s.previous.major == Raw(Counter, from.ms) && s.lastHostUs == from.hostUs
    requires SteadyMilliseconds(from, [r])
    ensures var next := Observe(Millisecond, s, Observation(Counter, r));
            && OnTime(next) && next.lastOutputUs == s.lastOutputUs + 1000 * (r.ms - from.ms)
            && next.previous.major == Raw(Counter, r.ms) && next.lastHostUs == r.hostUs && next.anchorUs == s.anchorUs
  {
    MillisecondForwardExactly(s, from.ms, r.ms - from.ms, r.hostUs);
    hide Judge, Observe, MuchFaster;
    AdvanceStaysOnTime(Millisecond, s, Observation(Counter, r));
  }

  /** A steady millisecond counter is reproduced exactly, through any number of 32-bit wraps. */
  lemma {:induction false} MillisecondsReproduced(s: Timeline, from: Reading, rs: seq<Reading>)
    requires OnTime(s) && s.previous.major == Raw(Counter, from.ms) && s.lastHostUs == from.hostUs
    requires SteadyMilliseconds(from, rs)
    ensures |Readings(Counter, rs)| == |rs|
    ensures Final(Millisecond, s, Readings(Counter, rs)).anchorUs == s.anchorUs
    ensures forall i :: 0 <= i < |rs| ==>
              Outputs(Millisecond, s, Readings(Counter, rs))[i] == s.lastOutputUs + 1000 * (rs[i].ms - from.ms)
    decreases |rs|
  {
    if rs != [] {
      assert [rs[0]][1..] == [];
      ReadingOnTime(s, from, rs[0]);
      hide Observe, Raw, Observation;
      var next := Observe(Millisecond, s, Observation(Counter, rs[0]));
      assert next.previous.major == Raw(Counter, rs[0].ms);
      assert next.lastHostUs == rs[0].hostUs;
      MillisecondsReproduced(next, rs[0], rs[1..]);
      assert Readings(Counter, rs)[1..] == Readings(Counter, rs[1..]);
    }
  }
}
