/** Device counters turned into host time. The millisecond and the second normalizer share one timeline;
    they differ in how a sample is judged against its predecessor. */
module TimestampNormalizer {
  import opened Wrappers

  type U32 = x: int | 0 <= x < 0x1_0000_0000
  const U32_MAX: U32 := 0xFFFF_FFFF
  const US_PER_MS := 1_000
  const US_PER_SECOND := 1_000_000
  const PPS_PERIOD_MS := 1_000
  const PPS_WRAP_THRESHOLD_MS := 500
  const PPS_UPPER_BOUNDARY_MS := 900
  const PPS_LOWER_BOUNDARY_MS := 100
  const LARGE_RELATIVE_JUMP_US := 5 * US_PER_SECOND
  const HOST_JUMP_SLACK_US := 500_000
  const EPOCH_LOWER_BOUND_SECONDS: U32 := 946_684_800
  const EPOCH_UPPER_BOUND_SECONDS: U32 := 4_102_444_800

  datatype Kind = Millisecond | Second

  /** A raw device reading; milliseconds use major only. */
  datatype Sample = Sample(major: U32, minor: U32)

  /** A sample and the host time at which it was observed. */
  datatype Observed = Observed(sample: Sample, hostUs: nat)

  /** How a sample is judged: the first one, a device advance in microseconds, a late sample, or a restart. */
  datatype Decision = First | Advance(us: nat, wrapped: bool) | Late | Restart

  datatype Timeline = Timeline(
    initialized: bool, previous: Sample, lastHostUs: nat,
    anchorUs: nat, logicalUs: nat, lastOutputUs: nat)

  function Fresh(anchorUs: nat): Timeline {
    Timeline(false, Sample(0, 0), 0, anchorUs, 0, 0)
  }

  function ResolveAnchor(hostUs: nat, clockUs: nat): nat {
    if hostUs != 0 then hostUs else clockUs
  }

  predicate HostElapsedIsMuchSmaller(rawDeltaUs: nat, hostElapsedUs: nat) {
    rawDeltaUs > LARGE_RELATIVE_JUMP_US && hostElapsedUs + HOST_JUMP_SLACK_US < rawDeltaUs / 4
  }

  function HostElapsed(s: Timeline, hostUs: nat): nat {
    if hostUs >= s.lastHostUs then hostUs - s.lastHostUs else 0
  }

  /** C++ division of a signed value: toward zero. */
  function DivideTowardZero(x: int, d: int): int
    requires d > 0
  {
    if x >= 0 then x / d else -((-x) / d)
  }

  function JudgeMilliseconds(s: Timeline, raw: U32, hostUs: nat): Decision {
    var previous := s.previous.major;
    if raw >= previous then
      var us := (raw - previous) * US_PER_MS;
      if HostElapsedIsMuchSmaller(us, HostElapsed(s, hostUs)) then Restart else Advance(us, false)
    else
      var backward := previous - raw;
      if backward > U32_MAX / 2 then Advance((U32_MAX - previous + raw + 1) * US_PER_MS, true)
      else if PPS_UPPER_BOUNDARY_MS <= previous <= PPS_PERIOD_MS && raw <= PPS_LOWER_BOUNDARY_MS
              && backward > PPS_WRAP_THRESHOLD_MS then
        Advance((PPS_PERIOD_MS - previous + raw) * US_PER_MS, false)
      else if backward <= PPS_WRAP_THRESHOLD_MS then Late
      else Restart
  }

  /** Seconds elapsed since the previous sample across a 32-bit wrap; none when the step is backward. */
  function SecondsForward(previous: U32, raw: U32): Option<nat> {
    if raw >= previous then Some(raw - previous)
    else if previous - raw > U32_MAX / 2 then Some(U32_MAX - previous + raw + 1)
    else None
  }

  function JudgeSeconds(s: Timeline, x: Sample, hostUs: nat): Decision {
    match SecondsForward(s.previous.major, x.major)
    case None => if s.previous.major - x.major <= 1 then Late else Restart
    case Some(seconds) =>
      var us := seconds * US_PER_SECOND + DivideTowardZero(x.minor - s.previous.minor, 1000);
      if us < 0 then Late
      else if HostElapsedIsMuchSmaller(us, HostElapsed(s, hostUs)) then Restart
      else Advance(us, x.major < s.previous.major)
  }

  function Judge(kind: Kind, s: Timeline, x: Sample, hostUs: nat): Decision {
    if !s.initialized then First
    else match kind
      case Millisecond => JudgeMilliseconds(s, x.major, hostUs)
      case Second => JudgeSeconds(s, x, hostUs)
  }

  function Max(a: nat, b: nat): nat {
    if a > b then a else b
  }

  function Apply(s: Timeline, d: Decision, x: Sample, hostUs: nat): Timeline {
    match d
    case First =>
      var anchor := if s.anchorUs == 0 then hostUs else s.anchorUs;
      Timeline(true, x, hostUs, anchor, 0, anchor)
    case Late => s.(lastOutputUs := s.lastOutputUs + 1)
    case Restart =>
      var anchor := Max(hostUs, s.lastOutputUs + 1);
      Timeline(true, x, hostUs, anchor, 0, anchor)
    case Advance(us, _) =>
      var logical := s.logicalUs + us;
      Timeline(true, x, hostUs, s.anchorUs, logical, Max(s.anchorUs + logical, s.lastOutputUs + 1))
  }

  /** One call of Normalize; its result is the new lastOutputUs. */
  function Observe(kind: Kind, s: Timeline, o: Observed): Timeline {
    Apply(s, Judge(kind, s, o.sample, o.hostUs), o.sample, o.hostUs)
  }

  // ---- The serial normalizer: a millisecond timeline that is reset when the counter changes nature

  datatype Serial = Serial(inner: Timeline, initialized: bool, previous: U32, lastOutputUs: nat)

  function FreshSerial(anchorUs: nat): Serial {
    Serial(Fresh(anchorUs), false, 0, 0)
  }

  predicate ChangesNature(s: Serial, raw: U32) {
    && s.initialized
    && !(raw < s.previous && s.previous - raw <= PPS_WRAP_THRESHOLD_MS)
    && var ppsToCounter := s.previous <= PPS_PERIOD_MS && raw > 1500;
       var is32BitWrap := s.previous >= 0xFFFF_F000 && raw <= PPS_PERIOD_MS;
       var counterToPpsOrRestart := s.previous > PPS_PERIOD_MS && !is32BitWrap && raw <= PPS_PERIOD_MS;
       ppsToCounter || counterToPpsOrRestart
  }

  function ObserveSerial(s: Serial, raw: U32, hostUs: nat): Serial {
    var before := if ChangesNature(s, raw) then Fresh(hostUs) else s.inner;
    var inner := Observe(Millisecond, before, Observed(Sample(raw, 0), hostUs));
    var value := inner.lastOutputUs;
    Serial(inner, true, inner.previous.major,
           if s.lastOutputUs != 0 && value <= s.lastOutputUs then s.lastOutputUs + 1 else value)
  }

  // ---- Epoch timestamps

  function EpochSecondsNanosecondsToUs(seconds: U32, nanoseconds: U32): Option<nat> {
    if nanoseconds >= 1_000_000_000 || seconds < EPOCH_LOWER_BOUND_SECONDS || seconds > EPOCH_UPPER_BOUND_SECONDS
    then None
    else Some(seconds * US_PER_SECOND + nanoseconds / 1000)
  }

  predicate IsNearHostEpoch(timestampUs: nat, hostNowUs: nat, toleranceUs: nat) {
    (if timestampUs >= hostNowUs then timestampUs - hostNowUs else hostNowUs - timestampUs) <= toleranceUs
  }

  // ---- The classes

  class RelativeMillisecondNormalizer {
    var hostAnchorUs: nat
    var restartAnchorUs: nat
    var initialized: bool
    var previousRawMilliseconds: U32
    var logicalMilliseconds: nat
    var lastOutputUs: nat
    var lastHostObservationUs: nat
    var hasHostObservation: bool

    ghost predicate Valid()
      reads this
    {
      hasHostObservation == initialized
    }

    function State(): Timeline
      reads this
    {
      Timeline(initialized, Sample(previousRawMilliseconds, 0), lastHostObservationUs,
               hostAnchorUs, logicalMilliseconds * US_PER_MS, lastOutputUs)
    }

    constructor (hostAnchorUs: nat)
      ensures Valid() && State() == Fresh(hostAnchorUs)
    {
      this.hostAnchorUs, restartAnchorUs := hostAnchorUs, hostAnchorUs;
      initialized, previousRawMilliseconds, logicalMilliseconds, lastOutputUs := false, 0, 0, 0;
      lastHostObservationUs, hasHostObservation := 0, false;
    }

    method Reset(anchor: nat)
      modifies this
      ensures Valid() && State() == Fresh(anchor)
    {
      hostAnchorUs, restartAnchorUs := anchor, anchor;
      initialized, previousRawMilliseconds, logicalMilliseconds, lastOutputUs := false, 0, 0, 0;
      lastHostObservationUs, hasHostObservation := 0, false;
    }

    method Restart(raw: U32, observationUs: nat)
      requires Valid() && initialized
      modifies this
      ensures Valid()
      ensures State() == Apply(old(State()), Decision.Restart, Sample(raw, 0), observationUs)
    {
      restartAnchorUs := if observationUs > lastOutputUs then observationUs else lastOutputUs + 1;
      hostAnchorUs := restartAnchorUs;
      logicalMilliseconds := 0;
      previousRawMilliseconds := raw;
      lastHostObservationUs := observationUs;
      hasHostObservation := true;
      lastOutputUs := restartAnchorUs;
    }

    /** hostNowUs is the caller's host time and clockUs the system clock, read only when hostNowUs is zero. */
    method Normalize(raw: U32, hostNowUs: nat, clockUs: nat) returns (outputUs: nat)
      requires Valid()
      modifies this
      ensures Valid()
      ensures State() == Observe(Millisecond, old(State()), Observed(Sample(raw, 0), ResolveAnchor(hostNowUs, clockUs)))
      ensures outputUs == State().lastOutputUs
    {
      hide HostElapsedIsMuchSmaller;
      var observationUs := if hostNowUs != 0 then hostNowUs else clockUs;
      if !initialized {
        initialized := true;
        previousRawMilliseconds := raw;
        logicalMilliseconds := 0;
        if hostAnchorUs == 0 {
          hostAnchorUs := observationUs;
          restartAnchorUs := observationUs;
        }
        lastOutputUs := hostAnchorUs;
        lastHostObservationUs := observationUs;
        hasHostObservation := true;
        return lastOutputUs;
      }
      var hostElapsedUs := if hasHostObservation && observationUs >= lastHostObservationUs
                           then observationUs - lastHostObservationUs else 0;
      var deltaMilliseconds: nat := 0;
      if raw >= previousRawMilliseconds {
        deltaMilliseconds := raw - previousRawMilliseconds;
        if HostElapsedIsMuchSmaller(deltaMilliseconds * US_PER_MS, hostElapsedUs) {
          Restart(raw, observationUs);
          return lastOutputUs;
        }
      } else {
        var backward := previousRawMilliseconds - raw;
        if backward > U32_MAX / 2 {
          deltaMilliseconds := U32_MAX - previousRawMilliseconds + raw + 1;
        } else if previousRawMilliseconds >= PPS_UPPER_BOUNDARY_MS && previousRawMilliseconds <= PPS_PERIOD_MS
                  && raw <= PPS_LOWER_BOUNDARY_MS && backward > PPS_WRAP_THRESHOLD_MS {
          deltaMilliseconds := PPS_PERIOD_MS - previousRawMilliseconds + raw;
        } else if backward <= PPS_WRAP_THRESHOLD_MS {
          lastOutputUs := lastOutputUs + 1;
          return lastOutputUs;
        } else {
          Restart(raw, observationUs);
          return lastOutputUs;
        }
      }
      Advance(raw, deltaMilliseconds, observationUs);
      return lastOutputUs;
    }

    method Advance(raw: U32, deltaMilliseconds: nat, observationUs: nat)
      requires Valid() && initialized
      modifies this
      ensures Valid()
      ensures forall wrapped :: State() == Apply(old(State()), Decision.Advance(deltaMilliseconds * US_PER_MS, wrapped),
                                                 Sample(raw, 0), observationUs)
    {
      logicalMilliseconds := logicalMilliseconds + deltaMilliseconds;
      previousRawMilliseconds := raw;
      lastHostObservationUs := observationUs;
      hasHostObservation := true;
      var candidate := hostAnchorUs + logicalMilliseconds * US_PER_MS;
      lastOutputUs := if candidate > lastOutputUs then candidate else lastOutputUs + 1;
    }
  }

  class RelativeSecondNormalizer {
    var hostAnchorUs: nat
    var restartAnchorUs: nat
    var initialized: bool
    var previousRawSeconds: U32
    var previousRawNanoseconds: U32
    var logicalMicroseconds: nat
    var lastOutputUs: nat
    var lastHostObservationUs: nat
    var hasHostObservation: bool

    ghost predicate Valid()
      reads this
    {
      hasHostObservation == initialized
    }

    function State(): Timeline
      reads this
    {
      Timeline(initialized, Sample(previousRawSeconds, previousRawNanoseconds), lastHostObservationUs,
               hostAnchorUs, logicalMicroseconds, lastOutputUs)
    }

    constructor (hostAnchorUs: nat)
      ensures Valid() && State() == Fresh(hostAnchorUs)
    {
      this.hostAnchorUs, restartAnchorUs := hostAnchorUs, hostAnchorUs;
      initialized, previousRawSeconds, previousRawNanoseconds := false, 0, 0;
      logicalMicroseconds, lastOutputUs, lastHostObservationUs, hasHostObservation := 0, 0, 0, false;
    }

    method Reset(anchor: nat)
      modifies this
      ensures Valid() && State() == Fresh(anchor)
    {
      hostAnchorUs, restartAnchorUs := anchor, anchor;
      initialized, previousRawSeconds, previousRawNanoseconds := false, 0, 0;
      logicalMicroseconds, lastOutputUs, lastHostObservationUs, hasHostObservation := 0, 0, 0, false;
    }

    method Restart(rawSeconds: U32, rawNanoseconds: U32, observationUs: nat)
      requires Valid() && initialized
      modifies this
      ensures Valid()
      ensures State() == Apply(old(State()), Decision.Restart, Sample(rawSeconds, rawNanoseconds), observationUs)
    {
      restartAnchorUs := observationUs;
      if restartAnchorUs <= lastOutputUs {
        restartAnchorUs := lastOutputUs + 1;
      }
      hostAnchorUs := restartAnchorUs;
      logicalMicroseconds := 0;
      previousRawSeconds := rawSeconds;
      previousRawNanoseconds := rawNanoseconds;
      lastHostObservationUs := observationUs;
      hasHostObservation := true;
      lastOutputUs := restartAnchorUs;
    }

    method Normalize(rawSeconds: U32, rawNanoseconds: U32, hostNowUs: nat, clockUs: nat) returns (outputUs: nat)
      requires Valid()
      modifies this
      ensures Valid()
      ensures State() == Observe(Second, old(State()),
                                 Observed(Sample(rawSeconds, rawNanoseconds), ResolveAnchor(hostNowUs, clockUs)))
      ensures outputUs == State().lastOutputUs
    {
      hide HostElapsedIsMuchSmaller, DivideTowardZero;
      var observationUs := if hostNowUs != 0 then hostNowUs else clockUs;
      if !initialized {
        initialized := true;
        previousRawSeconds := rawSeconds;
        previousRawNanoseconds := rawNanoseconds;
        logicalMicroseconds := 0;
        if hostAnchorUs == 0 {
          hostAnchorUs := observationUs;
          restartAnchorUs := observationUs;
        }
        lastOutputUs := hostAnchorUs;
        lastHostObservationUs := observationUs;
        hasHostObservation := true;
        return lastOutputUs;
      }
      var hostElapsedUs := if hasHostObservation && observationUs >= lastHostObservationUs
                           then observationUs - lastHostObservationUs else 0;
      var deltaSeconds: nat := 0;
      if rawSeconds >= previousRawSeconds {
        deltaSeconds := rawSeconds - previousRawSeconds;
      } else {
        var backward := previousRawSeconds - rawSeconds;
        if backward > U32_MAX / 2 {
          deltaSeconds := U32_MAX - previousRawSeconds + rawSeconds + 1;
        } else if backward <= 1 {
          lastOutputUs := lastOutputUs + 1;
          return lastOutputUs;
        } else {
          Restart(rawSeconds, rawNanoseconds, observationUs);
          return lastOutputUs;
        }
      }
      var nanosecondDelta := rawNanoseconds - previousRawNanoseconds;
      var deltaMicroseconds := deltaSeconds * US_PER_SECOND + DivideTowardZero(nanosecondDelta, 1000);
      if deltaMicroseconds < 0 {
        lastOutputUs := lastOutputUs + 1;
        return lastOutputUs;
      }
      if HostElapsedIsMuchSmaller(deltaMicroseconds, hostElapsedUs) {
        Restart(rawSeconds, rawNanoseconds, observationUs);
        return lastOutputUs;
      }
      Advance(rawSeconds, rawNanoseconds, deltaMicroseconds, observationUs);
      return lastOutputUs;
    }

    method Advance(rawSeconds: U32, rawNanoseconds: U32, deltaMicroseconds: nat, observationUs: nat)
      requires Valid() && initialized
      modifies this
      ensures Valid()
      ensures forall wrapped :: State() == Apply(old(State()), Decision.Advance(deltaMicroseconds, wrapped),
                                                 Sample(rawSeconds, rawNanoseconds), observationUs)
    {
      logicalMicroseconds := logicalMicroseconds + deltaMicroseconds;
      previousRawSeconds := rawSeconds;
      previousRawNanoseconds := rawNanoseconds;
      lastHostObservationUs := observationUs;
      hasHostObservation := true;
      var candidate := hostAnchorUs + logicalMicroseconds;
      lastOutputUs := if candidate > lastOutputUs then candidate else lastOutputUs + 1;
    }
  }

  class SerialTimestampNormalizer {
    const relativeNormalizer: RelativeMillisecondNormalizer
    var initialized: bool
    var previousRawMilliseconds: U32
    var lastOutputUs: nat

    ghost predicate Valid()
      reads this, relativeNormalizer
    {
      relativeNormalizer.Valid()
    }

    function State(): Serial
      reads this, relativeNormalizer
    {
      Serial(relativeNormalizer.State(), initialized, previousRawMilliseconds, lastOutputUs)
    }

    constructor (hostAnchorUs: nat)
      ensures Valid() && State() == FreshSerial(hostAnchorUs) && fresh(relativeNormalizer)
    {
      relativeNormalizer := new RelativeMillisecondNormalizer(hostAnchorUs);
      initialized, previousRawMilliseconds, lastOutputUs := false, 0, 0;
    }

    method Reset(hostAnchorUs: nat)
      modifies this, relativeNormalizer
      ensures Valid() && State() == FreshSerial(hostAnchorUs)
    {
      relativeNormalizer.Reset(hostAnchorUs);
      initialized, previousRawMilliseconds, lastOutputUs := false, 0, 0;
    }

    method Normalize(raw: U32, hostNowUs: nat, clockUs: nat) returns (outputUs: nat)
      requires Valid()
      modifies this, relativeNormalizer
      ensures Valid()
      ensures State() == ObserveSerial(old(State()), raw, ResolveAnchor(hostNowUs, clockUs))
      ensures outputUs == lastOutputUs
    {
      var smallBackwardReorder := false;
      if initialized && raw < previousRawMilliseconds {
        var backward := previousRawMilliseconds - raw;
        smallBackwardReorder := backward <= PPS_WRAP_THRESHOLD_MS;
      }
      if initialized && !smallBackwardReorder {
        var ppsToCounter := previousRawMilliseconds <= PPS_PERIOD_MS && raw > 1500;
        var is32BitWrap := previousRawMilliseconds >= 0xFFFF_F000 && raw <= PPS_PERIOD_MS;
        var counterToPpsOrRestart :=
          previousRawMilliseconds > PPS_PERIOD_MS && !is32BitWrap && raw <= PPS_PERIOD_MS;
        if ppsToCounter || counterToPpsOrRestart {
          relativeNormalizer.Reset(ResolveAnchor(hostNowUs, clockUs));
        }
      }
      var observationUs := ResolveAnchor(hostNowUs, clockUs);
      outputUs := relativeNormalizer.Normalize(raw, observationUs, clockUs);
      if lastOutputUs != 0 && outputUs <= lastOutputUs {
        outputUs := lastOutputUs + 1;
      }
      initialized := true;
      previousRawMilliseconds := relativeNormalizer.previousRawMilliseconds;
      lastOutputUs := outputUs;
    }
  }
}
