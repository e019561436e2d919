/** The measurements among the events of a source, and the order of their timestamps. */
module EventOrder {
  import opened TimelineRuns
  import opened FrameModel

  function Measurements(polled: seq<Polled>): seq<SourceEvent> {
    if polled == [] then []
    else
      (if polled[0].Event? && polled[0].event.kind == MeasurementEvent then [polled[0].event] else [])
      + Measurements(polled[1..])
  }

  function StampValues(events: seq<SourceEvent>): (vs: seq<nat>)
    ensures |vs| == |events|
  {
    seq(|events|, i requires 0 <= i < |events| => events[i].measurement.clock.value)
  }

  /** Strictly increasing, and all above low. */
  predicate Ascends(low: nat, vs: seq<nat>)
    decreases |vs|
  {
    vs == [] || (low < vs[0] && Ascends(vs[0], vs[1..]))
  }

  lemma {:induction false} AscendsIncreases(low: nat, vs: seq<nat>)
    requires Ascends(low, vs)
    ensures StrictlyIncreasing(vs) && forall v :: v in vs ==> low < v
    decreases |vs|
  {
    if vs != [] {
      AscendsIncreases(vs[0], vs[1..]);
      forall v | v in vs
        ensures low < v
      {
        assert v == vs[0] || v in vs[1..];
      }
      forall i, j | 0 <= i < j < |vs|
        ensures vs[i] < vs[j]
      {
        assert vs[1..][j - 1] == vs[j];
        if i > 0 {
          assert vs[1..][i - 1] == vs[i];
        }
      }
    }
  }

  lemma StampValuesCons(e: SourceEvent, rest: seq<SourceEvent>)
    ensures StampValues([e] + rest) == [e.measurement.clock.value] + StampValues(rest)
  {
  }

  lemma {:induction false} AscendsPrefix(low: nat, vs: seq<nat>, n: nat)
    requires Ascends(low, vs) && n <= |vs|
    ensures Ascends(low, vs[..n])
    decreases |vs|
  {
    if n > 0 {
      AscendsPrefix(vs[0], vs[1..], n - 1);
      assert vs[..n][1..] == vs[1..][..n - 1];
    }
  }

  /** The stamps of the measurements a source returned, in order. */
  function StampsOf(polled: seq<Polled>): seq<nat> {
    StampValues(Measurements(polled))
  }

  /** One more poll in front: either no measurement and the bound unchanged, or one that raises it. */
  lemma AscendsCons(low: nat, first: Polled, others: seq<Polled>, next: nat)
    requires Ascends(next, StampsOf(others))
    requires if first.Event? && first.event.kind == MeasurementEvent
             then low < next == first.event.measurement.clock.value else next == low
    ensures Ascends(low, StampsOf([first] + others))
  {
    assert ([first] + others)[1..] == others;
    var later := Measurements(others);
    if first.Event? && first.event.kind == MeasurementEvent {
      StampValuesCons(first.event, later);
      assert ([first.event.measurement.clock.value] + StampValues(later))[1..] == StampValues(later);
    } else {
      assert [] + later == later;
    }
  }

  lemma MeasurementInFront(first: Polled, others: seq<Polled>)
    ensures StampsOf([first] + others) ==
            (if first.Event? && first.event.kind == MeasurementEvent then [first.event.measurement.clock.value] else [])
            + StampsOf(others)
  {
    assert ([first] + others)[1..] == others;
    if first.Event? && first.event.kind == MeasurementEvent {
      StampValuesCons(first.event, Measurements(others));
    } else {
      assert [] + Measurements(others) == Measurements(others);
    }
  }

  lemma MeasurementsCons(first: Polled, others: seq<Polled>)
    ensures Measurements([first] + others) ==
            (if first.Event? && first.event.kind == MeasurementEvent then [first.event] else []) + Measurements(others)
  {
    assert ([first] + others)[1..] == others;
  }
}
