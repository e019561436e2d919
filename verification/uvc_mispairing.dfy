/** Which captures a fused event joins. Fusing looks at the order of arrival only, so losses can join a cloud with the
    depth of a later capture; this says exactly when. */
module UvcMispairing {
  import opened TimestampNormalizer
  import opened FrameModel
  import opened UvcSource
  import opened UvcFusion

  // ---- Where the events of a fusion come from

  /** An event made of one arrival, or of a cloud and the arrival after it. */
  datatype Origin = Alone(k: nat) | Joined(k: nat)

  function Origins(base: nat, arrivals: seq<Arrival>): seq<Origin>
    decreases |arrivals|
  {
    if arrivals == [] then []
    else if arrivals[0].cloud && |arrivals| > 1 && !arrivals[1].cloud then
      [Joined(base)] + Origins(base + 2, arrivals[2..])
    else [Alone(base)] + Origins(base + 1, arrivals[1..])
  }

  /** The event carries the images of its origin, under the stamp given to its first arrival. */
  predicate ComesFrom(e: SourceEvent, o: Origin, base: nat, arrivals: seq<Arrival>) {
    var i := o.k - base;
    && 0 <= i < |arrivals|
    && e.measurement.cloud == arrivals[i].event.measurement.cloud
    && e.measurement.clock.raw0 == Raw0(arrivals[i].event.measurement)
    && if o.Joined? then
         && i + 1 < |arrivals|
         && JoinedFrom(e, arrivals[i].event, arrivals[i + 1].event)
       else AloneFrom(e, arrivals[i].event)
  }

  /** Everything but the timestamp is the frame's own. */
  predicate AloneFrom(e: SourceEvent, a: SourceEvent) {
    e.(measurement := a.measurement) == a && e.measurement.(clock := a.measurement.clock) == a.measurement
  }

  /** A cloud's event with the depth, confidence and histogram of the depth d, d's calibration if it has one, and d's
      device info over the cloud's, marked as the mixed profile. */
  predicate JoinedFrom(e: SourceEvent, c: SourceEvent, d: SourceEvent) {
    && DepthPart(e.measurement) == DepthPart(d.measurement)
    && e.kind == c.kind && e.calibration == c.calibration && e.integrityName == c.integrityName
    && e.info == MergeDeviceInfo(d.info, c.info)
    && e.measurement.transport == c.measurement.transport && e.measurement.profile == Mixed120x90
    && e.measurement.calibration == (if d.measurement.calibration.Some? then d.measurement.calibration
                                     else c.measurement.calibration)
  }

  /** The device time a stamped measurement keeps. */
  function Raw0(m: Measurement): int {
    if m.clock.valid then m.clock.raw0 else 0
  }

  predicate AllComeFrom(events: seq<SourceEvent>, origins: seq<Origin>, base: nat, arrivals: seq<Arrival>) {
    |events| == |origins| && forall i :: 0 <= i < |events| ==> ComesFrom(events[i], origins[i], base, arrivals)
  }

  lemma StampKeepsDevice(s: Stamper, e: SourceEvent, hostUs: nat)
    ensures var stamped := StampEvent(s, e, hostUs).1.measurement;
            && stamped.clock.raw0 == Raw0(e.measurement)
            && forall d: SourceEvent ::
                 Combine(StampEvent(s, e, hostUs).1, d).measurement.clock.raw0 == Raw0(e.measurement)
  {
  }

  lemma ComesFromLater(events: seq<SourceEvent>, origins: seq<Origin>, base: nat, arrivals: seq<Arrival>, n: nat)
    requires n <= |arrivals| && AllComeFrom(events, origins, base + n, arrivals[n..])
    ensures AllComeFrom(events, origins, base, arrivals)
  {
    hide DepthPart, JoinedFrom, AloneFrom;
    forall i | 0 <= i < |events|
      ensures ComesFrom(events[i], origins[i], base, arrivals)
    {
      assert ComesFrom(events[i], origins[i], base + n, arrivals[n..]);
    }
  }

  lemma ComesFromCons(e: SourceEvent, o: Origin, events: seq<SourceEvent>, origins: seq<Origin>,
                      base: nat, arrivals: seq<Arrival>)
    requires ComesFrom(e, o, base, arrivals) && AllComeFrom(events, origins, base, arrivals)
    ensures AllComeFrom([e] + events, [o] + origins, base, arrivals)
  {
    hide ComesFrom;
  }

  /** What stamping an arrival gives, alone or combined with the next, comes from it. */
  lemma StampedComes(s: Stamper, base: nat, arrivals: seq<Arrival>)
    requires arrivals != []
    ensures var e := StampEvent(s, arrivals[0].event, arrivals[0].hostUs).1;
            && ComesFrom(e, Alone(base), base, arrivals)
            && (|arrivals| > 1 ==> ComesFrom(Combine(e, arrivals[1].event), Joined(base), base, arrivals))
  {
    var a := arrivals[0].event;
    var e := StampEvent(s, a, arrivals[0].hostUs).1;
    StampKeepsImages(s, a, arrivals[0].hostUs);
    StampKeepsDevice(s, a, arrivals[0].hostUs);
    StampKeepsRest(s, a, arrivals[0].hostUs);
    hide StampEvent;
    if |arrivals| > 1 {
      CombineJoins(e, a, arrivals[1].event);
    }
    hide Combine, DepthPart, JoinedFrom, AloneFrom;
  }

  lemma StampKeepsRest(s: Stamper, a: SourceEvent, hostUs: nat)
    ensures AloneFrom(StampEvent(s, a, hostUs).1, a)
  {
    hide Observe;
  }

  lemma CombineJoins(e: SourceEvent, c: SourceEvent, d: SourceEvent)
    requires AloneFrom(e, c)
    ensures JoinedFrom(Combine(e, d), c, d)
  {
    hide MergeDeviceInfo;
  }

  /** The emitted events, and the waiting cloud after them, come from the origins in order. */
  lemma {:induction false} EventsHaveOrigins(s: Stamper, base: nat, arrivals: seq<Arrival>)
    ensures var (out, pending, end) := Fuse(s, arrivals);
            AllComeFrom(WithPending(out, pending), Origins(base, arrivals), base, arrivals)
    decreases |arrivals|
  {
    if arrivals != [] {
      var a, rest := arrivals[0], arrivals[1..];
      var (next, e) := StampEvent(s, a.event, a.hostUs);
      StampedComes(s, base, arrivals);
      hide StampEvent, Combine, ComesFrom, AllComeFrom;
      if a.cloud && rest == [] {
        assert [] + [e] == [e] + [];
        NothingComes(base, arrivals);
        ComesFromCons(e, Alone(base), [], [], base, arrivals);
      } else if a.cloud && !rest[0].cloud {
        var (out, pending, end) := Fuse(next, rest[1..]);
        assert rest[1..] == arrivals[2..];
        EventsHaveOrigins(next, base + 2, rest[1..]);
        ComesFromLater(WithPending(out, pending), Origins(base + 2, rest[1..]), base, arrivals, 2);
        ComesFromCons(Combine(e, rest[0].event), Joined(base), WithPending(out, pending),
                      Origins(base + 2, rest[1..]), base, arrivals);
        WithPendingCons(Combine(e, rest[0].event), out, pending);
      } else {
        var (out, pending, end) := Fuse(next, rest);
        EventsHaveOrigins(next, base + 1, rest);
        ComesFromLater(WithPending(out, pending), Origins(base + 1, rest), base, arrivals, 1);
        ComesFromCons(e, Alone(base), WithPending(out, pending), Origins(base + 1, rest), base, arrivals);
        WithPendingCons(e, out, pending);
      }
    } else {
      NothingComes(base, arrivals);
    }
  }

  lemma NothingComes(base: nat, arrivals: seq<Arrival>)
    ensures AllComeFrom([], [], base, arrivals)
  {
  }

  predicate FollowedByDepth(arrivals: seq<Arrival>, i: int) {
    0 <= i && i + 1 < |arrivals| && arrivals[i].cloud && !arrivals[i + 1].cloud
  }

  /** Two arrivals are joined exactly when a depth directly follows a cloud. */
  lemma {:induction false} JoinedExactly(base: nat, arrivals: seq<Arrival>, k: nat)
    ensures Joined(k) in Origins(base, arrivals) <==> FollowedByDepth(arrivals, k - base)
    decreases |arrivals|
  {
    if arrivals != [] {
      var pair := arrivals[0].cloud && |arrivals| > 1 && !arrivals[1].cloud;
      var n := if pair then 2 else 1;
      var first := if pair then Joined(base) else Alone(base);
      JoinedExactly(base + n, arrivals[n..], k);
      assert Origins(base, arrivals) == [first] + Origins(base + n, arrivals[n..]);
      assert Joined(k) in Origins(base, arrivals) <==>
             Joined(k) == first || Joined(k) in Origins(base + n, arrivals[n..]);
    }
  }

  // ---- A device that sends a cloud and a depth for each capture, and a link that loses frames

  /** Frame p of the device: 2 * i is cloud i, 2 * i + 1 is depth i. The frames that get through, in order. */
  function Received(kept: seq<bool>): seq<nat> {
    if kept == [] then []
    else
      var last := |kept| - 1;
      Received(kept[..last]) + if kept[last] then [last] else []
  }

  /** Nothing strictly between p and q gets through. */
  predicate LostBetween(kept: seq<bool>, p: nat, q: nat) {
    q <= |kept| && forall m :: p < m < q ==> !kept[m]
  }

  /** p and q get through and nothing between them does. */
  predicate Neighbours(kept: seq<bool>, p: nat, q: nat) {
    p < q < |kept| && kept[p] && kept[q] && LostBetween(kept, p, q)
  }

  ghost predicate Consecutive(ps: seq<nat>, p: nat, q: nat) {
    exists k :: 0 <= k < |ps| - 1 && ps[k] == p && ps[k + 1] == q
  }

  ghost predicate HoldsKept(kept: seq<bool>, ps: seq<nat>) {
    forall p: nat :: p in ps <==> p < |kept| && kept[p]
  }

  predicate SkipsLost(kept: seq<bool>, ps: seq<nat>) {
    && (forall k :: 0 <= k < |ps| - 1 ==> ps[k] < ps[k + 1] && LostBetween(kept, ps[k], ps[k + 1]))
    && (ps != [] ==> LostBetween(kept, ps[|ps| - 1], |kept|))
  }

  lemma HoldsOneMore(kept: seq<bool>, before: seq<nat>)
    requires kept != [] && HoldsKept(kept[..|kept| - 1], before)
    ensures var last := |kept| - 1; HoldsKept(kept, before + if kept[last] then [last] else [])
  {
    var last := |kept| - 1;
    var ps := before + if kept[last] then [last] else [];
    forall p: nat
      ensures p in ps <==> p < |kept| && kept[p]
    {
      assert p in ps <==> p in before || (kept[last] && p == last);
      assert p < last ==> kept[..last][p] == kept[p];
    }
  }

  lemma LostOneMore(kept: seq<bool>, p: nat, q: nat)
    requires kept != [] && LostBetween(kept[..|kept| - 1], p, q)
    ensures LostBetween(kept, p, q)
    ensures q == |kept| - 1 && !kept[q] ==> LostBetween(kept, p, |kept|)
  {
    assert forall m :: p < m < q ==> kept[m] == kept[..|kept| - 1][m];
  }

  lemma SkipsOneMore(kept: seq<bool>, before: seq<nat>)
    requires kept != [] && SkipsLost(kept[..|kept| - 1], before) && HoldsKept(kept[..|kept| - 1], before)
    ensures var last := |kept| - 1; SkipsLost(kept, before + if kept[last] then [last] else [])
  {
    var last := |kept| - 1;
    hide LostBetween;
    forall k | 0 <= k < |before| - 1
      ensures LostBetween(kept, before[k], before[k + 1])
    {
      LostOneMore(kept, before[k], before[k + 1]);
    }
    if before != [] {
      assert before[|before| - 1] in before;
      LostOneMore(kept, before[|before| - 1], last);
    }
    NothingAfter(kept, last);
  }

  lemma NothingAfter(kept: seq<bool>, last: nat)
    requires |kept| == last + 1
    ensures LostBetween(kept, last, |kept|)
  {
  }

  /** The frames that got through, increasing, with only losses between them and after the last. */
  lemma {:induction false} ReceivedKept(kept: seq<bool>)
    ensures HoldsKept(kept, Received(kept)) && SkipsLost(kept, Received(kept))
  {
    hide HoldsKept, SkipsLost;
    if kept == [] {
      NoneReceived();
    } else {
      ReceivedKept(kept[..|kept| - 1]);
      HoldsOneMore(kept, Received(kept[..|kept| - 1]));
      SkipsOneMore(kept, Received(kept[..|kept| - 1]));
    }
  }

  lemma NoneReceived()
    ensures HoldsKept([], []) && SkipsLost([], [])
  {
  }

  lemma {:induction false} ConsecutiveAreNeighbours(kept: seq<bool>, p: nat, q: nat)
    ensures Consecutive(Received(kept), p, q) <==> Neighbours(kept, p, q)
  {
    var ps := Received(kept);
    ReceivedKept(kept);
    hide Received;
    if Neighbours(kept, p, q) {
      var k :| 0 <= k < |ps| && ps[k] == p;
      NextIsNext(kept, ps, k, q);
    }
    if Consecutive(ps, p, q) {
      var k :| 0 <= k < |ps| - 1 && ps[k] == p && ps[k + 1] == q;
      assert p in ps && q in ps;
    }
  }

  lemma NextIsNext(kept: seq<bool>, ps: seq<nat>, k: nat, q: nat)
    requires k < |ps| - 1 && Neighbours(kept, ps[k], q)
    requires HoldsKept(kept, ps)
    requires ps[k] < ps[k + 1] && LostBetween(kept, ps[k], ps[k + 1])
    ensures ps[k + 1] == q
  {
    assert ps[k + 1] in ps;
  }

  /** The arrivals are the frames that got through. */
  predicate Delivers(arrivals: seq<Arrival>, kept: seq<bool>) {
    var ps := Received(kept);
    |arrivals| == |ps| && forall k :: 0 <= k < |ps| ==> (arrivals[k].cloud <==> ps[k] % 2 == 0)
  }

  /** Some event joins cloud i with depth j. */
  ghost predicate Joins(arrivals: seq<Arrival>, kept: seq<bool>, i: nat, j: nat) {
    exists k: nat :: JoinsAt(arrivals, kept, i, j, k)
  }

  predicate JoinsAt(arrivals: seq<Arrival>, kept: seq<bool>, i: nat, j: nat, k: nat) {
    var ps := Received(kept);
    Joined(k) in Origins(0, arrivals) && k + 1 < |ps| && ps[k] == 2 * i && ps[k + 1] == 2 * j + 1
  }

  /** An event joins cloud i with depth j exactly when both get through and everything the device sent between them
      is lost: for j == i nothing is, and for a later capture j that is depth i up to and including cloud j. */
  lemma {:induction false} JoinsAcrossLosses(arrivals: seq<Arrival>, kept: seq<bool>, i: nat, j: nat)
    requires Delivers(arrivals, kept)
    ensures Joins(arrivals, kept, i, j) <==> Neighbours(kept, 2 * i, 2 * j + 1)
  {
    var ps := Received(kept);
    ConsecutiveAreNeighbours(kept, 2 * i, 2 * j + 1);
    hide Received, Origins, Neighbours;
    forall k: nat
      ensures JoinsAt(arrivals, kept, i, j, k) <==>
              k < |ps| - 1 && ps[k] == 2 * i && ps[k + 1] == 2 * j + 1
    {
      JoinedExactly(0, arrivals, k);
    }
    if Consecutive(ps, 2 * i, 2 * j + 1) {
      var k :| 0 <= k < |ps| - 1 && ps[k] == 2 * i && ps[k + 1] == 2 * j + 1;
      assert JoinsAt(arrivals, kept, i, j, k);
    }
  }

  /** Without losses every event joins one capture. */
  lemma {:induction false} NoLossNoMispairing(arrivals: seq<Arrival>, kept: seq<bool>, i: nat, j: nat)
    requires Delivers(arrivals, kept) && forall p :: 0 <= p < |kept| ==> kept[p]
    ensures Joins(arrivals, kept, i, j) <==> i == j && 2 * i + 1 < |kept|
  {
    JoinsAcrossLosses(arrivals, kept, i, j);
    hide Joins, Delivers;
    var next := 2 * i + 1;
    assert next < |kept| ==> kept[next];
  }
}
