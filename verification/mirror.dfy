/** Horizontal mirroring of row-major frames, in place, against index maps. */
module Mirror {
  import opened FrameModel
  import opened TimestampNormalizer

  /** The index in the same row, counted from the other end. */
  function MirrorIndex(w: int, i: int): int
    requires w > 0
  {
    i - i % w + (w - 1 - i % w)
  }

  /** Mirror the order of 40 groups of gw samples in each row, keeping the order inside a group. */
  function GroupIndex(gw: int, i: int): int
    requires gw > 0
  {
    MirrorIndex(DEPTH_WIDTH, i / gw) * gw + i % gw
  }

  predicate HasExpectedGeometry(width: U32, height: U32, size: nat) {
    width > 0 && height > 0 && size == width * height
  }

  // ---- Index arithmetic

  lemma MulMono(a: int, b: int, m: int)
    requires a <= b && 0 <= m
    ensures a * m <= b * m
  {
  }

  lemma DivModOf(q: int, r: int, m: int)
    requires 0 <= r < m
    ensures (q * m + r) / m == q && (q * m + r) % m == r
  {
    var x := q * m + r;
    var d := x / m - q;
    assert d * m == r - x % m;
    if d > 0 {
      MulMono(1, d, m);
    } else if d < 0 {
      MulMono(d, -1, m);
    }
  }

  lemma MirrorIndexOf(w: int, row: int, x: int)
    requires 0 <= x < w
    ensures MirrorIndex(w, row * w + x) == row * w + (w - 1 - x)
  {
    DivModOf(row, x, w);
  }

  lemma MirrorIndexFacts(w: int, h: int, i: int)
    requires w > 0 && 0 <= i < w * h
    ensures var j := MirrorIndex(w, i);
            && 0 <= j < w * h && j / w == i / w && j % w == w - 1 - i % w && MirrorIndex(w, j) == i
    ensures 0 <= i / w < h && i == (i / w) * w + i % w
  {
    var row, x := i / w, i % w;
    assert i == row * w + x;
    if row >= h {
      MulMono(h, row, w);
    }
    if row < 0 {
      MulMono(row, -1, w);
    }
    MulMono(row, h - 1, w);
    DivModOf(row, w - 1 - x, w);
    MirrorIndexOf(w, row, w - 1 - x);
  }

  lemma BlockBound(g: int, n: int, gw: int, b: int)
    requires 0 <= g < n && 0 <= b < gw
    ensures 0 <= g * gw + b < n * gw
  {
    MulMono(g, n - 1, gw);
    MulMono(0, g, gw);
  }

  lemma BlockOf(k: int, n: int, gw: int)
    requires gw > 0 && 0 <= k < n * gw
    ensures 0 <= k / gw < n && 0 <= k % gw < gw && k == (k / gw) * gw + k % gw
  {
    var q := k / gw;
    if q >= n {
      MulMono(n, q, gw);
    }
    if q < 0 {
      MulMono(q, -1, gw);
    }
  }

  lemma GroupTotal(gw: int, h: int)
    ensures DEPTH_WIDTH * gw * h == (DEPTH_WIDTH * h) * gw
  {
  }

  lemma GroupIndexFacts(gw: int, h: int, i: int)
    requires gw > 0 && 0 <= i < DEPTH_WIDTH * gw * h
    ensures var j := GroupIndex(gw, i);
            && 0 <= j < DEPTH_WIDTH * gw * h && j % gw == i % gw && j / gw == MirrorIndex(DEPTH_WIDTH, i / gw)
            && GroupIndex(gw, j) == i
  {
    GroupTotal(gw, h);
    BlockOf(i, DEPTH_WIDTH * h, gw);
    MirrorIndexFacts(DEPTH_WIDTH, h, i / gw);
    hide MirrorIndex;
    DivModOf(MirrorIndex(DEPTH_WIDTH, i / gw), i % gw, gw);
    BlockBound(MirrorIndex(DEPTH_WIDTH, i / gw), DEPTH_WIDTH * h, gw, i % gw);
  }

  // ---- Whole-frame maps

  function MirrorRows<T>(w: nat, h: nat, s: seq<T>): (r: seq<T>)
    requires w > 0 && |s| == w * h
    ensures |r| == |s|
  {
    seq(|s|, i requires 0 <= i < |s| => MirrorIndexFacts(w, h, i); s[MirrorIndex(w, i)])
  }

  function MirrorGroups<T>(gw: nat, h: nat, s: seq<T>): (r: seq<T>)
    requires gw > 0 && |s| == DEPTH_WIDTH * gw * h
    ensures |r| == |s|
  {
    seq(|s|, i requires 0 <= i < |s| => GroupIndexFacts(gw, h, i); s[GroupIndex(gw, i)])
  }

  /** Mirroring twice restores the frame. */
  lemma {:induction false} MirrorRowsInvolution<T>(w: nat, h: nat, s: seq<T>)
    requires w > 0 && |s| == w * h
    ensures MirrorRows(w, h, MirrorRows(w, h, s)) == s
  {
    forall i | 0 <= i < |s|
      ensures MirrorRows(w, h, MirrorRows(w, h, s))[i] == s[i]
    {
      MirrorIndexFacts(w, h, i);
    }
  }

  lemma {:induction false} MirrorGroupsInvolution<T>(gw: nat, h: nat, s: seq<T>)
    requires gw > 0 && |s| == DEPTH_WIDTH * gw * h
    ensures MirrorGroups(gw, h, MirrorGroups(gw, h, s)) == s
  {
    forall i | 0 <= i < |s|
      ensures MirrorGroups(gw, h, MirrorGroups(gw, h, s))[i] == s[i]
    {
      GroupIndexFacts(gw, h, i);
    }
  }

  // ---- In-place loops

  /** Swap loop over one row. */
  method ReverseRow<T>(a: array<T>, base: nat, w: nat)
    requires base + w <= a.Length
    modifies a
    ensures forall i :: base <= i < base + w ==> a[i] == old(a[base + base + w - 1 - i])
    ensures forall i :: 0 <= i < a.Length && !(base <= i < base + w) ==> a[i] == old(a[i])
  {
    for x := 0 to w / 2
      invariant forall i :: base <= i < base + x || base + w - x <= i < base + w ==>
                  a[i] == old(a[base + base + w - 1 - i])
      invariant forall i :: 0 <= i < a.Length && !(base <= i < base + x || base + w - x <= i < base + w) ==>
                  a[i] == old(a[i])
    {
      var lhs, rhs := base + x, base + w - 1 - x;
      a[lhs], a[rhs] := a[rhs], a[lhs];
    }
  }

  method MirrorImageRows<T>(width: U32, height: U32, values: array<T>)
    modifies values
    ensures values[..] == if HasExpectedGeometry(width, height, values.Length)
                          then MirrorRows(width, height, old(values[..])) else old(values[..])
  {
    if !HasExpectedGeometry(width, height, values.Length) {
      return;
    }
    ghost var was := values[..];
    ghost var mirrored := MirrorRows(width, height, was);
    for y := 0 to height
      invariant forall i :: 0 <= i < y * width && i < values.Length ==> values[i] == mirrored[i]
      invariant forall i :: y * width <= i < values.Length ==> values[i] == was[i]
    {
      MulMono(y + 1, height, width);
      ghost var base := y * width;
      assert (y + 1) * width == base + width;
      ReverseRow(values, y * width, width);
      forall i | base <= i < base + width
        ensures values[i] == mirrored[i]
      {
        MirrorIndexOf(width, y, i - base);
      }
    }
  }

  /** Swap loop over the samples of two groups. */
  method SwapGroups<T>(a: array<T>, lhs: nat, rhs: nat, gw: nat)
    requires lhs + gw <= rhs && rhs + gw <= a.Length
    modifies a
    ensures forall i :: lhs <= i < lhs + gw ==> a[i] == old(a[i - lhs + rhs])
    ensures forall i :: rhs <= i < rhs + gw ==> a[i] == old(a[i - rhs + lhs])
    ensures forall i :: 0 <= i < a.Length && !(lhs <= i < lhs + gw || rhs <= i < rhs + gw) ==> a[i] == old(a[i])
  {
    for bin := 0 to gw
      invariant forall i :: lhs <= i < lhs + bin ==> a[i] == old(a[i - lhs + rhs])
      invariant forall i :: rhs <= i < rhs + bin ==> a[i] == old(a[i - rhs + lhs])
      invariant forall i :: 0 <= i < a.Length && !(lhs <= i < lhs + bin || rhs <= i < rhs + bin) ==>
                  a[i] == old(a[i])
    {
      a[lhs + bin], a[rhs + bin] := a[rhs + bin], a[lhs + bin];
    }
  }

  lemma GroupIndexOf(gw: nat, y: nat, group: nat, b: nat)
    requires b < gw && group < DEPTH_WIDTH
    ensures var base := y * (DEPTH_WIDTH * gw);
            GroupIndex(gw, GroupStart(base, gw, group) + b) == GroupStart(base, gw, DEPTH_WIDTH - 1 - group) + b
  {
    BlockNumber(y, group, gw);
    BlockNumber(y, DEPTH_WIDTH - 1 - group, gw);
    hide MirrorIndex;
    DivModOf(y * DEPTH_WIDTH + group, b, gw);
    MirrorIndexOf(DEPTH_WIDTH, y, group);
  }

  lemma BlockNumber(y: int, group: int, gw: int)
    ensures GroupStart(y * (DEPTH_WIDTH * gw), gw, group) == (y * DEPTH_WIDTH + group) * gw
  {
    assert y * (DEPTH_WIDTH * gw) == (y * DEPTH_WIDTH) * gw;
  }

  /** Where a group of the row at base starts. */
  function GroupStart(base: int, gw: int, group: int): int {
    base + group * gw
  }

  /** s is mirrored in [base, lhs) and [rhs, end), and was elsewhere. */
  ghost predicate OutsideMirrored<T>(s: seq<T>, was: seq<T>, mirrored: seq<T>,
                                     base: nat, lhs: nat, rhs: nat, end: nat) {
    && |s| == |was| == |mirrored| && base <= lhs <= rhs <= end <= |s|
    && (forall i :: base <= i < lhs || rhs <= i < end ==> s[i] == mirrored[i])
    && (forall i :: 0 <= i < base || lhs <= i < rhs || end <= i < |s| ==> s[i] == was[i])
  }

  /** Swapping a group with the one mirrored onto it moves the boundary of what is mirrored by one group. */
  method SwapMirroredGroups<T>(a: array<T>, ghost was: seq<T>, ghost mirrored: seq<T>,
                               ghost base: nat, lhs: nat, rhs: nat, gw: nat, ghost end: nat)
    requires lhs + gw <= rhs
    requires OutsideMirrored(a[..], was, mirrored, base, lhs, rhs + gw, end)
    requires forall i :: lhs <= i < lhs + gw ==> mirrored[i] == was[i - lhs + rhs]
    requires forall i :: rhs <= i < rhs + gw ==> mirrored[i] == was[i - rhs + lhs]
    modifies a
    ensures OutsideMirrored(a[..], was, mirrored, base, lhs + gw, rhs, end)
  {
    SwapGroups(a, lhs, rhs, gw);
  }

  /** The group loop of one row. */
  method ReverseGroups<T>(a: array<T>, ghost h: nat, ghost y: nat, base: nat, gw: nat)
    requires gw > 0 && a.Length == DEPTH_WIDTH * gw * h
    requires base == y * (DEPTH_WIDTH * gw) && base + DEPTH_WIDTH * gw <= a.Length
    modifies a
    ensures forall i :: base <= i < base + DEPTH_WIDTH * gw ==> a[i] == MirrorGroups(gw, h, old(a[..]))[i]
    ensures forall i :: 0 <= i < a.Length && !(base <= i < base + DEPTH_WIDTH * gw) ==> a[i] == old(a[i])
  {
    ghost var was := a[..];
    ghost var mirrored := MirrorGroups(gw, h, was);
    var end := base + DEPTH_WIDTH * gw;
    var lhs, rhs := base, end;
    GroupEnds(base, gw);
    NothingMirrored(was, mirrored, base, rhs);
    hide MirrorGroups, GroupIndex, GroupStart, OutsideMirrored;
    for group := 0 to DEPTH_WIDTH / 2
      invariant lhs == GroupStart(base, gw, group) && rhs == GroupStart(base, gw, DEPTH_WIDTH - group)
      invariant base <= lhs <= rhs <= end
      invariant OutsideMirrored(a[..], was, mirrored, base, lhs, rhs, end)
    {
      GroupBounds(base, gw, group);
      GroupPair(gw, h, y, base, group, was, lhs, rhs - gw);
      SwapMirroredGroups(a, was, mirrored, base, lhs, rhs - gw, gw, end);
      lhs, rhs := lhs + gw, rhs - gw;
    }
    GroupMiddle(base, gw);
    AllMirrored(a[..], was, mirrored, base, lhs, end);
  }

  lemma NothingMirrored<T>(was: seq<T>, mirrored: seq<T>, base: nat, end: nat)
    requires |was| == |mirrored| && base <= end <= |was|
    ensures OutsideMirrored(was, was, mirrored, base, base, end, end)
  {
  }

  lemma AllMirrored<T>(s: seq<T>, was: seq<T>, mirrored: seq<T>, base: nat, middle: nat, end: nat)
    requires OutsideMirrored(s, was, mirrored, base, middle, middle, end)
    ensures |s| == |was| == |mirrored| && end <= |s|
    ensures forall i :: base <= i < end ==> s[i] == mirrored[i]
    ensures forall i :: 0 <= i < |s| && !(base <= i < end) ==> s[i] == was[i]
  {
  }

  lemma GroupMiddle(base: int, gw: int)
    ensures GroupStart(base, gw, DEPTH_WIDTH / 2) == GroupStart(base, gw, DEPTH_WIDTH - DEPTH_WIDTH / 2)
  {
  }

  lemma GroupEnds(base: int, gw: int)
    ensures GroupStart(base, gw, 0) == base && GroupStart(base, gw, DEPTH_WIDTH) == base + DEPTH_WIDTH * gw
  {
  }

  lemma GroupBounds(base: int, gw: nat, group: nat)
    requires gw > 0 && group < DEPTH_WIDTH / 2
    ensures GroupStart(base, gw, group) + gw == GroupStart(base, gw, group + 1)
    ensures GroupStart(base, gw, DEPTH_WIDTH - group) - gw == GroupStart(base, gw, DEPTH_WIDTH - 1 - group)
    ensures GroupStart(base, gw, group) + gw <= GroupStart(base, gw, DEPTH_WIDTH - 1 - group)
  {
    MulMono(group + 1, DEPTH_WIDTH - 1 - group, gw);
  }

  /** A group and the one mirrored onto it. */
  lemma GroupPair<T>(gw: nat, h: nat, y: nat, base: nat, group: nat, was: seq<T>, lhs: nat, rhs: nat)
    requires gw > 0 && |was| == DEPTH_WIDTH * gw * h && group < DEPTH_WIDTH && base == y * (DEPTH_WIDTH * gw)
    requires lhs == GroupStart(base, gw, group) && lhs + gw <= |was|
    requires rhs == GroupStart(base, gw, DEPTH_WIDTH - 1 - group) && rhs + gw <= |was|
    ensures forall i :: lhs <= i < lhs + gw ==> MirrorGroups(gw, h, was)[i] == was[i - lhs + rhs]
    ensures forall i :: rhs <= i < rhs + gw ==> MirrorGroups(gw, h, was)[i] == was[i - rhs + lhs]
  {
    hide GroupStart, GroupIndex;
    forall i | lhs <= i < lhs + gw
      ensures MirrorGroups(gw, h, was)[i] == was[i - lhs + rhs]
    {
      GroupIndexOf(gw, y, group, i - lhs);
    }
    forall i | rhs <= i < rhs + gw
      ensures MirrorGroups(gw, h, was)[i] == was[i - rhs + lhs]
    {
      GroupIndexOf(gw, y, DEPTH_WIDTH - 1 - group, i - rhs);
    }
  }

  method MirrorHistogramPixelGroups(valid: bool, width: U32, height: U32, bins: array<U16>)
    modifies bins
    ensures bins[..] == if valid && HasExpectedGeometry(width, height, bins.Length) && width % DEPTH_WIDTH == 0
                        then MirrorGroups(width / DEPTH_WIDTH, height, old(bins[..])) else old(bins[..])
  {
    if !valid || !HasExpectedGeometry(width, height, bins.Length) || width == 0 || height == 0
       || width % DEPTH_WIDTH != 0 {
      return;
    }
    var gw := width / DEPTH_WIDTH;
    ghost var was := bins[..];
    ghost var mirrored := MirrorGroups(gw, height, was);
    for y := 0 to height
      invariant forall i :: 0 <= i < y * (DEPTH_WIDTH * gw) && i < bins.Length ==> bins[i] == mirrored[i]
      invariant forall i :: y * (DEPTH_WIDTH * gw) <= i < bins.Length ==> bins[i] == was[i]
    {
      var base := y * (DEPTH_WIDTH * gw);
      ghost var now := bins[..];
      MulMono(y + 1, height, DEPTH_WIDTH * gw);
      assert (y + 1) * (DEPTH_WIDTH * gw) == base + DEPTH_WIDTH * gw;
      ReverseGroups(bins, height, y, base, gw);
      forall i | base <= i < base + DEPTH_WIDTH * gw
        ensures bins[i] == mirrored[i]
      {
        GroupStaysInRow(gw, height, y, i);
      }
    }
  }

  lemma GroupStaysInRow(gw: nat, h: nat, y: nat, i: nat)
    requires gw > 0 && y < h && y * (DEPTH_WIDTH * gw) <= i < y * (DEPTH_WIDTH * gw) + DEPTH_WIDTH * gw
    ensures y * (DEPTH_WIDTH * gw) <= GroupIndex(gw, i) < y * (DEPTH_WIDTH * gw) + DEPTH_WIDTH * gw
  {
    var k := i - y * (DEPTH_WIDTH * gw);
    BlockOf(k, DEPTH_WIDTH, gw);
    GroupIndexOf(gw, y, k / gw, k % gw);
    BlockBound(DEPTH_WIDTH - 1 - k / gw, DEPTH_WIDTH, gw, k % gw);
    hide GroupIndex;
  }
}
