/** The clamp that every transport applies last: never repeat or go back. */
module MonotoneClamp {
  import opened Wrappers
  import opened TimelineRuns

  /** The next timestamp for value v after last; last is zero before the first. */
  function ClampTo(last: nat, v: nat): nat {
    if last != 0 && v <= last then last + 1 else v
  }

  lemma FirstStands(v: nat)
    ensures ClampTo(0, v) == v
  {
  }

  /** A whole run; an absent value asks for no more than the next microsecond. */
  function Clamp(last: nat, vs: seq<Option<nat>>): (outs: seq<nat>)
    ensures |outs| == |vs|
    decreases |vs|
  {
    if vs == [] then []
    else
      var out := if vs[0].Some? then ClampTo(last, vs[0].value) else last + 1;
      [out] + Clamp(out, vs[1..])
  }

  predicate Positive(vs: seq<Option<nat>>) {
    forall v :: v in vs && v.Some? ==> v.value > 0
  }

  /** ws stays at or above every value present. */
  predicate Above(ws: seq<nat>, vs: seq<Option<nat>>) {
    |ws| == |vs| && forall i :: 0 <= i < |vs| && vs[i].Some? ==> vs[i].value <= ws[i]
  }

  /** The value at i, carried forward one microsecond per sample, is the output at n. */
  predicate Carried(vs: seq<Option<nat>>, i: int, n: int, out: nat) {
    0 <= i <= n < |vs| && vs[i].Some? && vs[i].value + (n - i) == out
  }

  lemma {:induction false} ClampAbove(last: nat, vs: seq<Option<nat>>)
    requires Positive(vs)
    ensures var outs := Clamp(last, vs);
            Above(outs, vs) && StrictlyIncreasing(outs) && forall i :: 0 <= i < |outs| ==> last < outs[i]
    decreases |vs|
  {
    if vs != [] {
      var out := Clamp(last, vs)[0];
      assert vs[0] in vs;
      ClampAbove(out, vs[1..]);
    }
  }

  /** Any strictly increasing sequence above the values and above last lies above the clamp's. */
  lemma {:induction false} ClampLeast(last: nat, vs: seq<Option<nat>>, ws: seq<nat>)
    requires Above(ws, vs) && StrictlyIncreasing(ws)
    requires |ws| > 0 ==> last < ws[0]
    ensures forall i :: 0 <= i < |vs| ==> Clamp(last, vs)[i] <= ws[i]
    decreases |vs|
  {
    if vs != [] {
      var out := Clamp(last, vs)[0];
      if |vs| > 1 {
        assert ws[0] < ws[1];
      }
      ClampLeast(out, vs[1..], ws[1..]);
    }
  }

  /** Each output is a value carried forward, or the start carried forward. */
  lemma {:induction false} ClampAttained(last: nat, vs: seq<Option<nat>>, n: nat) returns (i: int)
    requires Positive(vs) && n < |vs|
    ensures i == -1 ==> Clamp(last, vs)[n] == last + n + 1
    ensures i != -1 ==> Carried(vs, i, n, Clamp(last, vs)[n])
    decreases |vs|
  {
    var out := Clamp(last, vs)[0];
    if n == 0 {
      i := if out == last + 1 then -1 else 0;
    } else {
      var j := ClampAttained(out, vs[1..], n - 1);
      if j >= 0 {
        assert Carried(vs, j + 1, n, Clamp(last, vs)[n]);
        i := j + 1;
      } else {
        i := if out == last + 1 then -1 else 0;
      }
    }
  }

  /** Strictly increasing and above its values, the clamp is the least such sequence, and its n-th output is
      max over i <= n of v_i + (n - i). */
  lemma {:induction false} ClampClosedForm(vs: seq<Option<nat>>, n: nat)
    requires Positive(vs) && n < |vs| && vs[0].Some?
    ensures var outs := Clamp(0, vs);
            && Above(outs, vs) && StrictlyIncreasing(outs)
            && (forall ws: seq<nat> :: Above(ws, vs) && StrictlyIncreasing(ws) ==> outs[n] <= ws[n])
            && (exists i :: Carried(vs, i, n, outs[n]))
            && (forall i :: 0 <= i <= n && vs[i].Some? ==> vs[i].value + (n - i) <= outs[n])
  {
    var outs := Clamp(0, vs);
    assert vs[0] in vs;
    ClampAbove(0, vs);
    hide Clamp;
    forall ws: seq<nat> | Above(ws, vs) && StrictlyIncreasing(ws)
      ensures outs[n] <= ws[n]
    {
      assert vs[0].value <= ws[0];
      ClampLeast(0, vs, ws);
    }
    forall i | 0 <= i <= n && vs[i].Some?
      ensures vs[i].value + (n - i) <= outs[n]
    {
      IncreasesBySteps(outs, i, n);
    }
    ClampCarried(vs, n);
  }

  lemma ClampCarried(vs: seq<Option<nat>>, n: nat)
    requires Positive(vs) && n < |vs| && vs[0].Some?
    ensures exists i :: Carried(vs, i, n, Clamp(0, vs)[n])
  {
    var outs := Clamp(0, vs);
    assert vs[0] in vs;
    if n == 0 {
      assert Carried(vs, 0, n, outs[n]);
    } else {
      assert outs == [vs[0].value] + Clamp(vs[0].value, vs[1..]);
      hide Clamp;
      var j := ClampAttained(vs[0].value, vs[1..], n - 1);
      assert Carried(vs, if j == -1 then 0 else j + 1, n, outs[n]);
    }
  }

  lemma {:induction false} IncreasesBySteps(xs: seq<nat>, i: nat, n: nat)
    requires StrictlyIncreasing(xs) && i <= n < |xs|
    ensures xs[i] + (n - i) <= xs[n]
    decreases n
  {
    if i < n {
      IncreasesBySteps(xs, i, n - 1);
      assert xs[n - 1] < xs[n];
    }
  }
}
