/** Polynomials over GF(2) and division by a monic generator. A polynomial is the sequence of its
    coefficients, highest power first; a generator x^n + g is given by its n low coefficients g. */
module Gf2 {
  type Poly = seq<bool>

  function Zeros(n: nat): (z: Poly)
    ensures |z| == n
  {
    seq(n, _ => false)
  }

  /** The sum of two polynomials written with equally many coefficients. */
  function Xor(a: Poly, b: Poly): (c: Poly)
    requires |a| == |b|
    ensures |c| == |a|
  {
    seq(|a|, i requires 0 <= i < |a| => a[i] != b[i])
  }

  /** Multiply by x and reduce: one shift of a feedback register. */
  function Shift(g: Poly, r: Poly): (s: Poly)
    requires |r| == |g| > 0
    ensures |s| == |g|
  {
    Xor(r[1..] + [false], if r[0] then g else Zeros(|g|))
  }

  function Shifts(g: Poly, r: Poly, k: nat): (s: Poly)
    requires |r| == |g| > 0
    ensures |s| == |g|
  {
    if k == 0 then r else Shift(g, Shifts(g, r, k - 1))
  }

  /** One step of the reduction: bring down the next coefficient. */
  function Reduce(g: Poly, r: Poly, bit: bool): (s: Poly)
    requires |r| == |g| > 0
    ensures |s| == |g|
  {
    Xor(Shift(g, r), Zeros(|g| - 1) + [bit])
  }

  /** The generator times bit, right-aligned under k + 1 + n columns. */
  function Row(k: nat, bit: bool, g: Poly): (t: Poly)
    ensures |t| == k + 1 + |g|
  {
    if bit then Zeros(k) + ([true] + g) else Zeros(k + 1 + |g|)
  }

  /** The product of q and the generator, by shift and add. */
  function Times(q: Poly, g: Poly): (t: Poly)
    requires |g| > 0
    ensures |t| == |q| + |g|
  {
    if q == [] then Zeros(|g|)
    else
      var last := |q| - 1;
      Xor(Times(q[..last], g) + [false], Row(last, q[last], g))
  }

  ghost predicate IsQuotient(q: Poly, a: Poly, g: Poly, r: Poly)
    requires |r| == |g| > 0
  {
    |q| + |g| == |a| && a == Xor(Times(q, g), Zeros(|q|) + r)
  }

  /** a = q * (x^n + g) + r for some q, with r of degree below n. */
  ghost predicate IsRemainder(a: Poly, g: Poly, r: Poly)
    requires |r| == |g| > 0
  {
    exists q: Poly :: IsQuotient(q, a, g, r)
  }

  /** Reduction of a, one coefficient at a time. */
  function Residue(g: Poly, a: Poly): (r: Poly)
    requires |g| > 0
    ensures |r| == |g|
  {
    if a == [] then Zeros(|g|)
    else
      var last := |a| - 1;
      Reduce(g, Residue(g, a[..last]), a[last])
  }

  lemma ResidueStep(g: Poly, a: Poly, bit: bool)
    requires |g| > 0
    ensures Residue(g, a + [bit]) == Reduce(g, Residue(g, a), bit)
  {
    assert (a + [bit])[..|a|] == a;
  }

  // ---- Linearity

  lemma ShiftLinear(g: Poly, a: Poly, b: Poly)
    requires |a| == |b| == |g| > 0
    ensures Shift(g, Xor(a, b)) == Xor(Shift(g, a), Shift(g, b))
  {
  }

  lemma {:induction false} ShiftsLinear(g: Poly, a: Poly, b: Poly, k: nat)
    requires |a| == |b| == |g| > 0
    ensures Shifts(g, Xor(a, b), k) == Xor(Shifts(g, a, k), Shifts(g, b, k))
  {
    if k > 0 {
      ShiftsLinear(g, a, b, k - 1);
      ShiftLinear(g, Shifts(g, a, k - 1), Shifts(g, b, k - 1));
    }
  }

  lemma {:induction false} ResidueLinear(g: Poly, a: Poly, b: Poly)
    requires |a| == |b| && |g| > 0
    ensures Residue(g, Xor(a, b)) == Xor(Residue(g, a), Residue(g, b))
  {
    if a != [] {
      var last := |a| - 1;
      assert Xor(a, b)[..last] == Xor(a[..last], b[..last]);
      ResidueLinear(g, a[..last], b[..last]);
      ShiftLinear(g, Residue(g, a[..last]), Residue(g, b[..last]));
    }
  }

  // ---- Leading and trailing zeros

  lemma {:induction false} ResidueZeros(g: Poly, k: nat)
    requires |g| > 0
    ensures Residue(g, Zeros(k)) == Zeros(|g|)
  {
    if k > 0 {
      assert Zeros(k)[..k - 1] == Zeros(k - 1);
      ResidueZeros(g, k - 1);
    }
  }

  lemma {:induction false} ResidueLeadingZeros(g: Poly, k: nat, a: Poly)
    requires |g| > 0
    ensures Residue(g, Zeros(k) + a) == Residue(g, a)
  {
    if a == [] {
      assert Zeros(k) + a == Zeros(k);
      ResidueZeros(g, k);
    } else {
      var last := |a| - 1;
      ResidueLeadingZeros(g, k, a[..last]);
      assert Zeros(k) + a == (Zeros(k) + a[..last]) + [a[last]];
      ResidueStep(g, Zeros(k) + a[..last], a[last]);
    }
  }

  lemma NoZeros(a: Poly)
    ensures a + Zeros(0) == a
  {
  }

  lemma MoreZeros(a: Poly, k: nat)
    requires k > 0
    ensures a + Zeros(k) == a + Zeros(k - 1) + [false]
  {
  }

  lemma NoShift(g: Poly, r: Poly)
    requires |r| == |g| > 0
    ensures Shifts(g, r, 0) == r
  {
  }

  lemma ReduceZero(g: Poly, r: Poly)
    requires |r| == |g| > 0
    ensures Reduce(g, r, false) == Shift(g, r)
  {
    assert Zeros(|g| - 1) + [false] == Zeros(|g|);
    assert Xor(Shift(g, r), Zeros(|g|)) == Shift(g, r);
  }

  lemma {:induction false} ResidueTrailingZeros(g: Poly, a: Poly, k: nat)
    requires |g| > 0
    ensures Residue(g, a + Zeros(k)) == Shifts(g, Residue(g, a), k)
  {
    hide *;
    if k == 0 {
      assert a + Zeros(0) == a by {
        NoZeros(a);
      }
      NoShift(g, Residue(g, a));
    } else {
      MoreZeros(a, k);
      ResidueTrailingZeros(g, a, k - 1);
      ResidueStep(g, a + Zeros(k - 1), false);
      ReduceZero(g, Shifts(g, Residue(g, a), k - 1));
      LastShift(g, Residue(g, a), k);
    }
  }

  lemma ShiftWithoutCarry(g: Poly, r: Poly, bit: bool)
    requires |r| == |g| > 0 && !r[0]
    ensures Reduce(g, r, bit) == r[1..] + [bit]
  {
  }

  /** A polynomial of degree below n is already reduced. */
  lemma {:induction false} ResidueOfShort(g: Poly, a: Poly)
    requires |a| <= |g| && |g| > 0
    ensures Residue(g, a) == Zeros(|g| - |a|) + a
  {
    if a != [] {
      var last := |a| - 1;
      ResidueOfShort(g, a[..last]);
      var r := Zeros(|g| - last) + a[..last];
      ShiftWithoutCarry(g, r, a[last]);
      assert r[1..] + [a[last]] == Zeros(|g| - |a|) + a;
    }
  }

  // ---- Division

  /** x^n reduces to g. */
  lemma ResidueOfPower(g: Poly)
    requires |g| > 0
    ensures Residue(g, [true] + Zeros(|g|)) == g
  {
    hide *;
    ResidueOfShort(g, [true]);
    ResidueTrailingZeros(g, [true], |g|);
    UnitShifts(g, |g| - 1);
    LastShift(g, Zeros(|g| - 1) + [true], |g|);
    CarryOut(g);
  }

  lemma LastShift(g: Poly, r: Poly, k: nat)
    requires |r| == |g| > 0 && k > 0
    ensures Shifts(g, r, k) == Shift(g, Shifts(g, r, k - 1))
  {
  }

  lemma CarryOut(g: Poly)
    requires |g| > 0
    ensures Shift(g, Zeros(0) + [true] + Zeros(|g| - 1)) == g
  {
    var high := Zeros(0) + [true] + Zeros(|g| - 1);
    assert high[0] && high[1..] + [false] == Zeros(|g|);
    assert Xor(Zeros(|g|), g) == g;
  }

  lemma GeneratorResidue(g: Poly)
    requires |g| > 0
    ensures Residue(g, [true] + g) == Zeros(|g|)
  {
    hide *;
    var high, low := [true] + Zeros(|g|), Zeros(1) + g;
    SplitGenerator(g);
    ResidueOfPower(g);
    ResidueOfShort(g, g);
    ResidueLeadingZeros(g, 1, g);
    ResidueLinear(g, high, low);
  }

  lemma SplitGenerator(g: Poly)
    ensures [true] + g == Xor([true] + Zeros(|g|), Zeros(1) + g)
    ensures Zeros(0) + g == g && Xor(g, g) == Zeros(|g|)
  {
  }

  lemma {:induction false} UnitShifts(g: Poly, k: nat)
    requires k < |g|
    ensures Shifts(g, Zeros(|g| - 1) + [true], k) == Zeros(|g| - 1 - k) + [true] + Zeros(k)
  {
    if k > 0 {
      UnitShifts(g, k - 1);
      hide Shift;
      UnitShift(g, k);
    } else {
      assert Zeros(|g| - 1) + [true] + Zeros(0) == Zeros(|g| - 1) + [true];
    }
  }

  lemma UnitShift(g: Poly, k: nat)
    requires 0 < k < |g|
    ensures Shift(g, Zeros(|g| - k) + [true] + Zeros(k - 1)) == Zeros(|g| - 1 - k) + [true] + Zeros(k)
  {
  }

  lemma {:induction false} ResidueOfMultiple(g: Poly, q: Poly)
    requires |g| > 0
    ensures Residue(g, Times(q, g)) == Zeros(|g|)
  {
    if q == [] {
      ResidueZeros(g, |g|);
    } else {
      var last := |q| - 1;
      var t := Times(q[..last], g);
      ResidueOfMultiple(g, q[..last]);
      ResidueOfRow(g, last, q[last]);
      hide Residue, Shift, Row;
      ResidueLinear(g, t + [false], Row(last, q[last], g));
      ResidueStep(g, t, false);
      assert Xor(Reduce(g, Zeros(|g|), false), Zeros(|g|)) == Zeros(|g|) by {
        ShiftWithoutCarry(g, Zeros(|g|), false);
      }
    }
  }

  lemma ResidueOfRow(g: Poly, k: nat, bit: bool)
    requires |g| > 0
    ensures Residue(g, Row(k, bit, g)) == Zeros(|g|)
  {
    hide Residue;
    if bit {
      ResidueLeadingZeros(g, k, [true] + g);
      GeneratorResidue(g);
    } else {
      ResidueZeros(g, k + 1 + |g|);
    }
  }

  lemma {:induction false} Divide(g: Poly, a: Poly) returns (q: Poly)
    requires |a| >= |g| > 0
    ensures IsQuotient(q, a, g, Residue(g, a))
  {
    if |a| == |g| {
      q := [];
      ResidueOfShort(g, a);
      assert a == Xor(Times(q, g), Zeros(0) + Residue(g, a));
    } else {
      var last := |a| - 1;
      var q' := Divide(g, a[..last]);
      var r' := Residue(g, a[..last]);
      q := q' + [r'[0]];
      assert q[..|q'|] == q';
      assert a[..last] == Xor(Times(q', g), Zeros(|q'|) + r');
      BringDown(g, a, q', r');
    }
  }

  lemma BringDown(g: Poly, a: Poly, q: Poly, r: Poly)
    requires |a| > |g| == |r| > 0 && |a| == |q| + |g| + 1
    requires a[..|a| - 1] == Xor(Times(q, g), Zeros(|q|) + r)
    ensures a == Xor(Times(q + [r[0]], g), Zeros(|q| + 1) + Reduce(g, r, a[|a| - 1]))
  {
    hide *;
    TimesStep(q, r[0], g);
    CarriedColumns(g, r, |q|, a[|a| - 1]);
    AppendColumn(Times(q, g), Row(|q|, r[0], g), Zeros(|q|) + r, Zeros(|q| + 1) + Reduce(g, r, a[|a| - 1]), a);
  }

  lemma TimesStep(q: Poly, bit: bool, g: Poly)
    requires |g| > 0
    ensures Times(q + [bit], g) == Xor(Times(q, g) + [false], Row(|q|, bit, g))
  {
    assert (q + [bit])[..|q|] == q;
  }

  lemma AppendColumn(t: Poly, added: Poly, r: Poly, next: Poly, a: Poly)
    requires |t| == |r| == |a| - 1 && |added| == |next| == |a|
    requires a[..|t|] == Xor(t, r) && Xor(added, next) == r + [a[|t|]]
    ensures a == Xor(Xor(t + [false], added), next)
  {
    assert a == a[..|t|] + [a[|t|]];
    assert a == Xor(t + [false], r + [a[|t|]]);
    XorAssociative(t + [false], added, next);
  }

  lemma XorAssociative(a: Poly, b: Poly, c: Poly)
    requires |a| == |b| == |c|
    ensures Xor(a, Xor(b, c)) == Xor(Xor(a, b), c)
  {
  }

  /** One column further, the partial remainder is the reduced one plus the multiple subtracted. */
  lemma CarriedColumns(g: Poly, r: Poly, k: nat, bit: bool)
    requires |r| == |g| > 0
    ensures Xor(Row(k, r[0], g), Zeros(k + 1) + Reduce(g, r, bit)) == Zeros(k) + r + [bit]
  {
    assert [r[0]] + Xor(if r[0] then g else Zeros(|g|), Reduce(g, r, bit)) == r + [bit];
  }

  /** Long division determines the remainder: it exists, it is unique, and Residue computes it. */
  lemma {:induction false} RemainderIsResidue(a: Poly, g: Poly, r: Poly)
    requires |a| >= |g| == |r| > 0
    ensures IsRemainder(a, g, r) <==> r == Residue(g, a)
  {
    var q := Divide(g, a);
    if IsRemainder(a, g, r) {
      var p :| IsQuotient(p, a, g, r);
      ResidueLinear(g, Times(p, g), Zeros(|p|) + r);
      ResidueOfMultiple(g, p);
      ResidueLeadingZeros(g, |p|, r);
      ResidueOfShort(g, r);
      assert Xor(Zeros(|g|), r) == r;
    }
  }

  // ---- Burst errors

  /** a and b differ, and only within n consecutive positions. */
  ghost predicate BurstApart(a: Poly, b: Poly, n: nat) {
    |a| == |b| && a != b && exists i :: 0 <= i && BurstAt(a, b, n, i)
  }

  ghost predicate BurstAt(a: Poly, b: Poly, n: nat, i: int)
    requires |a| == |b|
  {
    forall j :: 0 <= j < |a| && a[j] != b[j] ==> i <= j < i + n
  }

  /** x does not divide the generator, so a shift never turns a non-zero register into zero. */
  lemma {:induction false} ShiftsInjective(g: Poly, r: Poly, k: nat)
    requires |r| == |g| > 0 && g[|g| - 1]
    ensures Shifts(g, r, k) == Zeros(|g|) ==> r == Zeros(|g|)
  {
    if k > 0 && Shifts(g, r, k) == Zeros(|g|) {
      var s := Shifts(g, r, k - 1);
      assert !Shift(g, s)[|g| - 1];
      assert !s[0];
      forall i | 0 <= i < |g|
        ensures !s[i]
      {
        if i > 0 {
          assert !Shift(g, s)[i - 1];
        }
      }
      assert s == Zeros(|g|);
      ShiftsInjective(g, r, k - 1);
    }
  }

  lemma ResidueOfBurst(g: Poly, d: Poly, i: nat)
    requires |g| > 0 && g[|g| - 1]
    requires i + |g| <= |d| && d != Zeros(|d|)
    requires forall j :: 0 <= j < |d| && d[j] ==> i <= j < i + |g|
    ensures Residue(g, d) != Zeros(|g|)
  {
    var w := d[i..i + |g|];
    var tail := |d| - i - |g|;
    assert d == (Zeros(i) + w) + Zeros(tail);
    assert w != Zeros(|g|);
    ResidueTrailingZeros(g, Zeros(i) + w, tail);
    ResidueLeadingZeros(g, i, w);
    ResidueOfShort(g, w);
    assert Zeros(0) + w == w;
    ShiftsInjective(g, w, tail);
  }

  /** Two dividends a burst apart leave different remainders, whatever multiple of x^k they are scaled by. */
  lemma {:induction false} BurstChangesResidue(g: Poly, a: Poly, b: Poly, k: nat)
    requires |g| > 0 && g[|g| - 1]
    requires |a| >= |g| && BurstApart(a, b, |g|)
    ensures Shifts(g, Xor(Residue(g, a), Residue(g, b)), k) != Zeros(|g|)
  {
    var d := Xor(a, b);
    var i :| 0 <= i && BurstAt(a, b, |g|, i);
    var start := if i + |g| <= |a| then i else |a| - |g|;
    var j :| 0 <= j < |a| && a[j] != b[j];
    assert d[j];
    ResidueOfBurst(g, d, start);
    ResidueLinear(g, a, b);
    ShiftsInjective(g, Residue(g, d), k);
  }
}
