/** The ratios measurefairness.py derives from a table `[a, b, c, d]`, over
    exact reals. Every division has a guard that returns 0 instead. */
module Ratios {
  import opened Tables

  /** A part of a non-empty whole is a share between 0 and 1: 0 exactly for
      an empty part, 1 exactly for the whole. */
  lemma ShareBounds(part: real, whole: real)
    requires 0.0 <= part <= whole && whole > 0.0
    ensures 0.0 <= part / whole <= 1.0
    ensures part / whole == 0.0 <==> part == 0.0
    ensures part / whole == 1.0 <==> part == whole
  {
    assert part / whole * whole == part;
  }

  /** `get_sensitivity`: the share of the majority group predicted 1,
      `d / (b + d)`, or 0 when the majority group is empty. */
  function Sensitivity(t: Table): (r: real)
    ensures 0.0 <= r <= 1.0
    ensures r == 0.0 <==> t.d == 0
    ensures r == 1.0 <==> t.b == 0 && t.d > 0
  {
    if t.b + t.d == 0 then 0.0
    else
      ShareBounds(t.d as real, (t.b + t.d) as real);
      t.d as real / (t.b + t.d) as real
  }

  /** `get_specificity`: the share of the minority group predicted 0,
      `a / (a + c)`, or 0 when the minority group is empty. */
  function Specificity(t: Table): (r: real)
    ensures 0.0 <= r <= 1.0
    ensures r == 0.0 <==> t.a == 0
    ensures r == 1.0 <==> t.c == 0 && t.a > 0
  {
    if t.a + t.c == 0 then 0.0
    else
      ShareBounds(t.a as real, (t.a + t.c) as real);
      t.a as real / (t.a + t.c) as real
  }

  /** The two shares solve their defining equations `sens * (b+d) = d` and
      `spec * (a+c) = a`, the guarded empty group included. */
  lemma ShareEquations(t: Table)
    ensures Sensitivity(t) * (t.b + t.d) as real == t.d as real
    ensures Specificity(t) * (t.a + t.c) as real == t.a as real
  {
    if t.b + t.d > 0 {
      var n := (t.b + t.d) as real;
      assert t.d as real / n * n == t.d as real;
    }
    if t.a + t.c > 0 {
      var n := (t.a + t.c) as real;
      assert t.a as real / n * n == t.a as real;
    }
  }

  /** `get_lr_pos`: `sensitivity / (1 - specificity)`, or 0 when the
      specificity is 1. It is 0 exactly when no majority record is predicted
      1 or no minority record is. */
  function LrPos(t: Table): (r: real)
    ensures r >= 0.0
    ensures r == 0.0 <==> t.d == 0 || (t.c == 0 && t.a > 0)
  {
    var sens, spec := Sensitivity(t), Specificity(t);
    if spec == 1.0 then 0.0 else sens / (1.0 - spec)
  }

  /** `get_lr`: `(1 - specificity) / sensitivity`, or 0 when the sensitivity
      is 0. It is 0 on exactly the same tables as `LrPos`. */
  function Lr(t: Table): (r: real)
    ensures r >= 0.0
    ensures r == 0.0 <==> t.d == 0 || (t.c == 0 && t.a > 0)
  {
    var sens, spec := Sensitivity(t), Specificity(t);
    if sens == 0.0 then 0.0 else (1.0 - spec) / sens
  }

  /** Dividing one fraction by another. */
  lemma QuotientOfQuotients(x: real, y: real, z: real, w: real)
    requires y != 0.0 && z != 0.0 && w != 0.0
    ensures (x / y) / (z / w) == (x * w) / (y * z)
  {
    assert (x / y) / (z / w) * (y * z) == x * w;
  }

  /** The complement of a share is the share of the rest. */
  lemma ComplementShare(x: real, y: real)
    requires x + y != 0.0
    ensures 1.0 - x / (x + y) == y / (x + y)
  {
    assert (x + y) / (x + y) == 1.0;
    assert x / (x + y) + y / (x + y) == (x + y) / (x + y);
  }

  /** `Lr` in terms of the counts, as the notes at the end of the script
      write it: `(1 - a/(a+c)) / (d/(b+d))` is `c (b+d) / (d (a+c))`; with no
      minority record the specificity is 0 and the ratio is `(b+d) / d`. */
  lemma LrClosedForm(t: Table)
    ensures t.d > 0 && t.a + t.c > 0 ==>
      Lr(t) == (t.c as real * (t.b + t.d) as real) / (t.d as real * (t.a + t.c) as real)
    ensures t.d > 0 && t.a + t.c == 0 ==> Lr(t) == (t.b + t.d) as real / t.d as real
  {
    if t.d > 0 {
      var a, b, c, d := t.a as real, t.b as real, t.c as real, t.d as real;
      assert Sensitivity(t) == d / (b + d);
      if t.a + t.c > 0 {
        assert Specificity(t) == a / (a + c);
        ComplementShare(a, c);
        assert Lr(t) == (c / (a + c)) / (d / (b + d));
        QuotientOfQuotients(c, a + c, d, b + d);
      } else {
        assert Lr(t) == (1.0 / 1.0) / (d / (b + d));
        QuotientOfQuotients(1.0, 1.0, d, b + d);
      }
    }
  }

  /** `LrPos` in terms of the counts: `d (a+c) / ((b+d) c)` when some minority
      record is predicted 1 and the majority group is not empty; with no minority record it is the sensitivity. */
  lemma LrPosClosedForm(t: Table)
    ensures t.c > 0 && t.b + t.d > 0 ==>
      LrPos(t) == (t.d as real * (t.a + t.c) as real) / ((t.b + t.d) as real * t.c as real)
    ensures t.a + t.c == 0 ==> LrPos(t) == Sensitivity(t)
  {
    if t.c > 0 {
      var a, b, c, d := t.a as real, t.b as real, t.c as real, t.d as real;
      assert Specificity(t) == a / (a + c);
      ComplementShare(a, c);
      if t.b + t.d > 0 {
        assert LrPos(t) == (d / (b + d)) / (c / (a + c));
        QuotientOfQuotients(d, b + d, c, a + c);
      }
    }
  }

  /** Although the script computes them separately, the two ratios are
      reciprocals: either both are 0 (the divide-by-zero sentinel) or their
      product is 1. */
  lemma LrIsReciprocal(t: Table)
    ensures LrPos(t) == 0.0 <==> Lr(t) == 0.0
    ensures LrPos(t) != 0.0 ==> LrPos(t) * Lr(t) == 1.0
  {
    if LrPos(t) != 0.0 {
      var sens, spec := Sensitivity(t), Specificity(t);
      assert sens > 0.0 && spec < 1.0;
      calc {
        LrPos(t) * Lr(t);
        (sens / (1.0 - spec)) * ((1.0 - spec) / sens);
        1.0;
      }
    }
  }

  /** A non-negative quotient does not grow when its denominator does. */
  lemma QuotientShrinks(x: real, y: real, z: real)
    requires x >= 0.0 && 0.0 < y <= z
    ensures x / z <= x / y
  {
    assert x / z * z == x && x / y * y == x;
  }

  /** A quotient grows with its numerator. */
  lemma QuotientGrows(x: real, y: real, z: real)
    requires x <= y && z > 0.0
    ensures x / z <= y / z
  {
    assert x / z * z == x && y / z * z == y;
  }

  /** The notes at the end of the script: predicting 0 instead of 1 for one
      minority record (c down, a up) never raises the likelihood ratio. */
  lemma FewerMinorityPositivesLowerLr(t: Table)
    requires t.c > 0
    ensures Lr(t.(a := t.a + 1, c := t.c - 1)) <= Lr(t)
  {
    var u := t.(a := t.a + 1, c := t.c - 1);
    var sens := Sensitivity(t);
    assert Sensitivity(u) == sens;
    if sens != 0.0 {
      var n := (t.a + t.c) as real;
      assert Specificity(t) == t.a as real / n;
      assert Specificity(u) == u.a as real / n;
      QuotientGrows(t.a as real, u.a as real, n);
      QuotientGrows(1.0 - Specificity(u), 1.0 - Specificity(t), sens);
    }
  }

  /** The notes at the end of the script: predicting 1 instead of 0 for one
      majority record (b down, d up) never raises the likelihood ratio, as
      long as some majority record was already predicted 1 (otherwise the
      ratio was the sentinel 0). */
  lemma MoreMajorityPositivesLowerLr(t: Table)
    requires t.b > 0 && t.d > 0
    ensures Lr(t.(b := t.b - 1, d := t.d + 1)) <= Lr(t)
  {
    var u := t.(b := t.b - 1, d := t.d + 1);
    var spec := Specificity(t);
    assert Specificity(u) == spec;
    var n := (t.b + t.d) as real;
    assert Sensitivity(t) == t.d as real / n;
    assert Sensitivity(u) == u.d as real / n;
    QuotientGrows(t.d as real, u.d as real, n);
    QuotientShrinks(1.0 - spec, Sensitivity(t), Sensitivity(u));
  }
}
