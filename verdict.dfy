/** `get_disparate_impact`: the likelihood ratio of a table and the flag
    that marks it as showing disparate impact. */
module Verdicts {
  import opened Tables
  import opened Ratios

  /** A likelihood ratio strictly below 0.8 is flagged. */
  const ImpactThreshold: real := 4.0 / 5.0

  /** The script's comment on `get_lr_pos`: a positive likelihood ratio above
      1.25 shows disparate impact. */
  const PositiveImpactThreshold: real := 5.0 / 4.0

  /** The pair `(lr, has_disparate)` the script returns; the flag is 0 or 1. */
  datatype Verdict = Verdict(ratio: real, flag: nat)

  /** The ratio is the table's likelihood ratio, unchanged, and the flag is 1
      exactly when that ratio is strictly below the threshold. */
  function DisparateImpact(t: Table): (v: Verdict)
    ensures v.ratio == Lr(t)
    ensures v.flag == 0 || v.flag == 1
    ensures v.flag == 1 <==> v.ratio < ImpactThreshold
  {
    var lr := Lr(t);
    if lr < ImpactThreshold then Verdict(lr, 1) else Verdict(lr, 0)
  }

  /** The divide-by-zero sentinel is flagged: a table with no majority record
      predicted 1, or no minority record predicted 1 while some minority
      record is predicted 0, is reported as disparate impact with ratio 0. */
  lemma SentinelIsFlagged(t: Table)
    requires t.d == 0 || (t.c == 0 && t.a > 0)
    ensures DisparateImpact(t) == Verdict(0.0, 1)
  {
  }

  /** The threshold is strict: a table whose likelihood ratio is exactly 0.8
      (one minority record predicted 0 and four predicted 1, one majority
      record predicted 1) is not flagged. */
  lemma ThresholdIsStrict()
    ensures DisparateImpact(Table(1, 0, 4, 1)) == Verdict(ImpactThreshold, 0)
  {
    var t := Table(1, 0, 4, 1);
    assert Sensitivity(t) == 1.0;
    assert Specificity(t) == 1.0 / 5.0;
  }

  /** The rounding-sensitive boundary: `[2, 1, 3, 3]` has exact likelihood
      ratio `(1 - 2/5) / (3/4) = 4/5`, so over exact values it is not flagged. */
  lemma RoundingBoundaryExample()
    ensures DisparateImpact(Table(2, 1, 3, 3)) == Verdict(ImpactThreshold, 0)
  {
    var t := Table(2, 1, 3, 3);
    assert Sensitivity(t) == 3.0 / 4.0;
    assert Specificity(t) == 2.0 / 5.0;
  }

  /** Off the sentinel, the flag agrees with the positive-ratio rule: the
      likelihood ratio is below 0.8 exactly when the positive likelihood
      ratio is above 1.25. */
  lemma ThresholdsAgree(t: Table)
    requires Lr(t) != 0.0
    ensures DisparateImpact(t).flag == 1 <==> LrPos(t) > PositiveImpactThreshold
  {
    LrIsReciprocal(t);
    var p, q := LrPos(t), Lr(t);
    assert p > 0.0 && q > 0.0 && p * q == 1.0;
    if q < ImpactThreshold {
      assert p * ImpactThreshold > 1.0;
    } else {
      assert p * ImpactThreshold <= 1.0;
    }
  }

  /** The zero-denominator example: with no minority record the specificity
      is the sentinel 0, the sensitivity is 1, and the ratio is 1: not flagged. */
  lemma ZeroDenominatorExample()
    ensures Specificity(Table(0, 0, 0, 5)) == 0.0 && Sensitivity(Table(0, 0, 0, 5)) == 1.0
    ensures DisparateImpact(Table(0, 0, 0, 5)) == Verdict(1.0, 0)
  {
  }

  /** The balanced table of the categorical example has ratio 1: not flagged. */
  lemma BalancedTableExample()
    ensures DisparateImpact(Table(1, 1, 1, 1)) == Verdict(1.0, 0)
  {
    assert Sensitivity(Table(1, 1, 1, 1)) == 1.0 / 2.0;
    assert Specificity(Table(1, 1, 1, 1)) == 1.0 / 2.0;
  }
}
