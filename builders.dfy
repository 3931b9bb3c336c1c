/** The two table builders of measurefairness.py: `get_confusion_matrix`
    (categorical: the attribute value is compared for equality with the
    minority and the majority class) and `get_age_confusion_matrix`
    (threshold: `x <= minority` against `x > majority`). Each builder keeps
    its own index loop over a local four-cell list whose cells it increments; both
    are specified by the tally of the placements of their records. */
module Builders {
  import opened Values
  import opened Tables

  /** The cell a record goes to, from its guess and the outcome of the
      minority and majority tests; the four tests are tried in the order
      a, b, c, d, so a record passing both tests counts as minority. */
  function Place(guess: int, inMinority: bool, inMajority: bool): (p: Option<Cell>)
    ensures p == Some(A) <==> guess == 0 && inMinority
    ensures p == Some(B) <==> guess == 0 && !inMinority && inMajority
    ensures p == Some(C) <==> guess == 1 && inMinority
    ensures p == Some(D) <==> guess == 1 && !inMinority && inMajority
    ensures p == None <==> (guess != 0 && guess != 1) || (!inMinority && !inMajority)
  {
    if guess == 0 && inMinority then Some(A)
    else if guess == 0 && inMajority then Some(B)
    else if guess == 1 && inMinority then Some(C)
    else if guess == 1 && inMajority then Some(D)
    else None
  }

  /** Categorical placement: equality with the minority class is tested first. */
  function CategoricalPlace(guess: int, x: Datum, majority: Datum, minority: Datum): (p: Option<Cell>)
    ensures p == Some(A) <==> guess == 0 && Same(x, minority)
    ensures p == Some(B) <==> guess == 0 && !Same(x, minority) && Same(x, majority)
    ensures p == Some(C) <==> guess == 1 && Same(x, minority)
    ensures p == Some(D) <==> guess == 1 && !Same(x, minority) && Same(x, majority)
    ensures p == None <==> (guess != 0 && guess != 1) || (!Same(x, minority) && !Same(x, majority))
  {
    Place(guess, Same(x, minority), Same(x, majority))
  }

  /** Threshold placement: at most `minority` is the minority group, above
      `majority` the majority group; a value in between is placed nowhere. */
  function ThresholdPlace(guess: int, x: real, majority: real, minority: real): (p: Option<Cell>)
    ensures p == Some(A) <==> guess == 0 && x <= minority
    ensures p == Some(B) <==> guess == 0 && minority < x && majority < x
    ensures p == Some(C) <==> guess == 1 && x <= minority
    ensures p == Some(D) <==> guess == 1 && minority < x && majority < x
    ensures p == None <==> (guess != 0 && guess != 1) || (minority < x <= majority)
  {
    Place(guess, x <= minority, x > majority)
  }

  /** The placements of the first `|guesses|` records in categorical mode. */
  function CategoricalPlacements(values: seq<Datum>, guesses: seq<int>, majority: Datum, minority: Datum): (ps: seq<Option<Cell>>)
    requires |guesses| <= |values|
    ensures |ps| == |guesses|
  {
    seq(|guesses|, i requires 0 <= i < |guesses| => CategoricalPlace(guesses[i], values[i], majority, minority))
  }

  /** The placements of all records in threshold mode. */
  function ThresholdPlacements(values: seq<real>, guesses: seq<int>, majority: real, minority: real): (ps: seq<Option<Cell>>)
    requires |values| <= |guesses|
    ensures |ps| == |values|
  {
    seq(|values|, i requires 0 <= i < |values| => ThresholdPlace(guesses[i], values[i], majority, minority))
  }

  /** The table `get_confusion_matrix` returns. */
  function CategoricalTable(values: seq<Datum>, guesses: seq<int>, majority: Datum, minority: Datum): Table
    requires |guesses| <= |values|
  {
    Tally(CategoricalPlacements(values, guesses, majority, minority))
  }

  /** The table `get_age_confusion_matrix` returns. */
  function ThresholdTable(values: seq<real>, guesses: seq<int>, majority: real, minority: real): Table
    requires |values| <= |guesses|
  {
    Tally(ThresholdPlacements(values, guesses, majority, minority))
  }

  /** The list `[a, b, c, d]` read as a table. */
  function AsTable(matrix: seq<nat>): Table
    requires |matrix| == 4
  {
    Table(matrix[0], matrix[1], matrix[2], matrix[3])
  }

  /** The categorical table of one more guess is the previous table bumped
      at the new record's cell. */
  lemma CategoricalTableStep(values: seq<Datum>, guesses: seq<int>, majority: Datum, minority: Datum, n: nat)
    requires n < |guesses| <= |values|
    ensures CategoricalTable(values, guesses[..n + 1], majority, minority)
         == Bump(CategoricalTable(values, guesses[..n], majority, minority),
                 CategoricalPlace(guesses[n], values[n], majority, minority))
  {
    var ps := CategoricalPlacements(values, guesses[..n + 1], majority, minority);
    assert ps[..n] == CategoricalPlacements(values, guesses[..n], majority, minority);
  }

  /** The threshold table of one more record is the previous table bumped at
      the new record's cell. */
  lemma ThresholdTableStep(values: seq<real>, guesses: seq<int>, majority: real, minority: real, n: nat)
    requires n < |values| <= |guesses|
    ensures ThresholdTable(values[..n + 1], guesses, majority, minority)
         == Bump(ThresholdTable(values[..n], guesses, majority, minority),
                 ThresholdPlace(guesses[n], values[n], majority, minority))
  {
    var ps := ThresholdPlacements(values[..n + 1], guesses, majority, minority);
    assert ps[..n] == ThresholdPlacements(values[..n], guesses, majority, minority);
  }

  /** `get_confusion_matrix`: one pass over the guesses; record `i` is
      `values[i]`, so there must be at least as many records as guesses. */
  method BuildCategoricalTable(values: seq<Datum>, guesses: seq<int>, majority: Datum, minority: Datum)
    returns (t: Table)
    requires |guesses| <= |values|
    ensures t == CategoricalTable(values, guesses, majority, minority)
  {
    var matrix: seq<nat> := [0, 0, 0, 0];
    var i := 0;
    while i < |guesses|
      invariant 0 <= i <= |guesses| && |matrix| == 4
      invariant AsTable(matrix) == CategoricalTable(values, guesses[..i], majority, minority)
    {
      ghost var before := AsTable(matrix);
      var c, x := guesses[i], values[i];
      ghost var p := CategoricalPlace(c, x, majority, minority);
      if c == 0 && Same(x, minority) {
        matrix := matrix[0 := matrix[0] + 1];
        assert p == Some(A) && AsTable(matrix) == Bump(before, p);
      } else if c == 0 && Same(x, majority) {
        matrix := matrix[1 := matrix[1] + 1];
        assert p == Some(B) && AsTable(matrix) == Bump(before, p);
      } else if c == 1 && Same(x, minority) {
        matrix := matrix[2 := matrix[2] + 1];
        assert p == Some(C) && AsTable(matrix) == Bump(before, p);
      } else if c == 1 && Same(x, majority) {
        matrix := matrix[3 := matrix[3] + 1];
        assert p == Some(D) && AsTable(matrix) == Bump(before, p);
      } else {
        assert p == None && AsTable(matrix) == Bump(before, p);
      }
      assert AsTable(matrix) == CategoricalTable(values, guesses[..i + 1], majority, minority) by {
        CategoricalTableStep(values, guesses, majority, minority, i);
      }
      i := i + 1;
    }
    assert guesses[..i] == guesses;
    t := AsTable(matrix);
  }

  /** `get_age_confusion_matrix`: one pass over the records; guess `i` is
      `guesses[i]`, so there must be at least as many guesses as records. */
  method BuildThresholdTable(values: seq<real>, guesses: seq<int>, majority: real, minority: real)
    returns (t: Table)
    requires |values| <= |guesses|
    ensures t == ThresholdTable(values, guesses, majority, minority)
  {
    var matrix: seq<nat> := [0, 0, 0, 0];
    var i := 0;
    while i < |values|
      invariant 0 <= i <= |values| && |matrix| == 4
      invariant AsTable(matrix) == ThresholdTable(values[..i], guesses, majority, minority)
    {
      ghost var before := AsTable(matrix);
      var c, x := guesses[i], values[i];
      ghost var p := ThresholdPlace(c, x, majority, minority);
      if c == 0 && x <= minority {
        matrix := matrix[0 := matrix[0] + 1];
        assert p == Some(A) && AsTable(matrix) == Bump(before, p);
      } else if c == 0 && x > majority {
        matrix := matrix[1 := matrix[1] + 1];
        assert p == Some(B) && AsTable(matrix) == Bump(before, p);
      } else if c == 1 && x <= minority {
        matrix := matrix[2 := matrix[2] + 1];
        assert p == Some(C) && AsTable(matrix) == Bump(before, p);
      } else if c == 1 && x > majority {
        matrix := matrix[3 := matrix[3] + 1];
        assert p == Some(D) && AsTable(matrix) == Bump(before, p);
      } else {
        assert p == None && AsTable(matrix) == Bump(before, p);
      }
      assert AsTable(matrix) == ThresholdTable(values[..i + 1], guesses, majority, minority) by {
        ThresholdTableStep(values, guesses, majority, minority, i);
      }
      i := i + 1;
    }
    assert values[..i] == values;
    t := AsTable(matrix);
  }

  /** One more record changes the categorical table in at most one cell, by
      one: the cell `CategoricalPlace` picks, and no cell at all when the
      guess is not 0/1 or the value equals neither class. */
  lemma CategoricalStep(values: seq<Datum>, guesses: seq<int>, majority: Datum, minority: Datum, n: nat, k: Cell)
    requires n < |guesses| <= |values|
    ensures Count(CategoricalTable(values, guesses[..n + 1], majority, minority), k)
         == Count(CategoricalTable(values, guesses[..n], majority, minority), k)
          + (if CategoricalPlace(guesses[n], values[n], majority, minority) == Some(k) then 1 else 0)
  {
    CategoricalTableStep(values, guesses, majority, minority, n);
    BumpCount(CategoricalTable(values, guesses[..n], majority, minority),
              CategoricalPlace(guesses[n], values[n], majority, minority), k);
  }

  /** The categorical table counts at most one cell per guess, and exactly one
      per guess precisely when every guess is 0/1 and every value equals the
      majority or the minority class. */
  lemma CategoricalTotal(values: seq<Datum>, guesses: seq<int>, majority: Datum, minority: Datum)
    requires |guesses| <= |values|
    ensures Total(CategoricalTable(values, guesses, majority, minority)) <= |guesses|
    ensures Total(CategoricalTable(values, guesses, majority, minority)) == |guesses|
        <==> forall i :: 0 <= i < |guesses| ==>
               (guesses[i] == 0 || guesses[i] == 1) && (Same(values[i], minority) || Same(values[i], majority))
  {
    var ps := CategoricalPlacements(values, guesses, majority, minority);
    TallyCounts(ps);
    if forall i :: 0 <= i < |guesses| ==>
         (guesses[i] == 0 || guesses[i] == 1) && (Same(values[i], minority) || Same(values[i], majority))
    {
      assert None !in ps;
    } else {
      var i :| 0 <= i < |guesses| &&
        !((guesses[i] == 0 || guesses[i] == 1) && (Same(values[i], minority) || Same(values[i], majority)));
      assert ps[i] == None;
    }
  }

  /** One more record changes the threshold table in at most one cell, by one. */
  lemma ThresholdStep(values: seq<real>, guesses: seq<int>, majority: real, minority: real, n: nat, k: Cell)
    requires n < |values| <= |guesses|
    ensures Count(ThresholdTable(values[..n + 1], guesses, majority, minority), k)
         == Count(ThresholdTable(values[..n], guesses, majority, minority), k)
          + (if ThresholdPlace(guesses[n], values[n], majority, minority) == Some(k) then 1 else 0)
  {
    ThresholdTableStep(values, guesses, majority, minority, n);
    BumpCount(ThresholdTable(values[..n], guesses, majority, minority),
              ThresholdPlace(guesses[n], values[n], majority, minority), k);
  }

  /** With one cut point for both groups (`minority == majority`), every record
      whose guess is 0 or 1 lands in a cell: the total is the number of 0/1
      guesses among the guesses that are read. */
  lemma {:induction false} ThresholdSingleCut(values: seq<real>, guesses: seq<int>, cut: real)
    requires |values| <= |guesses|
    ensures Total(ThresholdTable(values, guesses, cut, cut))
         == multiset(guesses[..|values|])[0] + multiset(guesses[..|values|])[1]
    decreases |values|
  {
    if values != [] {
      var n := |values| - 1;
      ThresholdSingleCut(values[..n], guesses, cut);
      var ps := ThresholdPlacements(values, guesses, cut, cut);
      assert ps[..n] == ThresholdPlacements(values[..n], guesses, cut, cut);
      assert guesses[..|values|] == guesses[..n] + [guesses[n]];
    }
  }

  /** The categorical example: sex of four people against guesses 0, 1, 0, 1
      gives one record in each cell. */
  lemma CategoricalExample()
    ensures CategoricalTable([Str("Male"), Str("Female"), Str("Female"), Str("Male")], [0, 1, 0, 1],
                             Str("Male"), Str("Female")) == Table(1, 1, 1, 1)
  {
    var ps := CategoricalPlacements([Str("Male"), Str("Female"), Str("Female"), Str("Male")], [0, 1, 0, 1],
                                    Str("Male"), Str("Female"));
    assert ps == [Some(B), Some(C), Some(A), Some(D)];
    TallyCounts(ps);
    assert Count(Tally(ps), A) == 1 && Count(Tally(ps), B) == 1;
    assert Count(Tally(ps), C) == 1 && Count(Tally(ps), D) == 1;
  }

  /** The threshold example: ages 25, 35, 45 with guesses 0, 0, 1, split at 30. */
  lemma ThresholdExample()
    ensures ThresholdTable([25.0, 35.0, 45.0], [0, 0, 1], 30.0, 30.0) == Table(1, 1, 0, 1)
  {
    var ps := ThresholdPlacements([25.0, 35.0, 45.0], [0, 0, 1], 30.0, 30.0);
    assert ps == [Some(A), Some(B), Some(D)];
    TallyCounts(ps);
    assert Count(Tally(ps), A) == 1 && Count(Tally(ps), B) == 1;
    assert Count(Tally(ps), C) == 0 && Count(Tally(ps), D) == 1;
  }
}
