/** `get_results` and the process-wide list `ALL_RESULTS` it appends to: for
    every configured feature comparison one row of twelve fields. The three
    configuration lists (feature names, majority classes, minority classes)
    are read side by side at the same index. */
module Report {
  import opened Values
  import opened Tables
  import opened Builders
  import opened Ratios
  import opened Verdicts

  /** A person: attribute name to value. */
  type Person = map<string, Datum>

  /** The header row `RESULT_HEADERS`, the first row of `ALL_RESULTS`. */
  const ResultHeaders: seq<Datum> := [
    Str("algorithm"), Str("feature"), Str("X_MAJORITY_CLASS"), Str("X_MINORITY_CLASS"),
    Str("X_MAJORITY_COUNT"), Str("X_MINORITY_COUNT"), Str("a"), Str("b"), Str("c"), Str("d"),
    Str("dis_impact_val"), Str("has_dis_impact")]

  /** The shipped configuration: sex, three race contrasts and four age cut points. */
  const FeatureNames: seq<string> := ["sex", "race", "race", "race", "age", "age", "age", "age"]
  const MajorityClasses: seq<Datum> := [
    Str("Male"), Str("Caucasian"), Str("Caucasian"), Str("Caucasian"), Int(30), Int(40), Int(50), Int(60)]
  const MinorityClasses: seq<Datum> := [
    Str("Female"), Str("African-American"), Str("Hispanic"), Str("Other"), Int(30), Int(40), Int(50), Int(60)]

  /** A condition under which building the table of one comparison does not
      raise: an "age" comparison reads every person's numeric age and the
      guess at the same index, and compares with numeric classes; any other
      comparison reads one guess after the other and the attribute of the
      person at the same index. It is sufficient, not necessary: a text class
      raises only once some record reaches the test that compares with it. */
  predicate ComparisonRunnable(people: seq<Person>, guesses: seq<int>, name: string, majority: Datum, minority: Datum) {
    if name == "age" then
      |people| <= |guesses| && IsNumber(majority) && IsNumber(minority) &&
      forall j :: 0 <= j < |people| ==> "age" in people[j] && IsNumber(people[j]["age"])
    else
      |guesses| <= |people| && forall j :: 0 <= j < |guesses| ==> name in people[j]
  }

  /** A sufficient condition for `get_results` not to raise: the class lists
      are at least as long as the name list, and every comparison can be built. */
  predicate Runnable(people: seq<Person>, guesses: seq<int>, names: seq<string>, majorities: seq<Datum>, minorities: seq<Datum>) {
    |names| <= |majorities| && |names| <= |minorities| &&
    forall i :: 0 <= i < |names| ==> ComparisonRunnable(people, guesses, names[i], majorities[i], minorities[i])
  }

  /** The attribute `name` of the people read by the categorical builder. */
  function Column(people: seq<Person>, guesses: seq<int>, name: string): (xs: seq<Datum>)
    requires |guesses| <= |people| && forall j :: 0 <= j < |guesses| ==> name in people[j]
    ensures |xs| == |guesses|
  {
    seq(|guesses|, j requires 0 <= j < |guesses| => people[j][name])
  }

  /** Every person's age as a number. */
  function Ages(people: seq<Person>): (xs: seq<real>)
    requires forall j :: 0 <= j < |people| ==> "age" in people[j] && IsNumber(people[j]["age"])
    ensures |xs| == |people|
  {
    seq(|people|, j requires 0 <= j < |people| => AsReal(people[j]["age"]))
  }

  /** The table of one comparison: threshold mode for "age", categorical otherwise. */
  function ComparisonTable(people: seq<Person>, guesses: seq<int>, name: string, majority: Datum, minority: Datum): Table
    requires ComparisonRunnable(people, guesses, name, majority, minority)
  {
    if name == "age" then ThresholdTable(Ages(people), guesses, AsReal(majority), AsReal(minority))
    else CategoricalTable(Column(people, guesses, name), guesses, majority, minority)
  }

  /** One result row, in the order of the header row. */
  function ResultRow(alg: string, name: string, majority: Datum, minority: Datum, t: Table, v: Verdict): (row: seq<Datum>)
    ensures |row| == |ResultHeaders|
  {
    [Str(alg), Str(name), majority, minority, Int(t.b + t.d), Int(t.a + t.c),
     Int(t.a), Int(t.b), Int(t.c), Int(t.d), Real(v.ratio), Int(v.flag)]
  }

  /** The rows one call of `get_results` appends, one per comparison, in configuration order. */
  function ComparisonRows(people: seq<Person>, guesses: seq<int>, alg: string,
                          names: seq<string>, majorities: seq<Datum>, minorities: seq<Datum>): (rows: seq<seq<Datum>>)
    requires Runnable(people, guesses, names, majorities, minorities)
    ensures |rows| == |names|
  {
    seq(|names|, i requires 0 <= i < |names| =>
      var t := ComparisonTable(people, guesses, names[i], majorities[i], minorities[i]);
      ResultRow(alg, names[i], majorities[i], minorities[i], t, DisparateImpact(t)))
  }

  /** What a result row says about the table it was built from. */
  predicate RowDescribes(row: seq<Datum>, alg: string, name: string, majority: Datum, minority: Datum, bound: nat) {
    && |row| == 12
    && row[0] == Str(alg) && row[1] == Str(name)
    && row[2] == majority && row[3] == minority
    && row[4].Int? && row[5].Int? && row[6].Int? && row[7].Int? && row[8].Int? && row[9].Int?
    && row[4].i == row[7].i + row[9].i && row[5].i == row[6].i + row[8].i
    && row[4].i + row[5].i <= bound
    && row[10].Real? && (row[9].i == 0 ==> row[10].r == 0.0)
    && (row[11] == Int(1) <==> row[10].r < ImpactThreshold)
    && (row[11] == Int(0) <==> row[10].r >= ImpactThreshold)
  }

  /** The row of a judged table: the majority count is `b + d`, the minority
      count `a + c`, together at most the table's total, and the flag is 1
      exactly when the ratio is below 0.8. */
  lemma ResultRowMeaning(alg: string, name: string, majority: Datum, minority: Datum, t: Table, bound: nat)
    requires Total(t) <= bound
    ensures RowDescribes(ResultRow(alg, name, majority, minority, t, DisparateImpact(t)), alg, name, majority, minority, bound)
  {
    var v := DisparateImpact(t);
    assert v.flag == 0 || v.flag == 1;
  }

  /** What row `i` says: it names the algorithm, the feature and the two
      classes of comparison `i`; the majority count is `b + d` and the
      minority count `a + c`; together they never exceed the number of
      records read; the last field is 1 exactly when the ratio before it is
      below 0.8, and that ratio is 0 when no majority record is predicted 1. */
  lemma ComparisonRowMeaning(people: seq<Person>, guesses: seq<int>, alg: string,
                             names: seq<string>, majorities: seq<Datum>, minorities: seq<Datum>, i: nat)
    requires Runnable(people, guesses, names, majorities, minorities)
    requires i < |names|
    ensures RowDescribes(ComparisonRows(people, guesses, alg, names, majorities, minorities)[i],
                         alg, names[i], majorities[i], minorities[i],
                         if names[i] == "age" then |people| else |guesses|)
  {
    var name, majority, minority := names[i], majorities[i], minorities[i];
    var t := ComparisonTable(people, guesses, name, majority, minority);
    assert ComparisonRows(people, guesses, alg, names, majorities, minorities)[i]
        == ResultRow(alg, name, majority, minority, t, DisparateImpact(t));
    if name == "age" {
      TallyBounded(ThresholdPlacements(Ages(people), guesses, AsReal(majority), AsReal(minority)));
    } else {
      CategoricalTotal(Column(people, guesses, name), guesses, majority, minority);
    }
    ResultRowMeaning(alg, name, majority, minority, t, if name == "age" then |people| else |guesses|);
  }

  /** The shipped configuration can run on any population whose every person
      has a sex, a race and a numeric age, with one guess per person. */
  lemma ShippedConfigurationRunnable(people: seq<Person>, guesses: seq<int>, alg: string)
    requires |people| == |guesses|
    requires forall j :: 0 <= j < |people| ==>
      "sex" in people[j] && "race" in people[j] && "age" in people[j] && IsNumber(people[j]["age"])
    ensures Runnable(people, guesses, FeatureNames, MajorityClasses, MinorityClasses)
    ensures |ComparisonRows(people, guesses, alg, FeatureNames, MajorityClasses, MinorityClasses)| == 8
  {
    forall i | 0 <= i < |FeatureNames|
      ensures ComparisonRunnable(people, guesses, FeatureNames[i], MajorityClasses[i], MinorityClasses[i])
    {
      assert FeatureNames[i] == "age" || FeatureNames[i] == "sex" || FeatureNames[i] == "race";
    }
  }

  /** `ALL_RESULTS`: the growing list of result rows, header first. */
  class ResultLog {
    var rows: seq<seq<Datum>>

    /** The list starts as the header row alone. */
    constructor ()
      ensures rows == [ResultHeaders]
    {
      rows := [ResultHeaders];
    }

    /** `get_results`: for every comparison in configuration order, build its
        table (threshold mode for "age"), judge it, and append its row; the
        rows already in the list stay as they were. */
    method GetResults(people: seq<Person>, guesses: seq<int>, alg: string,
                      names: seq<string>, majorities: seq<Datum>, minorities: seq<Datum>)
      requires Runnable(people, guesses, names, majorities, minorities)
      modifies this
      ensures rows == old(rows) + ComparisonRows(people, guesses, alg, names, majorities, minorities)
    {
      ghost var added := ComparisonRows(people, guesses, alg, names, majorities, minorities);
      for i := 0 to |names|
        invariant rows == old(rows) + added[..i]
      {
        var t: Table;
        if names[i] == "age" {
          t := BuildThresholdTable(Ages(people), guesses, AsReal(majorities[i]), AsReal(minorities[i]));
        } else {
          t := BuildCategoricalTable(Column(people, guesses, names[i]), guesses, majorities[i], minorities[i]);
        }
        var v := DisparateImpact(t);
        rows := rows + [ResultRow(alg, names[i], majorities[i], minorities[i], t, v)];
        assert added[..i + 1] == added[..i] + [added[i]];
      }
      assert added[..|names|] == added;
    }
  }
}
