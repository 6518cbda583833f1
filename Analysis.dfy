/**
 * The decision logic of analysis.py over the long-form `cell_counts` table:
 * the two cohort filters, the per-population split into responders and
 * non-responders, the sample-size guard and significance rule of the t-test
 * report, and the distinct-subject summaries of the baseline cohort.  The
 * p-value itself comes from a statistics library and is an input here.
 */
module Analysis {
  import opened Wrappers

  /** One row of the `cell_counts` table: one cell population of one sample; `count` may be NULL. */
  datatype CellCount = CellCount(
    subjectId: string, project: string, disease: string, treatment: string, response: string,
    sex: string, sampleType: string, time: int, population: string, count: Option<int>)

  /** A p-value as the library returns it: a number, or NaN when it cannot compute one. */
  datatype PValue = NaN | Finite(p: real)

  /** What the report says about one population. */
  datatype PopulationResult =
    | Tested(population: string, pValue: PValue, significant: bool)
    | NotEnoughData(population: string)

  /** A two-sample test on the responder and non-responder counts (NULL counts included). */
  type TwoSampleTest = (seq<Option<int>>, seq<Option<int>>) -> PValue

  const SignificanceThreshold: real := 0.05

  /** The rows of `rows` that `keep` accepts, in their order: a WHERE clause or a boolean mask. */
  function Select(rows: seq<CellCount>, keep: CellCount -> bool): seq<CellCount> {
    if rows == [] then []
    else (if keep(rows[0]) then [rows[0]] else []) + Select(rows[1..], keep)
  }

  /** A selection keeps every accepted row as often as it occurs, and nothing else. */
  lemma {:induction false} SelectContents(rows: seq<CellCount>, keep: CellCount -> bool)
    ensures forall x :: multiset(Select(rows, keep))[x] == if keep(x) then multiset(rows)[x] else 0
    ensures forall x :: x in Select(rows, keep) <==> x in rows && keep(x)
    decreases |rows|
  {
    if rows != [] {
      assert rows == [rows[0]] + rows[1..];
      SelectContents(rows[1..], keep);
    }
  }

  /** The WHERE clause of the statistical analysis: exact, case-sensitive matches. */
  predicate InComparisonCohort(x: CellCount) {
    x.disease == "melanoma" && x.treatment == "miraclib" && x.sampleType == "pbmc"
  }

  /** The WHERE clause of the subset analysis: melanoma samples at baseline. */
  predicate InBaselineCohort(x: CellCount) {
    x.disease == "melanoma" && x.time == 0
  }

  function ComparisonCohort(table: seq<CellCount>): (cohort: seq<CellCount>)
    ensures forall x :: x in cohort <==>
      x in table && x.disease == "melanoma" && x.treatment == "miraclib" && x.sampleType == "pbmc"
    ensures forall x :: InComparisonCohort(x) ==> multiset(cohort)[x] == multiset(table)[x]
  {
    SelectContents(table, InComparisonCohort);
    Select(table, InComparisonCohort)
  }

  function BaselineCohort(table: seq<CellCount>): (cohort: seq<CellCount>)
    ensures forall x :: x in cohort <==> x in table && x.disease == "melanoma" && x.time == 0
    ensures forall x :: InBaselineCohort(x) ==> multiset(cohort)[x] == multiset(table)[x]
  {
    SelectContents(table, InBaselineCohort);
    Select(table, InBaselineCohort)
  }

  /** The position of the first occurrence of `x` in `s`. */
  function FirstIndex(s: seq<string>, x: string): (k: nat)
    requires x in s
    ensures k < |s| && s[k] == x
    ensures forall j :: 0 <= j < k ==> s[j] != x
  {
    if s[0] == x then 0 else 1 + FirstIndex(s[1..], x)
  }

  lemma {:induction false} FirstIndexInPrefix(s: seq<string>, x: string)
    requires |s| > 0 && x in s[..|s| - 1]
    ensures FirstIndex(s, x) == FirstIndex(s[..|s| - 1], x)
  {
    var k := FirstIndex(s[..|s| - 1], x);
    assert s[k] == x;
    var m := FirstIndex(s, x);
    assert m <= k;
    assert s[..|s| - 1][m] == x;
  }

  /**
   * pandas' `unique()`: each value once, in order of first appearance.  The
   * last value is appended when the prefix has not shown it yet.
   */
  function UniqueInOrder(s: seq<string>): (r: seq<string>)
    ensures forall x :: x in r <==> x in s
    ensures forall i, j :: 0 <= i < j < |r| ==> r[i] != r[j]
  {
    if s == [] then []
    else
      var u := UniqueInOrder(s[..|s| - 1]);
      var last := s[|s| - 1];
      assert s == s[..|s| - 1] + [last];
      if last in u then u else u + [last]
  }

  /** The values `unique()` lists appear in the order of their first occurrence. */
  lemma {:induction false} UniqueInOrderFollowsFirstOccurrence(s: seq<string>)
    ensures forall i, j :: 0 <= i < j < |UniqueInOrder(s)| ==>
      FirstIndex(s, UniqueInOrder(s)[i]) < FirstIndex(s, UniqueInOrder(s)[j])
    decreases |s|
  {
    if s != [] {
      var prefix := s[..|s| - 1];
      var u := UniqueInOrder(prefix);
      var last := s[|s| - 1];
      assert s == prefix + [last];
      UniqueInOrderFollowsFirstOccurrence(prefix);
      forall i | 0 <= i < |u| ensures FirstIndex(s, u[i]) == FirstIndex(prefix, u[i]) < |s| - 1 {
        FirstIndexInPrefix(s, u[i]);
      }
      if last !in u {
        assert last !in prefix;
        assert FirstIndex(s, last) == |s| - 1;
      }
    }
  }

  /** The `population` column of `rows`. */
  function PopulationColumn(rows: seq<CellCount>): (r: seq<string>)
    ensures |r| == |rows| && forall i :: 0 <= i < |rows| ==> r[i] == rows[i].population
  {
    seq(|rows|, i requires 0 <= i < |rows| => rows[i].population)
  }

  /** `df['population'].unique()`: the populations of the cohort in order of first appearance. */
  function Populations(cohort: seq<CellCount>): seq<string> {
    UniqueInOrder(PopulationColumn(cohort))
  }

  /**
   * Each population of the cohort is reported exactly once, in order of its
   * first row, and an empty cohort reports none.
   */
  lemma PopulationsOfCohort(cohort: seq<CellCount>)
    ensures forall x :: x in cohort ==> x.population in Populations(cohort)
    ensures forall p :: p in Populations(cohort) ==> exists x :: x in cohort && x.population == p
    ensures forall i, j :: 0 <= i < j < |Populations(cohort)| ==> Populations(cohort)[i] != Populations(cohort)[j]
    ensures forall i, j :: 0 <= i < j < |Populations(cohort)| ==>
      FirstIndex(PopulationColumn(cohort), Populations(cohort)[i]) < FirstIndex(PopulationColumn(cohort), Populations(cohort)[j])
    ensures cohort == [] ==> Populations(cohort) == []
  {
    var column := PopulationColumn(cohort);
    UniqueInOrderFollowsFirstOccurrence(column);
    forall x | x in cohort ensures x.population in Populations(cohort) {
      var i :| 0 <= i < |cohort| && cohort[i] == x;
      assert column[i] == x.population;
    }
    forall p | p in Populations(cohort) ensures exists x :: x in cohort && x.population == p {
      var i :| 0 <= i < |column| && column[i] == p;
      assert cohort[i] in cohort;
    }
  }

  /** The rows of one population whose response is exactly `response`. */
  function ResponseGroup(cohort: seq<CellCount>, population: string, response: string): seq<CellCount> {
    Select(cohort, (x: CellCount) => x.population == population && x.response == response)
  }

  /** The `count` column of `rows`, NULLs included. */
  function Counts(rows: seq<CellCount>): seq<Option<int>> {
    seq(|rows|, i requires 0 <= i < |rows| => rows[i].count)
  }

  /** All rows of one population. */
  function PopulationRows(cohort: seq<CellCount>, population: string): seq<CellCount> {
    Select(cohort, (x: CellCount) => x.population == population)
  }

  /** The rows of one population whose response is neither `'yes'` nor `'no'`. */
  function OtherResponses(cohort: seq<CellCount>, population: string): seq<CellCount> {
    Select(cohort, (x: CellCount) => x.population == population && x.response != "yes" && x.response != "no")
  }

  /** The counts of the population's rows with response `'yes'`. */
  function Responders(cohort: seq<CellCount>, population: string): seq<Option<int>> {
    Counts(ResponseGroup(cohort, population, "yes"))
  }

  /** The counts of the population's rows with response `'no'`. */
  function NonResponders(cohort: seq<CellCount>, population: string): seq<Option<int>> {
    Counts(ResponseGroup(cohort, population, "no"))
  }

  /**
   * The population's rows split three ways: responders, non-responders and
   * the rows with any other response, which belong to neither group.
   */
  lemma PopulationPartition(cohort: seq<CellCount>, population: string)
    ensures var yes := ResponseGroup(cohort, population, "yes");
      var no := ResponseGroup(cohort, population, "no");
      var other := OtherResponses(cohort, population);
      var all := PopulationRows(cohort, population);
      && multiset(yes) + multiset(no) + multiset(other) == multiset(all)
      && |yes| + |no| + |other| == |all|
      && (forall x :: x in yes ==> x !in no && x !in other)
      && (forall x :: x in no ==> x !in other)
  {
    var yes := ResponseGroup(cohort, population, "yes");
    var no := ResponseGroup(cohort, population, "no");
    var other := OtherResponses(cohort, population);
    var all := PopulationRows(cohort, population);
    SelectContents(cohort, (x: CellCount) => x.population == population && x.response == "yes");
    SelectContents(cohort, (x: CellCount) => x.population == population && x.response == "no");
    SelectContents(cohort, (x: CellCount) => x.population == population && x.response != "yes" && x.response != "no");
    SelectContents(cohort, (x: CellCount) => x.population == population);
    assert multiset(yes) + multiset(no) + multiset(other) == multiset(all) by {
      forall x ensures (multiset(yes) + multiset(no) + multiset(other))[x] == multiset(all)[x] {
      }
    }
    assert |multiset(yes) + multiset(no) + multiset(other)| == |multiset(all)|;
  }

  predicate IsSignificant(p: PValue) {
    p.Finite? && p.p < SignificanceThreshold
  }

  /**
   * The report for one population: the test runs only when both groups have
   * more than one row, counted before NULL counts are omitted; a result is
   * significant when its p-value is below the threshold, strictly.
   */
  function Assess(cohort: seq<CellCount>, population: string, test: TwoSampleTest): PopulationResult {
    var yes := Responders(cohort, population);
    var no := NonResponders(cohort, population);
    if |yes| > 1 && |no| > 1 then
      var p := test(yes, no);
      Tested(population, p, IsSignificant(p))
    else NotEnoughData(population)
  }

  /**
   * run_statistical_analysis: one result per population of the cohort, in the
   * order `unique()` lists them.
   */
  method RunStatisticalAnalysis(table: seq<CellCount>, test: TwoSampleTest) returns (report: seq<PopulationResult>)
    ensures var cohort := ComparisonCohort(table);
      && |report| == |Populations(cohort)|
      && (forall i :: 0 <= i < |report| ==> report[i] == Assess(cohort, Populations(cohort)[i], test))
  {
    var cohort := ComparisonCohort(table);
    var populations := Populations(cohort);
    report := AssessEach(cohort, populations, test);
    AssessAllPointwise(cohort, populations, test);
  }

  /** The reports of `populations`, in order. */
  function AssessAll(cohort: seq<CellCount>, populations: seq<string>, test: TwoSampleTest): seq<PopulationResult> {
    if populations == [] then []
    else
      var last := populations[|populations| - 1];
      AssessAll(cohort, populations[..|populations| - 1], test) + [Assess(cohort, last, test)]
  }

  lemma {:induction false} AssessAllPointwise(cohort: seq<CellCount>, populations: seq<string>, test: TwoSampleTest)
    ensures |AssessAll(cohort, populations, test)| == |populations|
    ensures forall i :: 0 <= i < |populations| ==>
      AssessAll(cohort, populations, test)[i] == Assess(cohort, populations[i], test)
    decreases |populations|
  {
    if populations != [] {
      var prefix := populations[..|populations| - 1];
      AssessAllPointwise(cohort, prefix, test);
      forall i | 0 <= i < |prefix|
        ensures populations[i] == prefix[i]
      {
      }
    }
  }

  /** The loop over populations, one result appended per population. */
  method AssessEach(cohort: seq<CellCount>, populations: seq<string>, test: TwoSampleTest)
    returns (report: seq<PopulationResult>)
    ensures report == AssessAll(cohort, populations, test)
  {
    report := [];
    for i := 0 to |populations|
      invariant report == AssessAll(cohort, populations[..i], test)
    {
      var result := AssessPopulation(cohort, populations[i], test);
      assert populations[..i + 1][..i] == populations[..i];
      report := report + [result];
    }
    assert populations[..|populations|] == populations;
  }

  /** The body of the loop over populations: split the rows, apply the guard, run the test. */
  method AssessPopulation(cohort: seq<CellCount>, population: string, test: TwoSampleTest)
    returns (result: PopulationResult)
    ensures result == Assess(cohort, population, test)
  {
    var responders := Responders(cohort, population);
    var nonResponders := NonResponders(cohort, population);
    if |responders| > 1 && |nonResponders| > 1 {
      var p := test(responders, nonResponders);
      result := Tested(population, p, IsSignificant(p));
    } else {
      result := NotEnoughData(population);
    }
  }

  /** Rows that differ at most in their counts. */
  ghost predicate SameButCounts(a: seq<CellCount>, b: seq<CellCount>) {
    |a| == |b| && forall i :: 0 <= i < |a| ==> a[i].(count := None) == b[i].(count := None)
  }

  lemma {:induction false} SelectIgnoresCounts(a: seq<CellCount>, b: seq<CellCount>, keep: CellCount -> bool)
    requires SameButCounts(a, b)
    requires forall x :: keep(x) == keep(x.(count := None))
    ensures |Select(a, keep)| == |Select(b, keep)|
  {
    if a != [] {
      assert keep(a[0]) == keep(b[0]) by {
        assert keep(a[0]) == keep(a[0].(count := None));
        assert keep(b[0]) == keep(b[0].(count := None));
      }
      assert SameButCounts(a[1..], b[1..]) by {
        forall i | 0 <= i < |a| - 1 ensures a[1..][i].(count := None) == b[1..][i].(count := None) {
          assert a[1..][i] == a[i + 1] && b[1..][i] == b[i + 1];
        }
      }
      SelectIgnoresCounts(a[1..], b[1..], keep);
    }
  }

  /**
   * The guard counts rows, not usable values: whether a population is tested
   * does not depend on the counts at all, so NULL counts (omitted only inside
   * the test) still count towards the two-row minimum.
   */
  lemma GuardIgnoresCountValues(a: seq<CellCount>, b: seq<CellCount>, population: string, test: TwoSampleTest)
    requires SameButCounts(a, b)
    ensures Assess(a, population, test).Tested? == Assess(b, population, test).Tested?
  {
    SelectIgnoresCounts(a, b, (x: CellCount) => x.population == population && x.response == "yes");
    SelectIgnoresCounts(a, b, (x: CellCount) => x.population == population && x.response == "no");
  }

  /** The number of rows of one population with a given response, counted directly. */
  function CountRows(rows: seq<CellCount>, population: string, response: string): nat {
    if rows == [] then 0
    else
      var here := if rows[0].population == population && rows[0].response == response then 1 else 0;
      here + CountRows(rows[1..], population, response)
  }

  lemma {:induction false} SelectCountsRows(
    rows: seq<CellCount>, keep: CellCount -> bool, population: string, response: string)
    requires forall x :: keep(x) == (x.population == population && x.response == response)
    ensures |Select(rows, keep)| == CountRows(rows, population, response)
  {
    if rows != [] {
      SelectCountsRows(rows[1..], keep, population, response);
    }
  }

  /**
   * The guard and the significance rule: a population is tested exactly
   * when it has at least two responder rows and at least two non-responder
   * rows; the test sees those groups' counts; the result is significant
   * exactly when the p-value is a number strictly below 0.05 (so 0.05 itself
   * and NaN are not significant).
   */
  lemma AssessmentRule(cohort: seq<CellCount>, population: string, test: TwoSampleTest)
    ensures Assess(cohort, population, test).population == population
    ensures Assess(cohort, population, test).Tested? <==>
      CountRows(cohort, population, "yes") >= 2 && CountRows(cohort, population, "no") >= 2
    ensures Assess(cohort, population, test).Tested? ==>
      && Assess(cohort, population, test).pValue == test(Responders(cohort, population), NonResponders(cohort, population))
      && (Assess(cohort, population, test).significant <==>
          exists p: real :: Assess(cohort, population, test).pValue == Finite(p) && p < 0.05)
  {
    SelectCountsRows(cohort, (x: CellCount) => x.population == population && x.response == "yes", population, "yes");
    SelectCountsRows(cohort, (x: CellCount) => x.population == population && x.response == "no", population, "no");
  }

  /** The three columns the baseline summary groups by. */
  datatype Category = ByProject | ByResponse | BySex

  function KeyOf(x: CellCount, category: Category): string {
    match category
    case ByProject => x.project
    case ByResponse => x.response
    case BySex => x.sex
  }

  /** The distinct subject ids among the rows whose `category` column is `key`. */
  ghost function SubjectsWith(rows: seq<CellCount>, category: Category, key: string): set<string> {
    set i | 0 <= i < |rows| && KeyOf(rows[i], category) == key :: rows[i].subjectId
  }

  /** The values of the `category` column that occur in `rows`. */
  ghost function CategoryValues(rows: seq<CellCount>, category: Category): set<string> {
    set i | 0 <= i < |rows| :: KeyOf(rows[i], category)
  }

  /** `df.groupby(column)['subject_id'].nunique()`: distinct subjects per value of the column. */
  ghost function DistinctSubjectCounts(rows: seq<CellCount>, category: Category): map<string, nat> {
    map key | key in CategoryValues(rows, category) :: |SubjectsWith(rows, category, key)|
  }

  /** The three tables printed by run_subset_analysis (the first is labelled `sample_count`). */
  datatype BaselineSummary = BaselineSummary(
    perProject: map<string, nat>, perResponse: map<string, nat>, perSex: map<string, nat>)

  /** run_subset_analysis: the baseline melanoma cohort summarised three ways. */
  ghost function SubsetAnalysis(table: seq<CellCount>): BaselineSummary {
    var cohort := BaselineCohort(table);
    BaselineSummary(
      DistinctSubjectCounts(cohort, ByProject),
      DistinctSubjectCounts(cohort, ByResponse),
      DistinctSubjectCounts(cohort, BySex))
  }

  lemma SubjectsWithAppend(rows: seq<CellCount>, x: CellCount, category: Category, key: string)
    ensures SubjectsWith(rows + [x], category, key) ==
      SubjectsWith(rows, category, key) + (if KeyOf(x, category) == key then {x.subjectId} else {})
  {
    var all := rows + [x];
    forall id | id in SubjectsWith(all, category, key)
      ensures id in SubjectsWith(rows, category, key) + (if KeyOf(x, category) == key then {x.subjectId} else {})
    {
      var i :| 0 <= i < |all| && KeyOf(all[i], category) == key && all[i].subjectId == id;
      if i < |rows| {
        assert all[i] == rows[i];
      }
    }
    forall id | id in SubjectsWith(rows, category, key)
      ensures id in SubjectsWith(all, category, key)
    {
      var i :| 0 <= i < |rows| && KeyOf(rows[i], category) == key && rows[i].subjectId == id;
      assert all[i] == rows[i];
    }
    if KeyOf(x, category) == key {
      assert all[|rows|] == x;
    }
  }

  lemma CategoryValuesAppend(rows: seq<CellCount>, x: CellCount, category: Category)
    ensures CategoryValues(rows + [x], category) == CategoryValues(rows, category) + {KeyOf(x, category)}
  {
    var all := rows + [x];
    forall key | key in CategoryValues(all, category)
      ensures key in CategoryValues(rows, category) + {KeyOf(x, category)}
    {
      var i :| 0 <= i < |all| && KeyOf(all[i], category) == key;
      if i < |rows| {
        assert all[i] == rows[i];
      }
    }
    forall key | key in CategoryValues(rows, category)
      ensures key in CategoryValues(all, category)
    {
      var i :| 0 <= i < |rows| && KeyOf(rows[i], category) == key;
      assert all[i] == rows[i];
    }
    assert all[|rows|] == x;
  }

  /** A further row for a subject already counted under its value changes no count. */
  lemma RepeatedSubjectCountsOnce(rows: seq<CellCount>, x: CellCount, category: Category)
    requires x.subjectId in SubjectsWith(rows, category, KeyOf(x, category))
    ensures DistinctSubjectCounts(rows + [x], category) == DistinctSubjectCounts(rows, category)
  {
    var key := KeyOf(x, category);
    CategoryValuesAppend(rows, x, category);
    assert key in CategoryValues(rows, category) by {
      var i :| 0 <= i < |rows| && KeyOf(rows[i], category) == key && rows[i].subjectId == x.subjectId;
    }
    forall k | k in CategoryValues(rows, category)
      ensures SubjectsWith(rows + [x], category, k) == SubjectsWith(rows, category, k)
    {
      SubjectsWithAppend(rows, x, category, k);
    }
  }

  /** A row for a subject not yet counted under its value adds exactly one to that value's count. */
  lemma NewSubjectCountsOne(rows: seq<CellCount>, x: CellCount, category: Category)
    requires x.subjectId !in SubjectsWith(rows, category, KeyOf(x, category))
    ensures var key := KeyOf(x, category);
      var before := DistinctSubjectCounts(rows, category);
      DistinctSubjectCounts(rows + [x], category) ==
        before[key := (if key in before then before[key] else 0) + 1]
  {
    SummaryKeysAppend(rows, x, category);
    NewSubjectCounts(rows, x, category);
  }

  lemma SummaryKeysAppend(rows: seq<CellCount>, x: CellCount, category: Category)
    ensures DistinctSubjectCounts(rows + [x], category).Keys ==
      DistinctSubjectCounts(rows, category).Keys + {KeyOf(x, category)}
  {
    CategoryValuesAppend(rows, x, category);
  }

  lemma NewSubjectCounts(rows: seq<CellCount>, x: CellCount, category: Category)
    requires x.subjectId !in SubjectsWith(rows, category, KeyOf(x, category))
    ensures forall k :: k in DistinctSubjectCounts(rows + [x], category) ==>
      DistinctSubjectCounts(rows + [x], category)[k] ==
        if k == KeyOf(x, category) then
          (if k in DistinctSubjectCounts(rows, category) then DistinctSubjectCounts(rows, category)[k] else 0) + 1
        else DistinctSubjectCounts(rows, category)[k]
  {
    forall k | k in DistinctSubjectCounts(rows + [x], category)
      ensures DistinctSubjectCounts(rows + [x], category)[k] ==
        if k == KeyOf(x, category) then
          (if k in DistinctSubjectCounts(rows, category) then DistinctSubjectCounts(rows, category)[k] else 0) + 1
        else DistinctSubjectCounts(rows, category)[k]
    {
      CategoryValuesAppend(rows, x, category);
      if k == KeyOf(x, category) {
        NewSubjectCountAtItsValue(rows, x, category);
      } else {
        SubjectsWithAppend(rows, x, category, k);
      }
    }
  }

  lemma NewSubjectCountAtItsValue(rows: seq<CellCount>, x: CellCount, category: Category)
    requires x.subjectId !in SubjectsWith(rows, category, KeyOf(x, category))
    ensures |SubjectsWith(rows + [x], category, KeyOf(x, category))| ==
      |SubjectsWith(rows, category, KeyOf(x, category))| + 1
    ensures KeyOf(x, category) !in CategoryValues(rows, category) ==>
      SubjectsWith(rows, category, KeyOf(x, category)) == {}
  {
    var key := KeyOf(x, category);
    SubjectsWithAppend(rows, x, category, key);
  }

  /** The number of rows whose `category` column is `key`. */
  function RowsWith(rows: seq<CellCount>, category: Category, key: string): nat {
    if rows == [] then 0
    else RowsWith(rows[..|rows| - 1], category, key) + (if KeyOf(rows[|rows| - 1], category) == key then 1 else 0)
  }

  /**
   * Every value listed in a summary has at least one subject and at most as
   * many subjects as it has rows, and only values that occur are listed.
   */
  lemma DistinctSubjectCountBounds(rows: seq<CellCount>, category: Category)
    ensures DistinctSubjectCounts(rows, category).Keys == CategoryValues(rows, category)
    ensures forall key :: key in DistinctSubjectCounts(rows, category) ==>
      1 <= DistinctSubjectCounts(rows, category)[key] <= RowsWith(rows, category, key)
  {
    forall key | key in CategoryValues(rows, category)
      ensures 1 <= |SubjectsWith(rows, category, key)| <= RowsWith(rows, category, key)
    {
      var i :| 0 <= i < |rows| && KeyOf(rows[i], category) == key;
      assert rows[i].subjectId in SubjectsWith(rows, category, key);
      SubjectsAtMostRows(rows, category, key);
    }
  }

  lemma {:induction false} SubjectsAtMostRows(rows: seq<CellCount>, category: Category, key: string)
    ensures |SubjectsWith(rows, category, key)| <= RowsWith(rows, category, key)
    decreases |rows|
  {
    if rows != [] {
      var prefix, x := rows[..|rows| - 1], rows[|rows| - 1];
      assert rows == prefix + [x];
      SubjectsAtMostRows(prefix, category, key);
      SubjectsWithAppend(prefix, x, category, key);
    }
  }

  /** With no baseline rows every summary is empty. */
  lemma EmptyBaselineSummary(table: seq<CellCount>)
    requires forall i :: 0 <= i < |table| ==> !InBaselineCohort(table[i])
    ensures SubsetAnalysis(table) == BaselineSummary(map[], map[], map[])
  {
  }

  /** Rows outside the baseline cohort never reach a summary, wherever they stand in the table. */
  lemma SummaryIgnoresOtherRows(table: seq<CellCount>, k: nat, x: CellCount)
    requires k <= |table| && !InBaselineCohort(x)
    ensures SubsetAnalysis(table[..k] + [x] + table[k..]) == SubsetAnalysis(table)
  {
    var before, after := table[..k], table[k..];
    SelectConcat(before + [x], after, InBaselineCohort);
    SelectConcat(before, [x], InBaselineCohort);
    SelectConcat(before, after, InBaselineCohort);
    assert Select([x], InBaselineCohort) == [];
    assert before + after == table;
    assert BaselineCohort(before + [x] + after) == BaselineCohort(table);
  }

  /** Selecting from a concatenation selects from each part. */
  lemma {:induction false} SelectConcat(a: seq<CellCount>, b: seq<CellCount>, keep: CellCount -> bool)
    ensures Select(a + b, keep) == Select(a, keep) + Select(b, keep)
    decreases |a|
  {
    if a == [] {
      assert a + b == b;
    } else {
      assert (a + b)[1..] == a[1..] + b;
      SelectConcat(a[1..], b, keep);
    }
  }
}
