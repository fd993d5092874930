/** The three queries of src/db/analysis.py, stated over the rows of the
    `exam`, `grant` and `enrollment` tables.  Scores are `real`; the database
    connection, SQLite's floating point and its NULL on a division by zero
    are not modelled. */
module Analysis {
  import opened Wrappers
  import opened Constants

  /** A row of `exam`: the statistics of one subject in one year. */
  datatype ExamRow = ExamRow(subject: string, year: int, mean: real, standardDeviation: real)

  /** A row of `grant`. */
  datatype GrantRow = GrantRow(studentId: string, grantScore: real, grantAmount: int, subject: string, year: int)

  /** A row of `enrollment`, with the columns the queries read. */
  datatype EnrollmentRow = EnrollmentRow(facultyId: int, year: int, rank: int, contestScore: real)

  /** One number for each reference subject: a candidate's raw points or the
      faculty's weights (the `student_points` and `weights` dictionaries). */
  datatype SubjectValues = SubjectValues(mathematics: real, foreignLanguage: real, georgianLanguage: real)

  /** The subjects of the `x_values` table. */
  predicate Reference(s: string) {
    s == Mathematics || s == ForeignLanguage || s == GeorgianLanguage
  }

  function ValueFor(v: SubjectValues, s: string): real
    requires Reference(s)
  {
    if s == Mathematics then v.mathematics else if s == ForeignLanguage then v.foreignLanguage else v.georgianLanguage
  }

  // ---------------------------------------------------------------------------
  // The scaled score

  /** `15.0 * ((x - mean) / standard_deviation) + 150`: the points `x` of a
      subject on the scale centred at 150. */
  function Scaled(x: real, mean: real, sd: real): (s: real)
    requires sd != 0.0
    ensures s == 150.0 <==> x == mean
    ensures sd > 0.0 ==> (s > 150.0 <==> x > mean)
  {
    15.0 * ((x - mean) / sd) + 150.0
  }

  /** The scale is linear: a difference in points is a difference in scaled
      score of 15 standard deviations' worth. */
  lemma ScaledLinear(x: real, y: real, mean: real, sd: real)
    requires sd != 0.0
    ensures Scaled(x, mean, sd) - Scaled(y, mean, sd) == 15.0 * (x - y) / sd
  {
  }

  /** With a positive standard deviation, more points never give a lower scaled score. */
  lemma ScaledMonotone(x: real, y: real, mean: real, sd: real)
    requires sd > 0.0 && x <= y
    ensures Scaled(x, mean, sd) <= Scaled(y, mean, sd)
  {
    ScaledLinear(y, x, mean, sd);
  }

  // ---------------------------------------------------------------------------
  // CalculateSubjectScaledScores and ComputeGrantAndContestScores

  /** A row of `CalculateSubjectScaledScores`. */
  datatype ScaledRow = ScaledRow(subject: string, xValue: real, year: int, scaledScore: real)

  /** Every exam row of a reference subject has a nonzero standard deviation. */
  predicate Scalable(exams: seq<ExamRow>) {
    forall e :: e in exams && Reference(e.subject) ==> e.standardDeviation != 0.0
  }

  /** The join of `x_values` with `exam`: each exam row of a reference subject,
      with the candidate's points for that subject scaled against it. */
  function ScaledScores(exams: seq<ExamRow>, points: SubjectValues): (rows: seq<ScaledRow>)
    requires Scalable(exams)
    ensures forall r :: r in rows ==> Reference(r.subject)
    decreases |exams|
  {
    if exams == [] then []
    else
      var e, rest := exams[0], ScaledScores(exams[1..], points);
      if Reference(e.subject) then
        [ScaledRow(e.subject, ValueFor(points, e.subject), e.year,
          Scaled(ValueFor(points, e.subject), e.mean, e.standardDeviation))] + rest
      else rest
  }

  /** The years `GROUP BY year` forms. */
  function YearsOf(rows: seq<ScaledRow>): set<int> {
    set r | r in rows :: r.year
  }

  /** A year has scaled rows exactly when some exam row of a reference subject
      is of that year. */
  lemma {:induction false} ScaledYears(exams: seq<ExamRow>, points: SubjectValues, y: int)
    requires Scalable(exams)
    ensures y in YearsOf(ScaledScores(exams, points)) <==> exists e :: e in exams && Reference(e.subject) && e.year == y
    decreases |exams|
  {
    if exams != [] {
      var e := exams[0];
      ScaledYears(exams[1..], points, y);
      assert forall f :: f in exams <==> f == e || f in exams[1..];
      var rest := ScaledScores(exams[1..], points);
      if Reference(e.subject) {
        var r := ScaledRow(e.subject, ValueFor(points, e.subject), e.year,
          Scaled(ValueFor(points, e.subject), e.mean, e.standardDeviation));
        assert ScaledScores(exams, points) == [r] + rest;
        assert forall s :: s in [r] + rest <==> s == r || s in rest;
      }
    }
  }

  /** The summand of `grant_score` for one row: 1.5 times the scaled score of
      mathematics, once that of either language. */
  function GrantTerm(r: ScaledRow): real {
    r.scaledScore * 1.5 * (if r.subject == Mathematics then 1.0 else 0.0)
    + r.scaledScore * (if r.subject == ForeignLanguage then 1.0 else 0.0)
    + r.scaledScore * (if r.subject == GeorgianLanguage then 1.0 else 0.0)
  }

  /** The summand of `contest_score` for one row: its scaled score times the
      weight of its subject. */
  function ContestTerm(r: ScaledRow, weights: SubjectValues): real {
    r.scaledScore * weights.mathematics * (if r.subject == Mathematics then 1.0 else 0.0)
    + r.scaledScore * weights.foreignLanguage * (if r.subject == ForeignLanguage then 1.0 else 0.0)
    + r.scaledScore * weights.georgianLanguage * (if r.subject == GeorgianLanguage then 1.0 else 0.0)
  }

  function GrantSum(rows: seq<ScaledRow>, y: int): real
    decreases |rows|
  {
    if rows == [] then 0.0 else (if rows[0].year == y then GrantTerm(rows[0]) else 0.0) + GrantSum(rows[1..], y)
  }

  function ContestSum(rows: seq<ScaledRow>, y: int, weights: SubjectValues): real
    decreases |rows|
  {
    if rows == [] then 0.0
    else (if rows[0].year == y then ContestTerm(rows[0], weights) else 0.0) + ContestSum(rows[1..], y, weights)
  }

  /** The scaled scores of one subject in one year, added up. */
  function SubjectSum(rows: seq<ScaledRow>, y: int, s: string): real
    decreases |rows|
  {
    if rows == [] then 0.0
    else (if rows[0].year == y && rows[0].subject == s then rows[0].scaledScore else 0.0) + SubjectSum(rows[1..], y, s)
  }

  /** The grant sum of a year is 1.5 times the mathematics sum plus both language sums. */
  lemma {:induction false} GrantSplit(rows: seq<ScaledRow>, y: int)
    ensures GrantSum(rows, y)
      == 1.5 * SubjectSum(rows, y, Mathematics) + SubjectSum(rows, y, ForeignLanguage) + SubjectSum(rows, y, GeorgianLanguage)
    decreases |rows|
  {
    if rows != [] {
      GrantSplit(rows[1..], y);
    }
  }

  /** `wM * m + wF * f + wG * g` for the weights `w`. */
  function Weighted(weights: SubjectValues, m: real, f: real, g: real): real {
    weights.mathematics * m + weights.foreignLanguage * f + weights.georgianLanguage * g
  }

  /** The contest sum of a year weighs each subject's sum by its weight. */
  lemma {:induction false} ContestSplit(rows: seq<ScaledRow>, y: int, weights: SubjectValues)
    ensures ContestSum(rows, y, weights)
      == Weighted(weights, SubjectSum(rows, y, Mathematics), SubjectSum(rows, y, ForeignLanguage), SubjectSum(rows, y, GeorgianLanguage))
    decreases |rows|
  {
    if rows != [] {
      ContestSplit(rows[1..], y, weights);
    }
  }

  /** A subject without an exam row in a year contributes nothing to its sums. */
  lemma {:induction false} MissingSubject(exams: seq<ExamRow>, points: SubjectValues, y: int, s: string)
    requires Scalable(exams) && forall e :: e in exams ==> !(e.subject == s && e.year == y)
    ensures SubjectSum(ScaledScores(exams, points), y, s) == 0.0
    decreases |exams|
  {
    if exams != [] {
      assert exams[0] in exams;
      MissingSubject(exams[1..], points, y, s);
    }
  }

  /** A subject with exactly one exam row in a year contributes the candidate's
      points scaled against that row. */
  lemma {:induction false} SingleSubject(exams: seq<ExamRow>, points: SubjectValues, y: int, s: string, k: nat)
    requires Scalable(exams) && Reference(s) && k < |exams| && exams[k].subject == s && exams[k].year == y
    requires forall j :: 0 <= j < |exams| && j != k ==> !(exams[j].subject == s && exams[j].year == y)
    ensures exams[k].standardDeviation != 0.0
    ensures SubjectSum(ScaledScores(exams, points), y, s)
      == Scaled(ValueFor(points, s), exams[k].mean, exams[k].standardDeviation)
    decreases |exams|
  {
    assert exams[k] in exams;
    var rest := exams[1..];
    if k == 0 {
      forall e | e in rest ensures !(e.subject == s && e.year == y) {
        var j :| 0 <= j < |rest| && rest[j] == e;
        assert exams[j + 1] == e;
      }
      MissingSubject(rest, points, y, s);
    } else {
      forall j | 0 <= j < |rest| && j != k - 1 ensures !(rest[j].subject == s && rest[j].year == y) {
        assert rest[j] == exams[j + 1];
      }
      SingleSubject(rest, points, y, s, k - 1);
    }
  }

  // ---------------------------------------------------------------------------
  // The lookups

  /** `ORDER BY score DESC LIMIT 1` over the scores strictly below `c`: the
      index of the first of the largest of them, or `None` when none is below. */
  function BestBelow(scores: seq<real>, c: real): (r: Option<nat>)
    ensures r.Some? ==> r.value < |scores| && scores[r.value] < c
    ensures r.Some? ==> forall k :: 0 <= k < |scores| && scores[k] < c ==> scores[k] <= scores[r.value]
    ensures r.Some? ==> forall k :: 0 <= k < r.value && scores[k] < c ==> scores[k] < scores[r.value]
    ensures r.None? <==> forall k :: 0 <= k < |scores| ==> scores[k] >= c
    decreases |scores|
  {
    if scores == [] then None
    else
      var n := |scores| - 1;
      var p := BestBelow(scores[..n], c);
      if scores[n] < c && (p.None? || scores[p.value] < scores[n]) then Some(n) else p
  }

  /** Raising the bound never lowers the score found below it. */
  lemma BestBelowMonotone(scores: seq<real>, c: real, d: real)
    requires c <= d && BestBelow(scores, c).Some?
    ensures BestBelow(scores, d).Some?
    ensures scores[BestBelow(scores, c).value] <= scores[BestBelow(scores, d).value]
  {
    var i := BestBelow(scores, c).value;
    assert scores[i] < d;
  }

  /** `MIN(score)` with the row a bare column is read from: the index of the
      first of the smallest scores, or `None` when there are none. */
  function Lowest(scores: seq<real>): (r: Option<nat>)
    ensures r.None? <==> scores == []
    ensures r.Some? ==> r.value < |scores| && forall k :: 0 <= k < |scores| ==> scores[r.value] <= scores[k]
    ensures r.Some? ==> forall k :: 0 <= k < r.value ==> scores[r.value] < scores[k]
    decreases |scores|
  {
    if scores == [] then None
    else
      var n := |scores| - 1;
      var p := Lowest(scores[..n]);
      if p.None? || scores[n] < scores[p.value] then Some(n) else p
  }

  /** `grant WHERE subject_name = 'MATHEMATICS' AND year = y`, in table order. */
  function MathGrants(grants: seq<GrantRow>, y: int): (pool: seq<GrantRow>)
    ensures forall g :: g in pool <==> g in grants && g.subject == Mathematics && g.year == y
    decreases |grants|
  {
    if grants == [] then []
    else
      var rest := MathGrants(grants[1..], y);
      assert forall g :: g in grants <==> g == grants[0] || g in grants[1..];
      if grants[0].subject == Mathematics && grants[0].year == y then [grants[0]] + rest else rest
  }

  /** The rows of a pool with a given grant amount (`FILTER (WHERE grant_amount = a)`). */
  function WithAmount(pool: seq<GrantRow>, a: int): (rows: seq<GrantRow>)
    ensures forall g :: g in rows <==> g in pool && g.grantAmount == a
    decreases |pool|
  {
    if pool == [] then []
    else
      var rest := WithAmount(pool[1..], a);
      assert forall g :: g in pool <==> g == pool[0] || g in pool[1..];
      if pool[0].grantAmount == a then [pool[0]] + rest else rest
  }

  /** `enrollment WHERE faculty_id = f AND year = y`, in table order. */
  function FacultyRows(enrollments: seq<EnrollmentRow>, f: int, y: int): (pool: seq<EnrollmentRow>)
    ensures forall r :: r in pool <==> r in enrollments && r.facultyId == f && r.year == y
    ensures |pool| <= |enrollments|
    decreases |enrollments|
  {
    if enrollments == [] then []
    else
      var rest := FacultyRows(enrollments[1..], f, y);
      assert forall r :: r in enrollments <==> r == enrollments[0] || r in enrollments[1..];
      if enrollments[0].facultyId == f && enrollments[0].year == y then [enrollments[0]] + rest else rest
  }

  function GrantScores(pool: seq<GrantRow>): (s: seq<real>)
    ensures |s| == |pool| && forall k :: 0 <= k < |pool| ==> s[k] == pool[k].grantScore
  {
    seq(|pool|, k requires 0 <= k < |pool| => pool[k].grantScore)
  }

  function ContestScores(pool: seq<EnrollmentRow>): (s: seq<real>)
    ensures |s| == |pool| && forall k :: 0 <= k < |pool| ==> s[k] == pool[k].contestScore
  {
    seq(|pool|, k requires 0 <= k < |pool| => pool[k].contestScore)
  }

  // ---------------------------------------------------------------------------
  // check_historical_data

  /** A row of the result of `check_historical_data`. */
  datatype HistoricalRow = HistoricalRow(
    year: int, grantScore: real, contestScore: real,
    grantAmount: Option<int>, rank: Option<int>, totalEnrolled: nat)

  /** The grant amount of the mathematics grant row of year `y` with the
      largest grant score strictly below `score`. */
  function GrantAmountBelow(grants: seq<GrantRow>, y: int, score: real): Option<int> {
    var pool := MathGrants(grants, y);
    match BestBelow(GrantScores(pool), score)
    case None => None
    case Some(i) => Some(pool[i].grantAmount)
  }

  /** The rank of the enrollment row of faculty `f` and year `y` with the
      largest contest score strictly below `score`. */
  function RankBelow(enrollments: seq<EnrollmentRow>, f: int, y: int, score: real): Option<int> {
    var pool := FacultyRows(enrollments, f, y);
    match BestBelow(ContestScores(pool), score)
    case None => None
    case Some(i) => Some(pool[i].rank)
  }

  /** `FinalRankAndGrant` for one year of the scaled rows. */
  function YearRow(scaled: seq<ScaledRow>, y: int, weights: SubjectValues, f: int,
                   grants: seq<GrantRow>, enrollments: seq<EnrollmentRow>): HistoricalRow
  {
    var g := GrantSum(scaled, y) * 10.0;
    var c := ContestSum(scaled, y, weights);
    HistoricalRow(y, g, c, GrantAmountBelow(grants, y, g), RankBelow(enrollments, f, y, c),
      |FacultyRows(enrollments, f, y)|)
  }

  /** `check_historical_data(faculty_id, student_points, weights)`: one row per
      year of the scaled scores, keyed by that year (the query has no `ORDER BY`). */
  function CheckHistoricalData(f: int, points: SubjectValues, weights: SubjectValues,
                               exams: seq<ExamRow>, grants: seq<GrantRow>, enrollments: seq<EnrollmentRow>)
    : (rows: map<int, HistoricalRow>)
    requires Scalable(exams)
    ensures forall y :: y in rows ==> rows[y].year == y
  {
    var scaled := ScaledScores(exams, points);
    map y | y in YearsOf(scaled) :: YearRow(scaled, y, weights, f, grants, enrollments)
  }

  /** The row of a year in the result. */
  lemma HistoricalRowOf(f: int, points: SubjectValues, weights: SubjectValues,
                        exams: seq<ExamRow>, grants: seq<GrantRow>, enrollments: seq<EnrollmentRow>, y: int)
    requires Scalable(exams) && y in CheckHistoricalData(f, points, weights, exams, grants, enrollments)
    ensures CheckHistoricalData(f, points, weights, exams, grants, enrollments)[y]
      == YearRow(ScaledScores(exams, points), y, weights, f, grants, enrollments)
  {
  }

  /** A year has a row exactly when some reference subject has an exam row of
      that year. */
  lemma HistoricalYears(f: int, points: SubjectValues, weights: SubjectValues,
                        exams: seq<ExamRow>, grants: seq<GrantRow>, enrollments: seq<EnrollmentRow>, y: int)
    requires Scalable(exams)
    ensures y in CheckHistoricalData(f, points, weights, exams, grants, enrollments)
      <==> exists e :: e in exams && Reference(e.subject) && e.year == y
  {
    ScaledYears(exams, points, y);
  }

  /** The two composites of a year: the grant score is ten times 1.5 times the
      mathematics sum plus both language sums, the contest score the weighted sum. */
  lemma HistoricalScores(f: int, points: SubjectValues, weights: SubjectValues,
                         exams: seq<ExamRow>, grants: seq<GrantRow>, enrollments: seq<EnrollmentRow>, y: int)
    requires Scalable(exams) && y in CheckHistoricalData(f, points, weights, exams, grants, enrollments)
    ensures var row, s := CheckHistoricalData(f, points, weights, exams, grants, enrollments)[y], ScaledScores(exams, points);
      && row.grantScore
         == 10.0 * (1.5 * SubjectSum(s, y, Mathematics) + SubjectSum(s, y, ForeignLanguage) + SubjectSum(s, y, GeorgianLanguage))
      && row.contestScore
         == Weighted(weights, SubjectSum(s, y, Mathematics), SubjectSum(s, y, ForeignLanguage), SubjectSum(s, y, GeorgianLanguage))
  {
    HistoricalRowOf(f, points, weights, exams, grants, enrollments, y);
    YearScores(ScaledScores(exams, points), y, weights, f, grants, enrollments);
  }

  lemma YearScores(s: seq<ScaledRow>, y: int, weights: SubjectValues, f: int,
                   grants: seq<GrantRow>, enrollments: seq<EnrollmentRow>)
    ensures var row := YearRow(s, y, weights, f, grants, enrollments);
      && row.grantScore
         == 10.0 * (1.5 * SubjectSum(s, y, Mathematics) + SubjectSum(s, y, ForeignLanguage) + SubjectSum(s, y, GeorgianLanguage))
      && row.contestScore
         == Weighted(weights, SubjectSum(s, y, Mathematics), SubjectSum(s, y, ForeignLanguage), SubjectSum(s, y, GeorgianLanguage))
  {
    GrantSplit(s, y);
    ContestSplit(s, y, weights);
  }

  /** With exactly one exam row for each reference subject in the year, the
      grant score is `10 * (1.5 * M + F + G)` of the three scaled scores. */
  lemma GrantComposite(points: SubjectValues, exams: seq<ExamRow>, y: int, m: nat, fl: nat, gl: nat)
    requires Scalable(exams) && m < |exams| && fl < |exams| && gl < |exams|
    requires exams[m].subject == Mathematics && exams[fl].subject == ForeignLanguage && exams[gl].subject == GeorgianLanguage
    requires exams[m].year == y && exams[fl].year == y && exams[gl].year == y
    requires forall j :: 0 <= j < |exams| && j != m && j != fl && j != gl ==> !(Reference(exams[j].subject) && exams[j].year == y)
    ensures exams[m].standardDeviation != 0.0 && exams[fl].standardDeviation != 0.0 && exams[gl].standardDeviation != 0.0
    ensures GrantSum(ScaledScores(exams, points), y) * 10.0
      == 10.0 * (1.5 * Scaled(points.mathematics, exams[m].mean, exams[m].standardDeviation)
                 + Scaled(points.foreignLanguage, exams[fl].mean, exams[fl].standardDeviation)
                 + Scaled(points.georgianLanguage, exams[gl].mean, exams[gl].standardDeviation))
  {
    SingleSubject(exams, points, y, Mathematics, m);
    SingleSubject(exams, points, y, ForeignLanguage, fl);
    SingleSubject(exams, points, y, GeorgianLanguage, gl);
    GrantSplit(ScaledScores(exams, points), y);
  }

  /** The grant amount of a year comes from a mathematics grant row of that
      year scoring strictly below the candidate, and no such row scores higher;
      there is none exactly when no such row scores below. */
  lemma HistoricalGrant(f: int, points: SubjectValues, weights: SubjectValues,
                        exams: seq<ExamRow>, grants: seq<GrantRow>, enrollments: seq<EnrollmentRow>, y: int)
    requires Scalable(exams) && y in CheckHistoricalData(f, points, weights, exams, grants, enrollments)
    ensures var row := CheckHistoricalData(f, points, weights, exams, grants, enrollments)[y];
      && (row.grantAmount.None? <==>
           forall g :: g in grants && g.subject == Mathematics && g.year == y ==> g.grantScore >= row.grantScore)
      && (row.grantAmount.Some? ==>
           exists g :: g in grants && g.subject == Mathematics && g.year == y && g.grantScore < row.grantScore
             && g.grantAmount == row.grantAmount.value
             && forall h :: h in grants && h.subject == Mathematics && h.year == y && h.grantScore < row.grantScore
                  ==> h.grantScore <= g.grantScore)
  {
    var row := CheckHistoricalData(f, points, weights, exams, grants, enrollments)[y];
    var pool := MathGrants(grants, y);
    var s := GrantScores(pool);
    BelowPool(pool, s, row.grantScore);
    match BestBelow(s, row.grantScore)
    case None =>
    case Some(i) =>
      assert pool[i] in pool;
  }

  /** What `BestBelow` says about the scores of a grant pool, said of its rows. */
  lemma BelowPool(pool: seq<GrantRow>, s: seq<real>, c: real)
    requires s == GrantScores(pool)
    ensures BestBelow(s, c).None? <==> forall g :: g in pool ==> g.grantScore >= c
    ensures BestBelow(s, c).Some? ==> var i := BestBelow(s, c).value;
      i < |pool| && forall h :: h in pool && h.grantScore < c ==> h.grantScore <= pool[i].grantScore
  {
    forall g | g in pool ensures exists k :: 0 <= k < |pool| && pool[k] == g && s[k] == g.grantScore {
      var k :| 0 <= k < |pool| && pool[k] == g;
    }
  }

  /** The rank of a year comes from an enrollment row of the faculty in that
      year scoring strictly below the candidate, and no such row scores higher;
      a row tied with the candidate is never taken. */
  lemma HistoricalRank(f: int, points: SubjectValues, weights: SubjectValues,
                       exams: seq<ExamRow>, grants: seq<GrantRow>, enrollments: seq<EnrollmentRow>, y: int)
    requires Scalable(exams) && y in CheckHistoricalData(f, points, weights, exams, grants, enrollments)
    ensures var row := CheckHistoricalData(f, points, weights, exams, grants, enrollments)[y];
      && (row.rank.None? <==>
           forall r :: r in enrollments && r.facultyId == f && r.year == y ==> r.contestScore >= row.contestScore)
      && (row.rank.Some? ==>
           exists r :: r in enrollments && r.facultyId == f && r.year == y && r.contestScore < row.contestScore
             && r.rank == row.rank.value
             && forall h :: h in enrollments && h.facultyId == f && h.year == y && h.contestScore < row.contestScore
                  ==> h.contestScore <= r.contestScore)
  {
    var row := CheckHistoricalData(f, points, weights, exams, grants, enrollments)[y];
    var pool := FacultyRows(enrollments, f, y);
    var s := ContestScores(pool);
    BelowRows(pool, s, row.contestScore);
    match BestBelow(s, row.contestScore)
    case None =>
    case Some(i) =>
      assert pool[i] in pool;
  }

  /** What `BestBelow` says about the scores of an enrollment pool, said of its rows. */
  lemma BelowRows(pool: seq<EnrollmentRow>, s: seq<real>, c: real)
    requires s == ContestScores(pool)
    ensures BestBelow(s, c).None? <==> forall r :: r in pool ==> r.contestScore >= c
    ensures BestBelow(s, c).Some? ==> var i := BestBelow(s, c).value;
      i < |pool| && forall h :: h in pool && h.contestScore < c ==> h.contestScore <= pool[i].contestScore
  {
    forall r | r in pool ensures exists k :: 0 <= k < |pool| && pool[k] == r && s[k] == r.contestScore {
      var k :| 0 <= k < |pool| && pool[k] == r;
    }
  }

  /** The number enrolled of a year counts that faculty's rows of the year and
      does not depend on the candidate. */
  lemma HistoricalEnrolled(f: int, points: SubjectValues, weights: SubjectValues, points': SubjectValues, weights': SubjectValues,
                           exams: seq<ExamRow>, grants: seq<GrantRow>, enrollments: seq<EnrollmentRow>, y: int)
    requires Scalable(exams)
    requires y in CheckHistoricalData(f, points, weights, exams, grants, enrollments)
    requires y in CheckHistoricalData(f, points', weights', exams, grants, enrollments)
    ensures CheckHistoricalData(f, points, weights, exams, grants, enrollments)[y].totalEnrolled
      == CheckHistoricalData(f, points', weights', exams, grants, enrollments)[y].totalEnrolled
      == |FacultyRows(enrollments, f, y)|
  {
  }

  /** A higher grant score never finds a lower threshold row: the score of the
      grant row found for `c` is at most that of the row found for `d >= c`. */
  lemma GrantLookupMonotone(grants: seq<GrantRow>, y: int, c: real, d: real)
    requires c <= d && BestBelow(GrantScores(MathGrants(grants, y)), c).Some?
    ensures var s := GrantScores(MathGrants(grants, y));
      BestBelow(s, d).Some? && s[BestBelow(s, c).value] <= s[BestBelow(s, d).value]
  {
    BestBelowMonotone(GrantScores(MathGrants(grants, y)), c, d);
  }

  /** Grant rows of 2020 scoring 500 (amount 50) and 800 (amount 70): a grant
      score of 650 clears the first. */
  lemma GrantLookupExample(a: string, b: string)
    ensures GrantAmountBelow([GrantRow(a, 500.0, 50, Mathematics, 2020), GrantRow(b, 800.0, 70, Mathematics, 2020)], 2020, 650.0)
      == Some(50)
  {
    var grants := [GrantRow(a, 500.0, 50, Mathematics, 2020), GrantRow(b, 800.0, 70, Mathematics, 2020)];
    assert grants[1..] == [grants[1]] && grants[1..][1..] == [];
    assert MathGrants(grants[1..][1..], 2020) == [];
    assert MathGrants(grants[1..], 2020) == [grants[1]];
    assert MathGrants(grants, 2020) == grants;
    var s := GrantScores(grants);
    assert s == [500.0, 800.0];
    assert s[..1] == [500.0] && s[..1][..0] == [];
  }

  // ---------------------------------------------------------------------------
  // get_grant_thresholds

  /** A row of `get_grant_thresholds`. */
  datatype GrantThreshold = GrantThreshold(year: int, minGrant50: Option<real>, minGrant70: Option<real>, minGrant100: Option<real>)

  predicate Ascending(ys: seq<int>) {
    forall i, j :: 0 <= i < j < |ys| ==> ys[i] < ys[j]
  }

  /** `y` put into its place in an ascending sequence, unless it is there already. */
  function InsertYear(ys: seq<int>, y: int): (r: seq<int>)
    requires Ascending(ys)
    ensures Ascending(r) && forall x :: x in r <==> x in ys || x == y
    decreases |ys|
  {
    if ys == [] then [y]
    else if y < ys[0] then [y] + ys
    else if y == ys[0] then ys
    else
      var rest := InsertYear(ys[1..], y);
      assert forall x :: x in ys <==> x == ys[0] || x in ys[1..];
      TailAbove(ys);
      ConsAscending(ys[0], rest);
      [ys[0]] + rest
  }

  lemma TailAbove(ys: seq<int>)
    requires Ascending(ys) && ys != []
    ensures forall x :: x in ys[1..] ==> ys[0] < x
  {
    forall x | x in ys[1..] ensures ys[0] < x {
      var k :| 0 <= k < |ys[1..]| && ys[1..][k] == x;
      assert ys[k + 1] == x;
    }
  }

  lemma ConsAscending(a: int, rest: seq<int>)
    requires Ascending(rest) && forall x :: x in rest ==> a < x
    ensures Ascending([a] + rest)
  {
    var r := [a] + rest;
    forall i, j | 0 <= i < j < |r| ensures r[i] < r[j] {
      assert r[j] == rest[j - 1];
      if i == 0 {
        assert r[j] in rest;
      } else {
        assert r[i] == rest[i - 1];
      }
    }
  }

  /** Some mathematics grant row is of year `y`. */
  predicate HasMathRow(grants: seq<GrantRow>, y: int) {
    exists g :: g in grants && g.subject == Mathematics && g.year == y
  }

  /** The years of the mathematics grant rows, each once, ascending (`GROUP BY year ORDER BY year`). */
  function MathYears(grants: seq<GrantRow>): (ys: seq<int>)
    ensures Ascending(ys)
    ensures forall y :: y in ys <==> HasMathRow(grants, y)
    decreases |grants|
  {
    if grants == [] then []
    else
      var n := |grants| - 1;
      var g := grants[n];
      var ys := MathYears(grants[..n]);
      assert forall h :: h in grants <==> h in grants[..n] || h == g by {
        assert grants == grants[..n] + [g];
      }
      if g.subject == Mathematics then InsertYear(ys, g.year) else ys
  }

  /** `MIN(grant_score) FILTER (WHERE grant_amount = a)` over the mathematics
      rows of year `y`. */
  function MinGrant(grants: seq<GrantRow>, y: int, a: int): (m: Option<real>)
    ensures m.None? <==> forall g :: g in grants && g.subject == Mathematics && g.year == y ==> g.grantAmount != a
    ensures m.Some? ==>
      && (exists g :: g in grants && g.subject == Mathematics && g.year == y && g.grantAmount == a && g.grantScore == m.value)
      && forall g :: g in grants && g.subject == Mathematics && g.year == y && g.grantAmount == a ==> m.value <= g.grantScore
  {
    var pool := WithAmount(MathGrants(grants, y), a);
    var s := GrantScores(pool);
    match Lowest(s)
    case None =>
      assert forall g :: g in pool ==> false;
      None
    case Some(i) =>
      assert pool[i] in pool;
      forall g | g in pool ensures s[i] <= g.grantScore {
        var k :| 0 <= k < |pool| && pool[k] == g;
      }
      Some(s[i])
  }

  /** `get_grant_thresholds()`: one row per year with mathematics grant rows,
      in ascending year order, with the least grant score of each amount. */
  function GrantThresholds(grants: seq<GrantRow>): (rows: seq<GrantThreshold>)
    ensures forall i, j :: 0 <= i < j < |rows| ==> rows[i].year < rows[j].year
    ensures forall g :: g in grants && g.subject == Mathematics ==> exists i :: 0 <= i < |rows| && rows[i].year == g.year
    ensures forall i :: 0 <= i < |rows| ==> HasMathRow(grants, rows[i].year)
    ensures forall i :: 0 <= i < |rows| ==>
      rows[i] == GrantThreshold(rows[i].year, MinGrant(grants, rows[i].year, 50),
        MinGrant(grants, rows[i].year, 70), MinGrant(grants, rows[i].year, 100))
  {
    var ys := MathYears(grants);
    var rows := seq(|ys|, i requires 0 <= i < |ys| =>
      GrantThreshold(ys[i], MinGrant(grants, ys[i], 50), MinGrant(grants, ys[i], 70), MinGrant(grants, ys[i], 100)));
    YearRows(grants, ys, rows);
    rows
  }

  /** Rows made one per mathematics year have a row for every such year. */
  lemma YearRows(grants: seq<GrantRow>, ys: seq<int>, rows: seq<GrantThreshold>)
    requires ys == MathYears(grants) && |rows| == |ys| && forall i :: 0 <= i < |ys| ==> rows[i].year == ys[i]
    ensures forall g :: g in grants && g.subject == Mathematics ==> exists i :: 0 <= i < |rows| && rows[i].year == g.year
    ensures forall i :: 0 <= i < |rows| ==> HasMathRow(grants, rows[i].year)
  {
    forall g | g in grants && g.subject == Mathematics ensures exists i :: 0 <= i < |rows| && rows[i].year == g.year {
      assert g.year in ys;
      var i :| 0 <= i < |ys| && ys[i] == g.year;
      assert rows[i].year == g.year;
    }
    forall i | 0 <= i < |rows| ensures HasMathRow(grants, rows[i].year) {
      assert ys[i] in ys;
      var g :| g in grants && g.subject == Mathematics && g.year == ys[i];
      assert g in grants && g.subject == Mathematics && g.year == rows[i].year;
    }

  }

  // ---------------------------------------------------------------------------
  // get_enrollment_thresholds

  /** A row of `get_enrollment_thresholds`. */
  datatype EnrollmentThreshold = EnrollmentThreshold(year: int, rank: int, minContestScore: real)

  /** The years of the faculty's enrollment rows. */
  function FacultyYears(enrollments: seq<EnrollmentRow>, f: int): set<int> {
    set r | r in enrollments && r.facultyId == f :: r.year
  }

  /** The group of one year: its least contest score, and the rank read from
      the first row attaining it (SQLite's bare-column rule for `MIN`). */
  function YearThreshold(enrollments: seq<EnrollmentRow>, f: int, y: int): (t: EnrollmentThreshold)
    requires y in FacultyYears(enrollments, f)
    ensures t.year == y
    ensures exists r :: r in enrollments && r.facultyId == f && r.year == y && r.rank == t.rank && r.contestScore == t.minContestScore
    ensures forall r :: r in enrollments && r.facultyId == f && r.year == y ==> t.minContestScore <= r.contestScore
  {
    var pool := FacultyRows(enrollments, f, y);
    var s := ContestScores(pool);
    var w :| w in enrollments && w.facultyId == f && w.year == y;
    assert w in pool;
    var i := Lowest(s).value;
    assert pool[i] in pool;
    forall r | r in pool ensures s[i] <= r.contestScore {
      var k :| 0 <= k < |pool| && pool[k] == r;
    }
    EnrollmentThreshold(y, pool[i].rank, s[i])
  }

  /** `get_enrollment_thresholds(faculty_id)`: grouped by year only, so one row
      per year of the faculty's rows, keyed by that year (no `ORDER BY`). */
  function EnrollmentThresholds(enrollments: seq<EnrollmentRow>, f: int): (rows: map<int, EnrollmentThreshold>)
    ensures forall y :: y in rows <==> exists r :: r in enrollments && r.facultyId == f && r.year == y
  {
    map y | y in FacultyYears(enrollments, f) :: YearThreshold(enrollments, f, y)
  }

  /** Each row of a year holds the least contest score of that year and the
      rank of a row attaining it. */
  lemma EnrollmentThresholdRows(enrollments: seq<EnrollmentRow>, f: int, y: int)
    requires y in EnrollmentThresholds(enrollments, f)
    ensures var t := EnrollmentThresholds(enrollments, f)[y];
      && t.year == y
      && (exists r :: r in enrollments && r.facultyId == f && r.year == y && r.rank == t.rank && r.contestScore == t.minContestScore)
      && forall r :: r in enrollments && r.facultyId == f && r.year == y ==> t.minContestScore <= r.contestScore
  {
  }
}
