/** Enrollment lines written out from records, as the admission lists print
    them, and what `extract_enrollment_records` reads back from them. */
module RecordLines {
  import opened Wrappers
  import opened Text
  import opened Records

  /** The grant a line may end with, in percent. */
  datatype Grant = Grant50 | Grant70 | Grant100

  function GrantText(g: Grant): string {
    match g
    case Grant50 => "50"
    case Grant70 => "70"
    case Grant100 => "100"
  }

  /** A line of an enrollment list: a record and the grant marker it ends with, if any. */
  datatype Line = Line(record: EnrollmentRecord, grant: Option<Grant>)

  /** A record a line can hold: three or four subject scores of at most 999.9
      (three digits before the point) and a student id of at most nine digits. */
  predicate WellFormed(r: EnrollmentRecord) {
    && 3 <= |r.subjectScores| <= 4
    && (forall k :: 0 <= k < |r.subjectScores| ==> r.subjectScores[k] < 10000)
    && r.studentId < 1000000000
  }

  /** A number of tenths written `d+.d`, with at least `width` digits before the point. */
  function DecimalText(c: nat, width: nat): string {
    Numeral(c / 10, width) + "." + Numeral(c % 10, 1)
  }

  /** The subject scores, each `ddd.d` followed by a blank. */
  function ScoresText(ss: seq<nat>): string
    decreases |ss|
  {
    if ss == [] then "" else DecimalText(ss[0], 3) + " " + ScoresText(ss[1..])
  }

  function MarkerText(g: Option<Grant>): string {
    match g
    case None => ""
    case Some(g) => " " + GrantText(g)
  }

  /** `RANK ID SCORE SCORE SCORE [SCORE] CONTEST [GRANT]` */
  function LineText(l: Line): string {
    var r := l.record;
    Numeral(r.rank, 0) + " " + Numeral(r.studentId, 9) + " " + ScoresText(r.subjectScores)
      + DecimalText(r.contestScore, 0) + MarkerText(l.grant)
  }

  /** The lines, each ended by a newline. */
  function Lines(ls: seq<Line>): string
    decreases |ls|
  {
    if ls == [] then "" else LineText(ls[0]) + "\n" + Lines(ls[1..])
  }

  function RecordsIn(ls: seq<Line>): seq<EnrollmentRecord> {
    seq(|ls|, k requires 0 <= k < |ls| => ls[k].record)
  }

  /** A numeral that begins as a grant does: `50|70|100` matches at its start. */
  predicate GrantPrefix(s: string) {
    "50" <= s || "70" <= s || "100" <= s
  }

  /** `l` has no marker and the rank of the line after it begins as a grant:
      the pattern as written, whose `\s+` crosses the line break, takes that
      rank for the marker of `l`. */
  predicate Absorbs(l: Line, next: Line) {
    l.grant.None? && GrantPrefix(Numeral(next.record.rank, 0))
  }

  /** No line gives its rank to the line before it. */
  predicate NoneAbsorbed(ls: seq<Line>) {
    forall i :: 0 < i < |ls| ==> !Absorbs(ls[i - 1], ls[i])
  }

  // ---------------------------------------------------------------------------
  // The pieces of a line, as strings

  /** A decimal written out reads back as the same number of tenths. */
  lemma DecimalRead(c: nat, width: nat)
    ensures var s := DecimalText(c, width);
      && |s| == |Numeral(c / 10, width)| + 2 && DecimalForm(s) && FloatOf(s) == c
  {
    var n, d := Numeral(c / 10, width), Numeral(c % 10, 1);
    var s := DecimalText(c, width);
    NumeralWidth(c % 10, 1);
    assert |d| == 1;
    assert s[..|s| - 2] == n && s[|s| - 1..] == d;
    NumeralValue(c / 10, width);
    NumeralValue(c % 10, 1);
  }

  /** A subject score is written with exactly three digits before the point. */
  lemma ScoreTextWidth(s: nat)
    requires s < 10000
    ensures |Numeral(s / 10, 3)| == 3 && |DecimalText(s, 3)| == 5
  {
    NumeralWidth(s / 10, 3);
    DecimalRead(s, 3);
  }

  /** A decimal has no white space in it. */
  lemma DecimalWord(c: nat, width: nat)
    ensures IsWord(DecimalText(c, width))
  {
    var s := DecimalText(c, width);
    DecimalRead(c, width);
    forall k | 0 <= k < |s| ensures !IsSpace(s[k]) {
      if k < |s| - 2 {
        assert s[k] == s[..|s| - 2][k];
      }
    }
  }

  function ScoreWords(ss: seq<nat>): seq<string> {
    seq(|ss|, k requires 0 <= k < |ss| => DecimalText(ss[k], 3))
  }

  /** `split()` of the written scores gives one word per score. */
  lemma {:induction false} ScoresSplit(ss: seq<nat>)
    ensures Split(ScoresText(ss)) == ScoreWords(ss)
    decreases |ss|
  {
    if ss != [] {
      DecimalWord(ss[0], 3);
      SplitAfterGap(DecimalText(ss[0], 3), " ", ScoresText(ss[1..]));
      ScoresSplit(ss[1..]);
      assert ScoreWords(ss) == [DecimalText(ss[0], 3)] + ScoreWords(ss[1..]);
    }
  }

  /** The written scores take six characters each. */
  lemma {:induction false} ScoresLength(ss: seq<nat>)
    requires forall k :: 0 <= k < |ss| ==> ss[k] < 10000
    ensures |ScoresText(ss)| == 6 * |ss|
    decreases |ss|
  {
    if ss != [] {
      ScoreTextWidth(ss[0]);
      ScoresLength(ss[1..]);
    }
  }

  /** Reading the written scores back with `float()` gives the scores. */
  lemma ScoresRead(ss: seq<nat>)
    ensures FloatsOf(Split(Strip(ScoresText(ss)))) == ss
  {
    SplitStrip(ScoresText(ss));
    ScoresSplit(ss);
    forall k | 0 <= k < |ss| ensures FloatOf(ScoreWords(ss)[k]) == ss[k] {
      DecimalRead(ss[k], 3);
    }
  }

  /** The subject scores written out have the shape of the scores group. */
  lemma {:induction false} ScoresTextLayout(ss: seq<nat>)
    requires forall k :: 0 <= k < |ss| ==> ss[k] < 10000
    ensures ScoresLayout(ScoresText(ss), |ss|)
    decreases |ss|
  {
    if ss != [] {
      var w := ScoresText(ss);
      var n := Numeral(ss[0] / 10, 3);
      var d := DecimalText(ss[0], 3);
      ScoreTextWidth(ss[0]);
      NumeralWidth(ss[0] % 10, 1);
      ScoresTextLayout(ss[1..]);
      assert w == d + " " + ScoresText(ss[1..]);
      assert w[6..] == ScoresText(ss[1..]);
      assert w[0] == n[0] && w[1] == n[1] && w[2] == n[2] && w[4] == Numeral(ss[0] % 10, 1)[0];
    }
  }

  /** The texts of a well-formed record read back as its fields. */
  lemma FieldsRead(r: EnrollmentRecord)
    requires WellFormed(r)
    ensures IntOf(Numeral(r.rank, 0)) == r.rank && IntOf(Numeral(r.studentId, 9)) == r.studentId
    ensures FloatsOf(Split(Strip(ScoresText(r.subjectScores)))) == r.subjectScores
    ensures FloatOf(DecimalText(r.contestScore, 0)) == r.contestScore
  {
    NumeralValue(r.rank, 0);
    NumeralValue(r.studentId, 9);
    ScoresRead(r.subjectScores);
    DecimalRead(r.contestScore, 0);
  }

  // ---------------------------------------------------------------------------
  // Lines hold no line break

  predicate OneLine(s: string) {
    forall k :: 0 <= k < |s| ==> s[k] != '\n'
  }

  lemma OneLineConcat(a: string, b: string)
    requires OneLine(a) && OneLine(b)
    ensures OneLine(a + b)
  {
    forall k | 0 <= k < |a + b| ensures (a + b)[k] != '\n' {
      if k < |a| { assert (a + b)[k] == a[k]; } else { assert (a + b)[k] == b[k - |a|]; }
    }
  }

  lemma NumeralOneLine(n: nat, width: nat)
    ensures OneLine(Numeral(n, width))
  {
    var s := Numeral(n, width);
    assert forall k :: 0 <= k < |s| ==> IsDigit(s[k]);
  }

  lemma DecimalOneLine(c: nat, width: nat)
    ensures OneLine(DecimalText(c, width))
  {
    NumeralOneLine(c / 10, width);
    NumeralOneLine(c % 10, 1);
    OneLineConcat(Numeral(c / 10, width), ".");
    OneLineConcat(Numeral(c / 10, width) + ".", Numeral(c % 10, 1));
  }

  lemma {:induction false} ScoresOneLine(ss: seq<nat>)
    ensures OneLine(ScoresText(ss))
    decreases |ss|
  {
    if ss != [] {
      DecimalOneLine(ss[0], 3);
      ScoresOneLine(ss[1..]);
      OneLineConcat(DecimalText(ss[0], 3), " ");
      OneLineConcat(DecimalText(ss[0], 3) + " ", ScoresText(ss[1..]));
    }
  }

  /** A written line holds no newline, and it is not empty. */
  lemma LineOneLine(l: Line)
    ensures OneLine(LineText(l)) && LineText(l) != []
  {
    var r := l.record;
    var R, I, S, C, M := Numeral(r.rank, 0), Numeral(r.studentId, 9), ScoresText(r.subjectScores),
      DecimalText(r.contestScore, 0), MarkerText(l.grant);
    NumeralOneLine(r.rank, 0);
    NumeralOneLine(r.studentId, 9);
    ScoresOneLine(r.subjectScores);
    DecimalOneLine(r.contestScore, 0);
    assert OneLine(M);
    OneLineConcat(R, " ");
    OneLineConcat(R + " ", I);
    OneLineConcat(R + " " + I, " ");
    OneLineConcat(R + " " + I + " ", S);
    OneLineConcat(R + " " + I + " " + S, C);
    OneLineConcat(R + " " + I + " " + S + C, M);
  }

  // ---------------------------------------------------------------------------
  // The pattern over the pieces of a line

  /** What may follow the newline after a line: the end of the text or the
      rank of the next line and its blank. */
  predicate LineFollows(t: string, q: nat) {
    q <= |t| && (q == |t| || (IsDigit(t[q]) && q + Run(t, q, Digits) < |t| && t[q + Run(t, q, Digits)] == ' '))
  }

  /** One blank before a digit is a white-space run of one. */
  lemma BlankRun(t: string, i: nat, k: CharClass)
    requires k == Spaces || k == LineSpaces
    requires i + 1 < |t| && t[i] == ' ' && IsDigit(t[i + 1])
    ensures Run(t, i, k) == 1
  {
    RunExact(t, i, i + 1, k);
  }

  /** The head of the line from the lengths of its runs. */
  lemma HeadFromRuns(t: string, p: nat, a: nat)
    requires LineStart(t, p) && p < a && a + 11 <= |t|
    requires Run(t, p, Digits) == a - p && Run(t, a, Spaces) == 1
    requires Run(t, a + 1, Digits) == 9 && Run(t, a + 10, Spaces) == 1
    ensures HeadAt(t, p) == Some((a, a + 1, a + 11))
  {
  }

  /** The rank and the student id at the start of a line. */
  lemma HeadRead(t: string, p: nat, a: nat, rank: string, id: string)
    requires LineStart(t, p) && rank != [] && AllDigits(rank) && |id| == 9 && AllDigits(id)
    requires a == p + |rank| && a + 12 <= |t|
    requires Spells(t, p, rank) && t[a] == ' '
    requires Spells(t, a + 1, id) && t[a + 10] == ' '
    requires IsDigit(t[a + 11])
    ensures HeadAt(t, p) == Some((a, a + 1, a + 11))
  {
    SpellsSlice(t, p, rank);
    SpellsSlice(t, a + 1, id);
    DigitRun(t, p, rank);
    assert t[a + 1] == id[0];
    BlankRun(t, a, Spaces);
    DigitRun(t, a + 1, id);
    BlankRun(t, a + 10, Spaces);
    HeadFromRuns(t, p, a);
  }

  /** `n` positions six characters apart, from `x`. */
  function Offsets(x: nat, n: nat): (xs: seq<nat>)
    ensures |xs| == n && (n > 0 ==> xs[0] == x)
    decreases n
  {
    if n == 0 then [] else [x] + Offsets(x + 6, n - 1)
  }

  /** `n` subject scores `ddd.d`, each followed by a blank. */
  predicate ScoresLayout(w: string, n: nat)
    decreases n
  {
    if n == 0 then w == [] else |w| >= 6 && ScoreAt(w, 0) && w[5] == ' ' && ScoresLayout(w[6..], n - 1)
  }

  lemma {:induction false} ScoresLayoutLength(w: string, n: nat)
    requires ScoresLayout(w, n)
    ensures |w| == 6 * n
    decreases n
  {
    if n > 0 {
      ScoresLayoutLength(w[6..], n - 1);
    }
  }

  /** Scores of that shape at `x`, followed by a digit, are a chain of
      repetitions six characters apart. */
  lemma {:induction false} ChainAt(t: string, x: nat, w: string, n: nat, e: nat)
    requires ScoresLayout(w, n) && e == x + |w| && e < |t| && Spells(t, x, w) && IsDigit(t[e])
    ensures Chain(t, Offsets(x, n), e) && IsDigit(t[x])
    decreases n
  {
    if n > 0 {
      var u, v := w[..6], w[6..];
      assert w == u + v;
      SpellsSplit(t, x, u, v);
      SpellsSlice(t, x, u);
      ChainAt(t, x + 6, v, n - 1, e);
      assert t[x] == u[0] && t[x + 1] == u[1] && t[x + 2] == u[2] && t[x + 3] == u[3];
      assert t[x + 4] == u[4] && t[x + 5] == u[5];
      RunExact(t, x + 5, x + 6, Spaces);
      assert Offsets(x, n)[1..] == Offsets(x + 6, n - 1);
    }
  }

  /** A contest score `d+.d` at `y`: `\d+\.\d` ends with it, and it is taken
      for a subject score only when it has exactly three digits before the point. */
  lemma ContestAt(t: string, y: nat, c: string)
    requires DecimalForm(c) && Spells(t, y, c)
    ensures y + |c| <= |t| && DecimalEnd(t, y) == Some(y + |c|)
    ensures ScoreAt(t, y) ==> |c| == 5
  {
    SpellsSlice(t, y, c);
    var d := c[..|c| - 2];
    assert c == d + c[|c| - 2..];
    SliceHalves(t, y, d, c[|c| - 2..]);
    assert t[y + |d|] == c[|c| - 2] && t[y + |d| + 1] == c[|c| - 1];
    DigitRun(t, y, d);
  }

  /** After a line without a grant marker: the newline, then the end of the
      text or the rank of the next line and its blank. No decimal is read there. */
  lemma AfterBreak(t: string, z: nat)
    requires z < |t| && t[z] == '\n' && LineFollows(t, z + 1)
    ensures DecimalEnd(t, z + Run(t, z, Spaces)) == None
  {
    RunExact(t, z, z + 1, Spaces);
    if z + 1 == |t| {
      assert Run(t, z + 1, Digits) == 0;
    }
  }

  /** After a line with a grant marker: a blank, the digits of the grant and
      the newline. No decimal is read there. */
  lemma AfterGrant(t: string, z: nat, q: nat, w: string)
    requires w != [] && AllDigits(w) && q == z + 1 + |w| && q < |t|
    requires t[z] == ' ' && Spells(t, z + 1, w) && t[q] == '\n'
    ensures DecimalEnd(t, z + Run(t, z, Spaces)) == None
  {
    SpellsSlice(t, z + 1, w);
    assert t[z + 1] == w[0];
    BlankRun(t, z, Spaces);
    DigitRun(t, z + 1, w);
  }

  /** After the contest score of a line, no decimal can be read past the white
      space: the fourth repetition is never completed by a contest score there. */
  lemma AfterContest(t: string, z: nat, q: nat, g: Option<Grant>)
    requires q == z + |MarkerText(g)| && q < |t| && Spells(t, z, MarkerText(g))
    requires t[q] == '\n'
    requires g.None? ==> LineFollows(t, z + 1)
    ensures DecimalEnd(t, z + Run(t, z, Spaces)) == None
  {
    match g
    case None =>
      AfterBreak(t, z);
    case Some(gr) =>
      var w := GrantText(gr);
      SpellsSplit(t, z, " ", w);
      AfterGrant(t, z, q, w);
  }

  /** Where the white space before the marker can reach from the line break
      before `y`: with `\s+` as written, into the next line, which then must
      not begin as a grant. */
  predicate BareEnd(t: string, y: nat, gap: MarkerGap) {
    y <= |t| && (gap == AnySpace ==> GrantWidth(t, y) == 0)
  }

  /** A grant after a blank is the marker, whichever of the three it is. */
  lemma GrantRead(t: string, z: nat, g: Grant, gap: MarkerGap)
    requires z < |t| && Run(t, z, GapClass(gap)) == 1 && Spells(t, z + 1, GrantText(g))
    ensures MarkerEnd(t, z, gap) == z + 1 + |GrantText(g)|
  {
    SpellsSlice(t, z + 1, GrantText(g));
    assert t[z + 1] == GrantText(g)[0] && t[z + 2] == GrantText(g)[1];
    if g == Grant100 {
      assert t[z + 3] == GrantText(g)[2];
    }
  }

  /** The marker of a line. Without one, the white space that stays on the
      line is none, and `\s+` as written takes the line break and finds no
      grant after it. */
  lemma MarkerRead(t: string, z: nat, g: Option<Grant>, gap: MarkerGap)
    requires z + |MarkerText(g)| < |t| && Spells(t, z, MarkerText(g))
    requires t[z + |MarkerText(g)|] == '\n'
    requires g.None? ==> LineFollows(t, z + 1) && BareEnd(t, z + 1, gap)
    ensures MarkerEnd(t, z, gap) == z + |MarkerText(g)|
  {
    match g
    case None =>
      if gap == LineSpace {
        RunExact(t, z, z, LineSpaces);
      } else {
        RunExact(t, z, z + 1, Spaces);
      }
    case Some(gr) =>
      var w := GrantText(gr);
      SpellsSplit(t, z, " ", w);
      assert t[z + 1] == w[0];
      BlankRun(t, z, GapClass(gap));
      GrantRead(t, z, gr, gap);
  }

  /** The scores part of the pattern from its pieces: four repetitions when
      they are there and the contest score follows them, three when a fourth
      cannot be completed. */
  lemma ScoresFromOf(t: string, x0: nat, xs: seq<nat>, e: nat, c: nat)
    requires 3 <= |xs| <= 4 && xs[0] == x0 && x0 <= |t| && e <= |t|
    requires Chain(t, xs, e)
    requires DecimalEnd(t, e) == Some(c)
    requires |xs| == 3 ==> ScoreStep(t, e).None? || DecimalEnd(t, ScoreStep(t, e).value).None?
    ensures ScoresFrom(t, x0) == Some((xs, e, c))
  {
    var ys := xs[1..];
    assert ScoreStep(t, xs[0]) == Some(xs[1]) && Chain(t, ys, e);
    var zs := ys[1..];
    assert ScoreStep(t, xs[1]) == Some(xs[2]) && Chain(t, zs, e);
    if |xs| == 4 {
      assert ScoreStep(t, xs[2]) == Some(xs[3]) && Chain(t, zs[1..], e);
      assert ScoreStep(t, xs[3]) == Some(e);
      assert xs == [xs[0], xs[1], xs[2], xs[3]];
    } else {
      assert ScoreStep(t, xs[2]) == Some(e);
      assert xs == [xs[0], xs[1], xs[2]];
    }
  }

  /** Where a line starts right after one that is not a line break, the pattern
      does not match. */
  lemma MidLine(t: string, i: nat, gap: MarkerGap)
    requires 0 < i <= |t| && t[i - 1] != '\n'
    ensures RecordAt(t, i, gap) == None
  {
  }

  /** The pieces of a line spelled out at `p`, up to its line break at `q`:
      the rank up to `a`, the student id, the subject scores from `a + 11` up
      to `e`, the contest score up to `z` and the marker. */
  predicate PiecesAt(t: string, p: nat, a: nat, e: nat, z: nat, q: nat,
                     rank: string, id: string, w: string, c: string, m: string) {
    && a == p + |rank| && e == a + 11 + |w| && z == e + |c| && q == z + |m| && q < |t|
    && Spells(t, p, rank) && t[a] == ' ' && Spells(t, a + 1, id) && t[a + 10] == ' '
    && Spells(t, a + 11, w) && Spells(t, e, c) && Spells(t, z, m) && t[q] == '\n'
  }

  /** The text `R ID SCORES CONTEST MARKER` and a line break spelled out at
      `p` gives its pieces. */
  lemma FieldsSpelled(t: string, p: nat, a: nat, e: nat, z: nat, q: nat, R: string, I: string, S: string, C: string, M: string)
    requires |I| == 9 && a == p + |R| && e == a + 11 + |S| && z == e + |C| && q == z + |M|
    requires Spells(t, p, R + " " + I + " " + S + C + M + "\n")
    ensures PiecesAt(t, p, a, e, z, q, R, I, S, C, M)
  {
    var u2 := R + " ";
    var u3 := u2 + I;
    var u4 := u3 + " ";
    var u5 := u4 + S;
    var u6 := u5 + C;
    var u7 := u6 + M;
    SpellsSplit(t, p, u7, "\n");
    SpellsSplit(t, p, u6, M);
    SpellsSplit(t, p, u5, C);
    SpellsSplit(t, p, u4, S);
    SpellsSplit(t, p, u3, " ");
    SpellsSplit(t, p, u2, I);
    SpellsSplit(t, p, R, " ");
  }

  /** A fourth repetition tried at the contest score is not followed by a decimal. */
  lemma FourthFails(t: string, e: nat, z: nat, q: nat, c: string, g: Option<Grant>)
    requires DecimalForm(c) && z == e + |c| && q == z + |MarkerText(g)| && q < |t|
    requires Spells(t, e, c) && Spells(t, z, MarkerText(g)) && t[q] == '\n'
    requires g.None? ==> LineFollows(t, z + 1)
    ensures ScoreStep(t, e).None? || DecimalEnd(t, ScoreStep(t, e).value).None?
  {
    ContestAt(t, e, c);
    if ScoreStep(t, e).Some? {
      NoFourth(t, e, z, q, g);
    }
  }

  /** A fourth repetition tried at `e`, five characters before the marker at `z`. */
  lemma NoFourth(t: string, e: nat, z: nat, q: nat, g: Option<Grant>)
    requires e <= |t| && z == e + 5 && ScoreStep(t, e).Some?
    requires q == z + |MarkerText(g)| && q < |t| && Spells(t, z, MarkerText(g)) && t[q] == '\n'
    requires g.None? ==> LineFollows(t, z + 1)
    ensures DecimalEnd(t, ScoreStep(t, e).value).None?
  {
    StepFrom(t, e, z);
    AfterContest(t, z, q, g);
  }

  /** Where a repetition tried at `e` would resume, seen from `z = e + 5`. */
  lemma StepFrom(t: string, e: nat, z: nat)
    requires e <= |t| && z == e + 5 && ScoreStep(t, e).Some?
    ensures z <= |t| && ScoreStep(t, e).value == z + Run(t, z, Spaces)
  {
  }

  /** The contest score and the marker of a line: `\d+\.\d` reads the contest
      score, and a fourth repetition tried there cannot be completed. */
  lemma ContestTail(t: string, e: nat, z: nat, q: nat, c: string, g: Option<Grant>)
    requires DecimalForm(c) && z == e + |c| && q == z + |MarkerText(g)| && q < |t|
    requires Spells(t, e, c) && Spells(t, z, MarkerText(g)) && t[q] == '\n'
    requires g.None? ==> LineFollows(t, z + 1)
    ensures IsDigit(t[e]) && DecimalEnd(t, e) == Some(z)
    ensures ScoreStep(t, e).None? || DecimalEnd(t, ScoreStep(t, e).value).None?
  {
    FourthFails(t, e, z, q, c, g);
    ContestAt(t, e, c);
    assert t[e] == c[0] && c[0] == c[..|c| - 2][0];
  }

  /** The scores, the contest score and the marker of a line: the scores part
      of the pattern matches them, with three repetitions or four as the line has. */
  lemma TailRead(t: string, x: nat, e: nat, z: nat, q: nat, w: string, n: nat, c: string, g: Option<Grant>)
    requires 3 <= n <= 4 && ScoresLayout(w, n) && DecimalForm(c)
    requires e == x + |w| && z == e + |c| && q == z + |MarkerText(g)| && q < |t|
    requires Spells(t, x, w) && Spells(t, e, c) && Spells(t, z, MarkerText(g)) && t[q] == '\n'
    requires g.None? ==> LineFollows(t, z + 1)
    ensures IsDigit(t[x])
    ensures ScoresFrom(t, x) == Some((Offsets(x, n), e, z))
  {
    ContestTail(t, e, z, q, c, g);
    ChainAt(t, x, w, n, e);
    ScoresFromOf(t, x, Offsets(x, n), e, z);
  }

  /** The match the pattern finds at a line start `p` whose pieces end at `a`
      (the rank), `e` (the scores, `n` of them) and `z` (the contest score). */
  function PiecesMatch(t: string, p: nat, a: nat, e: nat, z: nat, n: nat, gap: MarkerGap): RecordMatch
    requires z <= |t|
  {
    RecordMatch(p, a, a + 1, Offsets(a + 11, n), e, z, MarkerEnd(t, z, gap))
  }

  /** The pattern from the head of a line and the scores part after it. */
  lemma MatchFrom(t: string, p: nat, a: nat, e: nat, z: nat, n: nat, gap: MarkerGap)
    requires p < a && a + 11 <= |t| && z <= |t|
    requires HeadAt(t, p) == Some((a, a + 1, a + 11))
    requires ScoresFrom(t, a + 11) == Some((Offsets(a + 11, n), e, z))
    ensures RecordAt(t, p, gap) == Some(PiecesMatch(t, p, a, e, z, n, gap))
  {
    RecordAtOf(t, p, gap, a, a + 1, a + 11, Offsets(a + 11, n), e, z);
  }

  /** At the start of a line, the pattern matches its pieces. */
  lemma PiecesRead(t: string, p: nat, a: nat, e: nat, z: nat, q: nat, n: nat, g: Option<Grant>,
                   rank: string, id: string, w: string, c: string, gap: MarkerGap)
    requires LineStart(t, p) && rank != [] && AllDigits(rank) && |id| == 9 && AllDigits(id)
    requires 3 <= n <= 4 && ScoresLayout(w, n) && DecimalForm(c)
    requires PiecesAt(t, p, a, e, z, q, rank, id, w, c, MarkerText(g))
    requires g.None? ==> LineFollows(t, z + 1)
    ensures z <= |t| && RecordAt(t, p, gap) == Some(PiecesMatch(t, p, a, e, z, n, gap))
  {
    PiecesTail(t, p, a, e, z, q, n, g, rank, id, w, c);
    PiecesHead(t, p, a, e, z, q, g, rank, id, w, c);
    MatchFrom(t, p, a, e, z, n, gap);
  }

  /** The scores, contest score and marker of a line's pieces. */
  lemma PiecesTail(t: string, p: nat, a: nat, e: nat, z: nat, q: nat, n: nat, g: Option<Grant>,
                   rank: string, id: string, w: string, c: string)
    requires 3 <= n <= 4 && ScoresLayout(w, n) && DecimalForm(c)
    requires PiecesAt(t, p, a, e, z, q, rank, id, w, c, MarkerText(g))
    requires g.None? ==> LineFollows(t, z + 1)
    ensures a + 11 < |t| && IsDigit(t[a + 11]) && ScoresFrom(t, a + 11) == Some((Offsets(a + 11, n), e, z))
  {
    TailRead(t, a + 11, e, z, q, w, n, c, g);
  }

  /** The rank and student id of a line's pieces. */
  lemma PiecesHead(t: string, p: nat, a: nat, e: nat, z: nat, q: nat, g: Option<Grant>,
                   rank: string, id: string, w: string, c: string)
    requires LineStart(t, p) && rank != [] && AllDigits(rank) && |id| == 9 && AllDigits(id)
    requires PiecesAt(t, p, a, e, z, q, rank, id, w, c, MarkerText(g))
    requires a + 11 < |t| && IsDigit(t[a + 11])
    ensures p < a && HeadAt(t, p) == Some((a, a + 1, a + 11))
  {
    HeadRead(t, p, a, rank, id);
  }

  /** The groups of a match spelled out by the pieces convert to them. */
  lemma PiecesRecord(t: string, m: RecordMatch, rank: string, id: string, w: string, c: string)
    requires GroupBounds(t, m)
    requires m.rankEnd == m.start + |rank| && Spells(t, m.start, rank)
    requires |id| == 9 && Spells(t, m.idStart, id)
    requires m.scoresEnd == m.pieces[0] + |w| && Spells(t, m.pieces[0], w)
    requires m.contestEnd == m.scoresEnd + |c| && Spells(t, m.scoresEnd, c)
    ensures RecordOf(t, m) == EnrollmentRecord(IntOf(rank), IntOf(id), FloatsOf(Split(Strip(w))), FloatOf(c))
  {
    SpellsSlice(t, m.start, rank);
    SpellsSlice(t, m.idStart, id);
    SpellsSlice(t, m.pieces[0], w);
    SpellsSlice(t, m.scoresEnd, c);
    var R, I, W, C := t[m.start..m.rankEnd], t[m.idStart..m.idStart + 9], t[m.pieces[0]..m.scoresEnd],
      t[m.scoresEnd..m.contestEnd];
    assert R == rank && I == id && W == w && C == c;
    assert RecordOf(t, m) == EnrollmentRecord(IntOf(R), IntOf(I), FloatsOf(Split(Strip(W))), FloatOf(C));
  }

  /** The match of a line's pieces converts to the record they spell. */
  lemma PiecesMatchRecord(t: string, p: nat, a: nat, e: nat, z: nat, q: nat, n: nat, g: Option<Grant>,
                          rank: string, id: string, w: string, c: string, gap: MarkerGap)
    requires 1 <= n && |id| == 9 && PiecesAt(t, p, a, e, z, q, rank, id, w, c, MarkerText(g))
    ensures GroupBounds(t, PiecesMatch(t, p, a, e, z, n, gap))
    ensures RecordOf(t, PiecesMatch(t, p, a, e, z, n, gap))
      == EnrollmentRecord(IntOf(rank), IntOf(id), FloatsOf(Split(Strip(w))), FloatOf(c))
  {
    var m := PiecesMatch(t, p, a, e, z, n, gap);
    assert m.start == p && m.rankEnd == a && m.idStart == a + 1 && m.pieces[0] == a + 11;
    assert m.scoresEnd == e && m.contestEnd == z;
    PiecesRecord(t, m, rank, id, w, c);
  }

  /** The last character of a line's pieces is not a line break. */
  lemma PiecesEnd(t: string, z: nat, q: nat, c: string, m: string)
    requires |c| > 0 && z >= |c| && q == z + |m| && q < |t| && OneLine(c) && OneLine(m)
    requires Spells(t, z - |c|, c) && Spells(t, z, m)
    ensures t[q - 1] != '\n'
  {
    if m == [] {
      SpellsSlice(t, z - |c|, c);
      assert t[q - 1] == c[|c| - 1];
    } else {
      SpellsSlice(t, z, m);
      assert t[q - 1] == m[|m| - 1];
    }
  }

  /** A match at `p` ending at a line break `q` where no match starts gives
      its record, then what is found after the line break. */
  lemma RecordsAcross(t: string, p: nat, q: nat, y: nat, m: RecordMatch, r: EnrollmentRecord, gap: MarkerGap)
    requires p <= q < |t| && y == q + 1 && RecordAt(t, p, gap) == Some(m) && m.end == q && RecordAt(t, q, gap).None?
    requires GroupBounds(t, m) && RecordOf(t, m) == r
    ensures EnrollmentRecordsFrom(t, p, gap) == [r] + EnrollmentRecordsFrom(t, y, gap)
  {
    RecordsFromMatch(t, p, gap, m);
    RecordsFromNext(t, q, y, gap);
  }

  /** The pattern matches a line spelled out by its pieces at its start, and
      the next match is found after its line break. */
  lemma PiecesRecords(t: string, p: nat, a: nat, e: nat, z: nat, q: nat, y: nat, n: nat, g: Option<Grant>,
                      rank: string, id: string, w: string, c: string, gap: MarkerGap)
    requires LineStart(t, p) && rank != [] && AllDigits(rank) && |id| == 9 && AllDigits(id)
    requires 3 <= n <= 4 && ScoresLayout(w, n) && DecimalForm(c) && OneLine(c) && OneLine(MarkerText(g))
    requires PiecesAt(t, p, a, e, z, q, rank, id, w, c, MarkerText(g)) && y == q + 1
    requires g.None? ==> LineFollows(t, y) && BareEnd(t, y, gap)
    ensures EnrollmentRecordsFrom(t, p, gap)
      == [EnrollmentRecord(IntOf(rank), IntOf(id), FloatsOf(Split(Strip(w))), FloatOf(c))]
         + EnrollmentRecordsFrom(t, y, gap)
  {
    assert g.None? ==> z + 1 == y;
    PiecesRead(t, p, a, e, z, q, n, g, rank, id, w, c, gap);
    PiecesMatchRecord(t, p, a, e, z, q, n, g, rank, id, w, c, gap);
    PiecesMatchEnd(t, p, a, e, z, q, n, g, rank, id, w, c, gap);
    RecordsAcross(t, p, q, y, PiecesMatch(t, p, a, e, z, n, gap),
      EnrollmentRecord(IntOf(rank), IntOf(id), FloatsOf(Split(Strip(w))), FloatOf(c)), gap);
  }

  /** The match of a line's pieces ends before its line break, where the
      pattern matches nothing. */
  lemma PiecesMatchEnd(t: string, p: nat, a: nat, e: nat, z: nat, q: nat, n: nat, g: Option<Grant>,
                       rank: string, id: string, w: string, c: string, gap: MarkerGap)
    requires DecimalForm(c) && OneLine(c) && OneLine(MarkerText(g))
    requires PiecesAt(t, p, a, e, z, q, rank, id, w, c, MarkerText(g))
    requires g.None? ==> LineFollows(t, z + 1) && BareEnd(t, z + 1, gap)
    ensures PiecesMatch(t, p, a, e, z, n, gap).end == q && RecordAt(t, q, gap).None?
  {
    MarkerRead(t, z, g, gap);
    PiecesEnd(t, z, q, c, MarkerText(g));
    MidLine(t, q, gap);
  }

  /** The marker holds no line break. */
  lemma MarkerOneLine(g: Option<Grant>)
    ensures OneLine(MarkerText(g))
  {
  }

  /** The pieces of a written line: what the pattern needs of them, and the
      record they convert back to. */
  lemma LinePieces(l: Line)
    requires WellFormed(l.record)
    ensures var r := l.record;
      var R, I, S, C, M := Numeral(r.rank, 0), Numeral(r.studentId, 9), ScoresText(r.subjectScores),
        DecimalText(r.contestScore, 0), MarkerText(l.grant);
      && LineText(l) + "\n" == R + " " + I + " " + S + C + M + "\n"
      && |LineText(l)| == |R| + 11 + |S| + |C| + |M|
      && R != [] && AllDigits(R) && |I| == 9 && AllDigits(I)
      && ScoresLayout(S, |r.subjectScores|) && 3 <= |r.subjectScores| <= 4
      && DecimalForm(C) && OneLine(C) && OneLine(M)
      && EnrollmentRecord(IntOf(R), IntOf(I), FloatsOf(Split(Strip(S))), FloatOf(C)) == r
  {
    var r := l.record;
    assert Pow10(9) == 1000000000;
    NumeralWidth(r.studentId, 9);
    ScoresTextLayout(r.subjectScores);
    DecimalRead(r.contestScore, 0);
    DecimalOneLine(r.contestScore, 0);
    MarkerOneLine(l.grant);
    FieldsRead(r);
  }

  /** A written line spelled out at a line start `p`, with its line break:
      the pattern reads its record back, and goes on after the line break. */
  lemma LineRecords(t: string, p: nat, y: nat, l: Line, gap: MarkerGap)
    requires LineAt(t, p, y, l, gap)
    ensures p <= |t| && y <= |t| && LineStart(t, y)
    ensures EnrollmentRecordsFrom(t, p, gap) == [l.record] + EnrollmentRecordsFrom(t, y, gap)
  {
    var r := l.record;
    LinePieces(l);
    TextRecords(t, p, y - 1, y, Numeral(r.rank, 0), Numeral(r.studentId, 9), ScoresText(r.subjectScores),
      DecimalText(r.contestScore, 0), |r.subjectScores|, l.grant, gap);
  }

  /** The same, for a line given by its pieces. */
  lemma TextRecords(t: string, p: nat, q: nat, y: nat, R: string, I: string, S: string, C: string, n: nat, g: Option<Grant>,
                    gap: MarkerGap)
    requires LineStart(t, p) && R != [] && AllDigits(R) && |I| == 9 && AllDigits(I)
    requires 3 <= n <= 4 && ScoresLayout(S, n) && DecimalForm(C) && OneLine(C) && OneLine(MarkerText(g))
    requires q == p + |R| + 11 + |S| + |C| + |MarkerText(g)| && y == q + 1
    requires Spells(t, p, R + " " + I + " " + S + C + MarkerText(g) + "\n")
    requires g.None? ==> LineFollows(t, y) && BareEnd(t, y, gap)
    ensures y <= |t| && LineStart(t, y)
    ensures EnrollmentRecordsFrom(t, p, gap)
      == [EnrollmentRecord(IntOf(R), IntOf(I), FloatsOf(Split(Strip(S))), FloatOf(C))] + EnrollmentRecordsFrom(t, y, gap)
  {
    var M := MarkerText(g);
    var a := p + |R|;
    var e := a + 11 + |S|;
    var z := e + |C|;
    FieldsSpelled(t, p, a, e, z, q, R, I, S, C, M);
    assert t[q] == '\n' && LineStart(t, y);
    PiecesRecords(t, p, a, e, z, q, y, n, g, R, I, S, C, gap);
  }

  /** A rank and a blank at `q`: what may follow a line break. */
  lemma RankFollows(t: string, q: nat, R: string)
    requires R != [] && AllDigits(R) && Spells(t, q, R) && q + |R| < |t| && t[q + |R|] == ' '
    ensures LineFollows(t, q)
  {
    SpellsSlice(t, q, R);
    assert t[q] == R[0];
    DigitRun(t, q, R);
  }

  /** A written line spelled out at `q` begins with a rank and a blank. */
  lemma LineBegins(t: string, q: nat, l: Line)
    requires Spells(t, q, LineText(l) + "\n")
    ensures LineFollows(t, q)
  {
    var R := Numeral(l.record.rank, 0);
    var u := LineText(l) + "\n";
    var v := u[|R| + 1..];
    LineHead(l);
    SpellsSplit(t, q, R + " ", v);
    SpellsSplit(t, q, R, " ");
    RankFollows(t, q, R);
  }

  /** A written line begins with its rank and a blank. */
  lemma LineHead(l: Line)
    ensures var R := Numeral(l.record.rank, 0);
      |R| + 1 <= |LineText(l) + "\n"| && LineText(l) + "\n" == (R + " ") + (LineText(l) + "\n")[|R| + 1..]
  {
    var R := Numeral(l.record.rank, 0);
    var u := LineText(l) + "\n";
    assert u[..|R| + 1] == R + " ";
    assert u == u[..|R| + 1] + u[|R| + 1..];
  }

  /** Every written line holds a well-formed record. */
  predicate AllWellFormed(ls: seq<Line>) {
    forall k :: 0 <= k < |ls| ==> WellFormed(ls[k].record)
  }

  /** The written lines, each with its line break. */
  function LineTexts(ls: seq<Line>): (ws: seq<string>)
    ensures |ws| == |ls|
    decreases |ls|
  {
    if ls == [] then [] else [LineText(ls[0]) + "\n"] + LineTexts(ls[1..])
  }

  lemma {:induction false} LineTextsAt(ls: seq<Line>, i: nat)
    requires i < |ls|
    ensures LineTexts(ls)[i] == LineText(ls[i]) + "\n"
    decreases i
  {
    if i > 0 {
      LineTextsAt(ls[1..], i - 1);
    }
  }

  lemma {:induction false} LinesConcat(ls: seq<Line>)
    ensures Lines(ls) == Concat(LineTexts(ls))
    decreases |ls|
  {
    if ls != [] {
      LinesConcat(ls[1..]);
      assert LineTexts(ls)[1..] == LineTexts(ls[1..]);
    }
  }

  /** Where the written lines `ls` start when the first starts at `p`: one
      position per line, then the position after the last line break. */
  function Starts(p: nat, ls: seq<Line>): (ps: seq<nat>)
    ensures |ps| == |ls| + 1
  {
    PieceStarts(p, LineTexts(ls))
  }

  /** The written line `l` spelled out from a line start `x` with its line break,
      up to the next line start `y`, where, when `l` has no marker, a line
      follows that the white space before the marker cannot reach into. */
  predicate LineAt(t: string, x: nat, y: nat, l: Line, gap: MarkerGap) {
    && WellFormed(l.record) && LineStart(t, x) && y == x + |LineText(l)| + 1
    && Spells(t, x, LineText(l) + "\n") && After(t, y, l, gap)
  }

  /** What follows the line break of `l` at `y`, when `l` has no marker: the
      end of the text or a line, which the white space before the marker
      cannot reach into. */
  predicate After(t: string, y: nat, l: Line, gap: MarkerGap) {
    l.grant.None? ==> LineFollows(t, y) && BareEnd(t, y, gap)
  }

  /** The `i`-th of the written lines `ls` is a line at its start `ps[i]`. */
  predicate LineAtIndex(t: string, ps: seq<nat>, ls: seq<Line>, i: nat, gap: MarkerGap)
    requires |ps| == |ls| + 1
  {
    i < |ls| && LineAt(t, ps[i], ps[i + 1], ls[i], gap)
  }

  /** The `j`-th piece is the `j`-th line with its line break, and the next
      piece starts at `ps[k]`. */
  lemma PieceText(t: string, ps: seq<nat>, ls: seq<Line>, j: nat, k: nat)
    requires |ps| == |ls| + 1 && k == j + 1 && SpelledPiece(t, ps, LineTexts(ls), j)
    ensures j < |ls| && ps[k] == ps[j] + |LineText(ls[j])| + 1 && Spells(t, ps[j], LineText(ls[j]) + "\n")
  {
    LineTextsAt(ls, j);
  }

  /** The `k`-th line begins with a rank and a blank. */
  lemma RankAt(t: string, ps: seq<nat>, ls: seq<Line>, k: nat)
    requires |ps| == |ls| + 1 && SpelledPiece(t, ps, LineTexts(ls), k)
    ensures LineFollows(t, ps[k])
  {
    PieceText(t, ps, ls, k, k + 1);
    LineBegins(t, ps[k], ls[k]);
  }

  /** A rank and a blank spelled out at `q`, not beginning as a grant: no
      alternative of `50|70|100` matches at `q`. */
  lemma RankNoGrant(t: string, q: nat, R: string)
    requires R != [] && Spells(t, q, R) && q + |R| < |t| && t[q + |R|] == ' ' && !GrantPrefix(R)
    ensures GrantWidth(t, q) == 0
  {
    SpellsSlice(t, q, R);
    if |R| >= 2 {
      assert R[0] == t[q] && R[1] == t[q + 1];
      assert R[..2] == [t[q], t[q + 1]];
    }
    if |R| >= 3 {
      assert R[2] == t[q + 2];
      assert R[..3] == [t[q], t[q + 1], t[q + 2]];
    }
  }

  /** A written line spelled out at `q` whose rank does not begin as a grant. */
  lemma LineNoGrant(t: string, q: nat, l: Line)
    requires Spells(t, q, LineText(l) + "\n") && !GrantPrefix(Numeral(l.record.rank, 0))
    ensures GrantWidth(t, q) == 0
  {
    var R := Numeral(l.record.rank, 0);
    var u := LineText(l) + "\n";
    LineHead(l);
    SpellsSplit(t, q, R + " ", u[|R| + 1..]);
    SpellsSplit(t, q, R, " ");
    RankNoGrant(t, q, R);
  }

  /** The `k`-th line, when its rank does not begin as a grant. */
  lemma RankNoGrantAt(t: string, ps: seq<nat>, ls: seq<Line>, k: nat)
    requires |ps| == |ls| + 1 && SpelledPiece(t, ps, LineTexts(ls), k)
    requires !GrantPrefix(Numeral(ls[k].record.rank, 0))
    ensures ps[k] <= |t| && GrantWidth(t, ps[k]) == 0
  {
    PieceText(t, ps, ls, k, k + 1);
    LineNoGrant(t, ps[k], ls[k]);
  }

  /** The `i`-th line, from what comes before and after it. */
  lemma PieceLineAt(t: string, ps: seq<nat>, ls: seq<Line>, i: nat, gap: MarkerGap)
    requires |ps| == |ls| + 1 && ps[|ls|] == |t| && i < |ls| && WellFormed(ls[i].record)
    requires SpelledPiece(t, ps, LineTexts(ls), i) && LineStart(t, ps[i])
    requires After(t, ps[i + 1], ls[i], gap)
    ensures LineAtIndex(t, ps, ls, i, gap)
  {
    PieceText(t, ps, ls, i, i + 1);
    LineAtOf(t, ps[i], ps[i + 1], ls[i], gap);
  }

  lemma LineAtOf(t: string, x: nat, y: nat, l: Line, gap: MarkerGap)
    requires WellFormed(l.record) && LineStart(t, x) && y == x + |LineText(l)| + 1
    requires Spells(t, x, LineText(l) + "\n") && After(t, y, l, gap)
    ensures LineAt(t, x, y, l, gap)
  {
  }

  /** Nothing can be reached into at the end of the text. */
  lemma EndBare(t: string, y: nat, gap: MarkerGap)
    requires y == |t|
    ensures LineFollows(t, y) && BareEnd(t, y, gap)
  {
  }

  /** Lines spelled out one after the other from a line start to the end of the
      text: each of them is a line at its start. With `\s+` as written before
      the marker, no line may give its rank to the line before. */
  lemma LinesAtEach(t: string, ps: seq<nat>, ls: seq<Line>, gap: MarkerGap)
    requires |ps| == |ls| + 1 && ps[|ls|] == |t| && LineStart(t, ps[0]) && AllWellFormed(ls)
    requires gap == AnySpace ==> NoneAbsorbed(ls)
    requires forall i: nat {:trigger SpelledPiece(t, ps, LineTexts(ls), i)} :: i < |ls| ==> SpelledPiece(t, ps, LineTexts(ls), i)
    ensures forall i: nat {:trigger LineAtIndex(t, ps, ls, i, gap)} :: i < |ls| ==> LineAtIndex(t, ps, ls, i, gap)
  {
    forall i: nat | i < |ls| ensures LineAtIndex(t, ps, ls, i, gap) {
      if i > 0 {
        PieceText(t, ps, ls, i - 1, i);
        LineBreakAt(t, ps[i - 1], ps[i], ls[i - 1]);
      }
      NextBare(t, ps, ls, i, i + 1, gap);
      PieceLineAt(t, ps, ls, i, gap);
    }
  }

  /** After the `i`-th line, without a marker, the end of the text or the
      `j`-th line, which cannot be reached into. */
  lemma NextBare(t: string, ps: seq<nat>, ls: seq<Line>, i: nat, j: nat, gap: MarkerGap)
    requires |ps| == |ls| + 1 && ps[|ls|] == |t| && j == i + 1 && j <= |ls|
    requires j < |ls| ==> SpelledPiece(t, ps, LineTexts(ls), j)
    requires gap == AnySpace ==> NoneAbsorbed(ls)
    ensures After(t, ps[j], ls[i], gap)
  {
    if j == |ls| {
      EndBare(t, ps[j], gap);
    } else {
      RankAt(t, ps, ls, j);
      if gap == AnySpace && ls[i].grant.None? {
        assert !Absorbs(ls[j - 1], ls[j]);
        RankNoGrantAt(t, ps, ls, j);
      }
    }
  }

  /** A written line spelled out at `x` with its line break ends at a line start. */
  lemma LineBreakAt(t: string, x: nat, y: nat, l: Line)
    requires y == x + |LineText(l)| + 1 && Spells(t, x, LineText(l) + "\n")
    ensures LineStart(t, y)
  {
    SpellsSplit(t, x, LineText(l), "\n");
  }

  /** Written lines spelled out from a line start to the end of the text: each
      of them at its start. */
  lemma LinesAt(t: string, p: nat, ls: seq<Line>, gap: MarkerGap)
    requires LineStart(t, p) && Spells(t, p, Lines(ls)) && p + |Lines(ls)| == |t| && AllWellFormed(ls)
    requires gap == AnySpace ==> NoneAbsorbed(ls)
    ensures Starts(p, ls)[|ls|] == |t|
    ensures forall i: nat {:trigger LineAtIndex(t, Starts(p, ls), ls, i, gap)} :: i < |ls| ==> LineAtIndex(t, Starts(p, ls), ls, i, gap)
  {
    LinesConcat(ls);
    SpellsConcat(t, p, LineTexts(ls));
    LinesAtEach(t, Starts(p, ls), ls, gap);
  }

  /** What is found from the start of the `i`-th line: its record `rs[i]`, then
      what is found from the start of the next. */
  predicate LinkAt(t: string, ps: seq<nat>, rs: seq<EnrollmentRecord>, i: nat, gap: MarkerGap)
    requires |ps| == |rs| + 1
  {
    && i < |rs| && ps[i] <= |t| && ps[i + 1] <= |t|
    && EnrollmentRecordsFrom(t, ps[i], gap) == [rs[i]] + EnrollmentRecordsFrom(t, ps[i + 1], gap)
  }

  lemma LineLinked(t: string, ps: seq<nat>, ls: seq<Line>, i: nat, gap: MarkerGap)
    requires |ps| == |ls| + 1 && LineAtIndex(t, ps, ls, i, gap)
    ensures LinkAt(t, ps, RecordsIn(ls), i, gap)
  {
    LineRecords(t, ps[i], ps[i + 1], ls[i], gap);
  }

  /** Each written line at its start gives its record, then what follows its
      line break. */
  lemma LinesLinked(t: string, ps: seq<nat>, ls: seq<Line>, gap: MarkerGap)
    requires |ps| == |ls| + 1
    requires forall i: nat {:trigger LineAtIndex(t, ps, ls, i, gap)} :: i < |ls| ==> LineAtIndex(t, ps, ls, i, gap)
    ensures forall i: nat {:trigger LinkAt(t, ps, RecordsIn(ls), i, gap)} :: i < |ls| ==> LinkAt(t, ps, RecordsIn(ls), i, gap)
  {
    forall i: nat | i < |ls| ensures LinkAt(t, ps, RecordsIn(ls), i, gap) {
      LineLinked(t, ps, ls, i, gap);
    }
  }

  /** Records linked from one line start to the next, and nothing found at the
      last, make up everything found from the `k`-th. */
  lemma {:induction false} Telescope(t: string, ps: seq<nat>, rs: seq<EnrollmentRecord>, k: nat, gap: MarkerGap)
    requires |ps| == |rs| + 1 && ps[|rs|] == |t| && k <= |rs|
    requires forall i: nat {:trigger LinkAt(t, ps, rs, i, gap)} :: i < |rs| ==> LinkAt(t, ps, rs, i, gap)
    ensures ps[k] <= |t| && EnrollmentRecordsFrom(t, ps[k], gap) == rs[k..]
    decreases |rs| - k
  {
    if k == |rs| {
      RecordsFromEnd(t, gap);
    } else {
      assert LinkAt(t, ps, rs, k, gap);
      Telescope(t, ps, rs, k + 1, gap);
      LinkStep(t, ps, rs, k, gap);
    }
  }

  /** The record linked at the `k`-th line start, before all found from the next. */
  lemma LinkStep(t: string, ps: seq<nat>, rs: seq<EnrollmentRecord>, k: nat, gap: MarkerGap)
    requires |ps| == |rs| + 1 && LinkAt(t, ps, rs, k, gap)
    requires EnrollmentRecordsFrom(t, ps[k + 1], gap) == rs[k + 1..]
    ensures EnrollmentRecordsFrom(t, ps[k], gap) == rs[k..]
  {
    SuffixCons(rs, k);
  }

  /** A suffix from `k` is its first element before the suffix from `k + 1`. */
  lemma SuffixCons<T>(s: seq<T>, k: nat)
    requires k < |s|
    ensures s[k..] == [s[k]] + s[k + 1..]
  {
  }

  /** Written lines spelled out from a line start `p` to the end of the text
      read back as their records. */
  lemma LinesRead(t: string, p: nat, ls: seq<Line>, gap: MarkerGap)
    requires LineStart(t, p) && Spells(t, p, Lines(ls)) && p + |Lines(ls)| == |t| && AllWellFormed(ls)
    requires gap == AnySpace ==> NoneAbsorbed(ls)
    ensures EnrollmentRecordsFrom(t, p, gap) == RecordsIn(ls)
  {
    LinesAt(t, p, ls, gap);
    LinesLinked(t, Starts(p, ls), ls, gap);
    Telescope(t, Starts(p, ls), RecordsIn(ls), 0, gap);
  }

  /** The written lines read back as their records: `extract_enrollment_records`
      with the marker kept on its line inverts writing the lines out. */
  lemma ReadBack(ls: seq<Line>)
    requires AllWellFormed(ls)
    ensures EnrollmentRecords(Lines(ls), LineSpace) == RecordsIn(ls)
  {
    SpellsSelf(Lines(ls));
    LinesRead(Lines(ls), 0, ls, LineSpace);
  }

  /** `extract_enrollment_records` as written reads the written lines back as
      their records when no line without a marker is followed by a line whose
      rank begins as a grant (`MarkerFinding` shows that otherwise it does not). */
  lemma ReadBackAsWritten(ls: seq<Line>)
    requires AllWellFormed(ls) && NoneAbsorbed(ls)
    ensures EnrollmentRecords(Lines(ls), AnySpace) == RecordsIn(ls)
  {
    SpellsSelf(Lines(ls));
    LinesRead(Lines(ls), 0, ls, AnySpace);
  }
}
