/** `extract_enrollment_records` (src/enrollments/extractors.py): the lines
    `RANK STUDENT_ID SCORE SCORE SCORE [SCORE] CONTEST [50|70|100]` of a chunk,
    read by a recogniser that follows the MULTILINE pattern
    `^(\d+)\s+(\d{9})\s+((?:\d{3}\.\d\s+){3,4})(\d+\.\d)(?:\s+(?:50|70|100))?`
    the way `re` tries it. */
module Records {
  import opened Wrappers
  import opened Text

  /** One enrollment line. Decimal scores are kept in tenths: `float("647.5")`
      is 6475 here, and every score of the form `d+.d` is such a number. */
  datatype EnrollmentRecord = EnrollmentRecord(rank: nat, studentId: nat, subjectScores: seq<nat>, contestScore: nat)

  /** The white space before the grant marker: `\s+` as written, which takes
      line breaks too, or white space that stays on the line. */
  datatype MarkerGap = AnySpace | LineSpace

  function GapClass(gap: MarkerGap): CharClass {
    match gap
    case AnySpace => Spaces
    case LineSpace => LineSpaces
  }

  // ---------------------------------------------------------------------------
  // The pieces of the pattern

  /** `\d{3}\.\d` at `x`. */
  predicate ScoreAt(t: string, x: nat) {
    && x + 5 <= |t|
    && IsDigit(t[x]) && IsDigit(t[x + 1]) && IsDigit(t[x + 2])
    && t[x + 3] == '.' && IsDigit(t[x + 4])
  }

  /** One repetition of `\d{3}\.\d\s+` at `x`, and where it ends. What follows a
      repetition starts with a digit, so only the whole white-space run lets
      the match go on: giving back part of `\s+` never succeeds, and the run is
      taken whole. */
  function ScoreStep(t: string, x: nat): (r: Option<nat>)
    requires x <= |t|
    ensures r.Some? ==> x + 5 < r.value <= |t|
  {
    if ScoreAt(t, x) && Run(t, x + 5, Spaces) > 0 then Some(x + 5 + Run(t, x + 5, Spaces)) else None
  }

  /** `\d+\.\d` at `y`, and where it ends; only the whole digit run can be
      followed by the point. */
  function DecimalEnd(t: string, y: nat): (r: Option<nat>)
    requires y <= |t|
    ensures r.Some? ==> y + 3 <= r.value <= |t|
  {
    var d := Run(t, y, Digits);
    if d > 0 && y + d + 2 <= |t| && t[y + d] == '.' && IsDigit(t[y + d + 1]) then Some(y + d + 2) else None
  }

  /** The optional `(?:\s+(?:50|70|100))?` after the contest score ending at
      `z`: where the match ends. The marker can only follow the whole
      white-space run, and the alternatives are tried in order. */
  function MarkerEnd(t: string, z: nat, gap: MarkerGap): (e: nat)
    requires z <= |t|
    ensures z <= e <= |t|
  {
    var b := z + Run(t, z, GapClass(gap));
    if b == z then z else if GrantWidth(t, b) > 0 then b + GrantWidth(t, b) else z
  }

  /** `50|70|100` at `b`, tried in that order: the width of the alternative
      that matches, or 0. */
  function GrantWidth(t: string, b: nat): (n: nat)
    requires b <= |t|
    ensures b + n <= |t|
  {
    if b + 2 <= |t| && (t[b] == '5' || t[b] == '7') && t[b + 1] == '0' then 2
    else if b + 3 <= |t| && t[b] == '1' && t[b + 1] == '0' && t[b + 2] == '0' then 3
    else 0
  }

  /** A match: its start, the end of the rank group, the start of the
      student-id group, the starts of the score repetitions, the end of the
      scores group (where the contest group starts), the end of the contest
      group, and the end of the match. */
  datatype RecordMatch = RecordMatch(
    start: nat, rankEnd: nat, idStart: nat, pieces: seq<nat>, scoresEnd: nat, contestEnd: nat, end: nat)

  /** `^(\d+)\s+(\d{9})\s+` at `p`: the end of the rank group, the start of the
      student-id group and the start of the scores group. As in the
      repetitions, each run can only be taken whole: a shorter digit run is
      followed by a digit where white space must come, a shorter white-space
      run by white space where a digit must come, and nine digits must be
      followed by white space. */
  function HeadAt(t: string, p: nat): (r: Option<(nat, nat, nat)>)
    requires p <= |t|
    ensures r.Some? ==> p < r.value.0 < r.value.1 && r.value.1 + 9 < r.value.2 <= |t|
  {
    var rankEnd := p + Run(t, p, Digits);
    var idStart := rankEnd + Run(t, rankEnd, Spaces);
    if !LineStart(t, p) || rankEnd == p || idStart == rankEnd || Run(t, idStart, Digits) != 9 then None
    else
      var x0 := idStart + 9 + Run(t, idStart + 9, Spaces);
      if x0 == idStart + 9 then None else Some((rankEnd, idStart, x0))
  }

  /** The pattern tried at `p`. */
  function RecordAt(t: string, p: nat, gap: MarkerGap): (r: Option<RecordMatch>)
    requires p <= |t|
    ensures r.Some? ==> r.value.start == p && p < r.value.end <= |t|
  {
    match HeadAt(t, p)
    case None => None
    case Some((rankEnd, idStart, x0)) => ScoresAt(t, p, rankEnd, idStart, x0, gap)
  }

  /** The scores, the contest score and the marker, from the first score at
      `x0`. */
  function ScoresAt(t: string, p: nat, rankEnd: nat, idStart: nat, x0: nat, gap: MarkerGap): (r: Option<RecordMatch>)
    requires p < rankEnd < idStart && idStart + 9 < x0 <= |t|
    ensures r.Some? ==> r.value.start == p && p < r.value.end <= |t|
  {
    var r := ScoresFrom(t, x0);
    if r.None? then None else Some(RecordMatch(p, rankEnd, idStart, r.value.0, r.value.1, r.value.2, MarkerEnd(t, r.value.2, gap)))
  }

  /** `((?:\d{3}\.\d\s+){3,4})(\d+\.\d)` at `x0`: the starts of the
      repetitions, where they end and where the contest score ends. Four
      repetitions are tried first, and three when the contest score cannot
      follow the fourth. */
  function ScoresFrom(t: string, x0: nat): (r: Option<(seq<nat>, nat, nat)>)
    requires x0 <= |t|
    ensures r.Some? ==> x0 < r.value.1 < r.value.2 <= |t|
  {
    var x1 := ScoreStep(t, x0);
    var x2 := if x1.Some? then ScoreStep(t, x1.value) else None;
    var x3 := if x2.Some? then ScoreStep(t, x2.value) else None;
    if x3.None? then None
    else
      var x4 := ScoreStep(t, x3.value);
      var four := if x4.Some? then DecimalEnd(t, x4.value) else None;
      if four.Some? then Some(([x0, x1.value, x2.value, x3.value], x4.value, four.value))
      else
        match DecimalEnd(t, x3.value)
        case None => None
        case Some(c) => Some(([x0, x1.value, x2.value], x3.value, c))
  }

  /** `ScoresAt` is what `ScoresFrom` finds, with the marker after it. */
  lemma ScoresAtFrom(t: string, p: nat, rankEnd: nat, idStart: nat, x0: nat, gap: MarkerGap, xs: seq<nat>, e: nat, c: nat)
    requires p < rankEnd < idStart && idStart + 9 < x0 <= |t|
    requires ScoresFrom(t, x0) == Some((xs, e, c))
    ensures c <= |t| && ScoresAt(t, p, rankEnd, idStart, x0, gap) == Some(RecordMatch(p, rankEnd, idStart, xs, e, c, MarkerEnd(t, c, gap)))
  {
  }

  /** The pattern matches at `p` when the head of the line and the scores part
      after it do. */
  lemma RecordAtOf(t: string, p: nat, gap: MarkerGap, rankEnd: nat, idStart: nat, x0: nat, xs: seq<nat>, e: nat, c: nat)
    requires p <= |t| && HeadAt(t, p) == Some((rankEnd, idStart, x0))
    requires x0 <= |t| && ScoresFrom(t, x0) == Some((xs, e, c))
    ensures c <= |t| && RecordAt(t, p, gap) == Some(RecordMatch(p, rankEnd, idStart, xs, e, c, MarkerEnd(t, c, gap)))
  {
    ScoresAtFrom(t, p, rankEnd, idStart, x0, gap, xs, e, c);
  }

  // ---------------------------------------------------------------------------
  // From the groups to a record: int(), strip().split() and float()

  /** `d+.d` */
  predicate DecimalForm(s: string) {
    |s| >= 3 && AllDigits(s[..|s| - 2]) && s[|s| - 2] == '.' && IsDigit(s[|s| - 1])
  }

  /** `float(s)` of a decimal `d+.d`, in tenths. */
  function Tenths(s: string): nat
    requires DecimalForm(s)
  {
    10 * DigitsValue(s[..|s| - 2]) + DigitsValue(s[|s| - 1..])
  }

  /** `int(s)`. On text that is not a numeral Python raises `ValueError`; the
      model gives 0 there, and `MatchShape` shows that no group it reads is such text. */
  function IntOf(s: string): nat {
    if AllDigits(s) then DigitsValue(s) else 0
  }

  /** `float(s)` in tenths, for the decimals the pattern's groups hold; as for
      `IntOf`, other text gives 0 and does not occur. */
  function FloatOf(s: string): nat {
    if DecimalForm(s) then Tenths(s) else 0
  }

  /** What `strip().split()` of the scores group gives: three or four scores `ddd.d`. */
  predicate ScoreTokens(ws: seq<string>) {
    3 <= |ws| <= 4 && forall k :: 0 <= k < |ws| ==> |ws[k]| == 5 && DecimalForm(ws[k])
  }

  /** The groups of a match lie inside the text. */
  predicate GroupBounds(t: string, m: RecordMatch) {
    && m.start <= m.rankEnd <= |t| && m.idStart + 9 <= |t|
    && |m.pieces| > 0 && m.pieces[0] <= m.scoresEnd <= m.contestEnd <= |t|
  }

  /** What the groups of a match hold: numerals where `int()` reads them and
      decimals where `float()` does. */
  predicate RecordShape(t: string, m: RecordMatch) {
    && GroupBounds(t, m)
    && AllDigits(t[m.start..m.rankEnd]) && AllDigits(t[m.idStart..m.idStart + 9])
    && DecimalForm(t[m.scoresEnd..m.contestEnd])
    && ScoreTokens(Split(Strip(t[m.pieces[0]..m.scoresEnd])))
  }

  function FloatsOf(ws: seq<string>): (r: seq<nat>)
    ensures |r| == |ws|
  {
    seq(|ws|, k requires 0 <= k < |ws| => FloatOf(ws[k]))
  }

  /** The record the loop body builds from a match. */
  function RecordOf(t: string, m: RecordMatch): EnrollmentRecord
    requires GroupBounds(t, m)
  {
    EnrollmentRecord(
      IntOf(t[m.start..m.rankEnd]),
      IntOf(t[m.idStart..m.idStart + 9]),
      FloatsOf(Split(Strip(t[m.pieces[0]..m.scoresEnd]))),
      FloatOf(t[m.scoresEnd..m.contestEnd]))
  }

  /** A score repetition is the first word `split()` finds from its start. */
  lemma ScoreSplitStep(t: string, x: nat, e: nat)
    requires x <= |t| && ScoreStep(t, x).Some? && ScoreStep(t, x).value <= e <= |t|
    ensures Split(t[x..e]) == [t[x..x + 5]] + Split(t[ScoreStep(t, x).value..e])
  {
    var x' := ScoreStep(t, x).value;
    var w, gap, tail := t[x..x + 5], t[x + 5..x'], t[x'..e];
    assert t[x..e] == w + gap + tail;
    assert IsWord(w) by {
      forall k | 0 <= k < 5 ensures !IsSpace(w[k]) { assert w[k] == t[x + k]; }
    }
    assert AllSpaces(gap) by {
      forall k | 0 <= k < |gap| ensures IsSpace(gap[k]) {
        assert gap[k] == t[x + 5 + k];
        assert InClass(t[x + 5 + k], Spaces);
      }
    }
    SplitAfterGap(w, gap, tail);
  }

  /** A score repetition read as a word is a score `ddd.d`. */
  lemma ScoreWord(t: string, x: nat)
    requires ScoreAt(t, x)
    ensures |t[x..x + 5]| == 5 && DecimalForm(t[x..x + 5])
  {
    var w := t[x..x + 5];
    assert w[..3] == t[x..x + 3];
    assert forall k :: 0 <= k < 3 ==> IsDigit(w[..3][k]);
  }

  /** The score repetitions starting at `xs`, one after the other and the last
      ending at `e`. */
  predicate Chain(t: string, xs: seq<nat>, e: nat)
    decreases |xs|
  {
    xs == [] || (xs[0] <= |t| && ScoreStep(t, xs[0]) == Some(if |xs| > 1 then xs[1] else e) && Chain(t, xs[1..], e))
  }

  function Pieces(t: string, xs: seq<nat>): seq<string>
    requires forall k :: 0 <= k < |xs| ==> ScoreAt(t, xs[k])
  {
    assert forall k :: 0 <= k < |xs| ==> xs[k] + 5 <= |t| by {
      forall k | 0 <= k < |xs| ensures xs[k] + 5 <= |t| { assert ScoreAt(t, xs[k]); }
    }
    seq(|xs|, k requires 0 <= k < |xs| => t[xs[k]..xs[k] + 5])
  }

  /** `split()` of the repetitions gives the scores, one word each. */
  lemma {:induction false} ChainSplit(t: string, xs: seq<nat>, e: nat)
    requires xs != [] && Chain(t, xs, e) && e <= |t|
    ensures forall k :: 0 <= k < |xs| ==> ScoreAt(t, xs[k])
    ensures xs[0] <= e && Split(t[xs[0]..e]) == Pieces(t, xs)
    decreases |xs|
  {
    if |xs| == 1 {
      ScoreSplitStep(t, xs[0], e);
      assert t[e..e] == [];
    } else {
      var ys := xs[1..];
      ChainSplit(t, ys, e);
      ScoreSplitStep(t, xs[0], e);
      assert Pieces(t, xs) == [t[xs[0]..xs[0] + 5]] + Pieces(t, ys);
    }
  }

  /** `n` digits of a run are digits. */
  lemma RunDigits(t: string, i: nat, j: nat)
    requires i <= j <= |t| && j - i <= Run(t, i, Digits)
    ensures AllDigits(t[i..j])
  {
    var u := t[i..j];
    forall k | 0 <= k < j - i ensures IsDigit(u[k]) {
      assert u[k] == t[i + k];
      assert InClass(t[i + k], Digits);
    }
  }

  /** The scores group of a match splits into its three or four scores. */
  lemma ScoresShape(t: string, xs: seq<nat>, e: nat)
    requires 3 <= |xs| <= 4 && Chain(t, xs, e) && xs[0] <= e <= |t|
    ensures ScoreTokens(Split(Strip(t[xs[0]..e])))
  {
    ChainSplit(t, xs, e);
    SplitStrip(t[xs[0]..e]);
    forall k | 0 <= k < |xs| ensures |Pieces(t, xs)[k]| == 5 && DecimalForm(Pieces(t, xs)[k]) {
      ScoreWord(t, xs[k]);
    }
  }

  /** What a match found at `m.start` is made of: the head of the line, three
      or four chained score repetitions, the contest score, and the marker if
      there is one. */
  predicate MatchParts(t: string, m: RecordMatch, gap: MarkerGap) {
    && m.start <= |t| && 3 <= |m.pieces| <= 4
    && HeadAt(t, m.start) == Some((m.rankEnd, m.idStart, m.pieces[0]))
    && m.scoresEnd <= |t| && Chain(t, m.pieces, m.scoresEnd)
    && DecimalEnd(t, m.scoresEnd) == Some(m.contestEnd)
    && m.end == MarkerEnd(t, m.contestEnd, gap)
  }

  /** The head of a line: a rank and a student id of digits. */
  lemma HeadShape(t: string, p: nat, rankEnd: nat, idStart: nat, x0: nat)
    requires p <= |t| && HeadAt(t, p) == Some((rankEnd, idStart, x0))
    ensures LineStart(t, p) && rankEnd == p + Run(t, p, Digits)
    ensures AllDigits(t[p..rankEnd]) && AllDigits(t[idStart..idStart + 9])
  {
    HeadRuns(t, p, rankEnd, idStart, x0);
    HeadDigits(t, p, rankEnd, idStart);
  }

  /** The rank and the id of a head are digits. */
  lemma HeadDigits(t: string, p: nat, rankEnd: nat, idStart: nat)
    requires p <= |t| && rankEnd == p + Run(t, p, Digits)
    requires idStart + 9 <= |t| && Run(t, idStart, Digits) == 9
    ensures AllDigits(t[p..rankEnd]) && AllDigits(t[idStart..idStart + 9])
  {
    RunDigits(t, p, rankEnd);
    RunDigits(t, idStart, idStart + 9);
  }

  /** The runs a found head is made of. */
  lemma HeadRuns(t: string, p: nat, rankEnd: nat, idStart: nat, x0: nat)
    requires p <= |t| && HeadAt(t, p) == Some((rankEnd, idStart, x0))
    ensures LineStart(t, p) && rankEnd == p + Run(t, p, Digits)
    ensures idStart + 9 <= |t| && Run(t, idStart, Digits) == 9
  {
  }

  /** A successful `ScoresAt` is made of three or four chained repetitions from
      `x0` and the contest score right after them. */
  lemma ScoresAtParts(t: string, p: nat, rankEnd: nat, idStart: nat, x0: nat, gap: MarkerGap, m: RecordMatch)
    requires p < rankEnd < idStart && idStart + 9 < x0 <= |t|
    requires ScoresAt(t, p, rankEnd, idStart, x0, gap) == Some(m)
    ensures && m.start == p && m.rankEnd == rankEnd && m.idStart == idStart
      && 3 <= |m.pieces| <= 4 && m.pieces[0] == x0 && Chain(t, m.pieces, m.scoresEnd)
      && m.scoresEnd <= |t| && DecimalEnd(t, m.scoresEnd) == Some(m.contestEnd)
      && m.end == MarkerEnd(t, m.contestEnd, gap)
  {
    ScoresFromChain(t, x0);
  }

  /** The repetitions `ScoresFrom` finds each end where the next starts, and
      the contest score follows the last. */
  lemma ScoresFromChain(t: string, x0: nat)
    requires x0 <= |t| && ScoresFrom(t, x0).Some?
    ensures var (xs, e, c) := ScoresFrom(t, x0).value;
      && 3 <= |xs| <= 4 && xs[0] == x0 && e <= |t| && Chain(t, xs, e) && DecimalEnd(t, e) == Some(c)
  {
    var x1 := ScoreStep(t, x0).value;
    var x2 := ScoreStep(t, x1).value;
    var x3 := ScoreStep(t, x2).value;
    var x4 := ScoreStep(t, x3);
    if x4.Some? && DecimalEnd(t, x4.value).Some? {
      ChainThree(t, x1, x2, x3, x4.value);
      ChainStep(t, x0, [x1, x2, x3], x4.value);
    } else {
      ChainThree(t, x0, x1, x2, x3);
    }
  }

  /** Three repetitions, each ending where the next starts. */
  lemma ChainThree(t: string, x0: nat, x1: nat, x2: nat, e: nat)
    requires x0 <= |t| && ScoreStep(t, x0) == Some(x1)
    requires x1 <= |t| && ScoreStep(t, x1) == Some(x2)
    requires x2 <= |t| && ScoreStep(t, x2) == Some(e)
    ensures Chain(t, [x0, x1, x2], e)
  {
    assert Chain(t, [x2], e) by { assert [x2][1..] == []; }
    assert Chain(t, [x1, x2], e) by { assert [x1, x2][1..] == [x2]; }
    assert [x0, x1, x2][1..] == [x1, x2];
  }

  /** A repetition ending where a chain starts extends it. */
  lemma ChainStep(t: string, x: nat, xs: seq<nat>, e: nat)
    requires xs != [] && x <= |t| && ScoreStep(t, x) == Some(xs[0]) && Chain(t, xs, e)
    ensures Chain(t, [x] + xs, e)
  {
    assert ([x] + xs)[1..] == xs;
  }

  /** Every match is made of the parts of the pattern. */
  lemma RecordAtParts(t: string, p: nat, gap: MarkerGap, m: RecordMatch)
    requires p <= |t| && RecordAt(t, p, gap) == Some(m)
    ensures m.start == p && MatchParts(t, m, gap)
  {
    var (rankEnd, idStart, x0) := HeadAt(t, p).value;
    ScoresAtParts(t, p, rankEnd, idStart, x0, gap, m);
  }

  /** Every match has groups the conversions accept. */
  lemma MatchShape(t: string, m: RecordMatch, gap: MarkerGap)
    requires MatchParts(t, m, gap)
    ensures RecordShape(t, m)
  {
    HeadShape(t, m.start, m.rankEnd, m.idStart, m.pieces[0]);
    ContestShape(t, m.scoresEnd, m.contestEnd);
    ChainSplit(t, m.pieces, m.scoresEnd);
    ScoresShape(t, m.pieces, m.scoresEnd);
  }

  /** The contest group of a match is a decimal `d+.d`. */
  lemma ContestShape(t: string, y: nat, c: nat)
    requires y <= |t| && DecimalEnd(t, y) == Some(c)
    ensures DecimalForm(t[y..c])
  {
    var s := t[y..c];
    RunDigits(t, y, c - 2);
    assert s[..|s| - 2] == t[y..c - 2];
  }

  /** A score `ddd.d` is at most 999.9. */
  lemma ScoreBound(w: string)
    requires |w| == 5 && DecimalForm(w)
    ensures FloatOf(w) < 10000
  {
    DigitsBound(w[..3]);
    DigitsBound(w[4..]);
  }

  /** What every record holds: three or four subject scores, each `ddd.d` and
      so at most 999.9, and a student id of nine digits. */
  lemma RecordBounds(t: string, m: RecordMatch)
    requires RecordShape(t, m)
    ensures var r := RecordOf(t, m);
      && 3 <= |r.subjectScores| <= 4
      && (forall k :: 0 <= k < |r.subjectScores| ==> r.subjectScores[k] < 10000)
      && r.studentId < 1000000000
  {
    var ws := Split(Strip(t[m.pieces[0]..m.scoresEnd]));
    forall k | 0 <= k < |ws| ensures FloatOf(ws[k]) < 10000 {
      ScoreBound(ws[k]);
    }
    DigitsBound(t[m.idStart..m.idStart + 9]);
    assert Pow10(9) == 1000000000;
  }

  // ---------------------------------------------------------------------------
  // finditer and the loop over its matches

  /** The pattern tried at each index of `t`. */
  function Matcher(t: string, gap: MarkerGap): nat -> Option<RecordMatch> {
    (p: nat) => if p <= |t| then RecordAt(t, p, gap) else None
  }

  function MatchStart(m: RecordMatch): nat { m.start }

  function MatchEnd(m: RecordMatch): nat { m.end }

  /** Every match starts where it was tried and ends after it, within the text. */
  lemma MatcherAdvances(t: string, gap: MarkerGap)
    ensures Advances(|t|, Matcher(t, gap), MatchStart, MatchEnd)
  {
    forall p: nat | p <= |t| && Matcher(t, gap)(p).Some?
      ensures MatchStart(Matcher(t, gap)(p).value) == p && p < MatchEnd(Matcher(t, gap)(p).value) <= |t|
    {
      assert Matcher(t, gap)(p) == RecordAt(t, p, gap);
    }
  }

  /** `pattern.finditer(text)`, from `i`. */
  function FindMatches(t: string, i: nat, gap: MarkerGap): seq<RecordMatch>
    requires i <= |t|
  {
    MatcherAdvances(t, gap);
    Finditer(|t|, Matcher(t, gap), MatchStart, MatchEnd, i)
  }

  /** Every match found is a match of the pattern at its start, from `i` on. */
  lemma FoundMatch(t: string, i: nat, gap: MarkerGap, k: nat)
    requires i <= |t| && k < |FindMatches(t, i, gap)|
    ensures var m := FindMatches(t, i, gap)[k]; i <= m.start <= |t| && RecordAt(t, m.start, gap) == Some(m)
  {
    MatcherAdvances(t, gap);
    FinditerFound(|t|, Matcher(t, gap), MatchStart, MatchEnd, i, k);
    var m := FindMatches(t, i, gap)[k];
    assert Matcher(t, gap)(m.start) == RecordAt(t, m.start, gap);
  }

  /** A match found after another starts at or after its end: in text order,
      without overlap. */
  lemma FoundInOrder(t: string, i: nat, gap: MarkerGap, k: nat)
    requires i <= |t| && k + 1 < |FindMatches(t, i, gap)|
    ensures var r := FindMatches(t, i, gap); r[k].end <= r[k + 1].start
  {
    MatcherAdvances(t, gap);
    FinditerOrder(|t|, Matcher(t, gap), MatchStart, MatchEnd, i, k);
  }

  /** No match is lost: wherever the pattern matches from `i` on, a match is
      found that starts there or covers that index. */
  lemma FoundComplete(t: string, i: nat, gap: MarkerGap, q: nat)
    requires i <= q <= |t| && RecordAt(t, q, gap).Some?
    ensures var r := FindMatches(t, i, gap);
      exists k :: 0 <= k < |r| && r[k].start <= q < r[k].end
  {
    MatcherAdvances(t, gap);
    assert Matcher(t, gap)(q) == RecordAt(t, q, gap);
    FinditerComplete(|t|, Matcher(t, gap), MatchStart, MatchEnd, i, q);
    var r := FindMatches(t, i, gap);
    var k :| 0 <= k < |r| && MatchStart(r[k]) <= q < MatchEnd(r[k]);
  }

  lemma FoundShapes(t: string, i: nat, gap: MarkerGap)
    requires i <= |t|
    ensures var r := FindMatches(t, i, gap); forall k :: 0 <= k < |r| ==> RecordShape(t, r[k])
  {
    var r := FindMatches(t, i, gap);
    forall k | 0 <= k < |r| ensures RecordShape(t, r[k]) {
      FoundMatch(t, i, gap, k);
      RecordAtParts(t, r[k].start, gap, r[k]);
      MatchShape(t, r[k], gap);
    }
  }

  lemma FoundBounds(t: string, i: nat, gap: MarkerGap)
    requires i <= |t|
    ensures var r := FindMatches(t, i, gap); forall k :: 0 <= k < |r| ==> GroupBounds(t, r[k])
  {
    FoundShapes(t, i, gap);
  }

  /** The records built from the matches `ms`, one each, in order. */
  function RecordsOf(t: string, ms: seq<RecordMatch>): seq<EnrollmentRecord>
    requires forall k :: 0 <= k < |ms| ==> GroupBounds(t, ms[k])
  {
    seq(|ms|, k requires 0 <= k < |ms| => RecordOf(t, ms[k]))
  }

  /** One more match gives one more record, at the end. */
  lemma RecordsOfPrefix(t: string, ms: seq<RecordMatch>, i: nat)
    requires i < |ms| && forall k :: 0 <= k < |ms| ==> GroupBounds(t, ms[k])
    ensures RecordsOf(t, ms[..i + 1]) == RecordsOf(t, ms[..i]) + [RecordOf(t, ms[i])]
  {
    var a, b := RecordsOf(t, ms[..i + 1]), RecordsOf(t, ms[..i]) + [RecordOf(t, ms[i])];
    forall k | 0 <= k < |a| ensures a[k] == b[k] {
      assert ms[..i + 1][k] == ms[k];
      if k < i {
        assert ms[..i][k] == ms[k];
      }
    }
  }

  /** The records built from the matches found from `i` on. */
  function EnrollmentRecordsFrom(text: string, i: nat, gap: MarkerGap): seq<EnrollmentRecord>
    requires i <= |text|
  {
    FoundBounds(text, i, gap);
    RecordsOf(text, FindMatches(text, i, gap))
  }

  /** The records `extract_enrollment_records` returns: one per match, in order. */
  function EnrollmentRecords(text: string, gap: MarkerGap): seq<EnrollmentRecord> {
    EnrollmentRecordsFrom(text, 0, gap)
  }

  /** A match found at `i` gives the first record, and the search goes on from its end. */
  lemma RecordsFromMatch(text: string, i: nat, gap: MarkerGap, m: RecordMatch)
    requires i <= |text| && RecordAt(text, i, gap) == Some(m)
    ensures EnrollmentRecordsFrom(text, i, gap) == [RecordOf(text, m)] + EnrollmentRecordsFrom(text, m.end, gap)
  {
    RecordAtParts(text, i, gap, m);
    MatchShape(text, m, gap);
    MatcherAdvances(text, gap);
    assert Matcher(text, gap)(i) == Some(m);
    var ms := FindMatches(text, m.end, gap);
    assert FindMatches(text, i, gap) == [m] + ms;
    FoundBounds(text, m.end, gap);
    RecordsOfCons(text, m, ms);
  }

  lemma RecordsOfCons(text: string, m: RecordMatch, ms: seq<RecordMatch>)
    requires GroupBounds(text, m) && forall k :: 0 <= k < |ms| ==> GroupBounds(text, ms[k])
    ensures RecordsOf(text, [m] + ms) == [RecordOf(text, m)] + RecordsOf(text, ms)
  {
    var a, b := RecordsOf(text, [m] + ms), [RecordOf(text, m)] + RecordsOf(text, ms);
    forall k | 0 <= k < |a| ensures a[k] == b[k] {
      if k > 0 {
        assert ([m] + ms)[k] == ms[k - 1];
      }
    }
  }

  /** Indices where the pattern does not match add no record. */
  lemma RecordsFromSkip(text: string, i: nat, j: nat, gap: MarkerGap)
    requires i <= j <= |text| && forall q :: i <= q < j ==> RecordAt(text, q, gap).None?
    ensures EnrollmentRecordsFrom(text, i, gap) == EnrollmentRecordsFrom(text, j, gap)
  {
    MatcherAdvances(text, gap);
    forall q | i <= q < j ensures Matcher(text, gap)(q).None? {
      assert Matcher(text, gap)(q) == RecordAt(text, q, gap);
    }
    FinditerSkip(|text|, Matcher(text, gap), MatchStart, MatchEnd, i, j);
  }

  /** No match at `i`: the matches are found from the next position. */
  lemma RecordsFromNext(text: string, i: nat, j: nat, gap: MarkerGap)
    requires i < |text| && j == i + 1 && RecordAt(text, i, gap).None?
    ensures EnrollmentRecordsFrom(text, i, gap) == EnrollmentRecordsFrom(text, j, gap)
  {
    forall q | i <= q < j ensures RecordAt(text, q, gap).None? {
      assert q == i;
    }
    RecordsFromSkip(text, i, j, gap);
  }

  /** Nothing is found from the end of the text. */
  lemma RecordsFromEnd(text: string, gap: MarkerGap)
    ensures EnrollmentRecordsFrom(text, |text|, gap) == []
  {
    MatcherAdvances(text, gap);
    assert Matcher(text, gap)(|text|) == RecordAt(text, |text|, gap);
    assert Run(text, |text|, Digits) == 0;
  }

  /** The loop over the matches of the pattern as written, building one record
      from each. */
  method ExtractEnrollmentRecords(text: string) returns (records: seq<EnrollmentRecord>)
    ensures records == EnrollmentRecords(text, AnySpace)
  {
    records := [];
    var matches := FindMatches(text, 0, AnySpace);
    FoundBounds(text, 0, AnySpace);
    for i := 0 to |matches|
      invariant records == RecordsOf(text, matches[..i])
    {
      var record := RecordOf(text, matches[i]);
      RecordsOfPrefix(text, matches, i);
      records := records + [record];
    }
    assert matches[..|matches|] == matches;
  }

  /** Every record has three or four subject scores of at most 999.9 and a
      student id below 10^9, read from nine digits. */
  lemma EnrollmentRecordsBounds(text: string, gap: MarkerGap, k: nat)
    requires k < |EnrollmentRecords(text, gap)|
    ensures var r := EnrollmentRecords(text, gap)[k];
      && 3 <= |r.subjectScores| <= 4
      && (forall j :: 0 <= j < |r.subjectScores| ==> r.subjectScores[j] < 10000)
      && r.studentId < 1000000000
  {
    var ms := FindMatches(text, 0, gap);
    FoundShapes(text, 0, gap);
    FoundBounds(text, 0, gap);
    RecordBounds(text, ms[k]);
  }
}
