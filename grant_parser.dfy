/** The grant-page parser: the grant tier and the subject a page is about, the
    student/score table printed on it, and the flattening of a file's pages
    into `(student_id, grant_score, grant_amount, subject_name, year)` tuples. */
module GrantParser {
  import opened Wrappers
  import opened Text
  import opened Constants
  import opened FileNames

  /** Why a page or a file cannot be read.  The first two stand for calling
      `.group` on a failed search, the last for `int()` on a bad file stem. */
  datatype GrantError = MissingPercentage | MissingSubject | BadFileName(message: string)

  // ---------------------------------------------------------------------------
  // The tier: `re.search(r"(\d+%)", text)`

  /** Where `\d+%` matches at `p`: the index of its `%`.  The digit run is
      greedy, and giving digits back cannot help, since a digit is not a `%`. */
  function PercentAt(t: string, p: nat): (r: Option<nat>)
    requires p <= |t|
    ensures r.Some? ==> p < r.value < |t| && t[r.value] == '%'
    ensures r.Some? ==> forall k :: p <= k < r.value ==> IsDigit(t[k])
    ensures r.None? ==> p == |t| || !IsDigit(t[p]) || p + Run(t, p, Digits) == |t| || t[p + Run(t, p, Digits)] != '%'
  {
    var e := p + Run(t, p, Digits);
    assert forall k :: p <= k < e ==> InClass(t[k], Digits);
    if e > p && e < |t| && t[e] == '%' then Some(e) else None
  }

  /** `re.search` from `i`: the leftmost `p` where the pattern matches, with
      the index of its `%`. */
  function PercentFrom(t: string, i: nat): (r: Option<(nat, nat)>)
    requires i <= |t|
    ensures r.Some? ==> i <= r.value.0 <= |t| && PercentAt(t, r.value.0) == Some(r.value.1)
    ensures r.Some? ==> forall q :: i <= q < r.value.0 ==> PercentAt(t, q).None?
    ensures r.None? ==> forall q :: i <= q <= |t| ==> PercentAt(t, q).None?
    decreases |t| - i
  {
    match PercentAt(t, i)
    case Some(e) => Some((i, e))
    case None => if i == |t| then None else PercentFrom(t, i + 1)
  }

  /** The tier of a page: the digits of the first `N%` read as a number, that is
      `int(percentage[:-1])`. */
  function TierOf(percentage: string): nat
    requires |percentage| >= 1 && AllDigits(percentage[..|percentage| - 1])
  {
    DigitsValue(percentage[..|percentage| - 1])
  }

  /** The first `%` that follows a digit is read together with the whole digit
      run before it: that run is where the search succeeds first. */
  lemma PercentRead(t: string, p: nat, e: nat)
    requires p < e < |t| && t[e] == '%'
    requires forall k :: p <= k < e ==> IsDigit(t[k])
    requires p == 0 || !IsDigit(t[p - 1])
    requires forall k :: 0 <= k < e ==> t[k] != '%'
    ensures PercentFrom(t, 0) == Some((p, e))
  {
    RunExact(t, p, e, Digits);
    assert PercentAt(t, p) == Some(e);
    forall q | 0 <= q < p
      ensures PercentAt(t, q).None?
    {
    }
    var r := PercentFrom(t, 0);
    assert r.Some?;
  }

  // ---------------------------------------------------------------------------
  // The subject: a search for the alternation of the table's keys

  /** The first key of `tab`, in table order from `k`, that `t` spells out at
      `p`: what the alternation `key0|key1|...` tries at one position. */
  function KeyFrom(tab: seq<(string, string)>, t: string, p: nat, k: nat): (r: Option<nat>)
    requires k <= |tab|
    ensures r.Some? ==> k <= r.value < |tab| && Spells(t, p, tab[r.value].0)
    ensures r.Some? ==> forall j :: k <= j < r.value ==> !Spells(t, p, tab[j].0)
    ensures r.None? ==> forall j :: k <= j < |tab| ==> !Spells(t, p, tab[j].0)
    decreases |tab| - k
  {
    if k == |tab| then None
    else if Spells(t, p, tab[k].0) then Some(k)
    else KeyFrom(tab, t, p, k + 1)
  }

  /** The leftmost position from `i` where some key occurs, with the key's row. */
  function SubjectFrom(tab: seq<(string, string)>, t: string, i: nat): (r: Option<(nat, nat)>)
    requires i <= |t|
    ensures r.Some? ==> i <= r.value.0 <= |t| && KeyFrom(tab, t, r.value.0, 0) == Some(r.value.1)
    ensures r.Some? ==> forall q :: i <= q < r.value.0 ==> KeyFrom(tab, t, q, 0).None?
    ensures r.None? ==> forall q :: i <= q <= |t| ==> KeyFrom(tab, t, q, 0).None?
    decreases |t| - i
  {
    match KeyFrom(tab, t, i, 0)
    case Some(j) => Some((i, j))
    case None => if i == |t| then None else SubjectFrom(tab, t, i + 1)
  }

  /** At a position where a key occurs, it is the only key that occurs, so
      the order of the alternatives does not matter. */
  lemma KeyUnique(tab: seq<(string, string)>, t: string, p: nat, j: nat)
    requires DistinctFirsts(tab)
    requires j < |tab| && Spells(t, p, tab[j].0)
    ensures KeyFrom(tab, t, p, 0) == Some(j)
  {
    var r := KeyFrom(tab, t, p, 0).value;
    assert tab[r].0[0] == t[p] == tab[j].0[0];
  }

  /** The subject and the percentage of a page, with the subject phrases and
      their canonical names taken from `tab`.  The percentage is looked for
      first, so a page with neither fails on the percentage. */
  function SubjectAndPercentage(tab: seq<(string, string)>, text: string): (r: Result<(string, string), GrantError>)
    ensures r.Err? <==> PercentFrom(text, 0).None? || SubjectFrom(tab, text, 0).None?
    ensures r.Err? ==> (r.error == MissingPercentage <==> PercentFrom(text, 0).None?)
    ensures r.Err? ==> r.error != MissingPercentage ==> r.error == MissingSubject
    ensures r.Ok? ==> |r.value.1| >= 2 && r.value.1[|r.value.1| - 1] == '%' && AllDigits(r.value.1[..|r.value.1| - 1])
  {
    match PercentFrom(text, 0)
    case None => Err(MissingPercentage)
    case Some((p, e)) =>
      match SubjectFrom(tab, text, 0)
      case None => Err(MissingSubject)
      case Some((_, j)) =>
        PercentSlice(text, p, e);
        Ok((tab[j].1, text[p..e + 1]))
  }

  /** The text of a `\d+%` match: digits, then its `%`. */
  lemma PercentSlice(t: string, p: nat, e: nat)
    requires p <= |t| && PercentAt(t, p) == Some(e)
    ensures var w := t[p..e + 1]; |w| >= 2 && w[|w| - 1] == '%' && AllDigits(w[..|w| - 1])
  {
    var w := t[p..e + 1];
    assert w[..|w| - 1] == t[p..e];
  }

  /** `extract_subject_and_percentage`: the canonical subject of the leftmost
      occurrence of a key of the subject table, and the text of the first `N%`. */
  function ExtractSubjectAndPercentage(text: string): Result<(string, string), GrantError> {
    SubjectAndPercentage(SubjectTable, text)
  }

  /** No key of `tab` occurs at `q`. */
  predicate NoKeyAt(tab: seq<(string, string)>, t: string, q: nat) {
    forall j :: 0 <= j < |tab| ==> !Spells(t, q, tab[j].0)
  }

  /** Key `j` occurs at `q`, and no key occurs anywhere before. */
  predicate FirstKey(tab: seq<(string, string)>, t: string, q: nat, j: nat) {
    && q <= |t| && j < |tab| && Spells(t, q, tab[j].0)
    && forall q' :: 0 <= q' < q ==> NoKeyAt(tab, t, q')
  }

  /** `w` occurs at `p`, and the percentage pattern matches nowhere before. */
  predicate FirstPercent(t: string, p: nat, w: string) {
    p <= |t| && Spells(t, p, w) && forall q :: 0 <= q < p ==> PercentAt(t, q).None?
  }

  /** What a successful page header gives: the subject is the canonical name of
      the key occurring leftmost on the page, and the percentage is the text of
      the leftmost match of `\d+%`. */
  lemma HeaderRead(tab: seq<(string, string)>, text: string)
    requires SubjectAndPercentage(tab, text).Ok?
    ensures exists q: nat, j: nat :: FirstKey(tab, text, q, j) && SubjectAndPercentage(tab, text).value.0 == tab[j].1
    ensures exists p: nat :: FirstPercent(text, p, SubjectAndPercentage(tab, text).value.1)
  {
    var (q, j) := SubjectFrom(tab, text, 0).value;
    forall q' | 0 <= q' < q
      ensures NoKeyAt(tab, text, q')
    {
      assert KeyFrom(tab, text, q', 0).None?;
    }
    assert FirstKey(tab, text, q, j);
    var (p, e) := PercentFrom(text, 0).value;
    SpellsSlice(text, p, text[p..e + 1]);
    assert FirstPercent(text, p, text[p..e + 1]);
  }

  /** Where no key occurs, the alternation fails. */
  lemma NoKeyNone(tab: seq<(string, string)>, t: string, q: nat)
    requires NoKeyAt(tab, t, q)
    ensures KeyFrom(tab, t, q, 0).None?
  {
  }

  /** The search finds the first key occurrence. */
  lemma SubjectFromFirst(tab: seq<(string, string)>, t: string, q: nat, j: nat)
    requires DistinctFirsts(tab) && FirstKey(tab, t, q, j)
    ensures SubjectFrom(tab, t, 0) == Some((q, j))
  {
    KeyUnique(tab, t, q, j);
    forall q' | 0 <= q' < q
      ensures KeyFrom(tab, t, q', 0).None?
    {
      NoKeyNone(tab, t, q');
    }
    var r := SubjectFrom(tab, t, 0);
    assert r.value.0 == q;
  }

  /** A page whose first `%` ends a digit run and on which a key of `tab`
      occurs first at `q` gives that key's canonical name, and the value of
      the run as its percentage. */
  lemma HeaderReadAt(tab: seq<(string, string)>, text: string, p: nat, e: nat, q: nat, j: nat)
    requires DistinctFirsts(tab)
    requires p < e < |text| && text[e] == '%'
    requires forall k :: p <= k < e ==> IsDigit(text[k])
    requires p == 0 || !IsDigit(text[p - 1])
    requires forall k :: 0 <= k < e ==> text[k] != '%'
    requires FirstKey(tab, text, q, j)
    ensures SubjectAndPercentage(tab, text) == Ok((tab[j].1, text[p..e + 1]))
  {
    PercentRead(text, p, e);
    SubjectFromFirst(tab, text, q, j);
  }

  /** The page header as the grant table stores it: the subject and the tier
      as a number. */
  function PageHeader(tab: seq<(string, string)>, text: string): (r: Result<(string, nat), GrantError>)
    ensures r.Err? <==> SubjectAndPercentage(tab, text).Err?
  {
    match SubjectAndPercentage(tab, text)
    case Err(e) => Err(e)
    case Ok((subject, percentage)) => Ok((subject, TierOf(percentage)))
  }

  /** A page whose first `%` ends a digit run and which names a subject gives
      that subject's canonical name and the value of the run as its tier. */
  lemma PageHeaderRead(tab: seq<(string, string)>, text: string, p: nat, e: nat, q: nat, j: nat)
    requires DistinctFirsts(tab)
    requires p < e < |text| && text[e] == '%'
    requires forall k :: p <= k < e ==> IsDigit(text[k])
    requires p == 0 || !IsDigit(text[p - 1])
    requires forall k :: 0 <= k < e ==> text[k] != '%'
    requires FirstKey(tab, text, q, j)
    ensures AllDigits(text[p..e])
    ensures PageHeader(tab, text) == Ok((tab[j].1, DigitsValue(text[p..e])))
  {
    HeaderReadAt(tab, text, p, e, q, j);
    var percentage := text[p..e + 1];
    assert percentage[..|percentage| - 1] == text[p..e];
  }

  // ---------------------------------------------------------------------------
  // `text.split("\n")`

  /** The pieces of `t` between its newlines, empty ones included; there is
      always at least one. */
  function SplitLines(t: string): (r: seq<string>)
    ensures |r| >= 1
    ensures forall k :: 0 <= k < |r| ==> '\n' !in r[k]
    decreases |t|
  {
    match NextNewline(t, 0)
    case None =>
      assert forall k :: 0 <= k < |t| ==> t[k] != '\n' by {
        forall k | 0 <= k < |t| ensures t[k] != '\n' { assert InClass(t[k], NonNewlines); }
      }
      [t]
    case Some(n) =>
      var line := t[..n];
      assert forall k :: 0 <= k < |line| ==> line[k] != '\n' by {
        forall k | 0 <= k < |line| ensures line[k] != '\n' { assert InClass(t[k], NonNewlines); }
      }
      [line] + SplitLines(t[n + 1..])
  }

  /** `"\n".join(lines)` */
  function JoinLines(lines: seq<string>): string
    requires |lines| >= 1
  {
    if |lines| == 1 then lines[0] else lines[0] + "\n" + JoinLines(lines[1..])
  }

  /** Joining the pieces with newlines gives the text back. */
  lemma {:induction false} JoinSplit(t: string)
    ensures JoinLines(SplitLines(t)) == t
    decreases |t|
  {
    match NextNewline(t, 0)
    case None =>
    case Some(n) =>
      JoinSplit(t[n + 1..]);
      assert SplitLines(t)[1..] == SplitLines(t[n + 1..]);
      assert t == t[..n] + "\n" + t[n + 1..];
  }

  /** Splitting newline-free lines joined with newlines gives the lines back. */
  lemma {:induction false} SplitJoin(lines: seq<string>)
    requires |lines| >= 1
    requires forall k :: 0 <= k < |lines| ==> '\n' !in lines[k]
    ensures SplitLines(JoinLines(lines)) == lines
    decreases |lines|
  {
    var t := JoinLines(lines);
    var l := lines[0];
    if |lines| == 1 {
      NoNewline(t);
    } else {
      var rest := JoinLines(lines[1..]);
      assert t == l + "\n" + rest;
      FirstNewline(l, rest);
      assert t[..|l|] == l && t[|l| + 1..] == rest;
      SplitJoin(lines[1..]);
    }
  }

  lemma NoNewline(t: string)
    requires '\n' !in t
    ensures NextNewline(t, 0).None?
  {
  }

  lemma FirstNewline(l: string, rest: string)
    requires '\n' !in l
    ensures NextNewline(l + "\n" + rest, 0) == Some(|l|)
  {
    var t := l + "\n" + rest;
    assert forall k :: 0 <= k < |l| ==> InClass(t[k], NonNewlines) by {
      forall k | 0 <= k < |l| ensures InClass(t[k], NonNewlines) {
        assert t[k] == l[k];
      }
    }
    RunExact(t, 0, |l|, NonNewlines);
  }

  // ---------------------------------------------------------------------------
  // The score table: `re.match(r"(\d+)\s+(\d+\.\d+)", line)` on every line

  /** A decimal number written with `places` digits after its point:
      `mantissa / 10^places`. */
  datatype Decimal = Decimal(mantissa: nat, places: nat)

  function DecimalValue(d: Decimal): real {
    d.mantissa as real / Pow10(d.places) as real
  }

  /** One line of the table: the student id is kept as the digit string it is
      printed as. */
  datatype GrantRecord = GrantRecord(studentId: string, grantScore: Decimal)

  /** The value of `units.fraction`. */
  function DecimalOf(units: string, fraction: string): (d: Decimal)
    requires AllDigits(units) && AllDigits(fraction)
  {
    assert AllDigits(units + fraction) by {
      forall k | 0 <= k < |units + fraction| ensures IsDigit((units + fraction)[k]) {
        if k >= |units| { assert (units + fraction)[k] == fraction[k - |units|]; }
      }
    }
    Decimal(DigitsValue(units + fraction), |fraction|)
  }

  /** The match at the start of a line.  Each of the four runs is greedy and
      none can give characters back to the next, so the match is deterministic. */
  function LineRecord(line: string): (r: Option<GrantRecord>)
    ensures r.Some? ==> |r.value.studentId| >= 1 && AllDigits(r.value.studentId) && r.value.studentId <= line
    ensures r.Some? ==> |r.value.studentId| < |line| && IsSpace(line[|r.value.studentId|])
    ensures |line| == 0 || !IsDigit(line[0]) ==> r.None?
  {
    var i := Run(line, 0, Digits);
    var j := i + Run(line, i, Spaces);
    var k := j + Run(line, j, Digits);
    if i == 0 || j == i || k == j || k == |line| || line[k] != '.' then None
    else
      var f := Run(line, k + 1, Digits);
      if f == 0 then None
      else
        assert forall x :: 0 <= x < i ==> InClass(line[x], Digits);
        assert forall x :: j <= x < k ==> InClass(line[x], Digits);
        assert forall x :: k + 1 <= x < k + 1 + f ==> InClass(line[x], Digits);
        assert InClass(line[i], Spaces);
        Some(RunsRecord(line, i, j, k, f))
  }

  /** The record of a line whose id run ends at `i`, whose units run is
      `[j, k)` and whose fraction run has `f` digits after the point at `k`. */
  function RunsRecord(line: string, i: nat, j: nat, k: nat, f: nat): GrantRecord
    requires i <= j <= k < k + 1 + f <= |line|
    requires AllDigits(line[j..k]) && AllDigits(line[k + 1..k + 1 + f])
  {
    GrantRecord(line[..i], DecimalOf(line[j..k], line[k + 1..k + 1 + f]))
  }

  predicate AllSpace(s: string) {
    forall k :: 0 <= k < |s| ==> IsSpace(s[k])
  }

  /** A run over a spelled-out piece of class `k` that is not followed by
      another character of its class has the piece's length. */
  lemma RunOver(t: string, x: nat, w: string, k: CharClass)
    requires Spells(t, x, w)
    requires forall i :: 0 <= i < |w| ==> InClass(w[i], k)
    requires x + |w| < |t| ==> !InClass(t[x + |w|], k)
    ensures x + |w| <= |t| && Run(t, x, k) == |w|
  {
    SpellsSlice(t, x, w);
    assert forall i :: x <= i < x + |w| ==> InClass(t[i], k) by {
      forall i | x <= i < x + |w| ensures InClass(t[i], k) { assert t[i] == t[x..x + |w|][i - x]; }
    }
    RunExact(t, x, x + |w|, k);
  }

  /** No digit at index `e`: the text ends there or has another character. */
  predicate NoDigitAt(t: string, e: nat) {
    e < |t| ==> !IsDigit(t[e])
  }

  /** The pieces of a table line, spelled out at their places. */
  lemma LinePieces(line: string, id: string, gap: string, units: string, fraction: string, j: nat, k: nat)
    requires j == |id| + |gap| && k == j + |units|
    requires Spells(line, 0, id + gap + units + "." + fraction)
    ensures Spells(line, 0, id) && Spells(line, |id|, gap) && Spells(line, j, units)
    ensures Spells(line, k, ".") && Spells(line, k + 1, fraction)
  {
    SpellsSplit(line, 0, id + gap + units + ".", fraction);
    SpellsSplit(line, 0, id + gap + units, ".");
    SpellsSplit(line, 0, id + gap, units);
    SpellsSplit(line, 0, id, gap);
  }

  /** The line match, given where its four runs end. */
  lemma LineRecordAt(line: string, i: nat, j: nat, k: nat, f: nat)
    requires 0 < i < j < k < |line| && line[k] == '.' && 0 < f && k + 1 + f <= |line|
    requires Run(line, 0, Digits) == i && i + Run(line, i, Spaces) == j && j + Run(line, j, Digits) == k
    requires Run(line, k + 1, Digits) == f
    requires AllDigits(line[j..k]) && AllDigits(line[k + 1..k + 1 + f])
    ensures LineRecord(line) == Some(RunsRecord(line, i, j, k, f))
  {
  }

  /** The same line match, with the three runs known as strings. */
  lemma LineRecordOf(line: string, id: string, units: string, fraction: string, j: nat, k: nat)
    requires 0 < |id| < j < k < |line| && line[k] == '.' && 0 < |fraction| && k + 1 + |fraction| <= |line|
    requires Run(line, 0, Digits) == |id| && Run(line, |id|, Spaces) == j - |id| && Run(line, j, Digits) == k - j
    requires Run(line, k + 1, Digits) == |fraction|
    requires line[..|id|] == id && line[j..k] == units && line[k + 1..k + 1 + |fraction|] == fraction
    requires AllDigits(units) && AllDigits(fraction)
    ensures LineRecord(line) == Some(GrantRecord(id, DecimalOf(units, fraction)))
  {
    LineRecordAt(line, |id|, j, k, |fraction|);
  }

  /** The runs of a line that spells out an id, a gap, units, a point and a
      fraction not followed by another digit. */
  lemma LineRuns(line: string, id: string, gap: string, units: string, fraction: string, j: nat, k: nat)
    requires j == |id| + |gap| && k == j + |units|
    requires |id| >= 1 && AllDigits(id) && |gap| >= 1 && AllSpace(gap)
    requires |units| >= 1 && AllDigits(units) && |fraction| >= 1 && AllDigits(fraction)
    requires Spells(line, 0, id) && Spells(line, |id|, gap) && Spells(line, j, units)
    requires Spells(line, k, ".") && Spells(line, k + 1, fraction)
    requires NoDigitAt(line, k + 1 + |fraction|)
    ensures k + 1 + |fraction| <= |line| && line[k] == '.'
    ensures Run(line, 0, Digits) == |id| && Run(line, |id|, Spaces) == j - |id| && Run(line, j, Digits) == k - j
    ensures Run(line, k + 1, Digits) == |fraction|
  {
    assert line[|id|] == gap[0] && line[j] == units[0] && line[k] == '.';
    assert forall x :: 0 <= x < |id| ==> InClass(id[x], Digits);
    assert forall x :: 0 <= x < |gap| ==> InClass(gap[x], Spaces);
    assert forall x :: 0 <= x < |units| ==> InClass(units[x], Digits);
    assert forall x :: 0 <= x < |fraction| ==> InClass(fraction[x], Digits);
    RunOver(line, 0, id, Digits);
    RunOver(line, |id|, gap, Spaces);
    RunOver(line, j, units, Digits);
    RunOver(line, k + 1, fraction, Digits);
  }

  /** The id, units and fraction as slices of the line. */
  lemma LineSlices(line: string, id: string, units: string, fraction: string, j: nat, k: nat)
    requires Spells(line, 0, id) && Spells(line, j, units) && Spells(line, k + 1, fraction)
    ensures |id| <= |line| && j + |units| <= |line| && k + 1 + |fraction| <= |line|
    ensures line[..|id|] == id && line[j..j + |units|] == units && line[k + 1..k + 1 + |fraction|] == fraction
  {
    SpellsSlice(line, 0, id);
    SpellsSlice(line, j, units);
    SpellsSlice(line, k + 1, fraction);
  }

  /** A line that spells out the pieces of a table row at their places. */
  lemma LineRecordOfPieces(line: string, id: string, gap: string, units: string, fraction: string, j: nat, k: nat)
    requires j == |id| + |gap| && k == j + |units|
    requires |id| >= 1 && AllDigits(id) && |gap| >= 1 && AllSpace(gap)
    requires |units| >= 1 && AllDigits(units) && |fraction| >= 1 && AllDigits(fraction)
    requires Spells(line, 0, id) && Spells(line, |id|, gap) && Spells(line, j, units)
    requires Spells(line, k, ".") && Spells(line, k + 1, fraction)
    requires NoDigitAt(line, k + 1 + |fraction|)
    ensures LineRecord(line) == Some(GrantRecord(id, DecimalOf(units, fraction)))
  {
    LineSlices(line, id, units, fraction, j, k);
    LineRuns(line, id, gap, units, fraction, j, k);
    LineRecordOf(line, id, units, fraction, j, k);
  }

  /** A line that starts with an id, white space and a score `units.fraction`
      not followed by another digit is read as that id and score, whatever
      else the line holds. */
  lemma LineRecordRead(line: string, id: string, gap: string, units: string, fraction: string)
    requires |id| >= 1 && AllDigits(id) && |gap| >= 1 && AllSpace(gap)
    requires |units| >= 1 && AllDigits(units) && |fraction| >= 1 && AllDigits(fraction)
    requires Spells(line, 0, id + gap + units + "." + fraction)
    requires NoDigitAt(line, |id| + |gap| + |units| + 1 + |fraction|)
    ensures LineRecord(line) == Some(GrantRecord(id, DecimalOf(units, fraction)))
  {
    var j := |id| + |gap|;
    var k := j + |units|;
    LinePieces(line, id, gap, units, fraction, j, k);
    LineRecordOfPieces(line, id, gap, units, fraction, j, k);
  }

  /** `r` is what the line shows: its id digits, white space up to `j`, the
      units `[j, k)`, a point at `k` and `f` fraction digits not followed by
      another digit, the score being the value of those digits. */
  predicate ReadAs(line: string, r: GrantRecord, j: nat, k: nat, f: nat) {
    var i := |r.studentId|;
    0 < i < j < k && 0 < f && k + 1 + f <= |line|
    && r.studentId == line[..i] && AllDigits(line[..i])
    && AllSpace(line[i..j]) && AllDigits(line[j..k]) && line[k] == '.'
    && AllDigits(line[k + 1..k + 1 + f]) && NoDigitAt(line, k + 1 + f)
    && r.grantScore == DecimalOf(line[j..k], line[k + 1..k + 1 + f])
  }

  /** The converse of LineRecordRead: a record is read only from a line that
      starts with an id, white space and `units.fraction`, and its score is
      the value written there; every other line is skipped. */
  lemma LineRecordSound(line: string)
    requires LineRecord(line).Some?
    ensures exists j, k, f :: ReadAs(line, LineRecord(line).value, j, k, f)
  {
    var i := Run(line, 0, Digits);
    var j := i + Run(line, i, Spaces);
    var k := j + Run(line, j, Digits);
    LineRecordRuns(line, i, j, k);
    var f := Run(line, k + 1, Digits);
    RunsRead(line, i, j, k, f);
    LineRecordAt(line, i, j, k, f);
  }

  /** Where the four runs of a matching line end. */
  lemma LineRecordRuns(line: string, i: nat, j: nat, k: nat)
    requires LineRecord(line).Some?
    requires i == Run(line, 0, Digits) && j == i + Run(line, i, Spaces) && k == j + Run(line, j, Digits)
    ensures 0 < i < j < k < |line| && line[k] == '.' && 0 < Run(line, k + 1, Digits)
  {
  }

  /** The four runs of a matching line, read as a record. */
  lemma RunsRead(line: string, i: nat, j: nat, k: nat, f: nat)
    requires 0 < i < j < k < |line| && line[k] == '.' && 0 < f && k + 1 + f <= |line|
    requires Run(line, 0, Digits) == i && i + Run(line, i, Spaces) == j && j + Run(line, j, Digits) == k
    requires Run(line, k + 1, Digits) == f
    ensures AllDigits(line[j..k]) && AllDigits(line[k + 1..k + 1 + f])
    ensures ReadAs(line, RunsRecord(line, i, j, k, f), j, k, f)
  {
    assert forall x :: 0 <= x < i ==> InClass(line[x], Digits);
    assert forall x :: i <= x < j ==> InClass(line[x], Spaces);
    assert forall x :: j <= x < k ==> InClass(line[x], Digits);
    assert forall x :: k + 1 <= x < k + 1 + f ==> InClass(line[x], Digits);
    assert AllDigits(line[..i]) && AllSpace(line[i..j]);
    assert AllDigits(line[j..k]) && AllDigits(line[k + 1..k + 1 + f]);
  }

  /** A line whose runs stop before a point followed by a digit is skipped. */
  lemma NoScoreSkipped(line: string, i: nat, j: nat, k: nat)
    requires 0 < i < j <= k <= |line|
    requires Run(line, 0, Digits) == i && i + Run(line, i, Spaces) == j && j + Run(line, j, Digits) == k
    requires k == j || k == |line| || line[k] != '.' || k + 1 == |line| || !IsDigit(line[k + 1])
    ensures LineRecord(line).None?
  {
    if j < k < |line| && line[k] == '.' {
      RunExact(line, k + 1, k + 1, Digits);
    }
  }

  /** Lines that begin like a row but lack the units, the point or the
      fraction digits are skipped. */
  lemma LineRecordSkips()
    ensures LineRecord("123 abc").None?
    ensures LineRecord("123 45").None?
    ensures LineRecord("123 45.").None?
    ensures LineRecord("123 45.x").None?
  {
    SkipsNoUnits();
    SkipsNoPoint();
    SkipsNoFraction("123 45.");
    SkipsNoFraction("123 45.x");
  }

  /** No digit follows the white space. */
  lemma SkipsNoUnits()
    ensures LineRecord("123 abc").None?
  {
    var t := "123 abc";
    assert t[..4] == "123 " && t[4] == 'a';
    SkipsAt(t, 4);
  }

  /** The line ends after the units. */
  lemma SkipsNoPoint()
    ensures LineRecord("123 45").None?
  {
    var t := "123 45";
    assert t[..4] == "123 " && t[4] == '4' && t[5] == '5' && |t| == 6;
    SkipsAt(t, 6);
  }

  /** No digit follows the point. */
  lemma SkipsNoFraction(t: string)
    requires t == "123 45." || t == "123 45.x"
    ensures LineRecord(t).None?
  {
    assert t[..4] == "123 " && t[4] == '4' && t[5] == '5' && t[6] == '.';
    assert |t| == 7 || t[7] == 'x';
    SkipsAt(t, 6);
  }

  /** A line that starts `123 `, has digits up to `k` and no score there. */
  lemma SkipsAt(line: string, k: nat)
    requires 4 <= k <= |line| && line[..4] == "123 "
    requires forall x :: 4 <= x < k ==> IsDigit(line[x])
    requires k < |line| ==> !IsDigit(line[k])
    requires 4 < |line| ==> !IsSpace(line[4])
    requires k == 4 || k == |line| || line[k] != '.' || k + 1 == |line| || !IsDigit(line[k + 1])
    ensures LineRecord(line).None?
  {
    assert line[0] == '1' && line[1] == '2' && line[2] == '3' && line[3] == ' ';
    RunExact(line, 0, 3, Digits);
    RunExact(line, 3, 4, Spaces);
    RunExact(line, 4, k, Digits);
    NoScoreSkipped(line, 3, 4, k);
  }

  /** The outcome of the line match on every line. */
  function LineMatches(lines: seq<string>): seq<Option<GrantRecord>> {
    seq(|lines|, k requires 0 <= k < |lines| => LineRecord(lines[k]))
  }

  /** The values of the successful outcomes, in order. */
  function Somes(os: seq<Option<GrantRecord>>): (r: seq<GrantRecord>)
    ensures |r| <= |os|
  {
    if os == [] then []
    else Somes(os[..|os| - 1]) + (if os[|os| - 1].Some? then [os[|os| - 1].value] else [])
  }

  /** The records of all matching lines, in line order. */
  function TableOf(lines: seq<string>): (r: seq<GrantRecord>)
    ensures |r| <= |lines|
  {
    Somes(LineMatches(lines))
  }

  lemma {:induction false} SomesAppend(a: seq<Option<GrantRecord>>, b: seq<Option<GrantRecord>>)
    ensures Somes(a + b) == Somes(a) + Somes(b)
    decreases |b|
  {
    if b != [] {
      var b' := b[..|b| - 1];
      assert (a + b)[..|a + b| - 1] == a + b';
      SomesAppend(a, b');
    } else {
      assert a + b == a;
    }
  }

  lemma {:induction false} SomesSound(os: seq<Option<GrantRecord>>)
    ensures forall r :: r in Somes(os) ==> exists k :: 0 <= k < |os| && os[k] == Some(r)
    decreases |os|
  {
    if os != [] {
      var init := os[..|os| - 1];
      SomesSound(init);
      forall r | r in Somes(os)
        ensures exists k :: 0 <= k < |os| && os[k] == Some(r)
      {
        if r in Somes(init) {
          var k :| 0 <= k < |init| && init[k] == Some(r);
          assert os[k] == init[k];
        } else {
          assert os[|os| - 1] == Some(r);
        }
      }
    }
  }

  lemma {:induction false} SomesComplete(os: seq<Option<GrantRecord>>)
    ensures forall k :: 0 <= k < |os| && os[k].Some? ==> os[k].value in Somes(os)
    decreases |os|
  {
    if os != [] {
      var init := os[..|os| - 1];
      SomesComplete(init);
      forall k | 0 <= k < |os| && os[k].Some?
        ensures os[k].value in Somes(os)
      {
        if k < |init| {
          assert os[k] == init[k];
        }
      }
    }
  }

  /** The table of two blocks of lines is the first block's records followed by
      the second's: order is kept across lines. */
  lemma TableOfAppend(a: seq<string>, b: seq<string>)
    ensures TableOf(a + b) == TableOf(a) + TableOf(b)
  {
    assert LineMatches(a + b) == LineMatches(a) + LineMatches(b);
    SomesAppend(LineMatches(a), LineMatches(b));
  }

  /** The records of the table are exactly the records of the lines that
      match. */
  lemma TableOfMembers(lines: seq<string>)
    ensures forall r :: r in TableOf(lines) ==> exists k :: 0 <= k < |lines| && LineRecord(lines[k]) == Some(r)
    ensures forall k :: 0 <= k < |lines| && LineRecord(lines[k]).Some? ==> LineRecord(lines[k]).value in TableOf(lines)
  {
    var os := LineMatches(lines);
    SomesSound(os);
    SomesComplete(os);
    forall r | r in TableOf(lines)
      ensures exists k :: 0 <= k < |lines| && LineRecord(lines[k]) == Some(r)
    {
      var k :| 0 <= k < |os| && os[k] == Some(r);
      assert LineRecord(lines[k]) == Some(r);
    }
    forall k | 0 <= k < |lines| && LineRecord(lines[k]).Some?
      ensures LineRecord(lines[k]).value in TableOf(lines)
    {
      assert os[k] == LineRecord(lines[k]);
    }
  }

  /** Every record of the table is written on one of its lines, id, white
      space and `units.fraction`, with the score that line shows. */
  lemma TableOfRead(lines: seq<string>)
    ensures forall r :: r in TableOf(lines) ==>
      exists k, j, e, f :: 0 <= k < |lines| && ReadAs(lines[k], r, j, e, f)
  {
    TableOfMembers(lines);
    forall r | r in TableOf(lines)
      ensures exists k, j, e, f :: 0 <= k < |lines| && ReadAs(lines[k], r, j, e, f)
    {
      var k :| 0 <= k < |lines| && LineRecord(lines[k]) == Some(r);
      LineRecordSound(lines[k]);
    }
  }

  /** `extract_table_of_records`: the loop over the lines of a page. */
  method ExtractTableOfRecords(text: string) returns (records: seq<GrantRecord>)
    ensures records == TableOf(SplitLines(text))
  {
    records := [];
    var lines := SplitLines(text);
    ghost var os := LineMatches(lines);
    for i := 0 to |lines|
      invariant records == Somes(os[..i])
    {
      var line := lines[i];
      assert os[..i + 1][..i] == os[..i];
      assert os[..i + 1][i] == LineRecord(line);
      match LineRecord(line) {
        case Some(record) =>
          records := records + [record];
        case None =>
      }
    }
    assert os[..|lines|] == os;
  }

  // ---------------------------------------------------------------------------
  // The page loop of `process_pdf_to_tuple_list`

  datatype GrantTuple = GrantTuple(studentId: string, grantScore: Decimal, grantAmount: nat, subjectName: string, year: nat)

  /** The tuples of one page's records, each tagged with the page's tier and
      subject and the file's year. */
  function Tagged(records: seq<GrantRecord>, tier: nat, subject: string, year: nat): (r: seq<GrantTuple>)
    ensures |r| == |records|
    ensures forall k :: 0 <= k < |r| ==> r[k].studentId == records[k].studentId && r[k].grantScore == records[k].grantScore
    ensures forall k :: 0 <= k < |r| ==> r[k].grantAmount == tier && r[k].subjectName == subject && r[k].year == year
  {
    seq(|records|, k requires 0 <= k < |records| => TupleOf(records[k], tier, subject, year))
  }

  /** One page: its header is read first, even when it has no score lines. */
  function PageTuples(tab: seq<(string, string)>, page: string, year: nat): (r: Result<seq<GrantTuple>, GrantError>)
    ensures r.Err? <==> PageHeader(tab, page).Err?
  {
    match PageHeader(tab, page)
    case Err(e) => Err(e)
    case Ok((subject, tier)) => Ok(Tagged(TableOf(SplitLines(page)), tier, subject, year))
  }

  /** All pages in order; the first page that fails decides the error. */
  function PagesTuples(tab: seq<(string, string)>, pages: seq<string>, year: nat): (r: Result<seq<GrantTuple>, GrantError>)
  {
    if pages == [] then Ok([])
    else
      match PagesTuples(tab, pages[..|pages| - 1], year)
      case Err(e) => Err(e)
      case Ok(xs) =>
        match PageTuples(tab, pages[|pages| - 1], year)
        case Err(e) => Err(e)
        case Ok(ys) => Ok(xs + ys)
  }

  /** `process_pdf_to_tuple_list` on the text of a file's pages. */
  function FileTuples(tab: seq<(string, string)>, filename: string, pages: seq<string>): (r: Result<seq<GrantTuple>, GrantError>)
    ensures YearOf(filename).Err? ==> r == Err(BadFileName(YearOf(filename).error))
  {
    match YearOf(filename)
    case Err(message) => Err(BadFileName(message))
    case Ok(year) => PagesTuples(tab, pages, year)
  }

  /** Some page among the first `n` lacks a tier or a subject. */
  predicate SomePageFails(tab: seq<(string, string)>, pages: seq<string>, n: nat)
    requires n <= |pages|
  {
    exists k :: 0 <= k < n && PageHeader(tab, pages[k]).Err?
  }

  lemma SomePageFailsStep(tab: seq<(string, string)>, pages: seq<string>, n: nat)
    requires n < |pages|
    ensures SomePageFails(tab, pages, n + 1) <==> SomePageFails(tab, pages, n) || PageHeader(tab, pages[n]).Err?
  {
  }

  /** The first `n` pages fail exactly when one of them lacks a tier or a
      subject. */
  lemma {:induction false} PrefixFails(tab: seq<(string, string)>, pages: seq<string>, n: nat, year: nat)
    requires n <= |pages|
    ensures PagesTuples(tab, pages[..n], year).Err? <==> SomePageFails(tab, pages, n)
  {
    if n > 0 {
      PrefixFails(tab, pages, n - 1, year);
      SomePageFailsStep(tab, pages, n - 1);
      PrefixStep(tab, pages, n, year);
    }
  }

  /** The first `n` pages fail exactly when the first `n - 1` do or page
      `n - 1` lacks a tier or a subject. */
  lemma PrefixStep(tab: seq<(string, string)>, pages: seq<string>, n: nat, year: nat)
    requires 0 < n <= |pages|
    ensures PagesTuples(tab, pages[..n], year).Err?
      <==> PagesTuples(tab, pages[..n - 1], year).Err? || PageHeader(tab, pages[n - 1]).Err?
  {
    var prefix := pages[..n];
    assert prefix[..|prefix| - 1] == pages[..n - 1];
    assert prefix[|prefix| - 1] == pages[n - 1];
    LastPageStep(tab, prefix, year);
  }

  /** The pages fail exactly when those before the last do or the last one
      lacks a tier or a subject. */
  lemma LastPageStep(tab: seq<(string, string)>, pages: seq<string>, year: nat)
    requires pages != []
    ensures PagesTuples(tab, pages, year).Err?
      <==> PagesTuples(tab, pages[..|pages| - 1], year).Err? || PageHeader(tab, pages[|pages| - 1]).Err?
  {
  }

  /** The file fails exactly when some page lacks a tier or a subject. */
  lemma PagesFail(tab: seq<(string, string)>, pages: seq<string>, year: nat)
    ensures PagesTuples(tab, pages, year).Err? <==> exists k :: 0 <= k < |pages| && PageHeader(tab, pages[k]).Err?
  {
    PrefixFails(tab, pages, |pages|, year);
    assert pages[..|pages|] == pages;
  }

  /** The number of records on all pages together. */
  function RecordCount(pages: seq<string>): nat {
    if pages == [] then 0 else RecordCount(pages[..|pages| - 1]) + |TableOf(SplitLines(pages[|pages| - 1]))|
  }

  /** A file that is read gives one tuple per record of each page, every one
      carrying the file's year. */
  lemma {:induction false} PagesCount(tab: seq<(string, string)>, pages: seq<string>, year: nat)
    requires PagesTuples(tab, pages, year).Ok?
    ensures |PagesTuples(tab, pages, year).value| == RecordCount(pages)
    ensures forall k :: 0 <= k < |PagesTuples(tab, pages, year).value| ==> PagesTuples(tab, pages, year).value[k].year == year
    decreases |pages|
  {
    if pages != [] {
      PagesCount(tab, pages[..|pages| - 1], year);
    }
  }

  /** Appending a page appends its tuples, tagged with its own subject and tier:
      the tuples come page by page, in page order. */
  lemma PagesSnoc(tab: seq<(string, string)>, pages: seq<string>, page: string, year: nat)
    requires PagesTuples(tab, pages + [page], year).Ok?
    ensures PagesTuples(tab, pages, year).Ok? && PageHeader(tab, page).Ok?
    ensures var (subject, tier) := PageHeader(tab, page).value;
      PagesTuples(tab, pages + [page], year).value
        == PagesTuples(tab, pages, year).value + Tagged(TableOf(SplitLines(page)), tier, subject, year)
  {
    var all := pages + [page];
    assert all[..|all| - 1] == pages && all[|all| - 1] == page;
  }

  /** The tuples of a page whose header was read, as the loop extends them. */
  lemma PagesStep(tab: seq<(string, string)>, pages: seq<string>, i: nat, year: nat, records: seq<GrantTuple>, subject: string, percentage: string)
    requires i < |pages| && PagesTuples(tab, pages[..i], year) == Ok(records)
    requires SubjectAndPercentage(tab, pages[i]) == Ok((subject, percentage))
    requires |percentage| >= 1 && AllDigits(percentage[..|percentage| - 1])
    ensures PagesTuples(tab, pages[..i + 1], year)
      == Ok(records + Tagged(TableOf(SplitLines(pages[i])), TierOf(percentage), subject, year))
  {
    var init := pages[..i + 1];
    assert init[..|init| - 1] == pages[..i] && init[|init| - 1] == pages[i];
  }

  /** The percentage read off a page is digits followed by `%`. */
  lemma PercentageShape(tab: seq<(string, string)>, page: string, subject: string, percentage: string)
    requires SubjectAndPercentage(tab, page) == Ok((subject, percentage))
    ensures |percentage| >= 1 && AllDigits(percentage[..|percentage| - 1])
  {
  }

  /** A page whose header cannot be read ends the loop with its error. */
  lemma PagesStop(tab: seq<(string, string)>, pages: seq<string>, i: nat, year: nat, records: seq<GrantTuple>)
    requires i < |pages| && PagesTuples(tab, pages[..i], year) == Ok(records)
    requires SubjectAndPercentage(tab, pages[i]).Err?
    ensures PagesTuples(tab, pages, year) == Err(SubjectAndPercentage(tab, pages[i]).error)
  {
    var init := pages[..i + 1];
    assert init[..|init| - 1] == pages[..i] && init[|init| - 1] == pages[i];
    LastPageFails(tab, init, year, records);
    PagesErrPersists(tab, pages, i + 1, year);
  }

  /** Pages whose last page cannot be read after the others were: that page's error. */
  lemma LastPageFails(tab: seq<(string, string)>, pages: seq<string>, year: nat, records: seq<GrantTuple>)
    requires pages != [] && PagesTuples(tab, pages[..|pages| - 1], year) == Ok(records)
    requires SubjectAndPercentage(tab, pages[|pages| - 1]).Err?
    ensures PagesTuples(tab, pages, year) == Err(SubjectAndPercentage(tab, pages[|pages| - 1]).error)
  {
  }

  /** Once a prefix of the pages fails, every longer one fails the same way. */
  lemma {:induction false} PagesErrPersists(tab: seq<(string, string)>, pages: seq<string>, n: nat, year: nat)
    requires n <= |pages| && PagesTuples(tab, pages[..n], year).Err?
    ensures PagesTuples(tab, pages, year) == PagesTuples(tab, pages[..n], year)
    decreases |pages| - n
  {
    if n < |pages| {
      var longer := pages[..n + 1];
      assert longer[..|longer| - 1] == pages[..n];
      PagesErrPersists(tab, pages, n + 1, year);
    } else {
      assert pages[..n] == pages;
    }
  }

  /** The tuple the inner loop appends for one record. */
  function TupleOf(record: GrantRecord, tier: nat, subject: string, year: nat): GrantTuple {
    GrantTuple(record.studentId, record.grantScore, tier, subject, year)
  }

  lemma TaggedSnoc(records: seq<GrantRecord>, k: nat, tier: nat, subject: string, year: nat)
    requires k < |records|
    ensures Tagged(records[..k + 1], tier, subject, year)
      == Tagged(records[..k], tier, subject, year) + [TupleOf(records[k], tier, subject, year)]
  {
  }

  /** The inner loop: one tuple per record of the page, appended in order. */
  method AppendTuples(records: seq<GrantTuple>, studentRecords: seq<GrantRecord>, tier: nat, subject: string, year: nat)
    returns (out: seq<GrantTuple>)
    ensures out == records + Tagged(studentRecords, tier, subject, year)
  {
    out := records;
    for k := 0 to |studentRecords|
      invariant out == records + Tagged(studentRecords[..k], tier, subject, year)
    {
      TaggedSnoc(studentRecords, k, tier, subject, year);
      out := out + [TupleOf(studentRecords[k], tier, subject, year)];
    }
    assert studentRecords[..|studentRecords|] == studentRecords;
  }

  /** The page loop: the header of each page, then its records one by one. */
  method ProcessPages(pages: seq<string>, year: nat) returns (r: Result<seq<GrantTuple>, GrantError>)
    ensures r == PagesTuples(SubjectTable, pages, year)
  {
    var records: seq<GrantTuple> := [];
    for i := 0 to |pages|
      invariant PagesTuples(SubjectTable, pages[..i], year) == Ok(records)
    {
      var page := pages[i];
      var header := ExtractSubjectAndPercentage(page);
      if header.Err? {
        PagesStop(SubjectTable, pages, i, year, records);
        return Err(header.error);
      }
      var (subjectName, grantAmount) := header.value;
      PercentageShape(SubjectTable, page, subjectName, grantAmount);
      PagesStep(SubjectTable, pages, i, year, records, subjectName, grantAmount);
      var studentRecords := ExtractTableOfRecords(page);
      records := AppendTuples(records, studentRecords, TierOf(grantAmount), subjectName, year);
    }
    assert pages[..|pages|] == pages;
    return Ok(records);
  }

  /** `process_pdf_to_tuple_list`: the year comes from the file name before
      any page is looked at. */
  method ProcessPdfToTupleList(filename: string, pages: seq<string>) returns (r: Result<seq<GrantTuple>, GrantError>)
    ensures r == FileTuples(SubjectTable, filename, pages)
  {
    var year := YearOf(filename);
    if year.Err? {
      return Err(BadFileName(year.error));
    }
    r := ProcessPages(pages, year.value);
  }
}
