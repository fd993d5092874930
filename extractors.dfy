/** The extractors that read one chunk of an enrollment document
    (src/enrollments/extractors.py): the university header, the faculty
    header, the subject header and the enrollment records. */
module Extractors {
  import opened Wrappers
  import opened Text

  // ---------------------------------------------------------------------------
  // `\s+(.+?)TAIL`, shared by the three header patterns

  /** What follows the lazy group: a newline, or white space and then a fixed phrase. */
  datatype Tail = NewlineTail | SpacedAnchor(anchor: string)

  /** `\s+` followed by `w` at `e`: some end of the white-space run starting at
      `e` is followed by `w`. */
  predicate SpacedAnchorAt(t: string, e: nat, w: string)
    requires e <= |t|
  {
    exists b :: e < b <= e + Run(t, e, Spaces) && OccursAt(t, b, w)
  }

  predicate TailAt(t: string, e: nat, tail: Tail)
    requires e <= |t|
  {
    match tail
    case NewlineTail => e < |t| && t[e] == '\n'
    case SpacedAnchor(w) => SpacedAnchorAt(t, e, w)
  }

  /** `\s+` tried from the end `e` of its run backwards: is `w` after one of them? */
  function AnchorBack(t: string, e: nat, b: nat, w: string): bool
    requires e <= |t| && e <= b <= e + Run(t, e, Spaces)
    decreases b
  {
    if b == e then false
    else if OccursAt(t, b, w) then true
    else AnchorBack(t, e, b - 1, w)
  }

  /** The backward trial finds `w` exactly when it occurs after one of the ends tried. */
  lemma {:induction false} AnchorBackSpec(t: string, e: nat, b: nat, w: string)
    requires e <= |t| && e <= b <= e + Run(t, e, Spaces)
    ensures AnchorBack(t, e, b, w) <==> exists b' :: e < b' <= b && OccursAt(t, b', w)
    decreases b
  {
    if b > e && !OccursAt(t, b, w) {
      AnchorBackSpec(t, e, b - 1, w);
      if exists b' :: e < b' <= b && OccursAt(t, b', w) {
        var b' :| e < b' <= b && OccursAt(t, b', w);
        assert b' != b;
      }
    }
  }

  /** Whether the tail matches at `e`, as `re` tries it. */
  function TailMatches(t: string, e: nat, tail: Tail): bool
    requires e <= |t|
  {
    match tail
    case NewlineTail => e < |t| && t[e] == '\n'
    case SpacedAnchor(w) => AnchorBack(t, e, e + Run(t, e, Spaces), w)
  }

  /** Trying the tail as `re` does decides the tail's pattern. */
  lemma TailMatchesSpec(t: string, e: nat, tail: Tail)
    requires e <= |t|
    ensures TailMatches(t, e, tail) == TailAt(t, e, tail)
  {
    if tail.SpacedAnchor? {
      AnchorBackSpec(t, e, e + Run(t, e, Spaces), tail.anchor);
    }
  }

  /** `t[a..e]` can be the lazy group `(.+?)`, followed by the tail: it is not
      empty, holds no newline unless `.` matches every character (DOTALL): the
      run of characters other than newline from `a` reaches `e`, and the tail
      matches at `e`. */
  predicate GroupSplit(t: string, a: nat, e: nat, dotAll: bool, tail: Tail) {
    && a < e <= |t|
    && (dotAll || e <= a + Run(t, a, NonNewlines))
    && TailAt(t, e, tail)
  }

  // The search for the group is written once over positions alone: `lim(a)`
  // is the furthest end a group starting at `a` may have (the end of the text
  // under DOTALL, else the next newline), and `ok(e)` says whether the tail
  // matches at `e`.

  /** A group `[a, e)` that may be taken after white space from `s`. */
  predicate Cand(s: nat, a: nat, e: nat, lim: nat -> nat, ok: nat -> bool) {
    s < a && a < e <= lim(a) && ok(e)
  }

  /** The lazy `(.+?)` started at `a`, tried with the ends `e, e + 1, ...` up
      to `lim`: the first end after which the tail matches. */
  function LazyEnd(e: nat, lim: nat, ok: nat -> bool): (r: Option<nat>)
    ensures r.Some? ==> e <= r.value <= lim && ok(r.value)
    ensures r.Some? ==> forall e': nat :: e <= e' < r.value ==> !ok(e')
    ensures r.None? ==> forall e': nat :: e <= e' <= lim ==> !ok(e')
    decreases lim + 1 - e
  {
    if e > lim then None
    else if ok(e) then Some(e)
    else LazyEnd(e + 1, lim, ok)
  }

  /** The greedy `\s+` started at `s` given back one character at a time from
      the group start `a`: the first start for which the lazy group succeeds
      (see `BackFromSpec`). */
  function BackFrom(s: nat, a: nat, lim: nat -> nat, ok: nat -> bool): (r: Option<(nat, nat)>)
    requires s < a
    ensures r.Some? ==> s < r.value.0 <= a && r.value.0 < r.value.1 <= lim(r.value.0)
    decreases a
  {
    match LazyEnd(a + 1, lim(a), ok)
    case Some(e) => Some((a, e))
    case None => if a - 1 > s then BackFrom(s, a - 1, lim, ok) else None
  }

  /** The start found is the greatest one with a group, and its end the least;
      nothing is found when no start up to `a` has a group. */
  lemma {:induction false} BackFromSpec(s: nat, a: nat, lim: nat -> nat, ok: nat -> bool)
    requires s < a
    ensures var r := BackFrom(s, a, lim, ok);
      && (r.Some? ==> Cand(s, r.value.0, r.value.1, lim, ok))
      && (r.Some? ==> forall a': nat, e': nat :: r.value.0 < a' <= a ==> !Cand(s, a', e', lim, ok))
      && (r.Some? ==> forall e': nat :: e' < r.value.1 ==> !Cand(s, r.value.0, e', lim, ok))
      && (r.None? ==> forall a': nat, e': nat :: a' <= a ==> !Cand(s, a', e', lim, ok))
    decreases a
  {
    var here := LazyEnd(a + 1, lim(a), ok);
    if here.None? && a - 1 > s {
      BackFromSpec(s, a - 1, lim, ok);
    }
  }

  /** Under DOTALL a group may run to the end of the text; otherwise it stops
      before the next newline. */
  function Limit(t: string, dotAll: bool): nat -> nat {
    (a: nat) => if dotAll || a > |t| then |t| else a + Run(t, a, NonNewlines)
  }

  /** The tail tested at every end `e` of the group. */
  function TailTest(t: string, tail: Tail): nat -> bool {
    (e: nat) => e <= |t| && TailMatches(t, e, tail)
  }

  /** `\s+(.+?)TAIL` at `s`: the bounds of the group (see `LazyGroupSpec`). */
  function LazyGroup(t: string, s: nat, dotAll: bool, tail: Tail): Option<(nat, nat)>
    requires s <= |t|
  {
    if Run(t, s, Spaces) == 0 then None
    else BackFrom(s, s + Run(t, s, Spaces), Limit(t, dotAll), TailTest(t, tail))
  }

  /** The group found lies after `s` and inside the text. */
  lemma LazyGroupBounds(t: string, s: nat, dotAll: bool, tail: Tail)
    requires s <= |t|
    ensures var r := LazyGroup(t, s, dotAll, tail);
      r.Some? ==> s < r.value.0 < r.value.1 <= |t|
  {
    var r := LazyGroup(t, s, dotAll, tail);
    assert r.Some? ==> Limit(t, dotAll)(r.value.0) <= |t|;
  }

  /** For the limit and tail test of a pattern, a group `[a, e)` after white
      space from `s` is one that the tail accepts and that keeps to one line
      unless DOTALL is set.  With `BackFromSpec` and `LazyGroupBack` this says
      what `re` finds for `\s+(.+?)TAIL`: of the starts inside the white-space
      run the last one with such a group, and for it the shortest group. */
  lemma GroupCand(t: string, s: nat, a: nat, e: nat, dotAll: bool, tail: Tail)
    requires a <= |t|
    ensures Cand(s, a, e, Limit(t, dotAll), TailTest(t, tail)) == (s < a && GroupSplit(t, a, e, dotAll, tail))
  {
    if s < a && a < e <= |t| {
      TailMatchesSpec(t, e, tail);
      assert TailTest(t, tail)(e) == TailAt(t, e, tail);
    }
  }

  /** `LazyGroup` is the backward search over the white-space run at `s`,
      and finds nothing when there is no white space at `s`. */
  lemma LazyGroupBack(t: string, s: nat, dotAll: bool, tail: Tail)
    requires s <= |t|
    ensures Run(t, s, Spaces) == 0 ==> LazyGroup(t, s, dotAll, tail).None?
    ensures Run(t, s, Spaces) > 0 ==>
      LazyGroup(t, s, dotAll, tail) == BackFrom(s, s + Run(t, s, Spaces), Limit(t, dotAll), TailTest(t, tail))
  {
  }

  /** A start `a` whose shortest accepted group ends at `e` is found at once. */
  lemma BackFromExact(s: nat, a: nat, e: nat, lim: nat -> nat, ok: nat -> bool)
    requires s < a < e <= lim(a) && ok(e)
    requires forall e': nat :: a < e' < e ==> !ok(e')
    ensures BackFrom(s, a, lim, ok) == Some((a, e))
  {
    var r := LazyEnd(a + 1, lim(a), ok);
    if r.Some? {
      assert !(r.value < e) && !(e < r.value);
    }
  }

  /** When the white space at `s` is exactly `t[s..a]` and `t[a..e]` is the
      shortest group after it that the tail accepts, that is what is found. */
  lemma LazyGroupExact(t: string, s: nat, a: nat, e: nat, dotAll: bool, tail: Tail)
    requires s < a <= e <= |t| && Run(t, s, Spaces) == a - s
    requires GroupSplit(t, a, e, dotAll, tail)
    requires forall e': nat :: a < e' < e ==> !TailAt(t, e', tail)
    ensures LazyGroup(t, s, dotAll, tail) == Some((a, e))
  {
    ExactTests(t, a, e, dotAll, tail);
    BackFromExact(s, a, e, Limit(t, dotAll), TailTest(t, tail));
    LazyGroupFrom(t, s, a, e, dotAll, tail);
  }

  /** What the backward search finds from the end `a` of the white space at `s`
      is what `LazyGroup` finds. */
  lemma LazyGroupFrom(t: string, s: nat, a: nat, e: nat, dotAll: bool, tail: Tail)
    requires s < a <= |t| && a == s + Run(t, s, Spaces)
    requires BackFrom(s, a, Limit(t, dotAll), TailTest(t, tail)) == Some((a, e))
    ensures LazyGroup(t, s, dotAll, tail) == Some((a, e))
  {
    assert Run(t, s, Spaces) > 0;
  }

  /** The limit and tail test seen from a group that the tail accepts first at `e`. */
  lemma ExactTests(t: string, a: nat, e: nat, dotAll: bool, tail: Tail)
    requires a <= e <= |t| && GroupSplit(t, a, e, dotAll, tail)
    requires forall e': nat :: a < e' < e ==> !TailAt(t, e', tail)
    ensures e <= Limit(t, dotAll)(a) && TailTest(t, tail)(e)
    ensures forall e': nat :: a < e' < e ==> !TailTest(t, tail)(e')
  {
    var ok := TailTest(t, tail);
    TailMatchesSpec(t, e, tail);
    assert ok(e) == TailAt(t, e, tail);
    forall e': nat | a < e' < e ensures !ok(e') {
      TailMatchesSpec(t, e', tail);
      assert ok(e') == TailAt(t, e', tail);
    }
  }

  /** `g` followed by a blank and `w` never contains `w` starting inside `g`. */
  predicate AnchorFree(g: string, w: string) {
    forall k :: 0 <= k < |g| ==> !OccursAt(g + " " + w, k, w)
  }

  /** In text holding `g`, a blank and `w` from `a` on, where `g` ends in a
      character that is not white space, `\s+w` is first found at the end of `g`. */
  lemma AnchorAfterGroup(t: string, a: nat, g: string, w: string)
    requires a + |g| + 1 + |w| <= |t| && t[a..a + |g| + 1 + |w|] == g + " " + w
    requires g != [] && !IsSpace(g[|g| - 1]) && AnchorFree(g, w)
    ensures SpacedAnchorAt(t, a + |g|, w)
    ensures forall e': nat :: a < e' < a + |g| ==> !SpacedAnchorAt(t, e', w)
  {
    AnchorAtEnd(t, a, g, w, g + " " + w);
    forall e': nat | a < e' < a + |g| ensures !SpacedAnchorAt(t, e', w) {
      NoAnchorBefore(t, a, g, w, g + " " + w, e');
    }
  }

  /** The blank after `g` is followed by `w`. */
  lemma AnchorAtEnd(t: string, a: nat, g: string, w: string, u: string)
    requires u == g + " " + w && a + |u| <= |t| && t[a..a + |u|] == u
    ensures SpacedAnchorAt(t, a + |g|, w)
  {
    SliceIndex(t, a, u, |g|);
    assert InClass(t[a + |g|], Spaces);
    InnerSlice(t, a, u, a + |g| + 1, |w|);
    assert u[|g| + 1..|g| + 1 + |w|] == w;
    assert OccursAt(t, a + |g| + 1, w);
  }

  /** White space inside `g` is never followed by `w`. */
  lemma NoAnchorBefore(t: string, a: nat, g: string, w: string, u: string, e': nat)
    requires u == g + " " + w && a + |u| <= |t| && t[a..a + |u|] == u
    requires g != [] && !IsSpace(g[|g| - 1]) && AnchorFree(g, w)
    requires a < e' < a + |g|
    ensures !SpacedAnchorAt(t, e', w)
  {
    SliceIndex(t, a, u, |g| - 1);
    assert !InClass(t[a + |g| - 1], Spaces);
    assert e' + Run(t, e', Spaces) <= a + |g| - 1;
    forall b | e' < b <= e' + Run(t, e', Spaces) ensures !OccursAt(t, b, w) {
      InnerSlice(t, a, u, b, |w|);
      assert !OccursAt(u, b - a, w);
    }
  }

  /** A character inside a slice known to be `u` is the matching character of `u`. */
  lemma SliceIndex(t: string, a: nat, u: string, x: nat)
    requires a + |u| <= |t| && t[a..a + |u|] == u && x < |u|
    ensures t[a + x] == u[x]
  {
    assert t[a..a + |u|][x] == t[a + x];
  }

  /** A slice inside a slice known to be `u` is the matching slice of `u`. */
  lemma InnerSlice(t: string, a: nat, u: string, b: nat, n: nat)
    requires a <= b && b + n <= a + |u| <= |t| && t[a..a + |u|] == u
    ensures t[b..b + n] == u[b - a..b - a + n]
  {
    var l, r := t[b..b + n], u[b - a..b - a + n];
    forall x | 0 <= x < n ensures l[x] == r[x] {
      assert t[b + x] == t[a..a + |u|][b - a + x];
    }
  }

  // ---------------------------------------------------------------------------
  // The three header patterns

  /** The phrase "წლიური გადასახადი" (annual fee) that ends the faculty name. */
  const FeeAnchor: string := "წლიური გადასახადი"
  /** The words "საგამოცდოს" and "საკონკურსო" around the subject header. */
  const ExamsWord: string := "საგამოცდოს"
  const ContestWord: string := "საკონკურსო"

  datatype Header = UniversityHeader | FacultyHeader | SubjectHeader

  /** The messages of the `ValueError`s raised when a header is missing. */
  const UniversityNotFound: string := "university ID/name not found in the given text chunk."
  const FacultyNotFound: string := "Faculty ID/name not found in the given text chunk."

  /** Length of the id group at `p`: `\d{3}`, the greedy `\d{8,11}` (which can
      only succeed with the whole digit run, as white space must follow), or
      the literal "საგამოცდოს". */
  function IdLength(t: string, h: Header, p: nat): (n: Option<nat>)
    requires p <= |t|
    ensures n.Some? ==> p + n.value <= |t|
  {
    match h
    case UniversityHeader => UniversityIdLength(t, p)
    case FacultyHeader => FacultyIdLength(t, p)
    case SubjectHeader => if OccursAt(t, p, ExamsWord) then Some(|ExamsWord|) else None
  }

  function UniversityIdLength(t: string, p: nat): (n: Option<nat>)
    requires p <= |t|
    ensures n.Some? ==> p + n.value <= |t|
  {
    if LineStart(t, p) && Run(t, p, Digits) >= 3 then Some(3) else None
  }

  function FacultyIdLength(t: string, p: nat): (n: Option<nat>)
    requires p <= |t|
    ensures n.Some? ==> p + n.value <= |t|
  {
    var d := Run(t, p, Digits);
    if LineStart(t, p) && 8 <= d <= 11 then Some(d) else None
  }

  /** The pattern of each header once its id group is read:
      `^(\d{3})\s+(.+?)\n` (MULTILINE),
      `^(\d{8,11})\s+(.+?)\s+წლიური გადასახადი` (MULTILINE and DOTALL),
      `საგამოცდოს\s+(.+?)\s+საკონკურსო`. */
  function HeaderTail(h: Header): Tail {
    match h
    case UniversityHeader => NewlineTail
    case FacultyHeader => SpacedAnchor(FeeAnchor)
    case SubjectHeader => SpacedAnchor(ContestWord)
  }

  function DotAll(h: Header): bool {
    h == FacultyHeader
  }

  /** A match of the header pattern at `p`: the end of its id group and the
      bounds of its name group. */
  datatype HeaderMatch = HeaderMatch(idEnd: nat, nameStart: nat, nameEnd: nat)

  function MatchAt(t: string, h: Header, p: nat): (r: Option<HeaderMatch>)
    requires p <= |t|
    ensures r.Some? ==> p <= r.value.idEnd < r.value.nameStart < r.value.nameEnd <= |t|
  {
    match IdLength(t, h, p)
    case None => None
    case Some(n) =>
      LazyGroupBounds(t, p + n, DotAll(h), HeaderTail(h));
      match LazyGroup(t, p + n, DotAll(h), HeaderTail(h))
      case None => None
      case Some(g) => Some(HeaderMatch(p + n, g.0, g.1))
  }

  /** How a match is put together from its id group and its name group. */
  lemma MatchFromParts(t: string, h: Header, n: nat, g: (nat, nat))
    requires IdLength(t, h, 0) == Some(n)
    requires LazyGroup(t, n, DotAll(h), HeaderTail(h)) == Some(g)
    ensures MatchAt(t, h, 0) == Some(HeaderMatch(n, g.0, g.1))
  {
  }

  /** The header pattern tried at every index of `t`. */
  function HeaderMatcher(t: string, h: Header): nat -> Option<HeaderMatch> {
    (q: nat) => if q <= |t| then MatchAt(t, h, q) else None
  }

  /** `re.search` from `i`: the first index where the pattern matches (see
      `SearchFromSpec`). */
  function SearchFrom(t: string, h: Header, i: nat): (r: Option<(nat, HeaderMatch)>)
    requires i <= |t|
    ensures r.Some? ==> i <= r.value.0 <= |t| && MatchAt(t, h, r.value.0) == Some(r.value.1)
  {
    var r := Search(|t|, HeaderMatcher(t, h), i);
    assert r.Some? ==> HeaderMatcher(t, h)(r.value.0) == MatchAt(t, h, r.value.0);
    r
  }

  /** The index found is the first at which the pattern matches, and nothing is
      found when it matches nowhere from `i` on. */
  lemma SearchFromSpec(t: string, h: Header, i: nat)
    requires i <= |t|
    ensures var r := SearchFrom(t, h, i);
      && (r.Some? ==> forall q: nat :: i <= q < r.value.0 ==> MatchAt(t, h, q).None?)
      && (r.None? ==> forall q: nat :: i <= q <= |t| ==> MatchAt(t, h, q).None?)
  {
    var at := HeaderMatcher(t, h);
    SearchSpec(|t|, at, i);
    var r := SearchFrom(t, h, i);
    var hi := if r.Some? then r.value.0 else |t| + 1;
    forall q: nat | i <= q < hi ensures MatchAt(t, h, q).None? {
      assert at(q) == MatchAt(t, h, q);
    }
  }

  // ---------------------------------------------------------------------------
  // extract_university_name_and_id, extract_faculty_name_and_id, extract_taken_subjects

  /** The `(id, name)` of the first match of a header pattern, the name
      stripped; the error of the `ValueError` when nothing matches. */
  function ExtractHeader(text: string, h: Header, error: string): (r: Result<(string, string), string>)
    ensures r.Err? ==> r.error == error
    ensures r.Ok? <==> SearchFrom(text, h, 0).Some?
  {
    match SearchFrom(text, h, 0)
    case None => Err(error)
    case Some((p, m)) => Ok((text[p..m.idEnd], Strip(text[m.nameStart..m.nameEnd])))
  }

  /** A header is missing exactly when its pattern matches nowhere in the text. */
  lemma ExtractHeaderErr(text: string, h: Header, error: string)
    ensures ExtractHeader(text, h, error).Err? <==> forall q: nat :: q <= |text| ==> MatchAt(text, h, q).None?
  {
    SearchFromSpec(text, h, 0);
  }

  /** A header that is found is read from the first place its pattern matches. */
  lemma ExtractHeaderFirst(text: string, h: Header, error: string)
    ensures var r := ExtractHeader(text, h, error);
      r.Ok? ==> exists p: nat, m: HeaderMatch ::
        (&& p <= |text| && MatchAt(text, h, p) == Some(m)
         && (forall q: nat :: q < p ==> MatchAt(text, h, q).None?)
         && r.value == (text[p..m.idEnd], Strip(text[m.nameStart..m.nameEnd])))
  {
    SearchFromSpec(text, h, 0);
  }

  function ExtractUniversityNameAndId(text: string): (r: Result<(string, string), string>)
    ensures r.Err? ==> r.error == UniversityNotFound
  {
    ExtractHeader(text, UniversityHeader, UniversityNotFound)
  }

  /** A university id is three digits, the name is stripped and on one line, and
      the error is raised exactly when no line has the university pattern. */
  lemma UniversityResult(text: string)
    ensures var r := ExtractUniversityNameAndId(text);
      && (r.Ok? ==> |r.value.0| == 3 && AllDigits(r.value.0))
      && (r.Ok? ==> Stripped(r.value.1) && '\n' !in r.value.1)
      && (r.Err? <==> forall q: nat :: q <= |text| ==> MatchAt(text, UniversityHeader, q).None?)
  {
    ExtractHeaderErr(text, UniversityHeader, UniversityNotFound);
    var s := SearchFrom(text, UniversityHeader, 0);
    if s.Some? {
      UniversityShape(text, s.value.0);
    }
  }

  /** What a university match gives: three digits, and a name without newline. */
  lemma UniversityShape(t: string, p: nat)
    requires p <= |t| && MatchAt(t, UniversityHeader, p).Some?
    ensures var m := MatchAt(t, UniversityHeader, p).value;
      var name := Strip(t[m.nameStart..m.nameEnd]);
      && m.idEnd == p + 3 && AllDigits(t[p..p + 3])
      && '\n' !in name
  {
    var m := MatchAt(t, UniversityHeader, p).value;
    LazyGroupLine(t, p + 3, NewlineTail);
    assert forall k :: p <= k < p + 3 ==> InClass(t[k], Digits);
    StripKeepsOut(t[m.nameStart..m.nameEnd], '\n');
  }

  /** Without DOTALL the group holds no newline. */
  lemma LazyGroupLine(t: string, s: nat, tail: Tail)
    requires s <= |t| && LazyGroup(t, s, false, tail).Some?
    ensures var r := LazyGroup(t, s, false, tail).value; '\n' !in t[r.0..r.1]
  {
    LazyGroupBack(t, s, false, tail);
    var r := LazyGroup(t, s, false, tail).value;
    assert r.1 <= Limit(t, false)(r.0);
    var g := t[r.0..r.1];
    forall k | 0 <= k < |g| ensures g[k] != '\n' {
      assert g[k] == t[r.0 + k];
      assert InClass(t[r.0 + k], NonNewlines);
    }
  }

  function ExtractFacultyNameAndId(text: string): (r: Result<(string, string), string>)
    ensures r.Err? ==> r.error == FacultyNotFound
  {
    ExtractHeader(text, FacultyHeader, FacultyNotFound)
  }

  /** A faculty id is a run of 8 to 11 digits, the name is stripped, and the
      error is raised exactly when the faculty pattern matches nowhere. */
  lemma FacultyResult(text: string)
    ensures var r := ExtractFacultyNameAndId(text);
      && (r.Ok? ==> 8 <= |r.value.0| <= 11 && AllDigits(r.value.0) && Stripped(r.value.1))
      && (r.Err? <==> forall q: nat :: q <= |text| ==> MatchAt(text, FacultyHeader, q).None?)
  {
    ExtractHeaderErr(text, FacultyHeader, FacultyNotFound);
    var s := SearchFrom(text, FacultyHeader, 0);
    if s.Some? {
      FacultyShape(text, s.value.0);
    }
  }

  /** What a faculty match gives: a run of 8 to 11 digits. */
  lemma FacultyShape(t: string, p: nat)
    requires p <= |t| && MatchAt(t, FacultyHeader, p).Some?
    ensures var m := MatchAt(t, FacultyHeader, p).value;
      8 <= m.idEnd - p <= 11 && AllDigits(t[p..m.idEnd])
  {
    assert forall k :: p <= k < p + Run(t, p, Digits) ==> InClass(t[k], Digits);
  }

  /** The subject-header tokens: the name group of the first match, stripped
      and split at white space; no tokens when the header is missing. */
  function ExtractTakenSubjects(text: string): (r: seq<string>)
    ensures forall k :: 0 <= k < |r| ==> IsWord(r[k])
    ensures r != [] ==> SearchFrom(text, SubjectHeader, 0).Some?
  {
    match ExtractHeader(text, SubjectHeader, "")
    case Err(_) => []
    case Ok((_, names)) =>
      SplitWords(names, []);
      Split(names)
  }

  // ---------------------------------------------------------------------------
  // Round trips: a header written out is read back

  /** A text whose header pattern matches at its very start is read from there. */
  lemma HeaderAtStart(t: string, h: Header, error: string, m: HeaderMatch, name: string)
    requires MatchAt(t, h, 0) == Some(m) && Strip(t[m.nameStart..m.nameEnd]) == name
    ensures ExtractHeader(t, h, error) == Ok((t[..m.idEnd], name))
  {
  }

  /** A stripped text read back out of `t` strips to itself. */
  lemma StripSlice(t: string, a: nat, g: string)
    requires a + |g| <= |t| && t[a..a + |g|] == g && Stripped(g)
    ensures Strip(t[a..a + |g|]) == g
  {
    StripStripped(g);
  }

  /** The university pattern at the start of `t`, where the name `t[4..e]` is
      followed by a newline. */
  lemma UniversityMatch(t: string, e: nat)
    requires 4 < e < |t| && AllDigits(t[..3]) && t[3] == ' ' && !IsSpace(t[4]) && t[e] == '\n'
    requires forall x :: 4 <= x < e ==> t[x] != '\n'
    ensures MatchAt(t, UniversityHeader, 0) == Some(HeaderMatch(3, 4, e))
  {
    assert forall x :: 0 <= x < 3 ==> InClass(t[x], Digits) by {
      forall x | 0 <= x < 3 ensures InClass(t[x], Digits) { assert t[x] == t[..3][x]; }
    }
    RunAtLeast(t, 0, 3, Digits);
    RunExact(t, 3, 4, Spaces);
    assert forall x :: 4 <= x < e ==> InClass(t[x], NonNewlines);
    RunAtLeast(t, 4, e, NonNewlines);
    LazyGroupExact(t, 3, 4, e, false, NewlineTail);
  }

  /** A chunk that starts with a university line `CCC name` gives back the
      three-digit code and the name. */
  lemma UniversityRoundTrip(code: nat, name: string, rest: string)
    requires code < 1000 && name != [] && Stripped(name) && '\n' !in name
    ensures ExtractUniversityNameAndId(Numeral(code, 3) + " " + name + "\n" + rest)
      == Ok((Numeral(code, 3), name))
  {
    var id := Numeral(code, 3);
    NumeralWidth(code, 3);
    var t := id + " " + name + "\n" + rest;
    var e := 4 + |name|;
    assert t[..3] == id && t[3] == ' ' && t[4..e] == name && t[e] == '\n';
    forall x | 4 <= x < e ensures t[x] != '\n' { assert t[x] == name[x - 4]; }
    StripSlice(t, 4, name);
    UniversityMatch(t, e);
    HeaderAtStart(t, UniversityHeader, UniversityNotFound, HeaderMatch(3, 4, e), name);
  }

  /** After one blank at `d`, the name `g` followed by a blank and `w` is the
      group `\s+(.+?)\s+w` finds there. */
  lemma AnchoredGroup(t: string, d: nat, g: string, w: string, dotAll: bool)
    requires d + 1 + |g| + 1 + |w| <= |t| && t[d] == ' '
    requires t[d + 1..d + 1 + |g| + 1 + |w|] == g + " " + w
    requires g != [] && Stripped(g) && AnchorFree(g, w)
    requires !dotAll ==> forall k :: 0 <= k < |g| ==> g[k] != '\n'
    ensures LazyGroup(t, d, dotAll, SpacedAnchor(w)) == Some((d + 1, d + 1 + |g|))
  {
    AnchoredSplit(t, d, g, w, dotAll);
    LazyGroupExact(t, d, d + 1, d + 1 + |g|, dotAll, SpacedAnchor(w));
  }

  /** The facts `LazyGroupExact` needs about such a text. */
  lemma AnchoredSplit(t: string, d: nat, g: string, w: string, dotAll: bool)
    requires d + 1 + |g| + 1 + |w| <= |t| && t[d] == ' '
    requires t[d + 1..d + 1 + |g| + 1 + |w|] == g + " " + w
    requires g != [] && Stripped(g) && AnchorFree(g, w)
    requires !dotAll ==> forall k :: 0 <= k < |g| ==> g[k] != '\n'
    ensures Run(t, d, Spaces) == 1
    ensures GroupSplit(t, d + 1, d + 1 + |g|, dotAll, SpacedAnchor(w))
    ensures forall e': nat :: d + 1 < e' < d + 1 + |g| ==> !TailAt(t, e', SpacedAnchor(w))
  {
    OneBlank(t, d, g + " " + w);
    if !dotAll {
      GroupOnLine(t, d + 1, g, g + " " + w);
    }
    AnchorAfterGroup(t, d + 1, g, w);
  }

  /** One blank at `d` before text that does not start with white space. */
  lemma OneBlank(t: string, d: nat, u: string)
    requires d + 1 + |u| <= |t| && t[d] == ' ' && t[d + 1..d + 1 + |u|] == u
    requires u != [] && !IsSpace(u[0])
    ensures Run(t, d, Spaces) == 1
  {
    SliceIndex(t, d + 1, u, 0);
    RunExact(t, d, d + 1, Spaces);
  }

  /** A group `g` without newline, read in `t` from `a`, keeps to one line. */
  lemma GroupOnLine(t: string, a: nat, g: string, u: string)
    requires a + |u| <= |t| && t[a..a + |u|] == u && g <= u
    requires forall k :: 0 <= k < |g| ==> g[k] != '\n'
    ensures a + |g| <= a + Run(t, a, NonNewlines)
  {
    forall x | a <= x < a + |g| ensures InClass(t[x], NonNewlines) {
      SliceIndex(t, a, u, x - a);
    }
    RunAtLeast(t, a, a + |g|, NonNewlines);
  }

  /** A header pattern ending in white space and a phrase `w`, at the start of
      `t`: an id group of `d` characters, one blank, and the name `g` followed
      by a blank and `w`.  The header read is that id and that name. */
  lemma AnchoredRead(t: string, h: Header, error: string, d: nat, g: string, w: string)
    requires IdLength(t, h, 0) == Some(d) && HeaderTail(h) == SpacedAnchor(w)
    requires d + 1 + |g| + 1 + |w| <= |t| && t[d] == ' '
    requires t[d + 1..d + 1 + |g| + 1 + |w|] == g + " " + w && t[d + 1..d + 1 + |g|] == g
    requires g != [] && Stripped(g) && AnchorFree(g, w)
    requires !DotAll(h) ==> forall k :: 0 <= k < |g| ==> g[k] != '\n'
    ensures ExtractHeader(t, h, error) == Ok((t[..d], g))
  {
    StripSlice(t, d + 1, g);
    AnchoredMatch(t, h, d, g, w);
    ReadAtStart(t, h, error, d, g);
  }

  /** A match at the start whose name strips to `g`: the header read is the id
      before `d` and `g`. */
  lemma ReadAtStart(t: string, h: Header, error: string, d: nat, g: string)
    requires d + 1 + |g| <= |t| && MatchAt(t, h, 0) == Some(HeaderMatch(d, d + 1, d + 1 + |g|))
    requires Strip(t[d + 1..d + 1 + |g|]) == g
    ensures ExtractHeader(t, h, error) == Ok((t[..d], g))
  {
    HeaderAtStart(t, h, error, HeaderMatch(d, d + 1, d + 1 + |g|), g);
  }

  /** Such a header pattern matches at the start of `t`. */
  lemma AnchoredMatch(t: string, h: Header, d: nat, g: string, w: string)
    requires IdLength(t, h, 0) == Some(d) && HeaderTail(h) == SpacedAnchor(w)
    requires d + 1 + |g| + 1 + |w| <= |t| && t[d] == ' '
    requires t[d + 1..d + 1 + |g| + 1 + |w|] == g + " " + w
    requires g != [] && Stripped(g) && AnchorFree(g, w)
    requires !DotAll(h) ==> forall k :: 0 <= k < |g| ==> g[k] != '\n'
    ensures MatchAt(t, h, 0) == Some(HeaderMatch(d, d + 1, d + 1 + |g|))
  {
    AnchoredGroup(t, d, g, w, DotAll(h));
    MatchFromParts(t, h, d, (d + 1, d + 1 + |g|));
  }

  /** A header line `p g w…` whose id group is `p` reads back as `p` and `g`. */
  lemma HeaderRoundTrip(h: Header, error: string, p: string, g: string, w: string, rest: string)
    requires IdLength(p + " " + g + " " + w + rest, h, 0) == Some(|p|) && HeaderTail(h) == SpacedAnchor(w)
    requires g != [] && Stripped(g) && AnchorFree(g, w)
    requires !DotAll(h) ==> forall k :: 0 <= k < |g| ==> g[k] != '\n'
    ensures ExtractHeader(p + " " + g + " " + w + rest, h, error) == Ok((p, g))
  {
    HeaderPieces(p, g, w, rest);
    AnchoredRead(p + " " + g + " " + w + rest, h, error, |p|, g, w);
  }

  /** The faculty id group at the start of `t`: a run of `d` digits, 8 to 11
      of them, ended by a blank. */
  lemma FacultyIdAt(t: string, d: nat)
    requires 8 <= d <= 11 && d < |t| && AllDigits(t[..d]) && t[d] == ' '
    ensures IdLength(t, FacultyHeader, 0) == Some(d)
  {
    forall x | 0 <= x < d ensures InClass(t[x], Digits) { assert t[x] == t[..d][x]; }
    RunExact(t, 0, d, Digits);
  }

  /** A chunk that starts with a faculty line, `id name წლიური გადასახადი`, gives
      back the id and the name, provided the name does not itself contain the
      phrase. */
  lemma FacultyRoundTrip(id: string, name: string, rest: string)
    requires 8 <= |id| <= 11 && AllDigits(id)
    requires name != [] && Stripped(name) && AnchorFree(name, FeeAnchor)
    ensures ExtractFacultyNameAndId(id + " " + name + " " + FeeAnchor + rest) == Ok((id, name))
  {
    var t := id + " " + name + " " + FeeAnchor + rest;
    HeaderPieces(id, name, FeeAnchor, rest);
    FacultyIdAt(t, |id|);
    HeaderRoundTrip(FacultyHeader, FacultyNotFound, id, name, FeeAnchor, rest);
  }

  /** The subject id group at the start of `t`: the opening word. */
  lemma SubjectsIdAt(t: string)
    requires |ExamsWord| <= |t| && t[..|ExamsWord|] == ExamsWord
    ensures IdLength(t, SubjectHeader, 0) == Some(|ExamsWord|)
  {
    assert OccursAt(t, 0, ExamsWord);
  }

  /** Where the pieces of a header line `p j w…` lie. */
  lemma HeaderPieces(p: string, j: string, w: string, rest: string)
    ensures var t := p + " " + j + " " + w + rest;
      && |t| == |p| + 1 + |j| + 1 + |w| + |rest|
      && t[..|p|] == p && t[|p|] == ' '
      && t[|p| + 1..|p| + 1 + |j| + 1 + |w|] == j + " " + w
      && t[|p| + 1..|p| + 1 + |j|] == j
  {
    var t := p + " " + j + " " + w + rest;
    assert t[..|p|] == p;
    assert t[|p| + 1..|p| + 1 + |j| + 1 + |w|] == j + " " + w;
    assert t[|p| + 1..|p| + 1 + |j|] == j;
  }

  /** A subject header `საგამოცდოს w1 w2 … საკონკურსო` gives back its words, in
      order, provided they do not contain the closing word. */
  lemma SubjectsRoundTrip(ws: seq<string>, rest: string)
    requires ws != [] && forall k :: 0 <= k < |ws| ==> IsWord(ws[k])
    requires AnchorFree(JoinSpaced(ws), ContestWord)
    ensures ExtractTakenSubjects(ExamsWord + " " + JoinSpaced(ws) + " " + ContestWord + rest) == ws
  {
    JoinedWords(ws);
    SubjectsRead(JoinSpaced(ws), ws, rest);
  }

  /** A name group made of words and blanks, with none at either end. */
  predicate WordsAndBlanks(j: string) {
    && j != [] && Stripped(j)
    && forall k :: 0 <= k < |j| ==> j[k] == ' ' || !IsSpace(j[k])
  }

  /** Words joined by blanks: words and blanks that split back into the words. */
  lemma JoinedWords(ws: seq<string>)
    requires ws != [] && forall k :: 0 <= k < |ws| ==> IsWord(ws[k])
    ensures WordsAndBlanks(JoinSpaced(ws)) && Split(JoinSpaced(ws)) == ws
  {
    JoinSpacedShape(ws);
    SplitJoinSpaced(ws);
  }

  /** The subjects read from a header whose name group is `j` are the words of `j`. */
  lemma SubjectsRead(j: string, ws: seq<string>, rest: string)
    requires WordsAndBlanks(j) && AnchorFree(j, ContestWord) && Split(j) == ws
    ensures ExtractTakenSubjects(ExamsWord + " " + j + " " + ContestWord + rest) == ws
  {
    SubjectsHeaderRead(j, rest);
  }

  /** The subject header of such a line is found at its start, with `j` as its
      name group. */
  lemma SubjectsHeaderRead(j: string, rest: string)
    requires WordsAndBlanks(j) && AnchorFree(j, ContestWord)
    ensures ExtractHeader(ExamsWord + " " + j + " " + ContestWord + rest, SubjectHeader, "") == Ok((ExamsWord, j))
  {
    assert forall k :: 0 <= k < |j| ==> j[k] != '\n';
    HeaderPieces(ExamsWord, j, ContestWord, rest);
    SubjectsIdAt(ExamsWord + " " + j + " " + ContestWord + rest);
    HeaderRoundTrip(SubjectHeader, "", ExamsWord, j, ContestWord, rest);
  }
}
