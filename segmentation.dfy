/** The segmenter of the enrollment documents (src/enrollments/segmentation.py):
    page-number noise is removed from the text of one year's document and what
    is left is cut into one chunk per university/faculty group. */
module Segmentation {
  import opened Wrappers
  import opened Text

  // ---------------------------------------------------------------------------
  // Noise removal: re.sub(r"^\d+(?:\s+\d+)*\s*\n", "", text, flags=re.MULTILINE)

  /** `t[p..e]` is a match of the noise pattern at `p`: it starts at a line
      start with a digit, holds only digits and white space, and ends with a
      newline.  These are exactly the texts `\d+(?:\s+\d+)*\s*\n` describes;
      since `\s` also matches newlines, such a text may run over several lines. */
  predicate NoiseSpan(t: string, p: nat, e: nat) {
    && LineStart(t, p) && p < e <= |t|
    && IsDigit(t[p]) && t[e - 1] == '\n'
    && forall k :: p <= k < e ==> InClass(t[k], DigitsOrSpaces)
  }

  /** Index of the last newline in `t[lo..hi]`, if any. */
  function LastNewlineIn(t: string, lo: nat, hi: nat): (r: Option<nat>)
    requires lo <= hi <= |t|
    ensures r.Some? ==> lo <= r.value < hi && t[r.value] == '\n'
    ensures r.Some? ==> forall k :: r.value < k < hi ==> t[k] != '\n'
    ensures r.None? ==> forall k :: lo <= k < hi ==> t[k] != '\n'
    decreases hi
  {
    if hi == lo then None else if t[hi - 1] == '\n' then Some(hi - 1) else LastNewlineIn(t, lo, hi - 1)
  }

  /** End of the match of the noise pattern at `p`, if there is one.  Its greedy
      quantifiers are tried longest first, and every character given back moves
      the tried end to an earlier newline, so the match found is the longest one:
      it ends at the last newline of the run of digits and white space that
      starts at `p`. */
  function NoiseMatchAt(t: string, p: nat): (r: Option<nat>)
    requires p <= |t|
    ensures r.Some? ==> NoiseSpan(t, p, r.value)
    ensures r.Some? ==> forall e :: r.value < e <= |t| ==> !NoiseSpan(t, p, e)
    ensures r.None? ==> forall e :: !NoiseSpan(t, p, e)
  {
    if LineStart(t, p) && p < |t| && IsDigit(t[p]) then
      var q := p + Run(t, p, DigitsOrSpaces);
      assert forall k :: p <= k < q ==> InClass(t[k], DigitsOrSpaces);
      match LastNewlineIn(t, p, q)
      case Some(k) => Some(k + 1)
      case None => None
    else
      None
  }

  /** `re.sub` of the noise pattern from index `i` on: at each index the pattern
      is tried; a match is dropped and the scan resumes after it, otherwise one
      character is copied. */
  function RemoveNoiseFrom(t: string, i: nat): string
    requires i <= |t|
    decreases |t| - i
  {
    if i == |t| then []
    else
      match NoiseMatchAt(t, i)
      case Some(e) => RemoveNoiseFrom(t, e)
      case None => [t[i]] + RemoveNoiseFrom(t, i + 1)
  }

  function RemoveNoise(text: string): string {
    RemoveNoiseFrom(text, 0)
  }

  // ---------------------------------------------------------------------------
  // The same removal described line by line

  /** Index just past the line that starts at `i`: past its newline, or the end
      of the text for a last line without one. */
  function LineEnd(t: string, i: nat): (j: nat)
    requires i < |t|
    ensures i < j <= |t|
  {
    match NextNewline(t, i)
    case Some(n) => n + 1
    case None => |t|
  }

  /** The line starting at `i` ends in a newline and holds nothing but digits
      and white space. */
  predicate NumericLine(t: string, i: nat)
    requires i < |t|
  {
    NextNewline(t, i).Some? && forall k :: i <= k < LineEnd(t, i) ==> InClass(t[k], DigitsOrSpaces)
  }

  /** Reference description of noise removal, one line at a time from the line
      start `i`: a line is dropped when it ends in a newline, holds only digits
      and white space, and either starts with a digit or follows a dropped line
      (`afterDropped`); every other line is kept exactly as it is. */
  function KeepLinesFrom(t: string, i: nat, afterDropped: bool): string
    requires i <= |t|
    decreases |t| - i
  {
    if i == |t| then []
    else
      var j := LineEnd(t, i);
      if NumericLine(t, i) && (IsDigit(t[i]) || afterDropped) then KeepLinesFrom(t, j, true)
      else t[i..j] + KeepLinesFrom(t, j, false)
  }

  /** The regular-expression substitution and the line-by-line description agree
      on every text. */
  lemma NoiseRemovalByLines(t: string)
    ensures RemoveNoise(t) == KeepLinesFrom(t, 0, false)
  {
    RemovalByLinesFrom(t, 0);
  }

  lemma {:induction false} RemovalByLinesFrom(t: string, i: nat)
    requires i <= |t| && (i == |t| || LineStart(t, i))
    ensures RemoveNoiseFrom(t, i) == KeepLinesFrom(t, i, false)
    decreases |t| - i
  {
    if i < |t| {
      match NoiseMatchAt(t, i)
      case Some(e) =>
        DroppedStep(t, i, e);
        RemovalByLinesFrom(t, e);
      case None =>
        KeptStep(t, i);
        RemovalByLinesFrom(t, LineEnd(t, i));
    }
  }

  /** A noise match at a line start drops whole lines, up to a line start. */
  lemma DroppedStep(t: string, i: nat, e: nat)
    requires i < |t| && LineStart(t, i) && NoiseMatchAt(t, i) == Some(e)
    ensures e == |t| || LineStart(t, e)
    ensures RemoveNoiseFrom(t, i) == RemoveNoiseFrom(t, e)
    ensures KeepLinesFrom(t, i, false) == KeepLinesFrom(t, e, false)
  {
    var j := LineEnd(t, i);
    assert NumericLine(t, i) by {
      var n := NextNewline(t, i);
      assert t[e - 1] == '\n';
      assert n.Some? && n.value <= e - 1;
    }
    assert j <= e;
    DroppedBlock(t, j, e);
    AfterBlock(t, i, e);
  }

  /** A line where no noise match starts is copied whole. */
  lemma KeptStep(t: string, i: nat)
    requires i < |t| && LineStart(t, i) && NoiseMatchAt(t, i).None?
    ensures LineEnd(t, i) == |t| || LineStart(t, LineEnd(t, i))
    ensures RemoveNoiseFrom(t, i) == t[i..LineEnd(t, i)] + RemoveNoiseFrom(t, LineEnd(t, i))
    ensures KeepLinesFrom(t, i, false) == t[i..LineEnd(t, i)] + KeepLinesFrom(t, LineEnd(t, i), false)
  {
    CopyLine(t, i + 1, LineEnd(t, i));
    KeptLine(t, i);
  }

  /** The line-wise description keeps a line where no noise match starts. */
  lemma KeptLine(t: string, i: nat)
    requires i < |t| && LineStart(t, i) && NoiseMatchAt(t, i).None?
    ensures !(NumericLine(t, i) && IsDigit(t[i]))
  {
    assert !NoiseSpan(t, i, LineEnd(t, i));
  }

  /** Inside a line no match can start, so the characters are copied. */
  lemma CopyLine(t: string, i: nat, j: nat)
    requires 0 < i <= j <= |t|
    requires forall k :: i - 1 <= k < j - 1 ==> t[k] != '\n'
    ensures RemoveNoiseFrom(t, i - 1) == (if NoiseMatchAt(t, i - 1).None? then t[i - 1..j] + RemoveNoiseFrom(t, j) else RemoveNoiseFrom(t, i - 1))
  {
    if NoiseMatchAt(t, i - 1).None? {
      CopyInside(t, i, j);
      calc {
        RemoveNoiseFrom(t, i - 1);
        [t[i - 1]] + RemoveNoiseFrom(t, i);
        [t[i - 1]] + (t[i..j] + RemoveNoiseFrom(t, j));
        { assert t[i - 1..j] == [t[i - 1]] + t[i..j]; }
        t[i - 1..j] + RemoveNoiseFrom(t, j);
      }
    }
  }

  /** No match starts past the first character of a line. */
  lemma NoMatchInside(t: string, i: nat)
    requires 0 < i < |t| && t[i - 1] != '\n'
    ensures NoiseMatchAt(t, i).None?
  {
    assert !LineStart(t, i);
  }

  /** Past the first character of a line, each character is copied. */
  lemma {:induction false} CopyInside(t: string, i: nat, j: nat)
    requires 0 < i <= j <= |t|
    requires forall k :: i - 1 <= k < j - 1 ==> t[k] != '\n'
    ensures RemoveNoiseFrom(t, i) == t[i..j] + RemoveNoiseFrom(t, j)
    decreases j - i
  {
    if i < j {
      CopyInside(t, i + 1, j);
      calc {
        RemoveNoiseFrom(t, i);
        { NoMatchInside(t, i); }
        [t[i]] + RemoveNoiseFrom(t, i + 1);
        [t[i]] + (t[i + 1..j] + RemoveNoiseFrom(t, j));
        { assert t[i..j] == [t[i]] + t[i + 1..j]; }
        t[i..j] + RemoveNoiseFrom(t, j);
      }
    }
  }

  /** Lines made only of digits and white space that follow a dropped line are
      dropped up to the end `e` of such a block. */
  lemma {:induction false} DroppedBlock(t: string, j: nat, e: nat)
    requires j <= e <= |t| && LineStart(t, j) && LineStart(t, e)
    requires forall k :: j <= k < e ==> InClass(t[k], DigitsOrSpaces)
    ensures KeepLinesFrom(t, j, true) == KeepLinesFrom(t, e, true)
    decreases e - j
  {
    if j < e {
      var n := NextNewline(t, j);
      assert t[e - 1] == '\n';
      assert n.Some? && n.value <= e - 1;
      assert NumericLine(t, j);
      DroppedBlock(t, LineEnd(t, j), e);
    }
  }

  /** The line that follows a noise match is never dropped, so whether the line
      before it was dropped makes no difference there. */
  lemma AfterBlock(t: string, i: nat, e: nat)
    requires i <= |t| && NoiseMatchAt(t, i) == Some(e)
    ensures KeepLinesFrom(t, e, true) == KeepLinesFrom(t, e, false)
  {
    if e < |t| {
      var q := i + Run(t, i, DigitsOrSpaces);
      assert e <= q;
      assert !NumericLine(t, e);
    }
  }

  /** The characters other than digits and white space, in order. */
  function Significant(s: string): string {
    if s == [] then [] else (if IsDigit(s[0]) || IsSpace(s[0]) then [] else [s[0]]) + Significant(s[1..])
  }

  lemma {:induction false} SignificantAppend(x: string, y: string)
    ensures Significant(x + y) == Significant(x) + Significant(y)
  {
    if x == [] {
      assert x + y == y;
    } else {
      assert (x + y)[0] == x[0] && (x + y)[1..] == x[1..] + y;
      SignificantAppend(x[1..], y);
      var h := if IsDigit(x[0]) || IsSpace(x[0]) then [] else [x[0]];
      assert Significant(x + y) == h + Significant(x[1..] + y);
    }
  }

  lemma {:induction false} SignificantOfNoise(x: string)
    requires forall k :: 0 <= k < |x| ==> InClass(x[k], DigitsOrSpaces)
    ensures Significant(x) == []
  {
    if x != [] { SignificantOfNoise(x[1..]); }
  }

  /** Noise removal only ever drops digits and white space: every other
      character of the text survives, in its order. */
  lemma RemovalKeepsSignificant(t: string)
    ensures Significant(RemoveNoise(t)) == Significant(t)
  {
    KeepsSignificantFrom(t, 0);
  }

  lemma {:induction false} KeepsSignificantFrom(t: string, i: nat)
    requires i <= |t|
    ensures Significant(RemoveNoiseFrom(t, i)) == Significant(t[i..])
    decreases |t| - i
  {
    if i < |t| {
      match NoiseMatchAt(t, i)
      case Some(e) =>
        KeepsSignificantFrom(t, e);
        NoiseSkipped(t, i, e);
      case None =>
        KeepsSignificantFrom(t, i + 1);
        KeptHead(t, i, RemoveNoiseFrom(t, i + 1));
    }
  }

  /** A noise match holds nothing significant. */
  lemma NoiseSkipped(t: string, i: nat, e: nat)
    requires NoiseSpan(t, i, e)
    ensures Significant(t[i..]) == Significant(t[e..])
  {
    assert t[i..] == t[i..e] + t[e..];
    SignificantAppend(t[i..e], t[e..]);
    SignificantOfNoise(t[i..e]);
  }

  /** A kept character contributes the same on both sides. */
  lemma KeptHead(t: string, i: nat, rest: string)
    requires i < |t|
    ensures Significant([t[i]] + rest) == Significant([t[i]]) + Significant(rest)
    ensures Significant(t[i..]) == Significant([t[i]]) + Significant(t[i + 1..])
  {
    assert t[i..] == [t[i]] + t[i + 1..];
    SignificantAppend([t[i]], rest);
    SignificantAppend([t[i]], t[i + 1..]);
  }

  // ---------------------------------------------------------------------------
  // Group starts: re.finditer(r"^\d{3}\s+[ა-ჰ]+.*\n", text, flags=re.MULTILINE)

  /** The group-start pattern matches at `p`: three digits at a line start, then
      white space (which may run over line breaks), then a Georgian letter, and a
      newline somewhere after it.  `[ა-ჰ]+.*` then covers the rest of that line. */
  predicate GroupStart(t: string, p: nat) {
    && LineStart(t, p) && p + 3 < |t|
    && IsDigit(t[p]) && IsDigit(t[p + 1]) && IsDigit(t[p + 2])
    && var a := p + 3 + Run(t, p + 3, Spaces);
       a > p + 3 && a < |t| && IsGeorgian(t[a]) && NextNewline(t, a).Some?
  }

  /** End of the group-start match at `p`: just past the newline ending the line
      of its Georgian letter. */
  function GroupEnd(t: string, p: nat): (e: nat)
    requires GroupStart(t, p)
    ensures p + 4 < e <= |t| && t[e - 1] == '\n'
  {
    NextNewline(t, p + 3 + Run(t, p + 3, Spaces)).value + 1
  }

  /** `re.finditer` from index `i`: the starts of the successive non-overlapping
      matches, each search resuming where the previous match ended.  What each
      start is, is stated by `FoundIsStart`, `FoundAfterMatch` and `FindGroupStartsComplete`. */
  function FindGroupStarts(t: string, i: nat): (r: seq<nat>)
    requires i <= |t|
    ensures forall k :: 0 <= k < |r| ==> i <= r[k] < |t|
    ensures forall k :: 0 <= k < |r| - 1 ==> r[k] < r[k + 1]
    decreases |t| - i
  {
    if i == |t| then []
    else if GroupStart(t, i) then [i] + FindGroupStarts(t, GroupEnd(t, i))
    else FindGroupStarts(t, i + 1)
  }

  /** Every index found is one where the pattern matches. */
  lemma {:induction false} FoundIsStart(t: string, i: nat, q: nat)
    requires i <= |t| && q in FindGroupStarts(t, i)
    ensures GroupStart(t, q)
    decreases |t| - i
  {
    if GroupStart(t, i) {
      if q != i { FoundIsStart(t, GroupEnd(t, i), q); }
    } else {
      FoundIsStart(t, i + 1, q);
    }
  }

  /** The start found after another lies at or after the end of its match. */
  lemma {:induction false} FoundAfterMatch(t: string, i: nat, k: nat)
    requires i <= |t| && k + 1 < |FindGroupStarts(t, i)|
    ensures var r := FindGroupStarts(t, i); GroupStart(t, r[k]) && GroupEnd(t, r[k]) <= r[k + 1]
    decreases |t| - i
  {
    var r := FindGroupStarts(t, i);
    if GroupStart(t, i) {
      var r' := FindGroupStarts(t, GroupEnd(t, i));
      assert r == [i] + r';
      if k == 0 {
        assert r[1] == r'[0];
      } else {
        FoundAfterMatch(t, GroupEnd(t, i), k - 1);
        assert r[k] == r'[k - 1] && r[k + 1] == r'[k];
      }
    } else {
      FoundAfterMatch(t, i + 1, k);
    }
  }

  function GroupStarts(t: string): seq<nat> {
    FindGroupStarts(t, 0)
  }

  /** Inside a group-start match no other one can start: the only line breaks
      in it lie in the white space after the three digits, and the lines they
      begin start with white space or the Georgian letter. */
  lemma NoStartInside(t: string, p: nat, q: nat)
    requires GroupStart(t, p) && p < q < GroupEnd(t, p)
    ensures !GroupStart(t, q)
  {
    var a := p + 3 + Run(t, p + 3, Spaces);
    if LineStart(t, q) {
      assert t[q - 1] == '\n';
      assert q - 1 < a;
      assert q < a ==> InClass(t[q], Spaces);
    }
  }

  /** Skipping the rest of a match loses no match, so `finditer` finds every
      index where the group-start pattern matches. */
  lemma {:induction false} FindGroupStartsComplete(t: string, i: nat, q: nat)
    requires i <= q < |t| && GroupStart(t, q)
    ensures q in FindGroupStarts(t, i)
    decreases |t| - i
  {
    if i < q {
      if GroupStart(t, i) {
        if q < GroupEnd(t, i) { NoStartInside(t, i, q); }
        FindGroupStartsComplete(t, GroupEnd(t, i), q);
      } else {
        FindGroupStartsComplete(t, i + 1, q);
      }
    }
  }

  /** The group starts are exactly the indices where the pattern matches, in
      increasing order. */
  lemma GroupStartsExactly(t: string)
    ensures forall q: nat :: q in GroupStarts(t) <==> q < |t| && GroupStart(t, q)
  {
    forall q: nat | q in GroupStarts(t) ensures GroupStart(t, q) {
      FoundIsStart(t, 0, q);
    }
    forall q: nat | q < |t| && GroupStart(t, q) ensures q in GroupStarts(t) {
      FindGroupStartsComplete(t, 0, q);
    }
  }

  /** `m` holds strictly increasing indices below `n`. */
  predicate Ascending(m: seq<nat>, n: nat) {
    && (forall k :: 0 <= k < |m| ==> m[k] < n)
    && (forall k :: 0 <= k < |m| - 1 ==> m[k] < m[k + 1])
  }

  /** Adjacent increase gives increase between any two positions. */
  lemma {:induction false} AscendingPairwise(m: seq<nat>, n: nat)
    requires Ascending(m, n)
    ensures forall k, l :: 0 <= k < l < |m| ==> m[k] < m[l]
  {
    if |m| > 1 {
      AscendingPairwise(m[1..], n);
      forall k, l | 0 <= k < l < |m| ensures m[k] < m[l] {
        if k > 0 {
          assert m[k] == m[1..][k - 1] && m[l] == m[1..][l - 1];
        } else {
          assert m[1] == m[1..][0];
          assert l > 1 ==> m[l] == m[1..][l - 1];
        }
      }
    }
  }

  // ---------------------------------------------------------------------------
  // segment_pdf_content

  /** End of the slice of the `k`-th group: the next group start, or the end of
      the text for the last group. */
  function SliceEnd(starts: seq<nat>, k: nat, n: nat): nat
    requires k < |starts|
  {
    if k + 1 < |starts| then starts[k + 1] else n
  }

  /** `text[m[k]:m[k + 1]]` for each `k`, the last slice running to the end. */
  function SlicesOf(c: string, m: seq<nat>): (r: seq<string>)
    requires Ascending(m, |c|)
    ensures |r| == |m|
  {
    seq(|m|, k requires 0 <= k < |m| => c[m[k]..SliceEnd(m, k, |c|)])
  }

  /** The unstripped slices of the cleaned text `c`, one per group start. */
  function Slices(c: string): (r: seq<string>)
    ensures |r| == |GroupStarts(c)|
  {
    SlicesOf(c, GroupStarts(c))
  }

  function StripAll(s: seq<string>): (r: seq<string>)
    ensures |r| == |s|
  {
    seq(|s|, k requires 0 <= k < |s| => Strip(s[k]))
  }

  /** What `segment_pdf_content` returns: the stripped slices of the text once
      its noise is removed. */
  function Segments(text: string): (r: seq<string>)
    ensures |r| == |GroupStarts(RemoveNoise(text))|
  {
    StripAll(Slices(RemoveNoise(text)))
  }

  method SegmentPdfContent(text: string) returns (chunks: seq<string>)
    ensures chunks == Segments(text)
  {
    chunks := [];
    var t := RemoveNoise(text);
    var matches := GroupStarts(t);
    ghost var spec := StripAll(SlicesOf(t, matches));
    for i := 0 to |matches|
      invariant chunks == spec[..i]
    {
      var start := matches[i];
      var end := if i + 1 < |matches| then matches[i + 1] else |t|;
      SliceAt(t, matches, i);
      chunks := chunks + [Strip(t[start..end])];
    }
    assert spec[..|matches|] == spec;
  }

  /** The `i`-th stripped slice. */
  lemma SliceAt(c: string, m: seq<nat>, i: nat)
    requires Ascending(m, |c|) && i < |m|
    ensures m[i] <= SliceEnd(m, i, |c|) <= |c|
    ensures StripAll(SlicesOf(c, m))[i] == Strip(c[m[i]..SliceEnd(m, i, |c|)])
  {
  }

  /** Slices at increasing indices follow each other without gap or overlap. */
  lemma {:induction false} SlicesOfCover(c: string, m: seq<nat>, k: nat)
    requires Ascending(m, |c|) && k < |m|
    ensures Concat(SlicesOf(c, m)[k..]) == c[m[k]..]
    decreases |m| - k
  {
    var s := SlicesOf(c, m);
    assert s[k..] == [s[k]] + s[k + 1..];
    ConcatCons(s[k], s[k + 1..]);
    if k + 1 < |m| {
      SlicesOfCover(c, m, k + 1);
      assert c[m[k]..] == c[m[k]..m[k + 1]] + c[m[k + 1]..];
    } else {
      assert s[k + 1..] == [];
    }
  }

  /** Put together, the slices are the cleaned text from the first group start
      to its end, so only the text before the first group start is discarded. */
  lemma SlicesCoverText(c: string)
    requires GroupStarts(c) != []
    ensures Concat(Slices(c)) == c[GroupStarts(c)[0]..]
  {
    SlicesOfCover(c, GroupStarts(c), 0);
    assert Slices(c)[0..] == Slices(c);
  }

  /** A slice that holds a whole group-start match strips to text that begins
      with the match's three digits and a white-space character. */
  lemma ChunkOfMatch(c: string, p: nat, e: nat)
    requires GroupStart(c, p) && GroupEnd(c, p) <= e <= |c|
    ensures var chunk := Strip(c[p..e]);
      && |chunk| > 4 && chunk[..3] == c[p..p + 3]
      && AllDigits(chunk[..3]) && IsSpace(chunk[3])
  {
    var s := c[p..e];
    var a := p + 3 + Run(c, p + 3, Spaces);
    assert InClass(c[p + 3], Spaces);
    assert s[0] == c[p] && s[a - p] == c[a];
    StripKeepsPrefix(s, a - p);
  }

  /** The `k`-th chunk is the stripped slice of the cleaned text from the `k`-th
      group start to the next one, or to the end. */
  lemma SegmentAt(text: string, k: nat)
    requires k < |Segments(text)|
    ensures var c := RemoveNoise(text);
      Segments(text)[k] == Strip(c[GroupStarts(c)[k]..SliceEnd(GroupStarts(c), k, |c|)])
  {
  }

  /** The slice of the `k`-th group start holds its whole match. */
  lemma SliceHoldsMatch(c: string, k: nat)
    requires k < |GroupStarts(c)|
    ensures GroupStart(c, GroupStarts(c)[k])
    ensures GroupEnd(c, GroupStarts(c)[k]) <= SliceEnd(GroupStarts(c), k, |c|) <= |c|
  {
    if k + 1 < |GroupStarts(c)| {
      FoundAfterMatch(c, 0, k);
    } else {
      FoundIsStart(c, 0, GroupStarts(c)[k]);
    }
  }

  /** Every chunk has no white space at either end and begins with the
      three-digit code of its group-start line, followed by white space. */
  lemma ChunkShape(text: string, k: nat)
    requires k < |Segments(text)|
    ensures var chunk := Segments(text)[k];
      var c := RemoveNoise(text);
      && Stripped(chunk) && |chunk| > 4
      && chunk[..3] == c[GroupStarts(c)[k]..GroupStarts(c)[k] + 3]
      && AllDigits(chunk[..3]) && IsSpace(chunk[3])
  {
    SegmentAt(text, k);
    SliceHoldsMatch(RemoveNoise(text), k);
    ChunkOfMatch(RemoveNoise(text), GroupStarts(RemoveNoise(text))[k], SliceEnd(GroupStarts(RemoveNoise(text)), k, |RemoveNoise(text)|));
  }
}
