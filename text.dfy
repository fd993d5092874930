/** Character classes and string helpers with the meaning Python's `re` module
    and `str` methods give them.  Strings are sequences of code points. */
module Text {
  import opened Wrappers

  /** `\d`, restricted to the ASCII digits. */
  predicate IsDigit(c: char) { '0' <= c <= '9' }

  /** `\s` of a `str` pattern, which is also the separator set of `str.strip()`
      and `str.split()`: exactly the characters for which `str.isspace()` holds.
      Note that the newline belongs to it. */
  predicate IsSpace(c: char) {
    || ('\t' <= c <= '\r')
    || ('\U{1C}' <= c <= '\U{1F}')
    || c == ' '
    || c == '\U{85}'
    || c == '\U{A0}'
    || c == '\U{1680}'
    || ('\U{2000}' <= c <= '\U{200A}')
    || c == '\U{2028}'
    || c == '\U{2029}'
    || c == '\U{202F}'
    || c == '\U{205F}'
    || c == '\U{3000}'
  }

  /** The character class `[ა-ჰ]` of the Georgian letters ა (U+10D0) to ჰ (U+10F0). */
  predicate IsGeorgian(c: char) { '\U{10D0}' <= c <= '\U{10F0}' }

  /** The classes of character the recognisers scan runs of. */
  datatype CharClass = Digits | Spaces | DigitsOrSpaces | NonSpaces | NonNewlines | LineSpaces

  predicate InClass(c: char, k: CharClass) {
    match k
    case Digits => IsDigit(c)
    case Spaces => IsSpace(c)
    case DigitsOrSpaces => IsDigit(c) || IsSpace(c)
    case NonSpaces => !IsSpace(c)
    case NonNewlines => c != '\n'
    case LineSpaces => IsSpace(c) && c != '\n'
  }

  /** Length of the longest run of characters of class `k` starting at index `i`:
      what a greedy `X+` or `X*` consumes before anything after it is tried. */
  function Run(t: string, i: nat, k: CharClass): (n: nat)
    requires i <= |t|
    ensures i + n <= |t|
    ensures forall j {:trigger InClass(t[j], k)} :: i <= j < i + n ==> InClass(t[j], k)
    ensures i + n == |t| || !InClass(t[i + n], k)
    decreases |t| - i
  {
    if i < |t| && InClass(t[i], k) then 1 + Run(t, i + 1, k) else 0
  }

  /** A run that is known to stop at `j` has length `j - i`. */
  lemma RunExact(t: string, i: nat, j: nat, k: CharClass)
    requires i <= j <= |t|
    requires forall x :: i <= x < j ==> InClass(t[x], k)
    requires j == |t| || !InClass(t[j], k)
    ensures Run(t, i, k) == j - i
  {
  }

  /** A run is at least as long as any stretch of its class it starts. */
  lemma {:induction false} RunAtLeast(t: string, i: nat, j: nat, k: CharClass)
    requires i <= j <= |t|
    requires forall x :: i <= x < j ==> InClass(t[x], k)
    ensures Run(t, i, k) >= j - i
    decreases j - i
  {
    if i < j {
      RunAtLeast(t, i + 1, j, k);
    }
  }

  /** A numeral found in the text, followed by something other than a digit,
      is the whole digit run there. */
  lemma DigitRun(t: string, i: nat, w: string)
    requires i + |w| <= |t| && t[i..i + |w|] == w && AllDigits(w)
    requires i + |w| == |t| || !IsDigit(t[i + |w|])
    ensures Run(t, i, Digits) == |w|
  {
    forall x | i <= x < i + |w| ensures InClass(t[x], Digits) {
      assert t[x] == w[x - i];
    }
    RunExact(t, i, i + |w|, Digits);
  }

  /** The two halves of a concatenation found in the text. */
  lemma SliceHalves(t: string, p: nat, u: string, v: string)
    requires p + |u| + |v| <= |t| && t[p..p + |u| + |v|] == u + v
    ensures t[p..p + |u|] == u && t[p + |u|..p + |u| + |v|] == v
  {
    assert t[p..p + |u|] == t[p..p + |u| + |v|][..|u|];
    assert t[p + |u|..p + |u| + |v|] == t[p..p + |u| + |v|][|u|..];
  }

  /** Where the `^` of a MULTILINE pattern matches: the start of the text or just
      after a newline. */
  predicate LineStart(t: string, i: nat) {
    i == 0 || (0 < i <= |t| && t[i - 1] == '\n')
  }

  /** Index of the first newline at or after `i`, if any: every character
      before it (before the end of the text, without one) is not a newline. */
  function NextNewline(t: string, i: nat): (r: Option<nat>)
    requires i <= |t|
    ensures r.Some? ==> i <= r.value < |t| && t[r.value] == '\n'
    ensures r.Some? ==> forall j :: i <= j < r.value ==> InClass(t[j], NonNewlines)
    ensures r.None? ==> forall j :: i <= j < |t| ==> InClass(t[j], NonNewlines)
  {
    var n := i + Run(t, i, NonNewlines);
    if n < |t| then Some(n) else None
  }

  /** The literal `w` occurs in `t` at index `i`. */
  predicate OccursAt(t: string, i: nat, w: string) {
    i + |w| <= |t| && t[i..i + |w|] == w
  }

  /** `t` spells out `w` from index `x`, one character at a time. */
  predicate Spells(t: string, x: nat, w: string)
    decreases |w|
  {
    if w == [] then x <= |t| else x < |t| && t[x] == w[0] && Spells(t, x + 1, w[1..])
  }

  lemma {:induction false} SpellsSlice(t: string, x: nat, w: string)
    ensures Spells(t, x, w) <==> x + |w| <= |t| && t[x..x + |w|] == w
    decreases |w|
  {
    if w != [] {
      var v := w[1..];
      SpellsSlice(t, x + 1, v);
      assert w == [w[0]] + v;
      if x + |w| <= |t| {
        var s := t[x..x + |w|];
        assert s == [t[x]] + t[x + 1..x + 1 + |v|];
        if s == w {
          assert t[x] == w[0] && t[x + 1..x + 1 + |v|] == v;
        }
      }
    }
  }

  /** A text spells itself out from its start. */
  lemma SpellsSelf(t: string)
    ensures Spells(t, 0, t)
  {
    SpellsSlice(t, 0, t);
    assert t[0..|t|] == t;
  }

  lemma SpellsSplit(t: string, x: nat, u: string, v: string)
    ensures Spells(t, x, u + v) <==> Spells(t, x, u) && Spells(t, x + |u|, v)
  {
    SpellsSlice(t, x, u + v);
    SpellsSlice(t, x, u);
    SpellsSlice(t, x + |u|, v);
    if x + |u| + |v| <= |t| && t[x..x + |u| + |v|] == u + v {
      SliceHalves(t, x, u, v);
    }
    if x + |u| + |v| <= |t| && t[x..x + |u|] == u && t[x + |u|..x + |u| + |v|] == v {
      assert t[x..x + |u| + |v|] == t[x..x + |u|] + t[x + |u|..x + |u| + |v|];
    }
  }

  /** Where each of the pieces `ws` starts when they are laid out from `x`,
      then where the last one ends. */
  function PieceStarts(x: nat, ws: seq<string>): (ps: seq<nat>)
    ensures |ps| == |ws| + 1 && ps[0] == x
    decreases |ws|
  {
    if ws == [] then [x] else [x] + PieceStarts(x + |ws[0]|, ws[1..])
  }

  /** The `i`-th piece spelled out at its start, up to the start of the next. */
  predicate SpelledPiece(t: string, ps: seq<nat>, ws: seq<string>, i: nat)
    requires |ps| == |ws| + 1
  {
    i < |ws| && ps[i + 1] == ps[i] + |ws[i]| && Spells(t, ps[i], ws[i])
  }

  /** Pieces spelled out one after the other: each of them at its start. */
  lemma {:induction false} SpellsConcat(t: string, x: nat, ws: seq<string>)
    requires Spells(t, x, Concat(ws))
    ensures PieceStarts(x, ws)[|ws|] == x + |Concat(ws)|
    ensures forall i: nat {:trigger SpelledPiece(t, PieceStarts(x, ws), ws, i)} :: i < |ws| ==> SpelledPiece(t, PieceStarts(x, ws), ws, i)
    decreases |ws|
  {
    if ws != [] {
      var rest := ws[1..];
      SpellsSplit(t, x, ws[0], Concat(rest));
      SpellsConcat(t, x + |ws[0]|, rest);
      var ps, qs := PieceStarts(x, ws), PieceStarts(x + |ws[0]|, rest);
      assert ps == [x] + qs;
      forall i: nat | i < |ws| ensures SpelledPiece(t, ps, ws, i) {
        if i > 0 {
          assert SpelledPiece(t, qs, rest, i - 1);
          assert ws[i] == rest[i - 1] && ps[i] == qs[i - 1] && ps[i + 1] == qs[i];
        }
      }
    }
  }

  predicate AllDigits(s: string) {
    forall k :: 0 <= k < |s| ==> IsDigit(s[k])
  }

  /** `int(s)` for a string of ASCII digits (leading zeros allowed). */
  function DigitsValue(s: string): nat
    requires AllDigits(s)
  {
    if s == [] then 0 else 10 * DigitsValue(s[..|s| - 1]) + (s[|s| - 1] as int - '0' as int)
  }

  /** A numeral of `k` digits is below `10^k`. */
  lemma {:induction false} DigitsBound(s: string)
    requires AllDigits(s)
    ensures DigitsValue(s) < Pow10(|s|)
    decreases |s|
  {
    if s != [] {
      DigitsBound(s[..|s| - 1]);
    }
  }

  /** Decimal numeral of `n`, left-padded with zeros to at least `width` digits. */
  function Numeral(n: nat, width: nat): (s: string)
    ensures AllDigits(s) && |s| >= 1 && |s| >= width
    decreases n + width
  {
    var d := [('0' as int + n % 10) as char];
    if n < 10 && width <= 1 then d else Numeral(n / 10, if width > 0 then width - 1 else 0) + d
  }

  /** Reading a numeral back gives the number it was written from. */
  lemma {:induction false} NumeralValue(n: nat, width: nat)
    ensures DigitsValue(Numeral(n, width)) == n
    decreases n + width
  {
    var s := Numeral(n, width);
    if n < 10 && width <= 1 {
    } else {
      var w' := if width > 0 then width - 1 else 0;
      NumeralValue(n / 10, w');
      assert s[..|s| - 1] == Numeral(n / 10, w');
    }
  }

  /** A numeral with no padding beyond the digits the number needs has exactly
      `width` digits when the number fits in them. */
  lemma {:induction false} NumeralWidth(n: nat, width: nat)
    requires 1 <= width && n < Pow10(width)
    ensures |Numeral(n, width)| == width
    decreases width
  {
    if width > 1 {
      NumeralWidth(n / 10, width - 1);
    }
  }

  function Pow10(k: nat): (p: nat)
    ensures p >= 1
  {
    if k == 0 then 1 else 10 * Pow10(k - 1)
  }

  /** The digits of a numeral are at least one, and the first one is not `0`
      unless the number is zero. */
  lemma {:induction false} NumeralFirst(n: nat)
    ensures n > 0 ==> Numeral(n, 0)[0] != '0'
    decreases n
  {
    if n >= 10 {
      NumeralFirst(n / 10);
    }
  }

  // ---------------------------------------------------------------------------
  // str.strip()

  /** The bounds `[lo, hi)` of `s.strip()` inside `s`: everything outside them is
      white space, and every character that is not white space lies inside them. */
  function StripBounds(s: string): (b: (nat, nat))
    ensures b.0 <= b.1 <= |s|
    ensures forall k :: 0 <= k < b.0 ==> IsSpace(s[k])
    ensures forall k :: b.1 <= k < |s| ==> IsSpace(s[k])
    ensures b.0 < b.1 ==> !IsSpace(s[b.0]) && !IsSpace(s[b.1 - 1])
    ensures forall k :: 0 <= k < |s| && !IsSpace(s[k]) ==> b.0 <= k < b.1
  {
    var lo := Run(s, 0, Spaces);
    assert forall k :: 0 <= k < lo ==> InClass(s[k], Spaces);
    (lo, TrimEnd(s, lo, |s|))
  }

  /** Largest `j'` in `[lo, j]` such that `s[j'..j]` is white space and `s[j' - 1]` is not. */
  function TrimEnd(s: string, lo: nat, j: nat): (j': nat)
    requires lo <= j <= |s|
    ensures lo <= j' <= j
    ensures forall k :: j' <= k < j ==> IsSpace(s[k])
    ensures j' > lo ==> !IsSpace(s[j' - 1])
    decreases j
  {
    if j > lo && IsSpace(s[j - 1]) then TrimEnd(s, lo, j - 1) else j
  }

  /** No leading and no trailing white space. */
  predicate Stripped(s: string) {
    s == [] || (!IsSpace(s[0]) && !IsSpace(s[|s| - 1]))
  }

  /** `s.strip()` */
  function Strip(s: string): (r: string)
    ensures Stripped(r) && |r| <= |s|
  {
    var b := StripBounds(s);
    s[b.0..b.1]
  }

  /** When `s` starts with a character that is not white space, `s.strip()` keeps
      every character up to the last one that is not white space. */
  lemma StripKeepsPrefix(s: string, j: nat)
    requires j < |s| && !IsSpace(s[0]) && !IsSpace(s[j])
    ensures |Strip(s)| > j && forall k :: 0 <= k <= j ==> Strip(s)[k] == s[k]
  {
    var b := StripBounds(s);
    assert b.0 == 0 && b.1 > j;
  }

  /** The characters of `s.strip()` are characters of `s`, at the same place
      after the white space dropped in front. */
  lemma StripInside(s: string)
    ensures var b := StripBounds(s); forall k :: 0 <= k < |Strip(s)| ==> Strip(s)[k] == s[b.0 + k]
  {
  }

  /** A character that does not occur in `s` does not occur in `s.strip()`. */
  lemma StripKeepsOut(s: string, c: char)
    requires c !in s
    ensures c !in Strip(s)
  {
    StripInside(s);
    var b := StripBounds(s);
    forall k | 0 <= k < |Strip(s)| ensures Strip(s)[k] != c {
      assert Strip(s)[k] == s[b.0 + k];
    }
  }

  /** Stripping text that already has no white space at either end leaves it alone. */
  lemma StripStripped(s: string)
    requires Stripped(s)
    ensures Strip(s) == s
  {
    var b := StripBounds(s);
    if s != [] {
      assert b.0 <= 0 && b.1 >= |s|;
    }
  }

  // ---------------------------------------------------------------------------
  // str.split() (no argument) and str.split("\n")

  /** The characters of `s` that are not white space, in order. */
  function NonSpaceChars(s: string): string {
    if s == [] then [] else (if IsSpace(s[0]) then [] else [s[0]]) + NonSpaceChars(s[1..])
  }

  predicate IsWord(w: string) {
    w != [] && forall k :: 0 <= k < |w| ==> !IsSpace(w[k])
  }

  function Concat(ws: seq<string>): string {
    if ws == [] then [] else ws[0] + Concat(ws[1..])
  }

  lemma ConcatCons(w: string, ws: seq<string>)
    ensures Concat([w] + ws) == w + Concat(ws)
  {
    assert ([w] + ws)[0] == w && ([w] + ws)[1..] == ws;
  }

  /** `s.split()`: the maximal runs of non-white-space characters, in order. */
  function Split(s: string): seq<string> {
    SplitAfter(s, [])
  }

  /** Splitting the rest `s` of a text whose last, unfinished word so far is `cur`. */
  function SplitAfter(s: string, cur: string): (r: seq<string>)
    decreases |s|
  {
    if s == [] then
      (if cur == [] then [] else [cur])
    else if IsSpace(s[0]) then
      (if cur == [] then [] else [cur]) + SplitAfter(s[1..], [])
    else
      SplitAfter(s[1..], cur + [s[0]])
  }

  /** Every piece `split()` returns is a non-empty word without white space. */
  lemma {:induction false} SplitWords(s: string, cur: string)
    requires cur == [] || IsWord(cur)
    ensures forall k :: 0 <= k < |SplitAfter(s, cur)| ==> IsWord(SplitAfter(s, cur)[k])
    decreases |s|
  {
    if s != [] {
      if IsSpace(s[0]) { SplitWords(s[1..], []); } else { SplitWords(s[1..], cur + [s[0]]); }
    }
  }

  /** The pieces `split()` returns, put together, are exactly the characters of
      the text that are not white space: nothing is lost, reordered or added. */
  lemma {:induction false} SplitKeepsNonSpace(s: string, cur: string)
    ensures Concat(SplitAfter(s, cur)) == cur + NonSpaceChars(s)
    decreases |s|
  {
    if s == [] {
      assert cur + [] == cur;
      if cur != [] { assert Concat([cur]) == cur + Concat([]); }
    } else if IsSpace(s[0]) {
      SplitKeepsNonSpace(s[1..], []);
      assert NonSpaceChars(s) == NonSpaceChars(s[1..]);
      if cur != [] {
        var x := SplitAfter(s[1..], []);
        assert ([cur] + x)[1..] == x;
        assert Concat([cur] + x) == cur + Concat(x);
      } else {
        assert [] + SplitAfter(s[1..], []) == SplitAfter(s[1..], []);
      }
    } else {
      SplitKeepsNonSpace(s[1..], cur + [s[0]]);
      assert NonSpaceChars(s) == [s[0]] + NonSpaceChars(s[1..]);
      assert cur + [s[0]] + NonSpaceChars(s[1..]) == cur + ([s[0]] + NonSpaceChars(s[1..]));
    }
  }

  predicate AllSpaces(s: string) {
    forall k :: 0 <= k < |s| ==> IsSpace(s[k])
  }

  /** White space in front of the text does not change what `split()` gives. */
  lemma {:induction false} SplitAfterSpaces(sp: string, u: string)
    requires AllSpaces(sp)
    ensures SplitAfter(sp + u, []) == SplitAfter(u, [])
    decreases |sp|
  {
    if sp == [] {
      assert sp + u == u;
    } else {
      assert (sp + u)[0] == sp[0] && (sp + u)[1..] == sp[1..] + u;
      SplitAfterSpaces(sp[1..], u);
    }
  }

  /** Neither does white space after it. */
  lemma {:induction false} SplitAfterTrailing(u: string, sp: string, cur: string)
    requires AllSpaces(sp)
    ensures SplitAfter(u + sp, cur) == SplitAfter(u, cur)
    decreases |u|
  {
    if u == [] {
      assert u + sp == sp;
      if sp != [] {
        SplitAfterSpaces(sp[1..], []);
        assert sp[1..] + [] == sp[1..];
      }
    } else {
      assert (u + sp)[0] == u[0] && (u + sp)[1..] == u[1..] + sp;
      if IsSpace(u[0]) {
        SplitAfterTrailing(u[1..], sp, []);
      } else {
        SplitAfterTrailing(u[1..], sp, cur + [u[0]]);
      }
    }
  }

  /** `s.strip().split()` is `s.split()`. */
  lemma SplitStrip(s: string)
    ensures Split(Strip(s)) == Split(s)
  {
    var b := StripBounds(s);
    var lead, core, trail := s[..b.0], s[b.0..b.1], s[b.1..];
    assert s == lead + (core + trail);
    assert AllSpaces(lead) by {
      forall k | 0 <= k < |lead| ensures IsSpace(lead[k]) { assert lead[k] == s[k]; }
    }
    assert AllSpaces(trail) by {
      forall k | 0 <= k < |trail| ensures IsSpace(trail[k]) { assert trail[k] == s[b.1 + k]; }
    }
    SplitAfterSpaces(lead, core + trail);
    SplitAfterTrailing(core, trail, []);
  }

  /** A word followed by white space is the first piece `split()` gives. */
  lemma SplitAfterGap(w: string, gap: string, tail: string)
    requires IsWord(w) && gap != [] && AllSpaces(gap)
    ensures SplitAfter(w + gap + tail, []) == [w] + SplitAfter(tail, [])
  {
    assert w + gap + tail == w + (gap + tail);
    SplitAfterWord(w, gap + tail, []);
    assert [] + w == w;
    assert (gap + tail)[0] == gap[0] && (gap + tail)[1..] == gap[1..] + tail;
    SplitAfterSpaces(gap[1..], tail);
  }

  /** `" ".join(ws)` */
  function JoinSpaced(ws: seq<string>): string {
    if ws == [] then [] else if |ws| == 1 then ws[0] else ws[0] + " " + JoinSpaced(ws[1..])
  }

  lemma {:induction false} SplitAfterWord(w: string, tail: string, cur: string)
    requires forall k :: 0 <= k < |w| ==> !IsSpace(w[k])
    ensures SplitAfter(w + tail, cur) == SplitAfter(tail, cur + w)
    decreases |w|
  {
    if w == [] {
      assert w + tail == tail && cur + w == cur;
    } else {
      assert (w + tail)[0] == w[0] && (w + tail)[1..] == w[1..] + tail;
      assert !IsSpace(w[0]);
      SplitAfterWord(w[1..], tail, cur + [w[0]]);
      assert cur + [w[0]] + w[1..] == cur + w;
    }
  }

  /** Words joined by single spaces: no white space at either end, and the only
      white space inside is the separating blanks. */
  lemma {:induction false} JoinSpacedShape(ws: seq<string>)
    requires ws != [] && forall k :: 0 <= k < |ws| ==> IsWord(ws[k])
    ensures var j := JoinSpaced(ws);
      && j != [] && Stripped(j)
      && forall k :: 0 <= k < |j| ==> j[k] == ' ' || !IsSpace(j[k])
  {
    var w := ws[0];
    assert IsWord(w);
    if |ws| > 1 {
      JoinSpacedShape(ws[1..]);
      var rest := JoinSpaced(ws[1..]);
      var j := JoinSpaced(ws);
      assert j == w + " " + rest;
      assert j[|j| - 1] == rest[|rest| - 1];
      forall k | 0 <= k < |j| ensures j[k] == ' ' || !IsSpace(j[k]) {
        if k < |w| { assert j[k] == w[k]; }
        else if k > |w| { assert j[k] == rest[k - |w| - 1]; }
      }
    }
  }

  /** Splitting words joined by single spaces gives the words back. */
  lemma {:induction false} SplitJoinSpaced(ws: seq<string>)
    requires forall k :: 0 <= k < |ws| ==> IsWord(ws[k])
    ensures Split(JoinSpaced(ws)) == ws
  {
    if ws != [] {
      var w := ws[0];
      if |ws| == 1 {
        SplitAfterWord(w, [], []);
        assert w + [] == w && [] + w == w;
        assert SplitAfter([], w) == [w];
      } else {
        var rest := JoinSpaced(ws[1..]);
        assert JoinSpaced(ws) == w + (" " + rest);
        SplitAfterWord(w, " " + rest, []);
        assert (" " + rest)[1..] == rest;
        SplitJoinSpaced(ws[1..]);
        assert [] + w == w;
      }
    }
  }

  // ---------------------------------------------------------------------------
  // search

  /** `re.search` from `i`: the first index `p <= n` at which `at(p)` is a
      match, with that match. */
  function Search<M>(n: nat, at: nat -> Option<M>, i: nat): (r: Option<(nat, M)>)
    requires i <= n
    ensures r.Some? ==> i <= r.value.0 <= n && at(r.value.0) == Some(r.value.1)
    decreases n - i
  {
    match at(i)
    case Some(m) => Some((i, m))
    case None => if i == n then None else Search(n, at, i + 1)
  }

  /** The index found is the first where the pattern matches, and nothing is
      found when it matches nowhere from `i` on. */
  lemma {:induction false} SearchSpec<M>(n: nat, at: nat -> Option<M>, i: nat)
    requires i <= n
    ensures var r := Search(n, at, i);
      && (r.Some? ==> forall q: nat :: i <= q < r.value.0 ==> at(q).None?)
      && (r.None? ==> forall q: nat :: i <= q <= n ==> at(q).None?)
    decreases n - i
  {
    if at(i).None? && i < n {
      SearchSpec(n, at, i + 1);
    }
  }

  // ---------------------------------------------------------------------------
  // finditer

  /** A pattern tried at every index `p <= n`: `at(p)` is its match there, if
      any, which starts at `p` and ends after it, within the text. */
  ghost predicate Advances<M>(n: nat, at: nat -> Option<M>, start: M -> nat, end: M -> nat) {
    forall p: nat :: p <= n && at(p).Some? ==> start(at(p).value) == p && p < end(at(p).value) <= n
  }

  /** `re.finditer` from `i`: the match at the first index where the pattern
      matches, the search going on from the end of that match. */
  function Finditer<M>(n: nat, at: nat -> Option<M>, start: M -> nat, end: M -> nat, i: nat): (r: seq<M>)
    requires i <= n && Advances(n, at, start, end)
    decreases n - i
  {
    match at(i)
    case Some(m) => [m] + Finditer(n, at, start, end, end(m))
    case None => if i == n then [] else Finditer(n, at, start, end, i + 1)
  }

  /** Every match found from `i` is the match of the pattern at its start. */
  lemma {:induction false} FinditerFound<M>(n: nat, at: nat -> Option<M>, start: M -> nat, end: M -> nat, i: nat, k: nat)
    requires i <= n && Advances(n, at, start, end) && k < |Finditer(n, at, start, end, i)|
    ensures var m := Finditer(n, at, start, end, i)[k];
      i <= start(m) <= n && at(start(m)) == Some(m)
    decreases n - i
  {
    match at(i)
    case Some(m) =>
      if k > 0 {
        FinditerFound(n, at, start, end, end(m), k - 1);
      }
    case None =>
      FinditerFound(n, at, start, end, i + 1, k);
  }

  /** Each match found starts at or after the end of the one before it: the
      matches come in text order and do not overlap. */
  lemma {:induction false} FinditerOrder<M>(n: nat, at: nat -> Option<M>, start: M -> nat, end: M -> nat, i: nat, k: nat)
    requires i <= n && Advances(n, at, start, end) && k + 1 < |Finditer(n, at, start, end, i)|
    ensures var r := Finditer(n, at, start, end, i); end(r[k]) <= start(r[k + 1])
    decreases n - i
  {
    match at(i)
    case Some(m) =>
      if k == 0 {
        FinditerFound(n, at, start, end, end(m), 0);
      } else {
        FinditerOrder(n, at, start, end, end(m), k - 1);
      }
    case None =>
      FinditerOrder(n, at, start, end, i + 1, k);
  }

  /** Some match of `r` starts at or before `q` and ends after it. */
  ghost predicate Covers<M>(r: seq<M>, start: M -> nat, end: M -> nat, q: nat) {
    exists k :: 0 <= k < |r| && start(r[k]) <= q < end(r[k])
  }

  /** No match is lost: wherever from `i` on the pattern matches, some match
      found starts there or covers that index. */
  lemma {:induction false} FinditerComplete<M>(n: nat, at: nat -> Option<M>, start: M -> nat, end: M -> nat, i: nat, q: nat)
    requires i <= q <= n && Advances(n, at, start, end) && at(q).Some?
    ensures Covers(Finditer(n, at, start, end, i), start, end, q)
    decreases n - i
  {
    var r := Finditer(n, at, start, end, i);
    match at(i)
    case Some(m) =>
      assert at(i).value == m;
      if q < end(m) {
        assert r[0] == m && start(r[0]) <= q < end(r[0]);
      } else {
        FinditerComplete(n, at, start, end, end(m), q);
        var r' := Finditer(n, at, start, end, end(m));
        var k :| 0 <= k < |r'| && start(r'[k]) <= q < end(r'[k]);
        assert r[k + 1] == r'[k];
      }
    case None =>
      assert i < q;
      FinditerComplete(n, at, start, end, i + 1, q);
  }

  /** Indices where the pattern does not match are passed over. */
  lemma {:induction false} FinditerSkip<M>(n: nat, at: nat -> Option<M>, start: M -> nat, end: M -> nat, i: nat, j: nat)
    requires i <= j <= n && Advances(n, at, start, end)
    requires forall q :: i <= q < j ==> at(q).None?
    ensures Finditer(n, at, start, end, i) == Finditer(n, at, start, end, j)
    decreases j - i
  {
    if i < j {
      FinditerSkip(n, at, start, end, i + 1, j);
    }
  }
}
