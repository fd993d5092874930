/** The grant marker of `extract_enrollment_records` as written: the white
    space before `50|70|100` is `\s+`, which crosses a line break, and nothing
    has to follow the alternative. After a line without a marker, a next line
    whose rank begins with 50, 70 or 100 (50, 503, 7000, 1009, ...) gives the
    start of its rank to the line before as that line's marker; the search
    resumes inside that rank, where `^` fails, and the record of that line is
    lost. The pattern with the marker kept on its line (`LineSpace`) reads
    both lines back (`RecordLines.ReadBack`). */
module MarkerFinding {
  import opened Wrappers
  import opened Text
  import opened Records
  import opened RecordLines

  /** After a line break, a rank spelled like a grant is read as the marker. */
  lemma MarkerAcross(t: string, z: nat, w: string, gr: Grant)
    requires w == GrantText(gr) && z < |t| && t[z] == '\n' && Spells(t, z + 1, w)
    ensures MarkerEnd(t, z, AnySpace) == z + 1 + |w|
  {
    SpellsSlice(t, z + 1, w);
    assert t[z + 1] == w[0] && t[z + 2] == w[1];
    RunExact(t, z, z + 1, Spaces);
    if gr == Grant100 {
      assert t[z + 3] == w[2];
    }
  }

  /** A line without a marker, given by its pieces at a line start `p`, whose
      line break is followed by a rank spelled like a grant: the pattern
      matches the line and the rank after it. */
  lemma PiecesAcross(t: string, p: nat, a: nat, e: nat, z: nat, y: nat, n: nat, R: string, I: string, S: string, C: string,
                     w: string, gr: Grant, r: EnrollmentRecord) returns (m: RecordMatch)
    requires LineStart(t, p) && R != [] && AllDigits(R) && |I| == 9 && AllDigits(I)
    requires 3 <= n <= 4 && ScoresLayout(S, n) && DecimalForm(C)
    requires PiecesAt(t, p, a, e, z, z, R, I, S, C, MarkerText(None)) && y == z + 1
    requires LineFollows(t, y) && w == GrantText(gr) && Spells(t, y, w)
    requires r == EnrollmentRecord(IntOf(R), IntOf(I), FloatsOf(Split(Strip(S))), FloatOf(C))
    ensures y + |w| <= |t| && RecordAt(t, p, AnySpace) == Some(m)
    ensures m.end == y + |w| && GroupBounds(t, m) && RecordOf(t, m) == r
  {
    m := PiecesMatch(t, p, a, e, z, n, AnySpace);
    MarkerAcross(t, z, w, gr);
    PiecesRead(t, p, a, e, z, z, n, None, R, I, S, C, AnySpace);
    PiecesMatchRecord(t, p, a, e, z, z, n, None, R, I, S, C, AnySpace);
  }

  /** A match at `p` gives the first record, and the search goes on from
      where the match ends. */
  lemma MatchThen(t: string, p: nat, x: nat, m: RecordMatch, r: EnrollmentRecord)
    requires p <= x <= |t| && RecordAt(t, p, AnySpace) == Some(m) && m.end == x
    requires GroupBounds(t, m) && RecordOf(t, m) == r
    ensures EnrollmentRecordsFrom(t, p, AnySpace) == [r] + EnrollmentRecordsFrom(t, x, AnySpace)
  {
    RecordsFromMatch(t, p, AnySpace, m);
  }

  /** A written line without a marker at the start of the text, followed by a
      rank spelled like a grant: the pattern matches the line and that rank. */
  lemma MarkerlessMatch(t: string, y: nat, l: Line, w: string, gr: Grant) returns (m: RecordMatch)
    requires WellFormed(l.record) && l.grant.None? && y == |LineText(l)| + 1
    requires Spells(t, 0, LineText(l) + "\n") && LineFollows(t, y)
    requires w == GrantText(gr) && Spells(t, y, w)
    ensures y + |w| <= |t| && RecordAt(t, 0, AnySpace) == Some(m)
    ensures m.end == y + |w| && GroupBounds(t, m) && RecordOf(t, m) == l.record
  {
    var r := l.record;
    var R, I, S, C := Numeral(r.rank, 0), Numeral(r.studentId, 9), ScoresText(r.subjectScores), DecimalText(r.contestScore, 0);
    LinePieces(l);
    var a := |R|;
    var e := a + 11 + |S|;
    var z := e + |C|;
    FieldsSpelled(t, 0, a, e, z, z, R, I, S, C, MarkerText(None));
    m := PiecesAcross(t, 0, a, e, z, y, |r.subjectScores|, R, I, S, C, w, gr, r);
  }

  /** Within the last line of the text, past its first character, the pattern
      matches nowhere. */
  lemma RestOfLine(t: string, y: nat, L: string, x: nat)
    requires OneLine(L) && Spells(t, y, L + "\n") && y + |L| + 1 == |t| && y < x <= y + |L|
    ensures EnrollmentRecordsFrom(t, x, AnySpace) == []
  {
    SpellsSlice(t, y, L + "\n");
    forall q | x <= q < |t| ensures RecordAt(t, q, AnySpace).None? {
      assert t[q - 1] == (L + "\n")[q - 1 - y] == L[q - 1 - y];
      MidLine(t, q, AnySpace);
    }
    RecordsFromSkip(t, x, |t|, AnySpace);
    RecordsFromEnd(t, AnySpace);
  }

  /** Two written lines, the first without a marker and the second with a
      rank whose digits begin with 50, 70 or 100: the pattern as written finds
      the first record only, while the pattern with the marker kept on its
      line finds both. */
  lemma MarkerTakesNextRank(a: EnrollmentRecord, b: EnrollmentRecord, g: Option<Grant>)
    requires WellFormed(a) && WellFormed(b) && GrantPrefix(Numeral(b.rank, 0))
    ensures EnrollmentRecords(Lines([Line(a, None), Line(b, g)]), AnySpace) == [a]
    ensures EnrollmentRecords(Lines([Line(a, None), Line(b, g)]), LineSpace) == [a, b]
  {
    FirstOnly(a, b, g);
    BothRead(a, b, g);
  }

  /** The pattern as written on two written lines, the first without a marker:
      the second record is lost exactly when its rank begins as a grant. */
  lemma TwoLinesAsWritten(a: EnrollmentRecord, b: EnrollmentRecord, g: Option<Grant>)
    requires WellFormed(a) && WellFormed(b)
    ensures EnrollmentRecords(Lines([Line(a, None), Line(b, g)]), AnySpace)
      == if GrantPrefix(Numeral(b.rank, 0)) then [a] else [a, b]
  {
    var ls := [Line(a, None), Line(b, g)];
    if GrantPrefix(Numeral(b.rank, 0)) {
      FirstOnly(a, b, g);
    } else {
      assert !Absorbs(ls[0], ls[1]);
      ReadBackAsWritten(ls);
      assert RecordsIn(ls) == [a, b];
    }
  }

  /** Ranks that begin as a grant, and ranks that do not. */
  lemma GrantLikeRanks()
    ensures GrantPrefix(Numeral(503, 0)) && GrantPrefix(Numeral(1009, 0))
    ensures !GrantPrefix(Numeral(5, 0)) && !GrantPrefix(Numeral(150, 0))
  {
    Numeral503();
    assert "503"[..2] == "50";
    Numeral1009();
    assert "1009"[..3] == "100";
    Numeral150();
    assert "150"[0] == '1' && "150"[1] == '5';
  }

  lemma Numeral503()
    ensures Numeral(503, 0) == "503"
  {
    assert Numeral(5, 0) == "5";
    assert Numeral(50, 0) == "50";
  }

  lemma Numeral1009()
    ensures Numeral(1009, 0) == "1009"
  {
    assert Numeral(1, 0) == "1";
    assert Numeral(10, 0) == "10";
    assert Numeral(100, 0) == "100";
  }

  lemma Numeral150()
    ensures Numeral(150, 0) == "150"
  {
    assert Numeral(1, 0) == "1";
    assert Numeral(15, 0) == "15";
  }

  /** The pattern as written finds the first record of the two lines only. */
  lemma FirstOnly(a: EnrollmentRecord, b: EnrollmentRecord, g: Option<Grant>)
    requires WellFormed(a) && WellFormed(b) && GrantPrefix(Numeral(b.rank, 0))
    ensures EnrollmentRecords(Lines([Line(a, None), Line(b, g)]), AnySpace) == [a]
  {
    AsWrittenLines(Lines([Line(a, None), Line(b, g)]), |LineText(Line(a, None))| + 1, Line(a, None), Line(b, g));
  }

  /** The same, for the two lines given as lines. */
  lemma AsWrittenLines(t: string, y: nat, l1: Line, l2: Line)
    requires WellFormed(l1.record) && WellFormed(l2.record) && l1.grant.None?
    requires t == Lines([l1, l2]) && y == |LineText(l1)| + 1
    requires GrantPrefix(Numeral(l2.record.rank, 0))
    ensures EnrollmentRecords(t, AnySpace) == [l1.record]
  {
    TwoLines(t, y, l1, l2);
    AsWritten(t, y, l1, l2);
  }

  /** The grant a numeral begins with. */
  lemma PrefixGrant(s: string) returns (gr: Grant)
    requires GrantPrefix(s)
    ensures GrantText(gr) <= s
  {
    gr := if "50" <= s then Grant50 else if "70" <= s then Grant70 else Grant100;
  }

  /** A prefix of what is spelled out at `y` is spelled out there. */
  lemma PrefixSpelled(t: string, y: nat, w: string, s: string)
    requires w <= s && Spells(t, y, s)
    ensures Spells(t, y, w)
  {
    assert s == w + s[|w|..];
    SpellsSplit(t, y, w, s[|w|..]);
  }

  /** Two written lines spelled out in a text, the first without a marker and
      the second with a rank that begins as a grant: the pattern as written
      finds the first record only. */
  lemma AsWritten(t: string, y: nat, l1: Line, l2: Line)
    requires WellFormed(l1.record) && WellFormed(l2.record) && l1.grant.None?
    requires y == |LineText(l1)| + 1 && |t| == y + |LineText(l2)| + 1
    requires Spells(t, 0, LineText(l1) + "\n") && Spells(t, y, LineText(l2) + "\n")
    requires GrantPrefix(Numeral(l2.record.rank, 0))
    ensures EnrollmentRecords(t, AnySpace) == [l1.record]
  {
    var w, gr := GrantStart(t, y, l2);
    var m := MarkerlessMatch(t, y, l1, w, gr);
    OnlyMatch(t, y, LineText(l2), y + |w|, m, l1.record);
  }

  /** A written line spelled out at `y` whose rank begins as a grant: that
      grant is spelled out at `y`, and the line may follow a line break. */
  lemma GrantStart(t: string, y: nat, l: Line) returns (w: string, gr: Grant)
    requires Spells(t, y, LineText(l) + "\n") && GrantPrefix(Numeral(l.record.rank, 0))
    ensures w == GrantText(gr) && Spells(t, y, w) && LineFollows(t, y)
    ensures 0 < |w| <= |LineText(l)| && OneLine(LineText(l))
  {
    var R := Numeral(l.record.rank, 0);
    SecondLine(t, y, l, R);
    gr := PrefixGrant(R);
    w := GrantText(gr);
    PrefixSpelled(t, y, w, R);
  }

  /** A match at the start of the text that ends within the last line: its
      record is all the pattern finds. */
  lemma OnlyMatch(t: string, y: nat, L: string, x: nat, m: RecordMatch, r: EnrollmentRecord)
    requires OneLine(L) && Spells(t, y, L + "\n") && y + |L| + 1 == |t| && y < x <= y + |L|
    requires RecordAt(t, 0, AnySpace) == Some(m) && m.end == x && GroupBounds(t, m) && RecordOf(t, m) == r
    ensures EnrollmentRecords(t, AnySpace) == [r]
  {
    RestOfLine(t, y, L, x);
    MatchThen(t, 0, x, m, r);
  }

  /** With the marker kept on its line, both records of the two lines are found. */
  lemma BothRead(a: EnrollmentRecord, b: EnrollmentRecord, g: Option<Grant>)
    requires WellFormed(a) && WellFormed(b)
    ensures EnrollmentRecords(Lines([Line(a, None), Line(b, g)]), LineSpace) == [a, b]
  {
    ReadBack([Line(a, None), Line(b, g)]);
    assert RecordsIn([Line(a, None), Line(b, g)]) == [a, b];
  }

  /** Two written lines, spelled out from the start of their text. */
  lemma TwoLines(t: string, y: nat, l1: Line, l2: Line)
    requires t == Lines([l1, l2]) && y == |LineText(l1)| + 1
    ensures Spells(t, 0, LineText(l1) + "\n") && Spells(t, y, LineText(l2) + "\n")
    ensures |t| == y + |LineText(l2)| + 1
  {
    var u, v := LineText(l1) + "\n", LineText(l2) + "\n";
    assert [l1, l2][1..] == [l2] && [l2][1..] == [];
    assert Lines([l2]) == v;
    assert t == u + v;
    SpellsSelf(t);
    SpellsSplit(t, 0, u, v);
  }

  /** A written line spelled out at `y` starts with its rank and may follow a
      line break. */
  lemma SecondLine(t: string, y: nat, l: Line, w: string)
    requires Spells(t, y, LineText(l) + "\n") && w == Numeral(l.record.rank, 0)
    ensures Spells(t, y, w) && LineFollows(t, y) && 0 < |w| <= |LineText(l)| && OneLine(LineText(l))
  {
    LineHead(l);
    SpellsSplit(t, y, w + " ", (LineText(l) + "\n")[|w| + 1..]);
    SpellsSplit(t, y, w, " ");
    LineBegins(t, y, l);
    LineOneLine(l);
  }
}
