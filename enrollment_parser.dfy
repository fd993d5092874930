/** `main` of src/enrollments/enrollment_parser.py: every data file, in sorted
    name order, is cut into chunks, and each chunk becomes one group record of
    the file's year.  The files are given as (name, text) pairs; reading the
    PDFs, writing the CSV backup and the database call are not modelled. */
module EnrollmentParser {
  import opened Wrappers
  import opened FileNames
  import opened Segmentation
  import opened Extractors
  import opened Records

  /** The dictionary appended for one chunk. */
  datatype GroupRecord = GroupRecord(
    year: nat,
    universityId: string, universityName: string,
    facultyId: string, facultyName: string,
    subjects: seq<string>,
    enrollments: seq<EnrollmentRecord>)

  /** How `main` ends: it returns early when the directory is empty or nothing
      was extracted, stops with the first `ValueError`, and otherwise hands the
      records to the database. */
  datatype Outcome = NoPdfFiles | NoDataExtracted | Inserted(data: seq<GroupRecord>) | Aborted(error: string)

  // ---------------------------------------------------------------------------
  // sorted(): file names in code-point order

  /** Python's `<=` on strings: code point by code point, a proper prefix first. */
  predicate NameAtMost(a: string, b: string)
    decreases |a|
  {
    a == [] || (b != [] && (a[0] < b[0] || (a[0] == b[0] && NameAtMost(a[1..], b[1..]))))
  }

  lemma {:induction false} NameAtMostTotal(a: string, b: string)
    ensures NameAtMost(a, b) || NameAtMost(b, a)
    decreases |a|
  {
    if a != [] && b != [] && a[0] == b[0] {
      NameAtMostTotal(a[1..], b[1..]);
    }
  }

  lemma {:induction false} NameAtMostTrans(a: string, b: string, c: string)
    requires NameAtMost(a, b) && NameAtMost(b, c)
    ensures NameAtMost(a, c)
    decreases |a|
  {
    if a != [] && a[0] == b[0] && b[0] == c[0] {
      NameAtMostTrans(a[1..], b[1..], c[1..]);
    }
  }

  /** Two names each at most the other are the same name. */
  lemma {:induction false} NameAtMostAntisym(a: string, b: string)
    requires NameAtMost(a, b) && NameAtMost(b, a)
    ensures a == b
    decreases |a|
  {
    if a != [] {
      NameAtMostAntisym(a[1..], b[1..]);
      assert a == [a[0]] + a[1..] && b == [b[0]] + b[1..];
    }
  }

  predicate SortedByName(fs: seq<(string, string)>) {
    forall i, j :: 0 <= i < j < |fs| ==> NameAtMost(fs[i].0, fs[j].0)
  }

  /** Puts `f` before the first file whose name sorts after its name. */
  function InsertByName(f: (string, string), fs: seq<(string, string)>): (r: seq<(string, string)>)
    requires SortedByName(fs)
    ensures SortedByName(r)
    ensures multiset(r) == multiset(fs) + multiset{f}
    ensures forall k :: 0 <= k < |r| ==> r[k] == f || r[k] in fs
    decreases |fs|
  {
    if fs == [] then [f]
    else if NameAtMost(f.0, fs[0].0) then
      assert forall j :: 0 <= j < |fs| ==> NameAtMost(f.0, fs[j].0) by {
        forall j | 0 <= j < |fs| ensures NameAtMost(f.0, fs[j].0) {
          if j > 0 { NameAtMostTrans(f.0, fs[0].0, fs[j].0); }
        }
      }
      [f] + fs
    else
      NameAtMostTotal(f.0, fs[0].0);
      var rest := InsertByName(f, fs[1..]);
      assert forall k :: 0 <= k < |rest| ==> NameAtMost(fs[0].0, rest[k].0);
      assert fs == [fs[0]] + fs[1..];
      [fs[0]] + rest
  }

  /** `sorted(os.listdir(...))`, the files ordered by name. */
  function SortByName(fs: seq<(string, string)>): (r: seq<(string, string)>)
    ensures SortedByName(r)
    ensures multiset(r) == multiset(fs)
    decreases |fs|
  {
    if fs == [] then []
    else
      assert fs == fs[..|fs| - 1] + [fs[|fs| - 1]];
      InsertByName(fs[|fs| - 1], SortByName(fs[..|fs| - 1]))
  }

  /** Sorting keeps the files and the number of files. */
  lemma SortKeepsFiles(fs: seq<(string, string)>)
    ensures |SortByName(fs)| == |fs|
    ensures forall f :: f in fs <==> f in SortByName(fs)
  {
    var r := SortByName(fs);
    assert |multiset(r)| == |multiset(fs)|;
    forall f ensures f in fs <==> f in r {
      assert f in fs <==> f in multiset(fs);
      assert f in r <==> f in multiset(r);
    }
  }

  // ---------------------------------------------------------------------------
  // The first error of a loop, or everything it appends

  /** The values `f` gives for `xs`, appended in order, or the first error. */
  function Collect<T, U>(f: T -> Result<seq<U>, string>, xs: seq<T>): Result<seq<U>, string>
    decreases |xs|
  {
    if xs == [] then Ok([])
    else
      match Collect(f, xs[..|xs| - 1])
      case Err(e) => Err(e)
      case Ok(d) =>
        match f(xs[|xs| - 1])
        case Err(e) => Err(e)
        case Ok(g) => Ok(d + g)
  }

  /** One more element, seen from a prefix that succeeded. */
  lemma CollectStep<T, U>(f: T -> Result<seq<U>, string>, xs: seq<T>, j: nat, d: seq<U>)
    requires j < |xs| && Collect(f, xs[..j]) == Ok(d)
    ensures Collect(f, xs[..j + 1]) == match f(xs[j]) case Err(e) => Err(e) case Ok(g) => Ok(d + g)
  {
    assert xs[..j + 1][..j] == xs[..j];
  }

  /** Once a prefix fails, the whole sequence fails with that error. */
  lemma {:induction false} CollectErrPersists<T, U>(f: T -> Result<seq<U>, string>, xs: seq<T>, j: nat, e: string)
    requires j <= |xs| && Collect(f, xs[..j]) == Err(e)
    ensures Collect(f, xs) == Err(e)
    decreases |xs| - j
  {
    if j < |xs| {
      assert xs[..j + 1][..j] == xs[..j];
      CollectErrPersists(f, xs, j + 1, e);
    } else {
      assert xs[..j] == xs;
    }
  }

  /** An element that fails after a prefix that succeeded ends the loop with its error. */
  lemma CollectFails<T, U>(f: T -> Result<seq<U>, string>, xs: seq<T>, j: nat, e: string)
    requires j < |xs| && Collect(f, xs[..j]).Ok? && f(xs[j]) == Err(e)
    ensures Collect(f, xs) == Err(e)
  {
    assert xs[..j + 1][..j] == xs[..j];
    CollectErrPersists(f, xs, j + 1, e);
  }

  /** The loop succeeds exactly when every element succeeds. */
  lemma {:induction false} CollectOk<T, U>(f: T -> Result<seq<U>, string>, xs: seq<T>)
    ensures Collect(f, xs).Ok? <==> forall k :: 0 <= k < |xs| ==> f(xs[k]).Ok?
    decreases |xs|
  {
    if xs != [] {
      var init := xs[..|xs| - 1];
      CollectOk(f, init);
      assert forall k :: 0 <= k < |init| ==> init[k] == xs[k];
    }
  }

  /** A failing loop fails with the error of its first failing element. */
  lemma {:induction false} CollectErr<T, U>(f: T -> Result<seq<U>, string>, xs: seq<T>)
    requires Collect(f, xs).Err?
    ensures exists k :: (0 <= k < |xs| && f(xs[k]) == Err(Collect(f, xs).error)
      && forall k' :: 0 <= k' < k ==> f(xs[k']).Ok?)
    decreases |xs|
  {
    var init := xs[..|xs| - 1];
    assert forall k :: 0 <= k < |init| ==> init[k] == xs[k];
    if Collect(f, init).Err? {
      CollectErr(f, init);
      var k :| 0 <= k < |init| && f(init[k]) == Err(Collect(f, init).error) && forall k' :: 0 <= k' < k ==> f(init[k']).Ok?;
      assert f(xs[k]) == Err(Collect(f, xs).error);
    } else {
      CollectOk(f, init);
      assert f(xs[|xs| - 1]) == Err(Collect(f, xs).error);
    }
  }

  /** When each element gives one value, a successful loop gives one value per
      element, in order. */
  lemma {:induction false} CollectSingles<T, U>(f: T -> Result<seq<U>, string>, xs: seq<T>)
    requires forall x :: f(x).Ok? ==> |f(x).value| == 1
    requires Collect(f, xs).Ok?
    ensures var d := Collect(f, xs).value;
      |d| == |xs| && forall k :: 0 <= k < |xs| ==> f(xs[k]) == Ok([d[k]])
    decreases |xs|
  {
    if xs != [] {
      var init := xs[..|xs| - 1];
      CollectSingles(f, init);
      var d0 := Collect(f, init).value;
      var g := f(xs[|xs| - 1]).value;
      var d := Collect(f, xs).value;
      assert d == d0 + g && g == [g[0]];
      forall k | 0 <= k < |xs| ensures f(xs[k]) == Ok([d[k]]) {
        if k < |init| {
          assert init[k] == xs[k] && d[k] == d0[k];
        }
      }
    }
  }

  /** A successful loop appends nothing exactly when no element gives anything. */
  lemma {:induction false} CollectEmpty<T, U>(f: T -> Result<seq<U>, string>, xs: seq<T>)
    requires Collect(f, xs).Ok?
    ensures Collect(f, xs).value == [] <==> forall k :: 0 <= k < |xs| ==> f(xs[k]) == Ok([])
    decreases |xs|
  {
    if xs != [] {
      var init := xs[..|xs| - 1];
      CollectEmpty(f, init);
      assert forall k :: 0 <= k < |init| ==> init[k] == xs[k];
      CollectOk(f, xs);
      assert f(xs[|xs| - 1]).Ok?;
    }
  }

  /** Every value appended by a successful loop comes from one element. */
  lemma {:induction false} CollectFrom<T, U>(f: T -> Result<seq<U>, string>, xs: seq<T>, u: U)
    requires Collect(f, xs).Ok? && u in Collect(f, xs).value
    ensures exists k :: 0 <= k < |xs| && f(xs[k]).Ok? && u in f(xs[k]).value
    decreases |xs|
  {
    var init := xs[..|xs| - 1];
    var d0 := Collect(f, init).value;
    var g := f(xs[|xs| - 1]).value;
    assert Collect(f, xs).value == d0 + g;
    if u in d0 {
      CollectFrom(f, init, u);
      var k :| 0 <= k < |init| && f(init[k]).Ok? && u in f(init[k]).value;
      assert init[k] == xs[k];
    } else {
      assert u in g;
    }
  }

  // ---------------------------------------------------------------------------
  // One chunk, one file, all files

  /** The group record of one chunk: the university is read first, then the
      faculty; either may raise. */
  function ChunkGroup(year: nat, chunk: string): (r: Result<GroupRecord, string>)
    ensures r.Ok? <==> ExtractUniversityNameAndId(chunk).Ok? && ExtractFacultyNameAndId(chunk).Ok?
    ensures ExtractUniversityNameAndId(chunk).Err? ==> r == Err(UniversityNotFound)
    ensures ExtractUniversityNameAndId(chunk).Ok? && ExtractFacultyNameAndId(chunk).Err? ==> r == Err(FacultyNotFound)
  {
    match ExtractUniversityNameAndId(chunk)
    case Err(e) => Err(e)
    case Ok((universityId, universityName)) =>
      match ExtractFacultyNameAndId(chunk)
      case Err(e) => Err(e)
      case Ok((facultyId, facultyName)) =>
        Ok(GroupRecord(year, universityId, universityName, facultyId, facultyName,
                       ExtractTakenSubjects(chunk), EnrollmentRecords(chunk, AnySpace)))
  }

  /** The fields of a chunk's record are the extractors' results, unchanged. */
  lemma ChunkGroupFields(year: nat, chunk: string)
    requires ChunkGroup(year, chunk).Ok?
    ensures var g := ChunkGroup(year, chunk).value;
      && g.year == year
      && ExtractUniversityNameAndId(chunk) == Ok((g.universityId, g.universityName))
      && ExtractFacultyNameAndId(chunk) == Ok((g.facultyId, g.facultyName))
      && g.subjects == ExtractTakenSubjects(chunk)
      && g.enrollments == EnrollmentRecords(chunk, AnySpace)
  {
  }

  /** The inner loop's step for one chunk: its record, or the error. */
  function ChunkStep(year: nat): string -> Result<seq<GroupRecord>, string> {
    (chunk: string) => match ChunkGroup(year, chunk) case Err(e) => Err(e) case Ok(g) => Ok([g])
  }

  /** The records of one file: its year, then one record per chunk. */
  function FileGroups(file: (string, string)): Result<seq<GroupRecord>, string> {
    match YearOf(file.0)
    case Err(e) => Err(e)
    case Ok(year) => Collect(ChunkStep(year), Segments(file.1))
  }

  /** A file gives one record per chunk, each the record of that chunk, in
      chunk order, all of the file's year; it fails exactly when its name is not
      a year or some chunk fails. */
  lemma FileGroupsSpec(file: (string, string))
    ensures var r := FileGroups(file);
      && (r.Ok? <==> YearOf(file.0).Ok? && forall k :: 0 <= k < |Segments(file.1)| ==> ChunkGroup(YearOf(file.0).value, Segments(file.1)[k]).Ok?)
      && (r.Ok? ==> (|r.value| == |Segments(file.1)|
           && forall k :: 0 <= k < |r.value| ==> Ok(r.value[k]) == ChunkGroup(YearOf(file.0).value, Segments(file.1)[k])))
      && (r.Ok? ==> forall k :: 0 <= k < |r.value| ==> YearOf(file.0) == Ok(r.value[k].year))
  {
    match YearOf(file.0)
    case Err(_) =>
    case Ok(year) => ChunksCollect(year, Segments(file.1));
  }

  /** The loop over the chunks of a file succeeds exactly when every chunk
      does, and then gives each chunk's record, in order, of the given year. */
  lemma ChunksCollect(year: nat, cs: seq<string>)
    ensures var r := Collect(ChunkStep(year), cs);
      && (r.Ok? <==> forall k :: 0 <= k < |cs| ==> ChunkGroup(year, cs[k]).Ok?)
      && (r.Ok? ==> |r.value| == |cs|)
      && (r.Ok? ==> forall k :: 0 <= k < |r.value| ==> Ok(r.value[k]) == ChunkGroup(year, cs[k]) && r.value[k].year == year)
  {
    var f := ChunkStep(year);
    CollectOk(f, cs);
    assert forall k :: 0 <= k < |cs| ==> (f(cs[k]).Ok? <==> ChunkGroup(year, cs[k]).Ok?);
    if Collect(f, cs).Ok? {
      CollectSingles(f, cs);
      var d := Collect(f, cs).value;
      forall k | 0 <= k < |d| ensures Ok(d[k]) == ChunkGroup(year, cs[k]) && d[k].year == year {
        assert f(cs[k]) == Ok([d[k]]);
      }
    }
  }

  /** A file fails with the error of its name, or else with the error of its
      first failing chunk. */
  lemma FileGroupsErr(file: (string, string))
    requires FileGroups(file).Err?
    ensures YearOf(file.0).Err? ==> FileGroups(file).error == YearOf(file.0).error
    ensures YearOf(file.0).Ok? ==> exists k :: (0 <= k < |Segments(file.1)|
      && ChunkGroup(YearOf(file.0).value, Segments(file.1)[k]) == Err(FileGroups(file).error)
      && forall k' :: 0 <= k' < k ==> ChunkGroup(YearOf(file.0).value, Segments(file.1)[k']).Ok?)
  {
    match YearOf(file.0)
    case Err(_) =>
    case Ok(year) =>
      ChunksErr(year, Segments(file.1));
  }

  /** The loop over the chunks of a file fails with the error of its first
      failing chunk. */
  lemma ChunksErr(year: nat, cs: seq<string>)
    requires Collect(ChunkStep(year), cs).Err?
    ensures exists k :: (0 <= k < |cs| && ChunkGroup(year, cs[k]) == Err(Collect(ChunkStep(year), cs).error)
      && forall k' :: 0 <= k' < k ==> ChunkGroup(year, cs[k']).Ok?)
  {
    var f := ChunkStep(year);
    var e := Collect(f, cs).error;
    CollectErr(f, cs);
    var k :| 0 <= k < |cs| && f(cs[k]) == Err(e) && forall k' :: 0 <= k' < k ==> f(cs[k']).Ok?;
    ChunkStepIs(year, cs[k]);
    forall k' | 0 <= k' < k ensures ChunkGroup(year, cs[k']).Ok? {
      ChunkStepIs(year, cs[k']);
    }
    assert ChunkGroup(year, cs[k]) == Err(e);
  }

  /** A file adds nothing exactly when its name is a year and it has no chunk. */
  lemma FileGroupsEmpty(file: (string, string))
    ensures FileGroups(file) == Ok([]) <==> YearOf(file.0).Ok? && Segments(file.1) == []
  {
    match YearOf(file.0)
    case Err(_) =>
    case Ok(year) =>
      var f, cs := ChunkStep(year), Segments(file.1);
      if Collect(f, cs).Ok? {
        CollectEmpty(f, cs);
        if cs != [] {
          CollectSingles(f, cs);
        }
      }
  }

  /** What `main` does with the files it is given. */
  function EnrollmentOutcome(files: seq<(string, string)>): Outcome {
    if files == [] then NoPdfFiles
    else
      match Collect(FileGroups, SortByName(files))
      case Err(e) => Aborted(e)
      case Ok(data) => if data == [] then NoDataExtracted else Inserted(data)
  }

  /** `main` inserts data exactly when every file is read without error and at
      least one of them has a chunk; every record inserted belongs to a chunk of
      one of the files and carries that file's year. */
  lemma OutcomeSpec(files: seq<(string, string)>)
    ensures EnrollmentOutcome(files) == NoPdfFiles <==> files == []
    ensures EnrollmentOutcome(files).Aborted? <==> files != [] && exists f :: f in files && FileGroups(f).Err?
    ensures EnrollmentOutcome(files) == NoDataExtracted <==>
      files != [] && forall f :: f in files ==> YearOf(f.0).Ok? && Segments(f.1) == []
    ensures EnrollmentOutcome(files).Inserted? ==> forall g :: g in EnrollmentOutcome(files).data ==>
      exists f :: f in files && YearOf(f.0) == Ok(g.year) && FileGroups(f).Ok? && g in FileGroups(f).value
  {
    OutcomeAborted(files);
    OutcomeNoData(files);
    OutcomeInserted(files);
  }

  /** `main` aborts exactly when some file fails. */
  lemma OutcomeAborted(files: seq<(string, string)>)
    ensures EnrollmentOutcome(files).Aborted? <==> files != [] && exists f :: f in files && FileGroups(f).Err?
  {
    var fs := SortByName(files);
    SortKeepsFiles(files);
    CollectOk(FileGroups, fs);
    if exists f :: f in files && FileGroups(f).Err? {
      var f :| f in files && FileGroups(f).Err?;
      var k :| 0 <= k < |fs| && fs[k] == f;
    }
  }

  /** `main` finds no data exactly when every file is named by a year and has
      no chunk. */
  lemma OutcomeNoData(files: seq<(string, string)>)
    ensures EnrollmentOutcome(files) == NoDataExtracted <==>
      files != [] && forall f :: f in files ==> YearOf(f.0).Ok? && Segments(f.1) == []
  {
    var fs := SortByName(files);
    SortKeepsFiles(files);
    CollectOk(FileGroups, fs);
    forall f | f in files ensures FileGroups(f) == Ok([]) <==> YearOf(f.0).Ok? && Segments(f.1) == [] {
      FileGroupsEmpty(f);
    }
    if Collect(FileGroups, fs).Ok? {
      CollectEmpty(FileGroups, fs);
      assert (forall k :: 0 <= k < |fs| ==> FileGroups(fs[k]) == Ok([])) <==> forall f :: f in files ==> FileGroups(f) == Ok([]);
    } else {
      var k :| 0 <= k < |fs| && FileGroups(fs[k]).Err?;
      assert fs[k] in files;
    }
  }

  /** Every record `main` inserts belongs to a chunk of one of the files and
      carries that file's year. */
  lemma OutcomeInserted(files: seq<(string, string)>)
    ensures EnrollmentOutcome(files).Inserted? ==> forall g :: g in EnrollmentOutcome(files).data ==>
      exists f :: f in files && YearOf(f.0) == Ok(g.year) && FileGroups(f).Ok? && g in FileGroups(f).value
  {
    var fs := SortByName(files);
    SortKeepsFiles(files);
    if files != [] && Collect(FileGroups, fs).Ok? {
      forall g | g in Collect(FileGroups, fs).value
        ensures exists f :: f in files && YearOf(f.0) == Ok(g.year) && FileGroups(f).Ok? && g in FileGroups(f).value
      {
        CollectFrom(FileGroups, fs, g);
        var k :| 0 <= k < |fs| && FileGroups(fs[k]).Ok? && g in FileGroups(fs[k]).value;
        FileGroupsSpec(fs[k]);
      }
    }
  }

  // ---------------------------------------------------------------------------
  // The loops of main

  /** `main`: the nested loops over the sorted files and their chunks, returning
      early on an empty directory, stopping at the first error, and inserting the
      records unless there are none. */
  method ProcessEnrollmentFiles(files: seq<(string, string)>) returns (outcome: Outcome)
    ensures outcome == EnrollmentOutcome(files)
  {
    if |files| == 0 {
      return NoPdfFiles;
    }
    var pdfs := SortByName(files);
    var data: seq<GroupRecord> := [];
    for i := 0 to |pdfs|
      invariant Collect(FileGroups, pdfs[..i]) == Ok(data)
    {
      var r := ProcessFile(pdfs[i], data);
      CollectStep(FileGroups, pdfs, i, data);
      if r.Err? {
        CollectErrPersists(FileGroups, pdfs, i + 1, r.error);
        return Aborted(r.error);
      }
      data := r.value;
    }
    assert pdfs[..|pdfs|] == pdfs;
    if |data| == 0 {
      return NoDataExtracted;
    }
    return Inserted(data);
  }

  /** The body of the loop over the files: segment the text, read the year off
      the name, then append the records of the chunks to `data`. */
  method ProcessFile(pdf: (string, string), data: seq<GroupRecord>) returns (r: Result<seq<GroupRecord>, string>)
    ensures r == match FileGroups(pdf) case Err(e) => Err(e) case Ok(g) => Ok(data + g)
  {
    var chunks := SegmentPdfContent(pdf.1);
    var year := YearOf(pdf.0);
    if year.Err? {
      return Err(year.error);
    }
    r := AppendChunks(year.value, chunks, data);
  }

  /** The loop over the chunks of one file: one record per chunk appended to
      `data`, stopping at the first extractor error. */
  method AppendChunks(year: nat, chunks: seq<string>, data: seq<GroupRecord>) returns (r: Result<seq<GroupRecord>, string>)
    ensures r == match Collect(ChunkStep(year), chunks) case Err(e) => Err(e) case Ok(g) => Ok(data + g)
  {
    var out := data;
    for j := 0 to |chunks|
      invariant Collect(ChunkStep(year), chunks[..j]).Ok?
      invariant out == data + Collect(ChunkStep(year), chunks[..j]).value
    {
      var group := ProcessChunk(year, chunks[j]);
      if group.Err? {
        ChunkFails(year, chunks, j, group.error);
        return Err(group.error);
      }
      ChunkAppends(year, chunks, j, group.value);
      out := out + [group.value];
    }
    assert chunks[..|chunks|] == chunks;
    return Ok(out);
  }

  /** The body of the loop over the chunks: the extractors applied to one
      chunk, the university first, then the faculty, each of which may raise. */
  method ProcessChunk(year: nat, chunk: string) returns (r: Result<GroupRecord, string>)
    ensures r == ChunkGroup(year, chunk)
  {
    var university := ExtractUniversityNameAndId(chunk);
    if university.Err? {
      return Err(university.error);
    }
    var faculty := ExtractFacultyNameAndId(chunk);
    if faculty.Err? {
      return Err(faculty.error);
    }
    var subjects := ExtractTakenSubjects(chunk);
    var enrollments := ExtractEnrollmentRecords(chunk);
    return Ok(GroupRecord(year, university.value.0, university.value.1,
                          faculty.value.0, faculty.value.1, subjects, enrollments));
  }

  /** A chunk whose step fails ends the loop with that error. */
  lemma ChunkFails(year: nat, chunks: seq<string>, j: nat, e: string)
    requires j < |chunks| && Collect(ChunkStep(year), chunks[..j]).Ok?
    requires ChunkGroup(year, chunks[j]) == Err(e)
    ensures Collect(ChunkStep(year), chunks) == Err(e)
  {
    ChunkStepIs(year, chunks[j]);
    CollectFails(ChunkStep(year), chunks, j, e);
  }

  /** A chunk whose step succeeds appends its record. */
  lemma ChunkAppends(year: nat, chunks: seq<string>, j: nat, group: GroupRecord)
    requires j < |chunks| && Collect(ChunkStep(year), chunks[..j]).Ok?
    requires ChunkGroup(year, chunks[j]) == Ok(group)
    ensures Collect(ChunkStep(year), chunks[..j + 1]) == Ok(Collect(ChunkStep(year), chunks[..j]).value + [group])
  {
    ChunkStepIs(year, chunks[j]);
    CollectStep(ChunkStep(year), chunks, j, Collect(ChunkStep(year), chunks[..j]).value);
  }

  lemma ChunkStepIs(year: nat, chunk: string)
    ensures ChunkStep(year)(chunk) == match ChunkGroup(year, chunk) case Err(e) => Err(e) case Ok(g) => Ok([g])
  {
  }
}
