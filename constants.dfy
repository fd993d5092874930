/** The fixed table from the Georgian subject names printed on grant pages to
    the canonical subject names the database uses. */
module Constants {
  import opened Text

  /** The table in its literal order, which is also the order of the
      alternatives in the grant parser's subject pattern. */
  const SubjectTable: seq<(string, string)> := [
    ("ბიოლოგია", "BIOLOGY"),
    ("ქიმია", "CHEMISTRY"),
    ("ფიზიკა", "PHYSICS"),
    ("მათემატიკა", "MATHEMATICS"),
    ("ისტორია", "HISTORY"),
    ("გეოგრაფია", "GEOGRAPHY"),
    ("ლიტერატურა", "LITERATURE"),
    ("ხელოვნება", "ART"),
    ("სამოქალაქო განათლება", "CIVICS"),
    ("ზოგადი უნარები", "GENERAL APTITUDE")
  ]

  const Mathematics: string := "MATHEMATICS"
  const ForeignLanguage: string := "FOREIGN LANGUAGE"
  const GeorgianLanguage: string := "GEORGIAN LANGUAGE"

  /** The table as a dictionary. */
  function SubjectsKaToEn(): map<string, string> {
    map i | 0 <= i < |SubjectTable| :: SubjectTable[i].0 := SubjectTable[i].1
  }

  /** The keys of `tab` are not empty and start with pairwise different
      characters, so no key is a prefix of another. */
  predicate DistinctFirsts(tab: seq<(string, string)>) {
    && (forall i :: 0 <= i < |tab| ==> |tab[i].0| > 0)
    && (forall i, j :: 0 <= i < j < |tab| ==> tab[i].0[0] != tab[j].0[0])
  }

  /** Every key starts with a Georgian letter, each with a different one. */
  lemma KeysStartDistinct()
    ensures DistinctFirsts(SubjectTable)
    ensures forall i :: 0 <= i < |SubjectTable| ==> |SubjectTable[i].0| > 0 && IsGeorgian(SubjectTable[i].0[0])
  {
    var firsts := "ბქფმიგლხსზ";
    forall i | 0 <= i < |SubjectTable| ensures |SubjectTable[i].0| > 0 && SubjectTable[i].0[0] == firsts[i] {
    }
    forall i, j | 0 <= i < j < |SubjectTable|
      ensures SubjectTable[i].0[0] != SubjectTable[j].0[0]
    {
      assert firsts[i] != firsts[j];
    }
  }

  /** Hence no key is a prefix of another: two keys can never both occur at
      the same place of a text. */
  lemma KeysPrefixFree(t: string, p: nat, i: nat, j: nat)
    requires i < |SubjectTable| && j < |SubjectTable|
    requires Spells(t, p, SubjectTable[i].0) && Spells(t, p, SubjectTable[j].0)
    ensures i == j
  {
    KeysStartDistinct();
  }

  /** The ten values are pairwise distinct (so the map is injective): their
      first two letters already differ. */
  lemma ValuesDistinct()
    ensures forall i, j :: 0 <= i < j < |SubjectTable| ==> SubjectTable[i].1 != SubjectTable[j].1
  {
    var heads := seq(|SubjectTable|, i requires 0 <= i < |SubjectTable| => (SubjectTable[i].1[0], SubjectTable[i].1[1]));
    assert heads == [('B', 'I'), ('C', 'H'), ('P', 'H'), ('M', 'A'), ('H', 'I'), ('G', 'E'), ('L', 'I'), ('A', 'R'), ('C', 'I'), ('G', 'E')];
    forall i, j | 0 <= i < j < |SubjectTable|
      ensures SubjectTable[i].1 != SubjectTable[j].1
    {
      if i == 5 && j == 9 {
        assert SubjectTable[i].1[2] != SubjectTable[j].1[2];
      } else {
        assert heads[i] != heads[j];
      }
    }
  }

  /** The dictionary has exactly ten entries, one per row of the table. */
  lemma TableSize()
    ensures |SubjectTable| == 10
    ensures forall i :: 0 <= i < |SubjectTable| ==> SubjectsKaToEn()[SubjectTable[i].0] == SubjectTable[i].1
    ensures |SubjectsKaToEn().Keys| == 10
  {
    forall i | 0 <= i < |SubjectTable| ensures SubjectsKaToEn()[SubjectTable[i].0] == SubjectTable[i].1 {
      TableLookup(i);
    }
    TableKeys();
  }

  /** Each row's key looks up that row's value. */
  lemma TableLookup(i: nat)
    requires i < |SubjectTable|
    ensures SubjectTable[i].0 in SubjectsKaToEn() && SubjectsKaToEn()[SubjectTable[i].0] == SubjectTable[i].1
  {
    var m := SubjectsKaToEn();
    var k := SubjectTable[i].0;
    assert k in m;
    var j :| 0 <= j < |SubjectTable| && SubjectTable[j].0 == k && m[k] == SubjectTable[j].1;
    KeysStartDistinct();
    assert SubjectTable[j].0[0] == SubjectTable[i].0[0];
    assert j == i;
  }

  /** The keys of the dictionary are the ten first components. */
  lemma TableKeys()
    ensures |SubjectsKaToEn().Keys| == 10
  {
    KeysStartDistinct();
    assert SubjectsKaToEn().Keys == set i | 0 <= i < |SubjectTable| :: SubjectTable[i].0;
    DistinctCard(SubjectTable);
  }

  /** A table whose keys start with pairwise different letters has as many
      distinct keys as it has rows. */
  lemma {:induction false} DistinctCard(ks: seq<(string, string)>)
    requires DistinctFirsts(ks)
    ensures |set i | 0 <= i < |ks| :: ks[i].0| == |ks|
  {
    if ks != [] {
      var init := ks[..|ks| - 1];
      DistinctCard(init);
      var last := ks[|ks| - 1].0;
      var s := set i | 0 <= i < |init| :: init[i].0;
      assert (set i | 0 <= i < |ks| :: ks[i].0) == s + {last};
      assert last !in s by {
        forall i | 0 <= i < |init| ensures init[i].0 != last {
          assert init[i].0[0] != last[0];
        }
      }
    }
  }

  /** The Georgian name of mathematics maps to the subject the analytics select
      grant rows by. */
  lemma MathematicsEntry()
    ensures "მათემატიკა" in SubjectsKaToEn() && SubjectsKaToEn()["მათემატიკა"] == Mathematics
  {
    TableSize();
    assert SubjectTable[3].0 == "მათემატიკა";
  }

  /** The two language subjects used by the analytics are not values of the
      table, so a grant page can never be attributed to them. */
  lemma LanguagesNotInRange()
    ensures forall i :: 0 <= i < |SubjectTable| ==> SubjectTable[i].1 != ForeignLanguage && SubjectTable[i].1 != GeorgianLanguage
  {
    forall i | 0 <= i < |SubjectTable|
      ensures SubjectTable[i].1 != ForeignLanguage && SubjectTable[i].1 != GeorgianLanguage
    {
      if i == 9 {
        assert SubjectTable[i].1[1] != ForeignLanguage[1];
      } else {
        assert |SubjectTable[i].1| < |ForeignLanguage| < |GeorgianLanguage|;
      }
    }
  }
}
