/** The year both parsers read off a data file's name: `int(name.split(".")[0])`. */
module FileNames {
  import opened Wrappers
  import opened Text

  /** `name.split(".")[0]`: the text before the first dot, or the whole name
      when it has none. */
  function Stem(name: string): (s: string)
    ensures s <= name
    ensures '.' !in s
    ensures |s| < |name| ==> name[|s|] == '.'
  {
    if name == [] || name[0] == '.' then [] else [name[0]] + Stem(name[1..])
  }

  /** The message of the `ValueError` that `int()` raises on a bad stem. */
  function BadYear(stem: string): string {
    "invalid literal for int() with base 10: '" + stem + "'"
  }

  /** The year of a file: the decimal value of its stem, which must be a
      non-empty run of ASCII digits. */
  function YearOf(name: string): (r: Result<nat, string>)
    ensures r.Ok? <==> Stem(name) != [] && AllDigits(Stem(name))
    ensures r.Err? ==> r.error == BadYear(Stem(name))
  {
    var s := Stem(name);
    if s != [] && AllDigits(s) then Ok(DigitsValue(s)) else Err(BadYear(s))
  }

  /** The stem of `stem + "." + ext` is `stem` whenever `stem` has no dot. */
  lemma {:induction false} StemOfDotted(stem: string, ext: string)
    requires '.' !in stem
    ensures Stem(stem + "." + ext) == stem
    decreases |stem|
  {
    if stem == [] {
      assert (stem + "." + ext)[0] == '.';
    } else {
      assert (stem + "." + ext)[1..] == stem[1..] + "." + ext;
      StemOfDotted(stem[1..], ext);
    }
  }

  /** A file named after a year, such as `2021.pdf`, gives back that year. */
  lemma YearOfNumeral(year: nat, width: nat, ext: string)
    ensures YearOf(Numeral(year, width) + "." + ext) == Ok(year)
  {
    var s := Numeral(year, width);
    assert '.' !in s by {
      forall k | 0 <= k < |s| ensures s[k] != '.' {
        assert IsDigit(s[k]);
      }
    }
    StemOfDotted(s, ext);
    NumeralValue(year, width);
  }
}
