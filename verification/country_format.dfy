/** The country label written to the exported clubs table: hyphens become spaces and the
    result is title-cased (`str.replace('-', ' ').str.title()`). */
module CountryFormat {
  import opened Text

  /** A cased character; on ASCII these are exactly the letters. */
  predicate IsLetter(c: char)
  {
    IsUpper(c) || IsLowerLetter(c)
  }

  /** `str.replace(a, b)` for single characters. */
  function ReplaceChar(s: string, a: char, b: char): (r: string)
    ensures |r| == |s|
    ensures forall i :: 0 <= i < |s| ==> r[i] == (if s[i] == a then b else s[i])
  {
    if s == [] then [] else [if s[0] == a then b else s[0]] + ReplaceChar(s[1..], a, b)
  }

  /** The case `str.title` gives a character: lower after a cased character, upper otherwise. */
  function TitleChar(c: char, afterLetter: bool): (d: char)
    ensures IsLetter(d) == IsLetter(c)
    ensures !IsLetter(c) ==> d == c
    ensures LowerChar(d) == LowerChar(c)
  {
    if afterLetter then LowerChar(c) else UpperChar(c)
  }

  /** `str.title` on the rest of a string, given whether the character before it was cased. */
  function TitleFrom(s: string, afterLetter: bool): (r: string)
    ensures |r| == |s|
  {
    if s == [] then [] else [TitleChar(s[0], afterLetter)] + TitleFrom(s[1..], IsLetter(s[0]))
  }

  /** `str.title`, characterised position by position. */
  function Title(s: string): (r: string)
    ensures |r| == |s|
    ensures forall i :: 0 <= i < |s| ==> r[i] == TitleChar(s[i], i > 0 && IsLetter(s[i - 1]))
  {
    TitleShape(s, false);
    TitleFrom(s, false)
  }

  /** The exported form of a country. */
  function FormatCountry(country: string): (r: string)
    ensures |r| == |country|
  {
    Title(ReplaceChar(country, '-', ' '))
  }

  /** The exported country has no hyphen; its spaces are exactly the input's hyphens and
      spaces; it spells the input up to case; and each word starts upper-case. */
  lemma FormatCountryShape(country: string)
    ensures '-' !in FormatCountry(country)
    ensures forall i :: 0 <= i < |country| ==> (FormatCountry(country)[i] == ' ' <==> country[i] == '-' || country[i] == ' ')
    ensures forall i :: 0 <= i < |country| ==>
              LowerChar(FormatCountry(country)[i]) == LowerChar(if country[i] == '-' then ' ' else country[i])
    ensures forall i :: 0 < i < |country| && (country[i - 1] == '-' || country[i - 1] == ' ') && IsLetter(country[i])
              ==> IsUpper(FormatCountry(country)[i])
  {
    var s := ReplaceChar(country, '-', ' ');
    var r := FormatCountry(country);
    forall i | 0 <= i < |r|
      ensures r[i] == TitleChar(s[i], i > 0 && IsLetter(s[i - 1]))
      ensures s[i] == (if country[i] == '-' then ' ' else country[i])
      ensures r[i] != '-'
      ensures r[i] == ' ' <==> country[i] == '-' || country[i] == ' '
      ensures LowerChar(r[i]) == LowerChar(s[i])
    {
    }
  }

  /** Title case position by position: a letter is upper-cased at the start of a word (first
      character, or after a non-letter) and lower-cased inside one; every other character
      is kept. */
  lemma {:induction false} TitleShape(s: string, afterLetter: bool)
    ensures forall i :: 0 <= i < |s| ==>
              TitleFrom(s, afterLetter)[i] == TitleChar(s[i], if i == 0 then afterLetter else IsLetter(s[i - 1]))
  {
    if s != [] {
      TitleShape(s[1..], IsLetter(s[0]));
      var r := TitleFrom(s, afterLetter);
      assert r[1..] == TitleFrom(s[1..], IsLetter(s[0]));
      forall i | 1 <= i < |s|
        ensures r[i] == TitleChar(s[i], IsLetter(s[i - 1]))
      {
        assert r[i] == r[1..][i - 1];
        assert s[i] == s[1..][i - 1];
        if i > 1 {
          assert s[i - 1] == s[1..][i - 2];
        }
      }
    }
  }

  /** The word-start rule of `str.title`: a letter of the result is upper-case exactly when it
      starts a word, and lower-case exactly when it continues one. */
  lemma TitleWordStarts(s: string, i: int)
    requires 0 <= i < |s| && IsLetter(s[i])
    ensures IsUpper(Title(s)[i]) <==> (i == 0 || !IsLetter(s[i - 1]))
    ensures IsLowerLetter(Title(s)[i]) <==> (i > 0 && IsLetter(s[i - 1]))
  {
  }

  /** Title-casing a title-cased string changes nothing. */
  lemma {:induction false} TitleFromIdempotent(s: string, afterLetter: bool)
    ensures TitleFrom(TitleFrom(s, afterLetter), afterLetter) == TitleFrom(s, afterLetter)
  {
    if s != [] {
      var t := TitleFrom(s, afterLetter);
      assert t[1..] == TitleFrom(s[1..], IsLetter(s[0]));
      TitleFromIdempotent(s[1..], IsLetter(s[0]));
    }
  }

  lemma TitleIdempotent(s: string)
    ensures Title(Title(s)) == Title(s)
  {
    TitleFromIdempotent(s, false);
  }

  /** Formatting an already formatted country changes nothing. */
  lemma FormatCountryIdempotent(country: string)
    ensures FormatCountry(FormatCountry(country)) == FormatCountry(country)
  {
    var f := FormatCountry(country);
    FormatCountryShape(country);
    assert ReplaceChar(f, '-', ' ') == f;
    TitleIdempotent(ReplaceChar(country, '-', ' '));
  }
}
