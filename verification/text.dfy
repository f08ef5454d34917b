/** Python string operations used by the pipeline, on `seq<char>`:
    `lower`, `strip`, `in` (substring), `replace(tok, '')`, `split(sep)`, string comparison,
    and the digit grammar accepted by `int()` / `float()` for plain decimal numerals. */
module Text {
  import opened Wrappers
  import opened Seqs
  import opened Sorting

  // ---------- characters ----------

  /** Python's `str.isspace`, for the characters it treats as whitespace. */
  predicate IsSpace(c: char)
  {
    || ('\t' <= c <= '\r')
    || ('\U{1C}' <= c <= ' ')
    || c == '\U{85}' || c == '\U{A0}' || c == '\U{1680}'
    || ('\U{2000}' <= c <= '\U{200A}')
    || c == '\U{2028}' || c == '\U{2029}' || c == '\U{202F}' || c == '\U{205F}' || c == '\U{3000}'
  }

  predicate IsUpper(c: char) { 'A' <= c <= 'Z' }

  predicate IsLowerLetter(c: char) { 'a' <= c <= 'z' }

  predicate IsDigit(c: char) { '0' <= c <= '9' }

  function LowerChar(c: char): (d: char)
  {
    if IsUpper(c) then (c as int + 32) as char else c
  }

  function UpperChar(c: char): (d: char)
  {
    if IsLowerLetter(c) then (c as int - 32) as char else c
  }

  // ---------- lower / strip ----------

  /** `str.lower()` on ASCII letters. */
  function Lower(s: string): (r: string)
    ensures |r| == |s|
    ensures forall i :: 0 <= i < |s| ==> r[i] == LowerChar(s[i])
  {
    if s == [] then [] else [LowerChar(s[0])] + Lower(s[1..])
  }

  lemma LowerHasNoUpper(s: string)
    ensures forall i :: 0 <= i < |s| ==> !IsUpper(Lower(s)[i])
  {
  }

  lemma LowerIdempotent(s: string)
    ensures Lower(Lower(s)) == Lower(s)
  {
  }

  lemma LowerConcat(a: string, b: string)
    ensures Lower(a + b) == Lower(a) + Lower(b)
  {
  }

  /** A string without upper-case letters is its own lower-case form. */
  lemma LowerUnchanged(s: string)
    requires forall i :: 0 <= i < |s| ==> !IsUpper(s[i])
    ensures Lower(s) == s
  {
  }

  /** `str.lstrip()`: drops leading whitespace only. */
  function TrimLeft(s: string): (r: string)
    ensures |r| <= |s| && r == s[|s| - |r|..]
    ensures forall k :: 0 <= k < |s| - |r| ==> IsSpace(s[k])
    ensures |r| > 0 ==> !IsSpace(r[0])
  {
    if s != [] && IsSpace(s[0]) then TrimLeft(s[1..]) else s
  }

  /** `str.rstrip()`: drops trailing whitespace only. */
  function TrimRight(s: string): (r: string)
    ensures |r| <= |s| && r == s[..|r|]
    ensures forall k :: |r| <= k < |s| ==> IsSpace(s[k])
    ensures |r| > 0 ==> !IsSpace(r[|r| - 1])
  {
    if s != [] && IsSpace(s[|s| - 1]) then TrimRight(s[..|s| - 1]) else s
  }

  /** `str.strip()`. */
  function Strip(s: string): (r: string)
    ensures |r| <= |s|
    ensures |r| > 0 ==> !IsSpace(r[0]) && !IsSpace(r[|r| - 1])
  {
    var l := TrimLeft(s);
    var r := TrimRight(l);
    assert |r| > 0 ==> r[0] == l[0];
    r
  }

  /** A string that neither starts nor ends with whitespace is already stripped. */
  lemma StripUnchanged(s: string)
    requires |s| > 0 ==> !IsSpace(s[0]) && !IsSpace(s[|s| - 1])
    ensures Strip(s) == s
  {
  }

  lemma StripIdempotent(s: string)
    ensures Strip(Strip(s)) == Strip(s)
  {
    StripUnchanged(Strip(s));
  }

  /** Stripping a string leaves nothing when it is all whitespace. */
  lemma StripEmptyIffAllSpace(s: string)
    ensures Strip(s) == [] <==> forall k :: 0 <= k < |s| ==> IsSpace(s[k])
  {
  }

  /** Lower-casing changes only letters, never whitespace. */
  lemma LowerCharSpace(c: char)
    ensures IsSpace(LowerChar(c)) == IsSpace(c)
  {
  }

  /** Lower-casing keeps whitespace whitespace, so it commutes with stripping. */
  lemma {:induction false} TrimLeftLower(s: string)
    ensures TrimLeft(Lower(s)) == Lower(TrimLeft(s))
  {
    if s != [] {
      assert Lower(s)[1..] == Lower(s[1..]);
      LowerCharSpace(s[0]);
      TrimLeftLower(s[1..]);
    }
  }

  lemma {:induction false} TrimRightLower(s: string)
    ensures TrimRight(Lower(s)) == Lower(TrimRight(s))
  {
    if s != [] {
      var init := s[..|s| - 1];
      LowerPrefix(s, |s| - 1);
      LowerCharSpace(s[|s| - 1]);
      TrimRightLower(init);
    }
  }

  lemma LowerPrefix(s: string, n: nat)
    requires n <= |s|
    ensures Lower(s)[..n] == Lower(s[..n])
  {
    assert forall i :: 0 <= i < n ==> Lower(s)[..n][i] == Lower(s[..n])[i];
  }

  lemma StripLower(s: string)
    ensures Strip(Lower(s)) == Lower(Strip(s))
  {
    TrimLeftLower(s);
    TrimRightLower(TrimLeft(s));
  }

  // ---------- substrings ----------

  predicate StartsWith(s: string, t: string)
  {
    |t| <= |s| && s[..|t|] == t
  }

  predicate EndsWith(s: string, t: string)
  {
    |t| <= |s| && s[|s| - |t|..] == t
  }

  /** Python's `t in s`. */
  predicate Contains(s: string, t: string)
    decreases |s|
  {
    StartsWith(s, t) || (|s| > 0 && Contains(s[1..], t))
  }

  /** `t` occurs in `s` at position `i`. */
  predicate OccursAt(s: string, t: string, i: int)
  {
    0 <= i <= |s| - |t| && s[i..i + |t|] == t
  }

  /** Containment means an occurrence at some position. */
  lemma {:induction false} ContainsAt(s: string, t: string)
    ensures Contains(s, t) <==> exists i :: OccursAt(s, t, i)
  {
    if s != [] {
      ContainsAt(s[1..], t);
      if Contains(s[1..], t) {
        var i :| OccursAt(s[1..], t, i);
        SliceOfDrop(s, 1, i, i + |t|);
        assert OccursAt(s, t, i + 1);
      }
      if StartsWith(s, t) {
        assert OccursAt(s, t, 0);
      }
      if exists i :: OccursAt(s, t, i) {
        var i :| OccursAt(s, t, i);
        if i > 0 {
          SliceOfDrop(s, 1, i - 1, i - 1 + |t|);
          assert OccursAt(s[1..], t, i - 1);
        } else {
          assert StartsWith(s, t);
        }
      }
    } else {
      if StartsWith(s, t) {
        assert OccursAt(s, t, 0);
      }
      if exists i :: OccursAt(s, t, i) {
        var i :| OccursAt(s, t, i);
        assert StartsWith(s, t);
      }
    }
  }

  /** `t` cannot occur in `s` when one of its characters is missing from `s`. */
  lemma {:induction false} NotContainsMissingChar(s: string, t: string, k: int)
    requires 0 <= k < |t| && t[k] !in s
    ensures !Contains(s, t)
  {
    if s != [] {
      NotContainsMissingChar(s[1..], t, k);
    }
  }

  lemma {:induction false} ContainsChar(s: string, c: char)
    ensures Contains(s, [c]) <==> c in s
  {
    if s != [] {
      ContainsChar(s[1..], c);
      assert c in s <==> s[0] == c || c in s[1..];
    }
  }

  /** An occurrence inside a part is an occurrence inside the whole. */
  lemma {:induction false} ContainsInSuffix(a: string, b: string, t: string)
    requires Contains(b, t)
    ensures Contains(a + b, t)
  {
    if a != [] {
      assert (a + b)[1..] == a[1..] + b;
      ContainsInSuffix(a[1..], b, t);
    } else {
      assert a + b == b;
    }
  }

  lemma OccursInTrimLeft(s: string, t: string, i: int)
    requires OccursAt(s, t, i) && |t| > 0 && !IsSpace(t[0])
    ensures OccursAt(TrimLeft(s), t, i - (|s| - |TrimLeft(s)|))
  {
    var l := TrimLeft(s);
    var p := |s| - |l|;
    assert s[i] == s[i..i + |t|][0] == t[0];
    assert p <= i;
    SuffixSlice(s, p, l, t, i - p);
  }

  lemma OccursInTrimRight(s: string, t: string, i: int)
    requires OccursAt(s, t, i) && |t| > 0 && !IsSpace(t[|t| - 1])
    ensures OccursAt(TrimRight(s), t, i)
  {
    var r := TrimRight(s);
    assert s[i + |t| - 1] == s[i..i + |t|][|t| - 1] == t[|t| - 1];
    SliceOfTake(s, |r|, i, i + |t|);
  }

  /** Stripping only removes whitespace, so an occurrence of a token that neither starts nor
      ends with whitespace survives it. */
  lemma ContainsSurvivesStrip(s: string, t: string)
    requires |t| > 0 && !IsSpace(t[0]) && !IsSpace(t[|t| - 1])
    requires Contains(s, t)
    ensures Contains(Strip(s), t)
  {
    ContainsAt(s, t);
    var i :| OccursAt(s, t, i);
    var l := TrimLeft(s);
    OccursInTrimLeft(s, t, i);
    OccursInTrimRight(l, t, i - (|s| - |l|));
    ContainsAt(Strip(s), t);
  }

  /** The stripped string is a substring of the original, so its occurrences are too. */
  lemma StripContainedIn(s: string, t: string)
    requires Contains(Strip(s), t)
    ensures Contains(s, t)
  {
    var l := TrimLeft(s);
    var r := TrimRight(l);
    var p := |s| - |l|;
    ContainsAt(r, t);
    var i :| OccursAt(r, t, i);
    SliceChain(s, p, r, t, i);
    assert OccursAt(s, t, p + i);
    ContainsAt(s, t);
  }

  /** Every character of the stripped string comes from the original. */
  lemma StripSubset(s: string)
    ensures forall c :: c in Strip(s) ==> c in s
  {
    var l := TrimLeft(s);
    var r := TrimRight(l);
    forall c | c in r ensures c in s {
      var k :| 0 <= k < |r| && r[k] == c;
      assert l[k] == c;
      assert s[|s| - |l| + k] == c;
    }
  }

  lemma CharSurvivesStrip(s: string, c: char)
    requires c in s && !IsSpace(c)
    ensures c in Strip(s)
  {
    ContainsChar(s, c);
    ContainsSurvivesStrip(s, [c]);
    ContainsChar(Strip(s), c);
  }

  /** Python's `s.replace(tok, '')`: occurrences are removed left to right, without overlap. */
  function RemoveAll(s: string, tok: string): (r: string)
    requires |tok| > 0
    ensures |r| <= |s|
    decreases |s|
  {
    if s == [] then []
    else if StartsWith(s, tok) then RemoveAll(s[|tok|..], tok)
    else [s[0]] + RemoveAll(s[1..], tok)
  }

  /** Removal never introduces a character. */
  lemma {:induction false} RemoveAllSubset(s: string, tok: string)
    requires |tok| > 0
    ensures forall c :: c in RemoveAll(s, tok) ==> c in s
    decreases |s|
  {
    if s != [] {
      if StartsWith(s, tok) {
        RemoveAllSubset(s[|tok|..], tok);
      } else {
        RemoveAllSubset(s[1..], tok);
      }
    }
  }

  /** Removing a token that does not occur changes nothing. */
  lemma {:induction false} RemoveAllAbsent(s: string, tok: string)
    requires |tok| > 0 && !Contains(s, tok)
    ensures RemoveAll(s, tok) == s
    decreases |s|
  {
    if s != [] {
      RemoveAllAbsent(s[1..], tok);
    }
  }

  /** Removing a single character deletes every copy of it and keeps all other characters. */
  lemma {:induction false} RemoveAllChar(s: string, c: char)
    ensures c !in RemoveAll(s, [c])
    ensures forall d :: d != c ==> multiset(RemoveAll(s, [c]))[d] == multiset(s)[d]
    decreases |s|
  {
    if s != [] {
      RemoveAllChar(s[1..], c);
      assert s == [s[0]] + s[1..];
      if s[0] == c {
        assert StartsWith(s, [c]);
      } else {
        assert !StartsWith(s, [c]);
      }
    }
  }

  /** A text that starts with the token loses it. */
  lemma RemoveAllTokenFirst(tok: string, rest: string)
    requires |tok| > 0
    ensures RemoveAll(tok + rest, tok) == RemoveAll(rest, tok)
  {
    assert (tok + rest)[..|tok|] == tok;
    assert (tok + rest)[|tok|..] == rest;
  }

  /** A prefix without the token's first character is kept as it is. */
  lemma {:induction false} RemoveAllSkipFree(a: string, b: string, tok: string)
    requires |tok| > 0 && tok[0] !in a
    ensures RemoveAll(a + b, tok) == a + RemoveAll(b, tok)
  {
    if a == [] {
      assert a + b == b;
    } else {
      var s := a + b;
      assert s[0] == a[0] && a[0] in a;
      assert s[0] != tok[0];
      assert s[1..] == a[1..] + b;
      RemoveAllSkipFree(a[1..], b, tok);
      assert a == [a[0]] + a[1..];
    }
  }

  /** Removing a single character works piecewise when the second piece lacks it. */
  lemma {:induction false} RemoveAllCharConcat(a: string, b: string, c: char)
    requires c !in b
    ensures RemoveAll(a + b, [c]) == RemoveAll(a, [c]) + b
  {
    if a == [] {
      assert a + b == b;
      NotContainsMissingChar(b, [c], 0);
      RemoveAllAbsent(b, [c]);
    } else {
      var s := a + b;
      assert s[0] == a[0];
      assert s[1..] == a[1..] + b;
      RemoveAllCharConcat(a[1..], b, c);
      if a[0] == c {
        assert StartsWith(s, [c]) && StartsWith(a, [c]);
      } else {
        assert !StartsWith(s, [c]) && !StartsWith(a, [c]);
      }
    }
  }

  /** "Is not `c`". */
  function Other(c: char): char -> bool
  {
    (d: char) => d != c
  }

  /** Removing a single character keeps exactly the other characters, in order. */
  lemma {:induction false} RemoveAllIsFilter(s: string, c: char)
    ensures RemoveAll(s, [c]) == Filter(s, Other(c))
  {
    if s != [] {
      RemoveAllIsFilter(s[1..], c);
      if s[0] == c {
        assert StartsWith(s, [c]);
      } else {
        assert !StartsWith(s, [c]);
      }
    }
  }

  /** Python's `s.split(sep)`: the pieces between non-overlapping occurrences of `sep`. */
  function SplitOn(s: string, sep: string): (pieces: seq<string>)
    requires |sep| > 0
    ensures |pieces| >= 1
    decreases |s|
  {
    if StartsWith(s, sep) then [[]] + SplitOn(s[|sep|..], sep)
    else if s == [] then [[]]
    else
      var rest := SplitOn(s[1..], sep);
      [[s[0]] + rest[0]] + rest[1..]
  }

  /** The first piece of `s.split(c)` is the text before the first `c`, or all of `s`. */
  lemma {:induction false} FirstPiece(s: string, c: char)
    ensures StartsWith(s, SplitOn(s, [c])[0])
    ensures c !in SplitOn(s, [c])[0]
    ensures |SplitOn(s, [c])[0]| == |s| || s[|SplitOn(s, [c])[0]|] == c
    decreases |s|
  {
    if !StartsWith(s, [c]) && s != [] {
      FirstPiece(s[1..], c);
      assert s[0] != c;
    }
  }

  /** Splitting on a character yields more than one piece exactly when the character occurs. */
  lemma SplitOnChar(s: string, c: char)
    ensures |SplitOn(s, [c])| >= 2 <==> c in s
    ensures |SplitOn(s, [c])| == 1 ==> SplitOn(s, [c]) == [s]
  {
    var ps := SplitOn(s, [c]);
    SplitJoin(s, [c]);
    FirstPiece(s, c);
    if |ps| >= 2 {
      assert Join(ps, [c]) == ps[0] + [c] + Join(ps[1..], [c]);
      assert s[|ps[0]|] == c;
    }
  }

  /** Splitting at a separator character splits the two sides independently. */
  lemma {:induction false} SplitOnConcat(x: string, y: string, c: char)
    ensures SplitOn(x + [c] + y, [c]) == SplitOn(x, [c]) + SplitOn(y, [c])
    decreases |x|
  {
    var s := x + [c] + y;
    if x == [] {
      assert s[1..] == y;
    } else {
      assert s[1..] == x[1..] + [c] + y;
      SplitOnConcat(x[1..], y, c);
      var a, b := SplitOn(x[1..], [c]), SplitOn(y, [c]);
      if x[0] == c {
        ConsConcat([], a, b);
      } else {
        assert !StartsWith(s, [c]) && !StartsWith(x, [c]);
        ReplaceHeadConcat(a, b, [x[0]] + a[0]);
      }
    }
  }

  /** A piece free of the marker character `m` is not cut by a separator whose second
      character is `m` (and whose first is not). */
  lemma {:induction false} SplitNoSeparator(n: string, sep: string, m: char)
    requires |sep| >= 2 && sep[1] == m && sep[0] != m && m !in n
    ensures SplitOn(n, sep) == [n]
    decreases |n|
  {
    if n != [] {
      assert !StartsWith(n, sep) by {
        if |n| >= 2 { assert n[1] != m; }
      }
      SplitNoSeparator(n[1..], sep, m);
      assert [n[0]] + n[1..] == n;
    }
  }

  /** Splitting `n + sep + t` cuts exactly at the separator after `n`. */
  lemma {:induction false} SplitAfterPiece(n: string, t: string, sep: string, m: char)
    requires |sep| >= 2 && sep[1] == m && sep[0] != m && m !in n
    ensures SplitOn(n + sep + t, sep) == [n] + SplitOn(t, sep)
    decreases |n|
  {
    var s := n + sep + t;
    if n == [] {
      assert s == sep + t && s[..|sep|] == sep && s[|sep|..] == t;
    } else {
      assert !StartsWith(s, sep) by {
        if |n| >= 2 { assert s[1] == n[1]; } else { assert s[1] == sep[0]; }
      }
      assert s[1..] == n[1..] + sep + t;
      SplitAfterPiece(n[1..], t, sep, m);
      assert [n[0]] + n[1..] == n;
    }
  }

  /** Joining pieces free of the separator's marker and splitting again gives the pieces back. */
  lemma {:induction false} JoinSplit(ps: seq<string>, sep: string, m: char)
    requires |ps| >= 1 && |sep| >= 2 && sep[1] == m && sep[0] != m
    requires forall i :: 0 <= i < |ps| ==> m !in ps[i]
    ensures SplitOn(Join(ps, sep), sep) == ps
    decreases |ps|
  {
    if |ps| == 1 {
      SplitNoSeparator(ps[0], sep, m);
    } else {
      JoinSplit(ps[1..], sep, m);
      SplitAfterPiece(ps[0], Join(ps[1..], sep), sep, m);
      assert [ps[0]] + ps[1..] == ps;
    }
  }

  /** A join ends with its last piece. */
  lemma {:induction false} JoinEndsWithLast(ps: seq<string>, sep: string)
    requires |ps| >= 1
    ensures EndsWith(Join(ps, sep), ps[|ps| - 1])
    decreases |ps|
  {
    if |ps| > 1 {
      JoinEndsWithLast(ps[1..], sep);
      var j := Join(ps[1..], sep);
      var whole := ps[0] + sep + j;
      assert whole[|whole| - |j|..] == j;
      assert whole[|whole| - |ps[|ps| - 1]|..] == j[|j| - |ps[|ps| - 1]|..];
    }
  }

  /** A leading space makes no difference to `strip()`. */
  lemma StripSpacePrefix(s: string)
    ensures Strip([' '] + s) == Strip(s)
  {
    assert ([' '] + s)[1..] == s;
  }

  /** Leading whitespace in front of a text that starts with a non-space is dropped. */
  lemma {:induction false} TrimLeftSpaces(pad: string, s: string)
    requires forall c :: c in pad ==> IsSpace(c)
    requires s != [] && !IsSpace(s[0])
    ensures TrimLeft(pad + s) == s
  {
    if pad == [] {
      assert pad + s == s;
    } else {
      assert (pad + s)[0] == pad[0] && pad[0] in pad;
      assert (pad + s)[1..] == pad[1..] + s;
      TrimLeftSpaces(pad[1..], s);
    }
  }

  /** Trailing whitespace after a text that ends with a non-space is dropped. */
  lemma {:induction false} TrimRightSpaces(s: string, pad: string)
    requires forall c :: c in pad ==> IsSpace(c)
    requires s != [] && !IsSpace(s[|s| - 1])
    ensures TrimRight(s + pad) == s
    decreases |pad|
  {
    if pad == [] {
      assert s + pad == s;
    } else {
      var t := s + pad;
      assert t[|t| - 1] == pad[|pad| - 1] && pad[|pad| - 1] in pad;
      assert t[..|t| - 1] == s + pad[..|pad| - 1];
      TrimRightSpaces(s, pad[..|pad| - 1]);
    }
  }

  /** `strip()` recovers a text that neither starts nor ends with whitespace from any
      whitespace padding around it. */
  lemma StripPadded(pad1: string, core: string, pad2: string)
    requires forall c :: c in pad1 ==> IsSpace(c)
    requires forall c :: c in pad2 ==> IsSpace(c)
    requires core != [] && !IsSpace(core[0]) && !IsSpace(core[|core| - 1])
    ensures Strip(pad1 + core + pad2) == core
  {
    assert pad1 + core + pad2 == pad1 + (core + pad2);
    TrimLeftSpaces(pad1, core + pad2);
    TrimRightSpaces(core, pad2);
  }

  /** The text after the first `c` of `x + [c] + y` is `y` when `x` has no `c`. */
  lemma {:induction false} TextAfterFirst(x: string, y: string, c: char)
    requires c !in x
    ensures TextAfter(x + [c] + y, c) == Some(y)
    decreases |x|
  {
    if x == [] {
      assert x + [c] + y == [c] + y;
    } else {
      assert (x + [c] + y)[1..] == x[1..] + [c] + y;
      TextAfterFirst(x[1..], y, c);
    }
  }

  /** Python's `sep.join(pieces)`. */
  function Join(pieces: seq<string>, sep: string): string
    requires |pieces| >= 1
  {
    if |pieces| == 1 then pieces[0] else pieces[0] + sep + Join(pieces[1..], sep)
  }

  /** Splitting loses nothing: joining the pieces back gives the original string. */
  lemma {:induction false} SplitJoin(s: string, sep: string)
    requires |sep| > 0
    ensures Join(SplitOn(s, sep), sep) == s
    decreases |s|
  {
    if StartsWith(s, sep) {
      var tail := s[|sep|..];
      var rest := SplitOn(tail, sep);
      SplitJoin(tail, sep);
      var ps := [[]] + rest;
      assert ps[1..] == rest;
      calc {
        Join(ps, sep);
        [] + sep + Join(rest, sep);
        sep + tail;
        { assert s[..|sep|] == sep; }
        s;
      }
    } else if s != [] {
      var rest := SplitOn(s[1..], sep);
      SplitJoin(s[1..], sep);
      JoinPrepend(s[0], rest, sep);
      assert s == [s[0]] + s[1..];
    }
  }

  lemma JoinPrepend(c: char, ps: seq<string>, sep: string)
    requires |ps| >= 1
    ensures Join([[c] + ps[0]] + ps[1..], sep) == [c] + Join(ps, sep)
  {
    var qs := [[c] + ps[0]] + ps[1..];
    if |ps| > 1 {
      assert qs[1..] == ps[1..];
    }
  }

  /** `s.split(c, 1)[1]`: the text after the first `c`, or `None` when there is no `c`. */
  function TextAfter(s: string, c: char): (r: Option<string>)
    ensures r.None? <==> c !in s
    ensures r.Some? ==> EndsWith(s, r.value) && |r.value| < |s| && s[|s| - |r.value| - 1] == c
                        && c !in s[..|s| - |r.value| - 1]
  {
    if s == [] then None
    else if s[0] == c then Some(s[1..])
    else
      var r := TextAfter(s[1..], c);
      assert c in s <==> c in s[1..];
      if r.Some? then
        assert s[..|s| - |r.value| - 1] == [s[0]] + s[1..][..|s[1..]| - |r.value| - 1];
        r
      else r
  }

  // ---------- ordering ----------

  /** Python's `a <= b` on strings: lexicographic by code point. */
  predicate StrLe(a: string, b: string)
  {
    a == [] || (b != [] && (a[0] < b[0] || (a[0] == b[0] && StrLe(a[1..], b[1..]))))
  }

  lemma {:induction false} StrLeTotal(a: string, b: string)
    ensures StrLe(a, b) || StrLe(b, a)
  {
    if a != [] && b != [] && a[0] == b[0] {
      StrLeTotal(a[1..], b[1..]);
    }
  }

  lemma {:induction false} StrLeTransitive(a: string, b: string, c: string)
    requires StrLe(a, b) && StrLe(b, c)
    ensures StrLe(a, c)
  {
    if a != [] && a[0] == b[0] && b[0] == c[0] {
      StrLeTransitive(a[1..], b[1..], c[1..]);
    }
  }

  lemma {:induction false} StrLeAntisymmetric(a: string, b: string)
    requires StrLe(a, b) && StrLe(b, a)
    ensures a == b
  {
    if a != [] {
      StrLeAntisymmetric(a[1..], b[1..]);
      assert a == [a[0]] + a[1..] && b == [b[0]] + b[1..];
    }
  }

  lemma StrLeTotalPreorder()
    ensures TotalPreorder(StrLe)
  {
    forall a, b ensures StrLe(a, b) || StrLe(b, a) {
      StrLeTotal(a, b);
    }
    forall a, b, c | StrLe(a, b) && StrLe(b, c) ensures StrLe(a, c) {
      StrLeTransitive(a, b, c);
    }
  }

  /** Python's `sorted` on strings. */
  function SortStrings(s: seq<string>): (r: seq<string>)
    ensures multiset(r) == multiset(s)
    ensures SortedBy(r, StrLe)
  {
    StrLeTotalPreorder();
    SortSorted(s, StrLe);
    SortBy(s, StrLe)
  }

  // ---------- numerals ----------

  predicate AllDigits(s: string)
  {
    forall i :: 0 <= i < |s| ==> IsDigit(s[i])
  }

  function DigitValue(c: char): nat
    requires IsDigit(c)
  {
    c as int - '0' as int
  }

  /** The value of a decimal digit string, most significant digit first. */
  function DigitsValue(s: string): nat
    requires AllDigits(s)
  {
    if s == [] then 0 else DigitsValue(s[..|s| - 1]) * 10 + DigitValue(s[|s| - 1])
  }

  /** The value of the digits after a decimal point: `0.d1d2...`. */
  function FracValue(s: string): (r: real)
    requires AllDigits(s)
    ensures 0.0 <= r <= 1.0
  {
    if s == [] then 0.0 else (DigitValue(s[0]) as real + FracValue(s[1..])) / 10.0
  }

  /** The longest all-digit prefix. */
  function LeadingDigits(s: string): (r: string)
    ensures AllDigits(r) && StartsWith(s, r)
    ensures |r| < |s| ==> !IsDigit(s[|r|])
  {
    if s != [] && IsDigit(s[0]) then [s[0]] + LeadingDigits(s[1..]) else []
  }

  /** `digits`, `digits.digits`, `digits.` or `.digits`, with at least one digit. */
  function ParseUnsignedDecimal(s: string): (r: Option<real>)
    ensures r.Some? ==> r.value >= 0.0
    ensures AllDigits(s) && s != [] ==> r == Some(DigitsValue(s) as real)
  {
    var ip := LeadingDigits(s);
    var rest := s[|ip|..];
    if AllDigits(s) then
      assert ip == s;
      if s == [] then None else Some(DigitsValue(s) as real)
    else if rest != [] && rest[0] == '.' && AllDigits(rest[1..]) && |ip| + |rest| > 1 then
      Some(DigitsValue(ip) as real + FracValue(rest[1..]))
    else None
  }

  /** Python's `float(s)` restricted to plain decimal numerals: surrounding whitespace and
      one optional sign are accepted. */
  function ParseDecimal(s: string): Option<real>
  {
    var t := Strip(s);
    if t != [] && (t[0] == '+' || t[0] == '-') then
      match ParseUnsignedDecimal(t[1..])
      case None => None
      case Some(v) => Some(if t[0] == '-' then -v else v)
    else ParseUnsignedDecimal(t)
  }

  /** Without a minus sign, a parsed decimal is non-negative. */
  lemma ParseDecimalNonNegative(s: string)
    requires '-' !in s
    ensures ParseDecimal(s).Some? ==> ParseDecimal(s).value >= 0.0
  {
    StripSubset(s);
  }

  /** The digit prefix stops at the first non-digit. */
  lemma {:induction false} LeadingDigitsOf(ip: string, rest: string)
    requires AllDigits(ip)
    requires rest == [] || !IsDigit(rest[0])
    ensures LeadingDigits(ip + rest) == ip
  {
    if ip == [] {
      assert ip + rest == rest;
    } else {
      assert (ip + rest)[0] == ip[0];
      assert (ip + rest)[1..] == ip[1..] + rest;
      LeadingDigitsOf(ip[1..], rest);
      assert [ip[0]] + ip[1..] == ip;
    }
  }

  /** A numeral with a decimal point parses to its whole part plus its fraction. */
  lemma ParseDecimalPoint(ip: string, fp: string)
    requires AllDigits(ip) && ip != [] && AllDigits(fp)
    ensures ParseDecimal(ip + "." + fp) == Some(DigitsValue(ip) as real + FracValue(fp))
  {
    var s := ip + "." + fp;
    assert s[0] == ip[0];
    assert s[|s| - 1] == '.' || s[|s| - 1] == fp[|fp| - 1];
    StripUnchanged(s);
    UnsignedPoint(ip, fp);
  }

  lemma UnsignedPoint(ip: string, fp: string)
    requires AllDigits(ip) && ip != [] && AllDigits(fp)
    ensures ParseUnsignedDecimal(ip + "." + fp) == Some(DigitsValue(ip) as real + FracValue(fp))
  {
    var rest := "." + fp;
    Assoc(ip, ".", fp);
    LeadingDigitsOf(ip, rest);
    ConcatSlices(ip, rest);
    UnsignedOfSplit(ip + rest, ip, fp);
  }

  lemma UnsignedOfSplit(s: string, ip: string, fp: string)
    requires ip != [] && AllDigits(fp)
    requires LeadingDigits(s) == ip && s[|ip|..] == "." + fp
    ensures ParseUnsignedDecimal(s) == Some(DigitsValue(ip) as real + FracValue(fp))
  {
    var rest := s[|ip|..];
    assert rest[0] == '.' && s[|ip|] == '.';
    assert !AllDigits(s);
    assert rest[1..] == fp;
  }

  /** A numeral needs at least one digit: text without any digit never parses. */
  lemma NoDigitNoDecimal(s: string)
    requires forall c :: c in s ==> !IsDigit(c)
    ensures ParseDecimal(s).None?
  {
    var t := Strip(s);
    StripSubset(s);
    NoDigitNoUnsigned(t);
    if t != [] {
      assert forall c :: c in t[1..] ==> c in t;
      NoDigitNoUnsigned(t[1..]);
    }
  }

  lemma NoDigitNoUnsigned(s: string)
    requires forall c :: c in s ==> !IsDigit(c)
    ensures ParseUnsignedDecimal(s).None?
  {
    if s != [] {
      assert s[0] in s;
      assert LeadingDigits(s) == [];
      assert !AllDigits(s);
      if |s| > 1 {
        assert s[1] in s;
      }
    }
  }

  /** A plain digit string parses to its value. */
  lemma ParseDecimalDigits(s: string)
    requires AllDigits(s) && s != []
    ensures ParseDecimal(s) == Some(DigitsValue(s) as real)
  {
    StripUnchanged(s);
  }

  /** Python's `int(s)` on decimal numerals: surrounding whitespace and one optional sign. */
  function ParseInt(s: string): (r: Option<int>)
    ensures AllDigits(s) && s != [] ==> r == Some(DigitsValue(s))
  {
    if AllDigits(s) && s != [] then
      StripUnchanged(s);
      ParseSignedDigits(s)
    else ParseSignedDigits(Strip(s))
  }

  /** One optional sign followed by at least one digit, nothing else. */
  function ParseSignedDigits(t: string): (r: Option<int>)
    ensures AllDigits(t) && t != [] ==> r == Some(DigitsValue(t))
  {
    if t == [] then None
    else
      var digits := if t[0] == '+' || t[0] == '-' then t[1..] else t;
      if digits != [] && AllDigits(digits) then
        var v: int := DigitsValue(digits);
        Some(if t[0] == '-' then -v else v)
      else None
  }

  /** Python's `str(n)` for a natural number. */
  function NatToString(n: nat): (s: string)
    ensures AllDigits(s) && |s| >= 1
    ensures DigitsValue(s) == n
  {
    var d := ['0' + (n % 10) as char];
    if n < 10 then
      assert DigitsValue(d) == DigitsValue([]) * 10 + n;
      d
    else
      var p := NatToString(n / 10);
      var s := p + d;
      assert s[..|s| - 1] == p;
      s
  }

  /** Python's `str(i)` for an integer. */
  function IntToString(i: int): string
  {
    if i < 0 then "-" + NatToString(-i) else NatToString(i)
  }
}
