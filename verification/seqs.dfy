/** Sequence utilities shared by the tabular model: row selection, real-valued sums,
    de-duplication and dictionary construction. A pandas frame is modelled as a sequence of
    records, a boolean-mask selection as `Filter`, a column `.sum()` as `Sum`. */
module Seqs {

  /** The elements of `s` satisfying `p`, in their original order. */
  function Filter<T(==,!new)>(s: seq<T>, p: T -> bool): (r: seq<T>)
    ensures |r| <= |s|
    ensures forall x :: x in r <==> x in s && p(x)
  {
    if s == [] then []
    else (if p(s[0]) then [s[0]] else []) + Filter(s[1..], p)
  }

  /** `f` applied to every element, in order. */
  function Map<A, B>(s: seq<A>, f: A -> B): (r: seq<B>)
    ensures |r| == |s| && forall i :: 0 <= i < |s| ==> r[i] == f(s[i])
  {
    if s == [] then [] else [f(s[0])] + Map(s[1..], f)
  }

  /** Filtering keeps every selected element with its multiplicity and drops the rest. */
  lemma {:induction false} FilterMultiset<T(!new)>(s: seq<T>, p: T -> bool, x: T)
    ensures multiset(Filter(s, p))[x] == if p(x) then multiset(s)[x] else 0
  {
    if s != [] {
      assert s == [s[0]] + s[1..];
      FilterMultiset(s[1..], p, x);
    }
  }

  lemma {:induction false} FilterConcat<T(!new)>(a: seq<T>, b: seq<T>, p: T -> bool)
    ensures Filter(a + b, p) == Filter(a, p) + Filter(b, p)
  {
    if a == [] {
      assert a + b == b;
    } else {
      ReplaceHeadConcat(a, b, a[0]);
      FilterConcat(a[1..], b, p);
      Assoc(if p(a[0]) then [a[0]] else [], Filter(a[1..], p), Filter(b, p));
    }
  }

  /** Filtering twice, one element at a time. */
  lemma FilterFilterCons<T(!new)>(s: seq<T>, p: T -> bool, q: T -> bool)
    requires s != []
    ensures |Filter(Filter(s, p), q)| == (if p(s[0]) && q(s[0]) then 1 else 0) + |Filter(Filter(s[1..], p), q)|
  {
    var h := if p(s[0]) then [s[0]] else [];
    assert Filter(s, p) == h + Filter(s[1..], p);
    FilterConcat(h, Filter(s[1..], p), q);
  }

  /** Concatenation is associative. */
  lemma Assoc<T>(a: seq<T>, b: seq<T>, c: seq<T>)
    ensures a + (b + c) == (a + b) + c
  {
  }

  /** Filtering depends on the predicate only through its values on the elements. */
  lemma {:induction false} FilterExt<T(!new)>(s: seq<T>, p: T -> bool, q: T -> bool)
    requires forall x :: x in s ==> p(x) == q(x)
    ensures Filter(s, p) == Filter(s, q)
  {
    if s != [] {
      FilterExt(s[1..], p, q);
    }
  }

  lemma {:induction false} FilterAll<T(!new)>(s: seq<T>, p: T -> bool)
    requires forall x :: x in s ==> p(x)
    ensures Filter(s, p) == s
  {
    if s != [] {
      FilterAll(s[1..], p);
    }
  }

  /** Nothing selected when no element satisfies the predicate. */
  lemma {:induction false} FilterNone<T(!new)>(s: seq<T>, p: T -> bool)
    requires forall x :: x in s ==> !p(x)
    ensures Filter(s, p) == []
  {
    if s != [] {
      FilterNone(s[1..], p);
    }
  }

  /** Selecting from a pair keeps each of the two in place exactly when it qualifies. */
  lemma FilterPair<T(!new)>(a: T, b: T, p: T -> bool)
    ensures Filter([a], p) == (if p(a) then [a] else [])
    ensures Filter([a, b], p) == (if p(a) then [a] else []) + (if p(b) then [b] else [])
  {
    assert [a][1..] == [];
    assert [a, b][1..] == [b];
    assert [b][1..] == [];
  }

  /** Two successive selections are one selection by the conjunction. */
  lemma {:induction false} FilterFilter<T(!new)>(s: seq<T>, p: T -> bool, q: T -> bool, both: T -> bool)
    requires forall x :: x in s ==> both(x) == (p(x) && q(x))
    ensures Filter(Filter(s, p), q) == Filter(s, both)
  {
    if s != [] {
      FilterFilter(s[1..], p, q, both);
      var head := if p(s[0]) then [s[0]] else [];
      FilterConcat(head, Filter(s[1..], p), q);
      assert Filter(head, q) == (if both(s[0]) then [s[0]] else []);
    }
  }

  /** Elements meeting `p` and elements meeting its negation `q` add up to the whole. */
  lemma {:induction false} FilterComplement<T(!new)>(s: seq<T>, p: T -> bool, q: T -> bool)
    requires forall x :: x in s ==> q(x) == !p(x)
    ensures |Filter(s, p)| + |Filter(s, q)| == |s|
  {
    if s != [] {
      FilterComplement(s[1..], p, q);
    }
  }

  /** A weaker predicate keeps at least as many elements. */
  lemma {:induction false} FilterWeakerLen<T(!new)>(s: seq<T>, p: T -> bool, q: T -> bool)
    requires forall x :: x in s && p(x) ==> q(x)
    ensures |Filter(s, p)| <= |Filter(s, q)|
  {
    if s != [] {
      FilterWeakerLen(s[1..], p, q);
    }
  }

  /** Counting by `p` and by `q` counts the elements meeting both twice and those meeting
      either once: |p| + |q| == |p and q| + |p or q|. */
  lemma {:induction false} FilterInclusionExclusion<T(!new)>(s: seq<T>, p: T -> bool, q: T -> bool, both: T -> bool, either: T -> bool)
    requires forall x :: x in s ==> both(x) == (p(x) && q(x)) && either(x) == (p(x) || q(x))
    ensures |Filter(s, p)| + |Filter(s, q)| == |Filter(s, both)| + |Filter(s, either)|
  {
    if s != [] {
      FilterInclusionExclusion(s[1..], p, q, both, either);
    }
  }

  /** Every element meets `p` exactly when filtering by `p` keeps all of them. */
  lemma {:induction false} FilterKeepsAllIff<T(!new)>(s: seq<T>, p: T -> bool)
    ensures |Filter(s, p)| == |s| <==> forall x :: x in s ==> p(x)
  {
    if s != [] {
      FilterKeepsAllIff(s[1..], p);
      if !p(s[0]) {
        assert |Filter(s, p)| < |s|;
      }
    }
  }

  /** The sum of `w` over the elements of `s`. */
  function Sum<T>(s: seq<T>, w: T -> real): real
  {
    if s == [] then 0.0 else w(s[0]) + Sum(s[1..], w)
  }

  lemma {:induction false} SumConcat<T>(a: seq<T>, b: seq<T>, w: T -> real)
    ensures Sum(a + b, w) == Sum(a, w) + Sum(b, w)
  {
    if a != [] {
      assert (a + b)[1..] == a[1..] + b;
      SumConcat(a[1..], b, w);
    } else {
      assert a + b == b;
    }
  }

  lemma {:induction false} SumNonNegative<T>(s: seq<T>, w: T -> real)
    requires forall i :: 0 <= i < |s| ==> w(s[i]) >= 0.0
    ensures Sum(s, w) >= 0.0
  {
    if s != [] {
      SumNonNegative(s[1..], w);
    }
  }

  /** No element occurs twice. */
  predicate Distinct<T(==,!new)>(s: seq<T>)
  {
    forall i, j :: 0 <= i < j < |s| ==> s[i] != s[j]
  }

  /** The elements of `s` not in `seen`, each once, at its first occurrence. */
  function DedupAfter<T(==,!new)>(s: seq<T>, seen: set<T>): (r: seq<T>)
    ensures Distinct(r)
    ensures forall x :: x in r <==> x in s && x !in seen
  {
    if s == [] then []
    else if s[0] in seen then DedupAfter(s[1..], seen)
    else [s[0]] + DedupAfter(s[1..], seen + {s[0]})
  }

  /** pandas' `drop_duplicates` / `unique`: first occurrences, in order. */
  function Dedup<T(==,!new)>(s: seq<T>): (r: seq<T>)
    ensures Distinct(r)
    ensures forall x :: x in r <==> x in s
  {
    DedupAfter(s, {})
  }

  /** A distinct sequence is a permutation of its element set, so counting is membership. */
  lemma {:induction false} DistinctMultiset<T(!new)>(s: seq<T>, x: T)
    requires Distinct(s)
    ensures multiset(s)[x] == if x in s then 1 else 0
  {
    if s != [] {
      assert s == [s[0]] + s[1..];
      DistinctMultiset(s[1..], x);
    }
  }

  /** A sequence in which nothing is counted twice is distinct. */
  lemma {:induction false} CountsAtMostOne<T(!new)>(s: seq<T>)
    requires forall x :: multiset(s)[x] <= 1
    ensures Distinct(s)
  {
    if s != [] {
      assert s == [s[0]] + s[1..];
      assert multiset(s) == multiset{s[0]} + multiset(s[1..]);
      forall x ensures multiset(s[1..])[x] <= 1 {
        assert multiset(s[1..])[x] <= multiset(s)[x];
      }
      CountsAtMostOne(s[1..]);
      assert multiset(s)[s[0]] == multiset(s[1..])[s[0]] + 1;
      assert s[0] !in multiset(s[1..]);
      forall i, j | 0 <= i < j < |s| ensures s[i] != s[j] {
        if i == 0 {
          assert s[j] == s[1..][j - 1];
        } else {
          assert s[i] == s[1..][i - 1] && s[j] == s[1..][j - 1];
        }
      }
    }
  }

  /** Filtering a distinct sequence leaves it distinct. */
  lemma FilterDistinct<T(!new)>(s: seq<T>, p: T -> bool)
    requires Distinct(s)
    ensures Distinct(Filter(s, p))
  {
    forall x ensures multiset(Filter(s, p))[x] <= 1 {
      FilterMultiset(s, p, x);
      DistinctMultiset(s, x);
    }
    CountsAtMostOne(Filter(s, p));
  }

  /** The predicate "the key of x is k". */
  function KeyIs<T, K(==)>(key: T -> K, k: K): T -> bool
  {
    x => key(x) == k
  }

  /** The predicate "x is one of xs" (pandas' `isin`). */
  function Member<T(==)>(xs: seq<T>): T -> bool
  {
    x => x in xs
  }

  /** The predicate "x is none of xs". */
  function NotMember<T(==)>(xs: seq<T>): T -> bool
  {
    x => x !in xs
  }

  /** Sum of `w` over `s`, computed group by group for each key of `keys`. */
  function SumByKeys<T(==,!new), K(==,!new)>(keys: seq<K>, s: seq<T>, key: T -> K, w: T -> real): real
  {
    if keys == [] then 0.0
    else Sum(Filter(s, KeyIs(key, keys[0])), w) + SumByKeys(keys[1..], s, key, w)
  }

  lemma {:induction false} SumByKeysEmpty<T(!new), K(!new)>(keys: seq<K>, key: T -> K, w: T -> real)
    ensures SumByKeys(keys, [], key, w) == 0.0
  {
    if keys != [] {
      SumByKeysEmpty(keys[1..], key, w);
    }
  }

  lemma {:induction false} SumByKeysCons<T(!new), K(!new)>(keys: seq<K>, x: T, s: seq<T>, key: T -> K, w: T -> real)
    requires Distinct(keys)
    ensures SumByKeys(keys, [x] + s, key, w)
         == SumByKeys(keys, s, key, w) + (if key(x) in keys then w(x) else 0.0)
  {
    if keys != [] {
      SumByKeysCons(keys[1..], x, s, key, w);
      var f := KeyIs(key, keys[0]);
      var head := if f(x) then [x] else [];
      assert ([x] + s)[1..] == s;
      assert Filter([x] + s, f) == head + Filter(s, f);
      SumConcat(head, Filter(s, f), w);
      if key(x) == keys[0] {
        assert key(x) !in keys[1..] by {
          forall j | 0 <= j < |keys[1..]| ensures keys[1..][j] != key(x) {
            assert keys[1..][j] == keys[j + 1];
          }
        }
      } else {
        assert key(x) in keys <==> key(x) in keys[1..];
      }
    }
  }

  /** Grouping conserves the total: when every element's key is listed exactly once,
      the per-group sums add up to the overall sum. */
  lemma {:induction false} PartitionSum<T(!new), K(!new)>(keys: seq<K>, s: seq<T>, key: T -> K, w: T -> real)
    requires Distinct(keys)
    requires forall x :: x in s ==> key(x) in keys
    ensures SumByKeys(keys, s, key, w) == Sum(s, w)
  {
    if s == [] {
      SumByKeysEmpty(keys, key, w);
    } else {
      assert s == [s[0]] + s[1..];
      PartitionSum(keys, s[1..], key, w);
      SumByKeysCons(keys, s[0], s[1..], key, w);
    }
  }

  /** Python's `dict(pairs)`: later pairs overwrite earlier ones with the same key. */
  function DictFromPairs<K(==), V>(pairs: seq<(K, V)>): (m: map<K, V>)
    ensures m.Keys == set i | 0 <= i < |pairs| :: pairs[i].0
    ensures forall i :: 0 <= i < |pairs| && LastWithKey(pairs, i) ==> m[pairs[i].0] == pairs[i].1
  {
    if pairs == [] then map[]
    else
      var init := pairs[..|pairs| - 1];
      var last := pairs[|pairs| - 1];
      var m0 := DictFromPairs(init);
      LastWithKeyInit(pairs);
      assert pairs == init + [last];
      KeysSnoc(init, last);
      m0[last.0 := last.1]
  }

  /** A pair of `pairs` that is the last with its key, other than the final pair, is the
      last with its key among the pairs before the final one, and its key differs from the
      final pair's key. */
  lemma LastWithKeyInit<K, V>(pairs: seq<(K, V)>)
    requires |pairs| > 0
    ensures forall i :: 0 <= i < |pairs| - 1 && LastWithKey(pairs, i) ==>
              LastWithKey(pairs[..|pairs| - 1], i) && pairs[i].0 != pairs[|pairs| - 1].0
  {
  }

  lemma KeysSnoc<K, V>(init: seq<(K, V)>, last: (K, V))
    ensures (set i | 0 <= i < |init + [last]| :: (init + [last])[i].0)
         == (set i | 0 <= i < |init| :: init[i].0) + {last.0}
  {
    var s := init + [last];
    assert s[|init|].0 == last.0;
    forall i | 0 <= i < |init| ensures s[i].0 == init[i].0 {
      assert s[i] == init[i];
    }
  }

  /** A non-empty sequence is its head followed by its tail. Stated generically, so that
      it costs nothing when the elements are themselves sequences. */
  lemma HeadTail<T>(s: seq<T>)
    requires s != []
    ensures [s[0]] + s[1..] == s
  {
  }

  /** The two halves of a concatenation are recovered by slicing. */
  lemma ConcatSlices<T>(a: seq<T>, b: seq<T>)
    ensures (a + b)[..|a|] == a && (a + b)[|a|..] == b
  {
  }

  /** Prepending an element is associative with concatenation. */
  lemma ConsConcat<T>(h: T, a: seq<T>, b: seq<T>)
    ensures [h] + (a + b) == ([h] + a) + b
  {
  }

  /** Replacing the head of `a + b` replaces the head of `a`. */
  lemma ReplaceHeadConcat<T>(a: seq<T>, b: seq<T>, h: T)
    requires a != []
    ensures (a + b)[0] == a[0] && (a + b)[1..] == a[1..] + b
    ensures [h] + (a + b)[1..] == ([h] + a[1..]) + b
  {
  }

  /** The pieces of `a + b + c + d`, by position. */
  lemma Slices4<T>(a: seq<T>, b: seq<T>, c: seq<T>, d: seq<T>)
    ensures var s := a + b + c + d;
            && s[..|a|] == a && s[|a|..] == b + (c + d)
            && s[|a|..|a| + |b|] == b && s[|a| + |b|..|a| + |b| + |c|] == c
  {
  }

  /** A sequence that starts with `a`, `b` and `c` in a row starts with `a + b + c`. */
  lemma PrefixOfPieces<T>(s: seq<T>, a: seq<T>, b: seq<T>, c: seq<T>)
    requires |a| + |b| + |c| <= |s|
    requires s[..|a|] == a && s[|a|..|a| + |b|] == b && s[|a| + |b|..|a| + |b| + |c|] == c
    ensures s[..|a + b + c|] == a + b + c
  {
    assert s[..|a| + |b| + |c|] == s[..|a|] + s[|a|..|a| + |b|] + s[|a| + |b|..|a| + |b| + |c|];
  }

  /** Five pieces regrouped around the first. */
  lemma RegroupMiddle<T>(a: seq<T>, b: seq<T>, c: seq<T>, d: seq<T>, e: seq<T>)
    ensures a + b + c + d + e == a + ((b + c + d) + e)
  {
  }

  lemma Regroup<T>(a: seq<T>, b: seq<T>, c: seq<T>, d: seq<T>, e: seq<T>)
    ensures a + b + c + d + e == a + (b + (c + d + e))
  {
  }

  /** Prefixes one of which is empty commute. */
  lemma SwapEmpty<T>(a: seq<T>, b: seq<T>, f: seq<T>)
    requires a == [] || b == []
    ensures a + (b + f) == b + (a + f)
  {
    if a == [] {
      assert a + (b + f) == b + f == b + (a + f);
    } else {
      assert a + (b + f) == a + f == b + (a + f);
    }
  }

  /** A slice of a suffix is a slice of the whole, shifted. */
  lemma SliceOfDrop<T>(s: seq<T>, p: int, i: int, j: int)
    requires 0 <= p <= |s| && 0 <= i <= j <= |s| - p
    ensures s[p..][i..j] == s[p + i..p + j]
  {
  }

  /** A slice of a prefix is a slice of the whole. */
  lemma SliceOfTake<T>(s: seq<T>, n: int, i: int, j: int)
    requires 0 <= i <= j <= n <= |s|
    ensures s[..n][i..j] == s[i..j]
  {
  }

  /** A slice of a slice of a suffix is a slice of the whole. */
  lemma SliceChain<T>(s: seq<T>, p: int, r: seq<T>, t: seq<T>, i: int)
    requires 0 <= p <= |s| && |r| <= |s| - p && r == s[p..][..|r|]
    requires 0 <= i && i + |t| <= |r| && r[i..i + |t|] == t
    ensures s[p + i..p + i + |t|] == t
  {
    SliceOfTake(s[p..], |r|, i, i + |t|);
    SliceOfDrop(s, p, i, i + |t|);
  }

  /** A slice of the whole that lies inside a suffix is a slice of that suffix. */
  lemma SuffixSlice<T>(s: seq<T>, p: int, l: seq<T>, t: seq<T>, k: int)
    requires 0 <= p <= |s| && l == s[p..] && 0 <= k && k + |t| <= |l|
    requires s[p + k..p + k + |t|] == t
    ensures l[k..k + |t|] == t
  {
    SliceOfDrop(s, p, k, k + |t|);
  }

  lemma TailIndex<T>(s: seq<T>, i: int)
    requires 0 <= i < |s| - 1
    ensures s[1..][i] == s[i + 1]
  {
  }

  /** No later pair shares the key of pair `i`. */
  predicate LastWithKey<K(==), V>(pairs: seq<(K, V)>, i: int)
    requires 0 <= i < |pairs|
  {
    forall j :: i < j < |pairs| ==> pairs[j].0 != pairs[i].0
  }

  /** The concatenation of `f` over the elements, in order. */
  function FlatMap<A, B>(s: seq<A>, f: A -> seq<B>): seq<B>
  {
    if s == [] then [] else f(s[0]) + FlatMap(s[1..], f)
  }

  /** What `f` yields for any element is part of the concatenation. */
  lemma {:induction false} FlatMapContains<A, B>(s: seq<A>, f: A -> seq<B>, k: int, x: B)
    requires 0 <= k < |s| && x in f(s[k])
    ensures x in FlatMap(s, f)
  {
    if k > 0 {
      TailIndex(s, k - 1);
      FlatMapContains(s[1..], f, k - 1, x);
    }
  }
}
