/** Python's `sorted(xs, key=...)`: a stable sort. It is modelled by a comparator `le`
    ("the key of a is at most the key of b") and insertion sort, which is stable: an element
    is inserted before the first element it is not greater than. */
module Sorting {
  import opened Seqs

  /** `le` is total and transitive: the order induced by a sort key. */
  ghost predicate TotalPreorder<T(!new)>(le: (T, T) -> bool)
  {
    && (forall a, b :: le(a, b) || le(b, a))
    && (forall a, b, c :: le(a, b) && le(b, c) ==> le(a, c))
  }

  predicate SortedBy<T>(s: seq<T>, le: (T, T) -> bool)
  {
    forall i, j :: 0 <= i < j < |s| ==> le(s[i], s[j])
  }

  /** Inserts `x` before the first element it is at most. */
  function Insert<T(==)>(x: T, s: seq<T>, le: (T, T) -> bool): (r: seq<T>)
    ensures multiset(r) == multiset(s) + multiset{x}
  {
    if s == [] || le(x, s[0]) then [x] + s
    else
      assert s == [s[0]] + s[1..];
      [s[0]] + Insert(x, s[1..], le)
  }

  /** The stable sort of `s` by `le`. */
  function SortBy<T(==)>(s: seq<T>, le: (T, T) -> bool): (r: seq<T>)
    ensures multiset(r) == multiset(s)
  {
    if s == [] then []
    else
      assert s == [s[0]] + s[1..];
      Insert(s[0], SortBy(s[1..], le), le)
  }

  lemma {:induction false} InsertSorted<T(!new)>(x: T, s: seq<T>, le: (T, T) -> bool)
    requires TotalPreorder(le)
    requires SortedBy(s, le)
    ensures SortedBy(Insert(x, s, le), le)
  {
    if s != [] && !le(x, s[0]) {
      InsertSorted(x, s[1..], le);
      forall z | z in s[1..] ensures le(s[0], z) {
        var j :| 0 <= j < |s[1..]| && s[1..][j] == z;
        assert s[j + 1] == z;
      }
      InsertBounded(x, s[1..], le, s[0]);
      ConsSorted(s[0], Insert(x, s[1..], le), le);
    }
  }

  /** A lower bound of `x` and of `s` is a lower bound of the insertion. */
  lemma InsertBounded<T>(x: T, s: seq<T>, le: (T, T) -> bool, y: T)
    requires le(y, x) && forall z :: z in s ==> le(y, z)
    ensures forall z :: z in Insert(x, s, le) ==> le(y, z)
  {
    forall z | z in Insert(x, s, le) ensures le(y, z) {
      assert z in multiset(Insert(x, s, le));
      assert z == x || z in multiset(s);
    }
  }

  /** A lower bound of a sorted sequence can go in front of it. */
  lemma ConsSorted<T>(h: T, s: seq<T>, le: (T, T) -> bool)
    requires SortedBy(s, le) && forall z :: z in s ==> le(h, z)
    ensures SortedBy([h] + s, le)
  {
    var r := [h] + s;
    forall i, j | 0 <= i < j < |r| ensures le(r[i], r[j]) {
      assert r[j] == s[j - 1];
      if i > 0 {
        assert r[i] == s[i - 1];
      }
    }
  }

  /** The result of `SortBy` is ordered by `le`. */
  lemma {:induction false} SortSorted<T(!new)>(s: seq<T>, le: (T, T) -> bool)
    requires TotalPreorder(le)
    ensures SortedBy(SortBy(s, le), le)
  {
    if s != [] {
      SortSorted(s[1..], le);
      InsertSorted(s[0], SortBy(s[1..], le), le);
    }
  }

  /** The predicate "x has the same sort key as y". */
  function SameRank<T>(le: (T, T) -> bool, y: T): T -> bool
  {
    x => le(x, y) && le(y, x)
  }

  lemma {:induction false} InsertStable<T(!new)>(x: T, s: seq<T>, le: (T, T) -> bool, y: T)
    requires TotalPreorder(le)
    ensures Filter(Insert(x, s, le), SameRank(le, y))
         == (if SameRank(le, y)(x) then [x] else []) + Filter(s, SameRank(le, y))
  {
    var e := SameRank(le, y);
    var hx := if e(x) then [x] else [];
    if s == [] || le(x, s[0]) {
      assert ([x] + s)[1..] == s;
      assert Filter([x] + s, e) == hx + Filter(s, e);
    } else {
      InsertStable(x, s[1..], le, y);
      var rest := Insert(x, s[1..], le);
      var h0 := if e(s[0]) then [s[0]] else [];
      assert ([s[0]] + rest)[1..] == rest;
      assert Filter([s[0]] + rest, e) == h0 + Filter(rest, e);
      assert Filter(s, e) == h0 + Filter(s[1..], e);
      SameRankOrdered(le, y, x, s[0]);
      assert h0 == [] || hx == [];
      SwapEmpty(h0, hx, Filter(s[1..], e));
    }
  }

  /** Two elements of the same rank are ordered both ways. */
  lemma SameRankOrdered<T(!new)>(le: (T, T) -> bool, y: T, a: T, b: T)
    requires TotalPreorder(le)
    ensures SameRank(le, y)(a) && SameRank(le, y)(b) ==> le(a, b)
  {
  }

  /** Stability: the elements of one rank keep their input order. Together with
      `SortSorted` and the multiset contract this pins the result down uniquely. */
  lemma {:induction false} SortStable<T(!new)>(s: seq<T>, le: (T, T) -> bool, y: T)
    requires TotalPreorder(le)
    ensures Filter(SortBy(s, le), SameRank(le, y)) == Filter(s, SameRank(le, y))
  {
    if s != [] {
      SortStable(s[1..], le, y);
      InsertStable(s[0], SortBy(s[1..], le), le, y);
    }
  }

  lemma SortMembership<T(!new)>(s: seq<T>, le: (T, T) -> bool, x: T)
    ensures x in SortBy(s, le) <==> x in s
  {
    assert x in SortBy(s, le) <==> x in multiset(SortBy(s, le));
    assert x in s <==> x in multiset(s);
  }

  /** Two elements out of order are swapped; in order, they are kept. */
  lemma SortTwo<T>(a: T, b: T, le: (T, T) -> bool)
    ensures SortBy([a, b], le) == if le(a, b) then [a, b] else [b, a]
  {
    assert [a, b][1..] == [b];
    assert [b][1..] == [];
    assert SortBy([b], le) == [b];
  }

  // ---------- a sorted block followed by trailing sentinels ----------

  /** With two sentinels `a` and `b`, the trailing block is `a` if present, then `b` if
      present. */
  lemma TwoSentinelsLast<T(!new)>(rows: seq<T>, a: T, b: T, le: (T, T) -> bool)
    requires var k := |rows| - |Filter([a, b], Member(rows))|;
             && 0 <= k <= |rows|
             && SortedBy(rows[..k], le)
             && (forall i :: 0 <= i < k ==> rows[i] !in [a, b])
             && rows[k..] == Filter([a, b], Member(rows))
    ensures var tail := (if a in rows then [a] else []) + (if b in rows then [b] else []);
            var k := |rows| - |tail|;
            && 0 <= k <= |rows|
            && SortedBy(rows[..k], le)
            && (forall i :: 0 <= i < k ==> rows[i] != a && rows[i] != b)
            && rows[k..] == tail
  {
    var f := Filter([a, b], Member(rows));
    var tail := (if a in rows then [a] else []) + (if b in rows then [b] else []);
    FilterPair(a, b, Member(rows));
    assert f == tail;
    var k := |rows| - |f|;
    assert rows[..|rows| - |tail|] == rows[..k];
    forall i | 0 <= i < k
      ensures rows[i] != a && rows[i] != b
    {
      assert rows[i] !in [a, b];
    }
  }

  /** With one sentinel `a`, it is the last row if present. */
  lemma OneSentinelLast<T(!new)>(rows: seq<T>, a: T, le: (T, T) -> bool)
    requires var k := |rows| - |Filter([a], Member(rows))|;
             && 0 <= k <= |rows|
             && SortedBy(rows[..k], le)
             && (forall i :: 0 <= i < k ==> rows[i] !in [a])
             && rows[k..] == Filter([a], Member(rows))
    ensures var k := if a in rows then |rows| - 1 else |rows|;
            && 0 <= k <= |rows|
            && SortedBy(rows[..k], le)
            && (forall i :: 0 <= i < k ==> rows[i] != a)
            && rows[k..] == (if a in rows then [a] else [])
  {
    FilterPair(a, a, Member(rows));
  }
}
