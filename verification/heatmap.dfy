/** The pure part of `make_heatmap`: the display order of the rows (descending total, the
    sentinel buckets last), the order of the club columns (grouped by country in row order,
    then the clubs of other countries), the contiguous country groups drawn as separators,
    the reversed y factors and the label-wise reindexing of a matrix. */
module Heatmap {
  import opened Wrappers
  import opened Seqs
  import opened Sorting
  import opened Text
  import opened Buckets
  import opened Matrices

  // ---------------------------------------------------------------------------------------
  // totals
  // ---------------------------------------------------------------------------------------

  /** The sum of one row of cells. */
  function RowSum(row: seq<real>): real
  {
    if row == [] then 0.0 else row[0] + RowSum(row[1..])
  }

  /** `matrix.sum(axis=1).to_dict()`: row label → row total (a repeated label keeps its
      last row). */
  function RowTotals(m: Matrix): (t: map<string, real>)
    requires WellShaped(m)
    ensures forall r :: r in t <==> r in m.rows
    ensures forall i :: 0 <= i < |m.rows| && LastLabel(m.rows, i) ==> m.rows[i] in t && t[m.rows[i]] == RowSum(m.cells[i])
  {
    var pairs := seq(|m.rows|, i requires 0 <= i < |m.rows| => (m.rows[i], RowSum(m.cells[i])));
    assert forall i :: 0 <= i < |m.rows| ==> pairs[i].0 == m.rows[i];
    assert forall i :: 0 <= i < |m.rows| && LastLabel(m.rows, i) ==> LastWithKey(pairs, i);
    DictFromPairs(pairs)
  }

  /** `matrix.sum(axis=0).to_dict()`: club id → column total. */
  function ColTotals(m: Matrix): (t: map<int, real>)
    requires WellShaped(m)
    ensures forall c :: c in t <==> c in m.cols
    ensures forall j :: 0 <= j < |m.cols| && LastLabel(m.cols, j) ==> m.cols[j] in t && t[m.cols[j]] == ColSum(m.cells, j)
  {
    var pairs := seq(|m.cols|, j requires 0 <= j < |m.cols| => (m.cols[j], ColSum(m.cells, j)));
    assert forall j :: 0 <= j < |m.cols| ==> pairs[j].0 == m.cols[j];
    assert forall j :: 0 <= j < |m.cols| && LastLabel(m.cols, j) ==> LastWithKey(pairs, j);
    DictFromPairs(pairs)
  }

  /** No later label equals label `i`. */
  predicate LastLabel<T(==)>(labels: seq<T>, i: int)
    requires 0 <= i < |labels|
  {
    forall j :: i < j < |labels| ==> labels[j] != labels[i]
  }

  /** `totals.get(k, 0)`. */
  function Get<K>(totals: map<K, real>, k: K): real
  {
    if k in totals then totals[k] else 0.0
  }

  // ---------------------------------------------------------------------------------------
  // row order
  // ---------------------------------------------------------------------------------------

  /** The buckets drawn below every country, in this order. */
  const Specials: seq<string> := [WithoutClub, Retired, Unknown]

  /** The sort key `(-row_total, label)`: a larger total first, ties alphabetical. */
  predicate RowBefore(totals: map<string, real>, a: string, b: string)
  {
    Get(totals, a) > Get(totals, b) || (Get(totals, a) == Get(totals, b) && StrLe(a, b))
  }

  function ByRowTotal(totals: map<string, real>): (string, string) -> bool
  {
    (a: string, b: string) => RowBefore(totals, a, b)
  }

  lemma ByRowTotalPreorder(totals: map<string, real>)
    ensures TotalPreorder(ByRowTotal(totals))
  {
    forall a, b ensures RowBefore(totals, a, b) || RowBefore(totals, b, a) {
      StrLeTotal(a, b);
    }
    forall a, b, c | RowBefore(totals, a, b) && RowBefore(totals, b, c) ensures RowBefore(totals, a, c) {
      if Get(totals, a) == Get(totals, b) == Get(totals, c) {
        StrLeTransitive(a, b, c);
      }
    }
  }

  /** The display rows: the non-special rows by descending total then name, followed by the
      special buckets that occur, in the fixed order of `Specials`. */
  function DisplayRows(m: Matrix): (rows: seq<string>)
    requires WellShaped(m)
    ensures forall r :: r in rows <==> r in m.rows
  {
    var core := SortBy(Filter(m.rows, NotMember(Specials)), ByRowTotal(RowTotals(m)));
    assert forall r :: r in core <==> r in multiset(core);
    core + Filter(Specials, Member(m.rows))
  }

  /** The shape of the display rows: a block without specials ordered by the row key, then
      exactly the specials present, in their fixed order. */
  lemma DisplayRowsShape(m: Matrix)
    requires WellShaped(m)
    ensures var rows := DisplayRows(m);
            var k := |rows| - |Filter(Specials, Member(m.rows))|;
            && 0 <= k <= |rows|
            && SortedBy(rows[..k], ByRowTotal(RowTotals(m)))
            && (forall i :: 0 <= i < k ==> rows[i] !in Specials)
            && rows[k..] == Filter(Specials, Member(m.rows))
  {
    var le := ByRowTotal(RowTotals(m));
    var f := Filter(m.rows, NotMember(Specials));
    var core := SortBy(f, le);
    ByRowTotalPreorder(RowTotals(m));
    SortSorted(f, le);
    forall x | x in core ensures x !in Specials {
      assert x in multiset(core);
      assert x in f;
    }
    SortedBlockThenTail(core, Filter(Specials, Member(m.rows)), le, Specials);
  }

  /** A sorted block free of `specials` followed by a tail: the generic shape behind
      `DisplayRowsShape`. */
  lemma SortedBlockThenTail<T>(core: seq<T>, tail: seq<T>, le: (T, T) -> bool, specials: seq<T>)
    requires SortedBy(core, le)
    requires forall x :: x in core ==> x !in specials
    ensures var rows := core + tail;
            var k := |rows| - |tail|;
            && 0 <= k <= |rows|
            && SortedBy(rows[..k], le)
            && (forall i :: 0 <= i < k ==> rows[i] !in specials)
            && rows[k..] == tail
  {
    var rows := core + tail;
    assert rows[..|core|] == core;
    assert rows[|core|..] == tail;
    forall i | 0 <= i < |core| ensures rows[i] !in specials {
      assert rows[i] == core[i];
    }
  }

  /** With distinct row labels the display rows are a permutation of them. */
  lemma DisplayRowsPermutation(m: Matrix)
    requires WellShaped(m) && Distinct(m.rows)
    ensures multiset(DisplayRows(m)) == multiset(m.rows)
  {
    assert Distinct(Specials);
    forall x
      ensures multiset(DisplayRows(m))[x] == multiset(m.rows)[x]
    {
      FilterMultiset(m.rows, NotMember(Specials), x);
      FilterMultiset(Specials, Member(m.rows), x);
      DistinctMultiset(m.rows, x);
      DistinctMultiset(Specials, x);
    }
  }

  /** `y_factors`: the display rows reversed, so the first row is drawn at the top. */
  function Reverse<T>(s: seq<T>): (r: seq<T>)
    ensures |r| == |s|
    ensures forall i :: 0 <= i < |s| ==> r[i] == s[|s| - 1 - i]
  {
    if s == [] then [] else Reverse(s[1..]) + [s[0]]
  }

  lemma ReverseInvolution<T>(s: seq<T>)
    ensures Reverse(Reverse(s)) == s
  {
  }

  // ---------------------------------------------------------------------------------------
  // column order
  // ---------------------------------------------------------------------------------------

  /** The lookups the column order uses: `club_country_map`, `club_id_to_name` and the
      column totals. */
  datatype ColumnKeys = ColumnKeys(countries: map<int, string>, names: map<int, string>, totals: map<int, real>)

  /** `get_club_country`: the mapped country, `Unknown` for an unmapped id. */
  function ClubCountry(countries: map<int, string>, cid: int): string
  {
    if cid in countries then countries[cid] else Unknown
  }

  /** `club_id_to_name.get(cid, str(cid))`. */
  function ClubName(names: map<int, string>, cid: int): string
  {
    if cid in names then names[cid] else IntToString(cid)
  }

  /** The key `(-col_total, name)` inside one country. */
  predicate InGroupBefore(keys: ColumnKeys, a: int, b: int)
  {
    Get(keys.totals, a) > Get(keys.totals, b)
    || (Get(keys.totals, a) == Get(keys.totals, b) && StrLe(ClubName(keys.names, a), ClubName(keys.names, b)))
  }

  function ByGroupKey(keys: ColumnKeys): (int, int) -> bool
  {
    (a: int, b: int) => InGroupBefore(keys, a, b)
  }

  predicate StrLt(a: string, b: string)
  {
    StrLe(a, b) && a != b
  }

  /** The key `(country, -col_total, name)` of the leftover clubs. */
  predicate LeftoverBefore(keys: ColumnKeys, a: int, b: int)
  {
    StrLt(ClubCountry(keys.countries, a), ClubCountry(keys.countries, b))
    || (ClubCountry(keys.countries, a) == ClubCountry(keys.countries, b) && InGroupBefore(keys, a, b))
  }

  function ByLeftoverKey(keys: ColumnKeys): (int, int) -> bool
  {
    (a: int, b: int) => LeftoverBefore(keys, a, b)
  }

  lemma InGroupPreorder(keys: ColumnKeys)
    ensures TotalPreorder(ByGroupKey(keys))
  {
    forall a, b ensures InGroupBefore(keys, a, b) || InGroupBefore(keys, b, a) {
      InGroupTotal(keys, a, b);
    }
    forall a, b, c | InGroupBefore(keys, a, b) && InGroupBefore(keys, b, c) ensures InGroupBefore(keys, a, c) {
      InGroupTransitive(keys, a, b, c);
    }
  }

  lemma InGroupTotal(keys: ColumnKeys, a: int, b: int)
    ensures InGroupBefore(keys, a, b) || InGroupBefore(keys, b, a)
  {
    StrLeTotal(ClubName(keys.names, a), ClubName(keys.names, b));
  }

  lemma InGroupTransitive(keys: ColumnKeys, a: int, b: int, c: int)
    requires InGroupBefore(keys, a, b) && InGroupBefore(keys, b, c)
    ensures InGroupBefore(keys, a, c)
  {
    if Get(keys.totals, a) == Get(keys.totals, b) == Get(keys.totals, c) {
      StrLeTransitive(ClubName(keys.names, a), ClubName(keys.names, b), ClubName(keys.names, c));
    }
  }

  lemma LeftoverPreorder(keys: ColumnKeys)
    ensures TotalPreorder(ByLeftoverKey(keys))
  {
    forall a, b ensures LeftoverBefore(keys, a, b) || LeftoverBefore(keys, b, a) {
      LeftoverTotal(keys, a, b);
    }
    forall a, b, c | LeftoverBefore(keys, a, b) && LeftoverBefore(keys, b, c) ensures LeftoverBefore(keys, a, c) {
      LeftoverTransitive(keys, a, b, c);
    }
  }

  lemma LeftoverTotal(keys: ColumnKeys, a: int, b: int)
    ensures LeftoverBefore(keys, a, b) || LeftoverBefore(keys, b, a)
  {
    StrLeTotal(ClubCountry(keys.countries, a), ClubCountry(keys.countries, b));
    InGroupTotal(keys, a, b);
  }

  lemma LeftoverTransitive(keys: ColumnKeys, a: int, b: int, c: int)
    requires LeftoverBefore(keys, a, b) && LeftoverBefore(keys, b, c)
    ensures LeftoverBefore(keys, a, c)
  {
    var ca, cb, cc := ClubCountry(keys.countries, a), ClubCountry(keys.countries, b), ClubCountry(keys.countries, c);
    if ca == cb && cb == cc {
      InGroupTransitive(keys, a, b, c);
    } else if ca != cb && cb != cc {
      StrLtTransitive(ca, cb, cc);
    }
  }

  lemma StrLtTransitive(x: string, y: string, z: string)
    requires StrLt(x, y) && StrLt(y, z)
    ensures StrLt(x, z)
  {
    StrLeTransitive(x, y, z);
    if x == z {
      StrLeAntisymmetric(x, y);
    }
  }

  /** The predicate "the club belongs to `country` and has not been placed yet". */
  function InGroup(keys: ColumnKeys, country: string, seen: set<int>): int -> bool
  {
    (cid: int) => ClubCountry(keys.countries, cid) == country && cid !in seen
  }

  function Unseen(seen: set<int>): int -> bool
  {
    (cid: int) => cid !in seen
  }

  function Elements<T>(s: seq<T>): set<T>
  {
    set x | x in s
  }

  /** The loop over the display rows: each row's unplaced clubs by the in-group key, and
      the set of placed clubs after the last row. */
  function Grouped(rows: seq<string>, cols: seq<int>, seen: set<int>, keys: ColumnKeys): (r: (seq<int>, set<int>))
  {
    if rows == [] then ([], seen)
    else
      var g := SortBy(Filter(cols, InGroup(keys, rows[0], seen)), ByGroupKey(keys));
      var rest := Grouped(rows[1..], cols, seen + Elements(g), keys);
      (g + rest.0, rest.1)
  }

  /** `ordered_club_ids`. */
  function OrderedClubIds(rows: seq<string>, cols: seq<int>, keys: ColumnKeys): seq<int>
  {
    var grouped := Grouped(rows, cols, {}, keys);
    grouped.0 + SortBy(Filter(cols, Unseen(grouped.1)), ByLeftoverKey(keys))
  }

  /** A club is placed by the row loop exactly when it was placed before or its country is
      one of the rows. */
  lemma {:induction false} GroupedSeen(rows: seq<string>, cols: seq<int>, seen: set<int>, keys: ColumnKeys, x: int)
    ensures x in Grouped(rows, cols, seen, keys).1 <==> x in seen || (x in cols && ClubCountry(keys.countries, x) in rows)
  {
    if rows != [] {
      var p := InGroup(keys, rows[0], seen);
      var g := SortBy(Filter(cols, p), ByGroupKey(keys));
      GroupedSeen(rows[1..], cols, seen + Elements(g), keys, x);
      assert x in g <==> x in multiset(g);
      assert x in Filter(cols, p) <==> x in multiset(Filter(cols, p));
    }
  }

  /** The row loop places every copy of an unplaced club whose country is a row, once. */
  lemma {:induction false} GroupedCount(rows: seq<string>, cols: seq<int>, seen: set<int>, keys: ColumnKeys, x: int)
    ensures multiset(Grouped(rows, cols, seen, keys).0)[x]
         == if x !in seen && ClubCountry(keys.countries, x) in rows then multiset(cols)[x] else 0
  {
    if rows != [] {
      var p := InGroup(keys, rows[0], seen);
      var g := SortBy(Filter(cols, p), ByGroupKey(keys));
      var seen' := seen + Elements(g);
      GroupedCount(rows[1..], cols, seen', keys, x);
      FilterMultiset(cols, p, x);
      assert x in g <==> x in multiset(g);
      if p(x) && x !in cols {
        assert multiset(cols)[x] == 0;
      }
    }
  }

  /** `ordered_club_ids` is a permutation of the matrix columns. */
  lemma OrderedClubIdsPermutation(rows: seq<string>, cols: seq<int>, keys: ColumnKeys)
    ensures multiset(OrderedClubIds(rows, cols, keys)) == multiset(cols)
  {
    var grouped := Grouped(rows, cols, {}, keys);
    forall x ensures multiset(OrderedClubIds(rows, cols, keys))[x] == multiset(cols)[x] {
      GroupedCount(rows, cols, {}, keys, x);
      GroupedSeen(rows, cols, {}, keys, x);
      FilterMultiset(cols, Unseen(grouped.1), x);
      if x !in cols {
        assert multiset(cols)[x] == 0;
      }
    }
  }

  /** The position of a country among the rows (`|rows|` when absent). */
  function FirstIndex(rows: seq<string>, c: string): (i: nat)
    ensures i <= |rows|
    ensures i < |rows| <==> c in rows
    ensures i < |rows| ==> rows[i] == c
  {
    if rows == [] then 0
    else if rows[0] == c then 0
    else 1 + FirstIndex(rows[1..], c)
  }

  /** The reference order of the grouped block: by the position of the club's country among
      the rows, then by the in-group key. */
  predicate GroupOrder(rows: seq<string>, keys: ColumnKeys, a: int, b: int)
  {
    var ia := FirstIndex(rows, ClubCountry(keys.countries, a));
    var ib := FirstIndex(rows, ClubCountry(keys.countries, b));
    ia < ib || (ia == ib && InGroupBefore(keys, a, b))
  }

  function ByGroupOrder(rows: seq<string>, keys: ColumnKeys): (int, int) -> bool
  {
    (a: int, b: int) => GroupOrder(rows, keys, a, b)
  }

  /** The grouped block lists the clubs country by country in row order, each country's
      clubs by the in-group key. */
  lemma {:induction false} GroupedSorted(rows: seq<string>, cols: seq<int>, seen: set<int>, keys: ColumnKeys)
    ensures SortedBy(Grouped(rows, cols, seen, keys).0, ByGroupOrder(rows, keys))
    ensures forall x :: x in Grouped(rows, cols, seen, keys).0 ==>
              ClubCountry(keys.countries, x) in rows && x !in seen && x in cols
  {
    if rows != [] {
      var p := InGroup(keys, rows[0], seen);
      var g := SortBy(Filter(cols, p), ByGroupKey(keys));
      var seen' := seen + Elements(g);
      var rest := Grouped(rows[1..], cols, seen', keys).0;
      GroupedSorted(rows[1..], cols, seen', keys);
      assert forall x :: x in g <==> x in Filter(cols, p) by {
        forall x ensures x in g <==> x in Filter(cols, p) {
          assert x in g <==> x in multiset(g);
          assert x in Filter(cols, p) <==> x in multiset(Filter(cols, p));
        }
      }
      forall x | x in rest ensures ClubCountry(keys.countries, x) != rows[0] {
        assert x !in seen';
      }
      FirstGroupSorted(rows, cols, seen, keys);
      RestSorted(rows, keys, rest);
      GroupThenRest(rows, keys, g, rest);
    }
  }

  /** The first row's clubs come before the clubs of later rows in the reference order. */
  lemma GroupThenRest(rows: seq<string>, keys: ColumnKeys, g: seq<int>, rest: seq<int>)
    requires rows != []
    requires SortedBy(g, ByGroupOrder(rows, keys)) && SortedBy(rest, ByGroupOrder(rows, keys))
    requires forall x :: x in g ==> ClubCountry(keys.countries, x) == rows[0]
    requires forall x :: x in rest ==> ClubCountry(keys.countries, x) != rows[0]
    ensures SortedBy(g + rest, ByGroupOrder(rows, keys))
  {
    forall a, b | a in g && b in rest ensures ByGroupOrder(rows, keys)(a, b) {
      assert FirstIndex(rows, ClubCountry(keys.countries, a)) == 0;
    }
    SortedConcat(g, rest, ByGroupOrder(rows, keys));
  }

  /** The first row's group is ordered by the reference order. */
  lemma FirstGroupSorted(rows: seq<string>, cols: seq<int>, seen: set<int>, keys: ColumnKeys)
    requires rows != []
    ensures SortedBy(SortBy(Filter(cols, InGroup(keys, rows[0], seen)), ByGroupKey(keys)), ByGroupOrder(rows, keys))
  {
    var f := Filter(cols, InGroup(keys, rows[0], seen));
    var g := SortBy(f, ByGroupKey(keys));
    InGroupPreorder(keys);
    SortSorted(f, ByGroupKey(keys));
    assert forall x :: x in g ==> ClubCountry(keys.countries, x) == rows[0] by {
      forall x | x in g ensures ClubCountry(keys.countries, x) == rows[0] {
        assert x in multiset(g);
        assert x in f;
      }
    }
    forall i, j | 0 <= i < j < |g| ensures GroupOrder(rows, keys, g[i], g[j]) {
      assert g[i] in g && g[j] in g;
      assert InGroupBefore(keys, g[i], g[j]);
    }
  }

  /** Clubs of countries other than the first row keep their relative order when the first
      row is put back in front. */
  lemma RestSorted(rows: seq<string>, keys: ColumnKeys, rest: seq<int>)
    requires rows != []
    requires SortedBy(rest, ByGroupOrder(rows[1..], keys))
    requires forall x :: x in rest ==> ClubCountry(keys.countries, x) != rows[0]
    ensures SortedBy(rest, ByGroupOrder(rows, keys))
  {
    forall i, j | 0 <= i < j < |rest| ensures GroupOrder(rows, keys, rest[i], rest[j]) {
      assert rest[i] in rest && rest[j] in rest;
      assert GroupOrder(rows[1..], keys, rest[i], rest[j]);
    }
  }

  lemma SortedConcat<T>(a: seq<T>, b: seq<T>, le: (T, T) -> bool)
    requires SortedBy(a, le) && SortedBy(b, le)
    requires forall x, y :: x in a && y in b ==> le(x, y)
    ensures SortedBy(a + b, le)
  {
    var ab := a + b;
    forall i, j | 0 <= i < j < |ab| ensures le(ab[i], ab[j]) {
      if j < |a| {
        assert ab[i] == a[i] && ab[j] == a[j];
      } else if i < |a| {
        assert ab[i] in a && ab[j] == b[j - |a|];
      } else {
        assert ab[i] == b[i - |a|] && ab[j] == b[j - |a|];
      }
    }
  }

  /** The shape of `ordered_club_ids`: first the clubs whose country is a row, grouped in row
      order, then the other clubs by (country, -total, name). */
  lemma OrderedClubIdsShape(rows: seq<string>, cols: seq<int>, keys: ColumnKeys)
    ensures var ids := OrderedClubIds(rows, cols, keys);
            var k := |Grouped(rows, cols, {}, keys).0|;
            && k <= |ids|
            && SortedBy(ids[..k], ByGroupOrder(rows, keys))
            && (forall i :: 0 <= i < k ==> ClubCountry(keys.countries, ids[i]) in rows)
            && SortedBy(ids[k..], ByLeftoverKey(keys))
            && (forall i :: k <= i < |ids| ==> ClubCountry(keys.countries, ids[i]) !in rows)
  {
    var grouped := Grouped(rows, cols, {}, keys);
    var left := SortBy(Filter(cols, Unseen(grouped.1)), ByLeftoverKey(keys));
    var ids := OrderedClubIds(rows, cols, keys);
    GroupedSorted(rows, cols, {}, keys);
    LeftoverPreorder(keys);
    SortSorted(Filter(cols, Unseen(grouped.1)), ByLeftoverKey(keys));
    assert ids[..|grouped.0|] == grouped.0;
    assert ids[|grouped.0|..] == left;
    forall i | 0 <= i < |grouped.0| ensures ClubCountry(keys.countries, ids[i]) in rows {
      assert ids[i] in grouped.0;
    }
    forall i | |grouped.0| <= i < |ids| ensures ClubCountry(keys.countries, ids[i]) !in rows {
      var x := ids[i];
      assert x in left;
      assert x in multiset(left);
      GroupedSeen(rows, cols, {}, keys, x);
    }
  }

  // ---------------------------------------------------------------------------------------
  // country groups
  // ---------------------------------------------------------------------------------------

  /** A separator group: the country and the first and last column index it spans. */
  datatype Group = Group(country: string, start: int, end: int)

  /** The country of every column, in display order. */
  function ColumnCountries(ids: seq<int>, countries: map<int, string>): (cs: seq<string>)
    ensures |cs| == |ids|
    ensures forall i :: 0 <= i < |ids| ==> cs[i] == ClubCountry(countries, ids[i])
  {
    seq(|ids|, i requires 0 <= i < |ids| => ClubCountry(countries, ids[i]))
  }

  /** `groups` cut the columns `0 .. upto-1` into consecutive non-empty runs, each of one
      country, adjacent runs of different countries. */
  predicate Runs(groups: seq<Group>, cs: seq<string>, upto: int)
  {
    && 0 <= upto <= |cs|
    && (groups == [] <==> upto == 0)
    && (groups != [] ==> groups[0].start == 0 && groups[|groups| - 1].end == upto - 1)
    && (forall i :: 0 <= i < |groups| ==> 0 <= groups[i].start <= groups[i].end < upto)
    && (forall i :: 0 <= i < |groups| - 1 ==> groups[i + 1].start == groups[i].end + 1)
    && (forall i :: 0 <= i < |groups| - 1 ==> groups[i + 1].country != groups[i].country)
    && (forall i, k :: 0 <= i < |groups| && groups[i].start <= k <= groups[i].end ==> cs[k] == groups[i].country)
  }

  /** The reference grouping: scanning the countries left to right, a column extends the
      last group when it has the same country and opens a new group otherwise. */
  function RunsOf(cs: seq<string>): (groups: seq<Group>)
    ensures Runs(groups, cs, |cs|)
  {
    if cs == [] then []
    else
      var n := |cs| - 1;
      var init := cs[..n];
      var r := RunsOf(init);
      RunsPrefix(r, init, cs);
      if r != [] && r[|r| - 1].country == cs[n] then
        RunsExtend(r, cs, n);
        r[..|r| - 1] + [Group(cs[n], r[|r| - 1].start, n)]
      else
        assert Uniform(cs, n, n + 1, cs[n]);
        RunsAppend(r, cs, n, Group(cs[n], n, n));
        r + [Group(cs[n], n, n)]
  }

  /** A grouping of a prefix is a grouping of the same columns of the whole sequence. */
  lemma RunsPrefix(groups: seq<Group>, init: seq<string>, cs: seq<string>)
    requires |init| <= |cs| && init == cs[..|init|] && Runs(groups, init, |init|)
    ensures Runs(groups, cs, |init|)
  {
    forall i, k | 0 <= i < |groups| && groups[i].start <= k <= groups[i].end ensures cs[k] == groups[i].country {
      assert cs[k] == init[k];
    }
  }

  /** A column of the last group's country extends that group. */
  lemma RunsExtend(groups: seq<Group>, cs: seq<string>, n: int)
    requires Runs(groups, cs, n) && groups != [] && n < |cs|
    requires cs[n] == groups[|groups| - 1].country
    ensures Runs(groups[..|groups| - 1] + [Group(cs[n], groups[|groups| - 1].start, n)], cs, n + 1)
  {
    var last := groups[|groups| - 1];
    var r := groups[..|groups| - 1] + [Group(cs[n], last.start, n)];
    assert |r| == |groups|;
    assert forall i :: 0 <= i < |groups| - 1 ==> r[i] == groups[i];
    forall i, k | 0 <= i < |r| && r[i].start <= k <= r[i].end ensures cs[k] == r[i].country {
      if i < |groups| - 1 {
        assert r[i] == groups[i];
      } else if k < n {
        assert groups[i] == last;
      }
    }
  }

  /** The reference grouping of one column. */
  lemma RunsOfFirst(cs: seq<string>)
    requires |cs| > 0
    ensures RunsOf(cs[..1]) == [Group(cs[0], 0, 0)]
  {
    assert cs[..1][..0] == [];
  }

  /** One more column either extends the last group of the reference grouping or opens a
      new one. */
  lemma RunsOfStep(cs: seq<string>, n: int)
    requires 0 < n < |cs|
    ensures RunsOf(cs[..n]) != []
    ensures var r := RunsOf(cs[..n]);
            RunsOf(cs[..n + 1])
              == if r[|r| - 1].country == cs[n] then r[..|r| - 1] + [Group(cs[n], r[|r| - 1].start, n)]
                 else r + [Group(cs[n], n, n)]
  {
    assert cs[..n + 1][..n] == cs[..n];
  }

  /** The separator loop of `make_heatmap`: one group per maximal run of equal countries. */
  method ComputeGroups(ids: seq<int>, countries: map<int, string>) returns (groups: seq<Group>)
    ensures groups == RunsOf(ColumnCountries(ids, countries))
    ensures Runs(groups, ColumnCountries(ids, countries), |ids|)
  {
    ghost var cs := ColumnCountries(ids, countries);
    groups := [];
    var current: Option<string> := None;
    var start := 0;
    var idx := 0;
    while idx < |ids|
      invariant 0 <= idx <= |ids|
      invariant current.None? <==> idx == 0
      invariant idx == 0 ==> groups == []
      invariant idx > 0 ==> 0 <= start < idx && groups + [Group(current.value, start, idx - 1)] == RunsOf(cs[..idx])
    {
      var ctry := ClubCountry(countries, ids[idx]);
      assert ctry == cs[idx];
      if current.None? {
        RunsOfFirst(cs);
        current := Some(ctry);
        start := idx;
      } else if ctry != current.value {
        RunsOfStep(cs, idx);
        groups := groups + [Group(current.value, start, idx - 1)];
        current := Some(ctry);
        start := idx;
      } else {
        RunsOfStep(cs, idx);
        ghost var r := RunsOf(cs[..idx]);
        assert r[..|r| - 1] == groups;
      }
      idx := idx + 1;
    }
    assert cs[..|ids|] == cs;
    if current.Some? {
      groups := groups + [Group(current.value, start, |ids| - 1)];
    }
  }

  /** Columns `from .. to-1` all belong to `country`. */
  predicate Uniform(cs: seq<string>, from: int, to: int, country: string)
    requires 0 <= from <= to <= |cs|
  {
    forall k :: from <= k < to ==> cs[k] == country
  }

  /** Closing a run extends the grouping by one group. */
  lemma RunsAppend(groups: seq<Group>, cs: seq<string>, upto: int, g: Group)
    requires Runs(groups, cs, upto)
    requires g.start == upto && g.start <= g.end < |cs|
    requires Uniform(cs, g.start, g.end + 1, g.country)
    requires groups != [] ==> groups[|groups| - 1].country != g.country
    ensures Runs(groups + [g], cs, g.end + 1)
  {
    var r := groups + [g];
    assert r[|r| - 1] == g;
    forall i, k | 0 <= i < |r| && r[i].start <= k <= r[i].end ensures cs[k] == r[i].country {
      if i < |groups| {
        assert r[i] == groups[i];
      }
    }
  }

  /** Every column lies in some group. */
  lemma {:induction false} RunsCover(groups: seq<Group>, cs: seq<string>, upto: int, k: int)
    requires Runs(groups, cs, upto) && 0 <= k < upto
    ensures exists i :: 0 <= i < |groups| && groups[i].start <= k <= groups[i].end
  {
    var n := |groups|;
    var last := groups[n - 1];
    if k < last.start {
      var init := groups[..n - 1];
      assert n > 1;
      forall i | 0 <= i < n - 1 ensures groups[i].end < last.start {
        RunsOrdered(groups, cs, upto, i, n - 1);
      }
      assert Runs(init, cs, last.start);
      RunsCover(init, cs, last.start, k);
      var i :| 0 <= i < |init| && init[i].start <= k <= init[i].end;
      assert groups[i] == init[i];
    }
  }

  /** Groups are ordered: an earlier group ends before a later one starts. */
  lemma {:induction false} RunsOrdered(groups: seq<Group>, cs: seq<string>, upto: int, i: int, j: int)
    requires Runs(groups, cs, upto) && 0 <= i < j < |groups|
    ensures groups[i].end < groups[j].start
  {
    if i < j - 1 {
      RunsOrdered(groups, cs, upto, i, j - 1);
    }
  }

  /** The groups are the maximal runs: a column starts a group exactly when it is the first
      column or its country differs from the previous column's. */
  lemma RunStarts(groups: seq<Group>, cs: seq<string>, k: int)
    requires Runs(groups, cs, |cs|) && 0 <= k < |cs|
    ensures (exists i :: 0 <= i < |groups| && groups[i].start == k) <==> (k == 0 || cs[k] != cs[k - 1])
  {
    RunsCover(groups, cs, |cs|, k);
    var i :| 0 <= i < |groups| && groups[i].start <= k <= groups[i].end;
    if groups[i].start == k {
      if k > 0 {
        assert i > 0;
        assert groups[i - 1].end == k - 1;
        assert cs[k - 1] == groups[i - 1].country;
      }
    } else {
      assert cs[k - 1] == groups[i].country;
      forall i' | 0 <= i' < |groups| ensures groups[i'].start != k {
        if i' < i {
          RunsOrdered(groups, cs, |cs|, i', i);
        } else if i < i' {
          RunsOrdered(groups, cs, |cs|, i, i');
        }
      }
    }
  }

  // ---------------------------------------------------------------------------------------
  // reindexing and the assembled layout
  // ---------------------------------------------------------------------------------------

  /** The first position of `x` in `s`. */
  function IndexOf<T(==)>(s: seq<T>, x: T): (i: nat)
    requires x in s
    ensures i < |s| && s[i] == x
    ensures forall k :: 0 <= k < i ==> s[k] != x
  {
    if s[0] == x then 0 else 1 + IndexOf(s[1..], x)
  }

  /** `matrix.loc[r, c]`, read as 0 when either label is absent. */
  function At(m: Matrix, r: string, c: int): real
    requires WellShaped(m)
  {
    if r in m.rows && c in m.cols then m.cells[IndexOf(m.rows, r)][IndexOf(m.cols, c)] else 0.0
  }

  /** `reindex(index=rows, columns=cols, fill_value=0)`. pandas refuses to reindex an axis
      that has duplicate labels. */
  function Reindex(m: Matrix, rows: seq<string>, cols: seq<int>): (r: Option<Matrix>)
    requires WellShaped(m)
    ensures r.Some? <==> Distinct(m.rows) && Distinct(m.cols)
    ensures r.Some? ==> WellShaped(r.value) && r.value.rows == rows && r.value.cols == cols
  {
    if !Distinct(m.rows) || !Distinct(m.cols) then None
    else
      Some(Matrix(rows, cols, seq(|rows|, i requires 0 <= i < |rows| =>
        seq(|cols|, j requires 0 <= j < |cols| => At(m, rows[i], cols[j])))))
  }

  /** Reindexing moves values by label: every requested pair holds the original value of
      that pair, and a pair the original lacks holds 0. */
  lemma ReindexAt(m: Matrix, rows: seq<string>, cols: seq<int>, r: string, c: int)
    requires WellShaped(m) && Distinct(m.rows) && Distinct(m.cols)
    requires r in rows && c in cols
    ensures At(Reindex(m, rows, cols).value, r, c) == At(m, r, c)
  {
    var i, j := IndexOf(rows, r), IndexOf(cols, c);
    assert Reindex(m, rows, cols).value.cells[i][j] == At(m, rows[i], cols[j]);
  }

  /** `ReindexAt` for every requested pair. */
  lemma ReindexAll(m: Matrix, rows: seq<string>, cols: seq<int>)
    requires WellShaped(m) && Distinct(m.rows) && Distinct(m.cols)
    ensures forall r, c :: r in rows && c in cols ==> At(Reindex(m, rows, cols).value, r, c) == At(m, r, c)
  {
    forall r, c | r in rows && c in cols ensures At(Reindex(m, rows, cols).value, r, c) == At(m, r, c) {
      ReindexAt(m, rows, cols, r, c);
    }
  }

  /** Reindexing a matrix to its own labels changes nothing. */
  lemma ReindexIdentity(m: Matrix)
    requires WellShaped(m) && Distinct(m.rows) && Distinct(m.cols)
    ensures Reindex(m, m.rows, m.cols) == Some(m)
  {
    var r := Reindex(m, m.rows, m.cols).value;
    forall i | 0 <= i < |m.rows| ensures r.cells[i] == m.cells[i] {
      assert IndexOf(m.rows, m.rows[i]) == i;
      forall j | 0 <= j < |m.cols| ensures r.cells[i][j] == m.cells[i][j] {
        assert IndexOf(m.cols, m.cols[j]) == j;
      }
      assert |r.cells[i]| == |m.cells[i]|;
    }
    assert r.cells == m.cells;
  }

  /** What the heatmap draws: the display rows, the y factors, the ordered club columns, the
      absolute values and the optional percentage layer, both reindexed to that order. */
  datatype Layout = Layout(rows: seq<string>, yFactors: seq<string>, clubs: seq<int>, values: Matrix, pct: Option<Matrix>)

  /** An empty matrix draws a placeholder; a reindex pandas refuses is an error. */
  datatype Drawing = NoData | Failed | Drawn(layout: Layout)

  /** The data preparation of `make_heatmap`. */
  function MakeLayout(m: Matrix, countries: map<int, string>, names: map<int, string>, pct: Option<Matrix>): (d: Drawing)
    requires WellShaped(m) && (pct.Some? ==> WellShaped(pct.value))
    ensures d.NoData? <==> |m.rows| == 0 || |m.cols| == 0
  {
    if |m.rows| == 0 || |m.cols| == 0 then NoData
    else
      var rows := DisplayRows(m);
      var clubs := OrderedClubIds(rows, m.cols, ColumnKeys(countries, names, ColTotals(m)));
      var values := Reindex(m, rows, clubs);
      var layer := if pct.Some? then Reindex(pct.value, rows, clubs) else None;
      if values.None? || (pct.Some? && layer.None?) then Failed
      else Drawn(Layout(rows, Reverse(rows), clubs, values.value, layer))
  }

  /** The drawing of a non-empty matrix with distinct labels, spelled out. */
  lemma MakeLayoutIs(m: Matrix, countries: map<int, string>, names: map<int, string>, pct: Option<Matrix>)
    requires WellShaped(m) && Distinct(m.rows) && Distinct(m.cols)
    requires pct.Some? ==> WellShaped(pct.value) && Distinct(pct.value.rows) && Distinct(pct.value.cols)
    requires |m.rows| > 0 && |m.cols| > 0
    ensures var rows := DisplayRows(m);
            var clubs := OrderedClubIds(rows, m.cols, ColumnKeys(countries, names, ColTotals(m)));
            MakeLayout(m, countries, names, pct)
              == Drawn(Layout(rows, Reverse(rows), clubs, Reindex(m, rows, clubs).value,
                              if pct.Some? then Reindex(pct.value, rows, clubs) else None))
  {
  }

  /** For a non-empty matrix with distinct labels the drawing succeeds, its rows are a
      permutation of the matrix rows and the y factors are those rows bottom-up. */
  lemma MakeLayoutRows(m: Matrix, countries: map<int, string>, names: map<int, string>, pct: Option<Matrix>)
    requires WellShaped(m) && Distinct(m.rows) && Distinct(m.cols)
    requires pct.Some? ==> WellShaped(pct.value) && Distinct(pct.value.rows) && Distinct(pct.value.cols)
    requires |m.rows| > 0 && |m.cols| > 0
    ensures MakeLayout(m, countries, names, pct).Drawn?
    ensures multiset(MakeLayout(m, countries, names, pct).layout.rows) == multiset(m.rows)
    ensures MakeLayout(m, countries, names, pct).layout.yFactors == Reverse(MakeLayout(m, countries, names, pct).layout.rows)
    ensures pct.Some? <==> MakeLayout(m, countries, names, pct).layout.pct.Some?
  {
    MakeLayoutIs(m, countries, names, pct);
    DisplayRowsPermutation(m);
  }

  /** The drawn club columns are a permutation of the matrix columns. */
  lemma MakeLayoutClubs(m: Matrix, countries: map<int, string>, names: map<int, string>, pct: Option<Matrix>)
    requires WellShaped(m) && Distinct(m.rows) && Distinct(m.cols)
    requires pct.Some? ==> WellShaped(pct.value) && Distinct(pct.value.rows) && Distinct(pct.value.cols)
    requires |m.rows| > 0 && |m.cols| > 0
    ensures MakeLayout(m, countries, names, pct).Drawn?
    ensures multiset(MakeLayout(m, countries, names, pct).layout.clubs) == multiset(m.cols)
  {
    MakeLayoutIs(m, countries, names, pct);
    OrderedClubIdsPermutation(DisplayRows(m), m.cols, ColumnKeys(countries, names, ColTotals(m)));
  }

  /** Every drawn absolute value is the matrix value of the same (row, club) pair. */
  lemma MakeLayoutValues(m: Matrix, countries: map<int, string>, names: map<int, string>, pct: Option<Matrix>)
    requires WellShaped(m) && Distinct(m.rows) && Distinct(m.cols)
    requires pct.Some? ==> WellShaped(pct.value) && Distinct(pct.value.rows) && Distinct(pct.value.cols)
    requires |m.rows| > 0 && |m.cols| > 0
    ensures var d := MakeLayout(m, countries, names, pct);
            d.Drawn? && forall r, c :: r in d.layout.rows && c in d.layout.clubs ==> At(d.layout.values, r, c) == At(m, r, c)
  {
    var rows := DisplayRows(m);
    var clubs := OrderedClubIds(rows, m.cols, ColumnKeys(countries, names, ColTotals(m)));
    MakeLayoutIs(m, countries, names, pct);
    ReindexAll(m, rows, clubs);
  }

  /** Every drawn percentage is the percentage-matrix value of the same (row, club) pair, 0
      where that matrix lacks the pair. */
  lemma MakeLayoutPercent(m: Matrix, countries: map<int, string>, names: map<int, string>, pct: Matrix)
    requires WellShaped(m) && Distinct(m.rows) && Distinct(m.cols)
    requires WellShaped(pct) && Distinct(pct.rows) && Distinct(pct.cols)
    requires |m.rows| > 0 && |m.cols| > 0
    ensures var d := MakeLayout(m, countries, names, Some(pct));
            d.Drawn? && d.layout.pct.Some? &&
            forall r, c :: r in d.layout.rows && c in d.layout.clubs ==> At(d.layout.pct.value, r, c) == At(pct, r, c)
  {
    var rows := DisplayRows(m);
    var clubs := OrderedClubIds(rows, m.cols, ColumnKeys(countries, names, ColTotals(m)));
    MakeLayoutIs(m, countries, names, Some(pct));
    ReindexAll(pct, rows, clubs);
  }
}
