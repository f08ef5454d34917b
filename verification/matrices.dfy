/** The aggregation engine: country-by-club matrices of money and player counts built from the
    enriched transfers, and their column-percentage form.

    A matrix has one row per country bucket (in `ordered_rows` order) and one column per
    requested club id (exactly the requested ids, in the requested order). A cell holds the
    total of the builder's weight over the qualifying transfers of its (country, club) pair:
    the fee for the money matrices, 1 per known player for the player matrices. */
module Matrices {
  import opened Wrappers
  import opened Seqs
  import opened Sorting
  import opened Text
  import opened Buckets
  import opened Seasons

  datatype Matrix = Matrix(rows: seq<string>, cols: seq<int>, cells: seq<seq<real>>)

  /** One cell row per row label, one cell per column in each. */
  predicate WellShaped(m: Matrix)
  {
    |m.cells| == |m.rows| && forall i :: 0 <= i < |m.cells| ==> |m.cells[i]| == |m.cols|
  }

  /** Incoming: columns are the buying club (`to_club_id`), rows the origin country.
      Outgoing: columns are the selling club (`from_club_id`), rows the destination. */
  datatype Side = Incoming | Outgoing

  datatype Measure = Money | Players

  /** What distinguishes the four builders (and the variants that also exclude `Unknown`):
      the side, the measure, the country buckets dropped before grouping and the sentinel
      rows `ordered_rows` moves to the bottom. */
  datatype Builder = Builder(side: Side, measure: Measure, excluded: seq<string>, extras: seq<string>)

  const MoneyIn: Builder := Builder(Incoming, Money, [WithoutClub, Retired], [WithoutClub, Retired])
  const MoneyOut: Builder := Builder(Outgoing, Money, [WithoutClub, Retired], [WithoutClub, Retired])
  const PlayersIn: Builder := Builder(Incoming, Players, [], [WithoutClub])
  const PlayersOut: Builder := Builder(Outgoing, Players, [], [WithoutClub, Retired])

  /** The dashboard's copies of the money builders, which also drop `Unknown`. */
  const DashboardMoneyIn: Builder := Builder(Incoming, Money, [WithoutClub, Retired, Unknown], [WithoutClub, Retired])
  const DashboardMoneyOut: Builder := Builder(Outgoing, Money, [WithoutClub, Retired, Unknown], [WithoutClub, Retired])

  /** The club id a transfer is grouped under. */
  function ClubOf(side: Side, e: Enriched): Option<int>
  {
    match side
    case Incoming => e.row.toId
    case Outgoing => e.row.fromId
  }

  /** The country bucket a transfer is grouped under: the other side's. */
  function CountryOf(side: Side, e: Enriched): string
  {
    match side
    case Incoming => e.fromCountry
    case Outgoing => e.toCountry
  }

  function CountryKey(b: Builder): Enriched -> string
  {
    (e: Enriched) => CountryOf(b.side, e)
  }

  /** The row filter: the club is requested, a money row has a positive fee, and the country
      bucket is not excluded. A missing club id never matches (`isin` is false for NaN). */
  predicate Qualifies(b: Builder, ids: seq<int>, e: Enriched)
  {
    && ClubOf(b.side, e).Some?
    && ClubOf(b.side, e).value in ids
    && (b.measure == Money ==> e.feeEur > 0.0)
    && CountryOf(b.side, e) !in b.excluded
  }

  function QualifiesFor(b: Builder, ids: seq<int>): Enriched -> bool
  {
    (e: Enriched) => Qualifies(b, ids, e)
  }

  function ClubIs(b: Builder, club: int): Enriched -> bool
  {
    (e: Enriched) => ClubOf(b.side, e) == Some(club)
  }

  /** What one transfer adds to its cell: `sum()` of the fee, or `count()` of a non-null
      player id. */
  function Weight(b: Builder): Enriched -> real
  {
    (e: Enriched) => if b.measure == Money then e.feeEur else if e.row.playerId.Some? then 1.0 else 0.0
  }

  /** The country buckets of the selected rows, each once, in first-appearance order. */
  function Countries(b: Builder, sel: seq<Enriched>): (cs: seq<string>)
    ensures Distinct(cs)
    ensures forall c :: c in cs <==> exists e :: e in sel && CountryOf(b.side, e) == c
  {
    Dedup(CountriesOf(b, sel))
  }

  function CountriesOf(b: Builder, sel: seq<Enriched>): (cs: seq<string>)
    ensures forall c :: c in cs <==> exists e :: e in sel && CountryOf(b.side, e) == c
  {
    if sel == [] then []
    else
      var rest := CountriesOf(b, sel[1..]);
      assert forall e :: e in sel <==> e == sel[0] || e in sel[1..];
      [CountryOf(b.side, sel[0])] + rest
  }

  /** The grouped sum of one (country, club) pair over the selected rows; 0 when the pair
      has no rows (`unstack` and `reindex` fill with 0). */
  function Cell(b: Builder, sel: seq<Enriched>, country: string, club: int): real
  {
    Sum(Filter(Filter(sel, ClubIs(b, club)), KeyIs(CountryKey(b), country)), Weight(b))
  }

  function RowCells(b: Builder, sel: seq<Enriched>, country: string, ids: seq<int>): (r: seq<real>)
    ensures |r| == |ids|
    ensures forall j :: 0 <= j < |ids| ==> r[j] == Cell(b, sel, country, ids[j])
  {
    if ids == [] then [] else [Cell(b, sel, country, ids[0])] + RowCells(b, sel, country, ids[1..])
  }

  function Cells(b: Builder, sel: seq<Enriched>, rows: seq<string>, ids: seq<int>): (cells: seq<seq<real>>)
    ensures |cells| == |rows|
    ensures forall i :: 0 <= i < |rows| ==> cells[i] == RowCells(b, sel, rows[i], ids)
  {
    if rows == [] then [] else [RowCells(b, sel, rows[0], ids)] + Cells(b, sel, rows[1..], ids)
  }

  /** The builders `money_in_matrix`, `money_out_matrix`, `players_in_matrix` and
      `players_out_matrix`: select, group by (country, club), reindex the columns to exactly
      `ids` and order the rows with `ordered_rows`. With nothing selected the result has no
      rows and exactly the requested columns. */
  function Build(b: Builder, ids: seq<int>, es: seq<Enriched>): (m: Matrix)
    ensures WellShaped(m)
    ensures m.cols == ids
  {
    var sel := Filter(es, QualifiesFor(b, ids));
    if sel == [] then Matrix([], ids, [])
    else
      var rows := OrderedRows(Countries(b, sel), b.extras);
      Matrix(rows, ids, Cells(b, sel, rows, ids))
  }

  // ---------- rows ----------

  /** The rows are exactly the country buckets of the qualifying transfers. */
  lemma BuildRows(b: Builder, ids: seq<int>, es: seq<Enriched>, c: string)
    ensures c in Build(b, ids, es).rows <==> exists e :: e in es && Qualifies(b, ids, e) && CountryOf(b.side, e) == c
  {
    var sel := Filter(es, QualifiesFor(b, ids));
    if exists e :: e in es && Qualifies(b, ids, e) && CountryOf(b.side, e) == c {
      var e :| e in es && Qualifies(b, ids, e) && CountryOf(b.side, e) == c;
      assert e in sel;
    }
  }

  /** With nothing qualifying there are no rows and the columns are exactly the ids. */
  lemma BuildEmpty(b: Builder, ids: seq<int>, es: seq<Enriched>)
    requires forall e :: e in es ==> !Qualifies(b, ids, e)
    ensures Build(b, ids, es) == Matrix([], ids, [])
  {
  }

  /** No requested club means no rows at all. */
  lemma BuildNoClubs(b: Builder, es: seq<Enriched>)
    ensures Build(b, [], es) == Matrix([], [], [])
  {
    BuildEmpty(b, [], es);
  }

  /** An excluded bucket is never a row. */
  lemma ExcludedNeverRow(b: Builder, ids: seq<int>, es: seq<Enriched>, c: string)
    requires c in b.excluded
    ensures c !in Build(b, ids, es).rows
  {
    BuildRows(b, ids, es, c);
  }

  /** The money builders never show `Without Club` or `Retired`; `Unknown` may appear. */
  lemma MoneyRowsNoWithoutClubOrRetired(ids: seq<int>, es: seq<Enriched>)
    ensures WithoutClub !in Build(MoneyIn, ids, es).rows && Retired !in Build(MoneyIn, ids, es).rows
    ensures WithoutClub !in Build(MoneyOut, ids, es).rows && Retired !in Build(MoneyOut, ids, es).rows
  {
    ExcludedNeverRow(MoneyIn, ids, es, WithoutClub);
    ExcludedNeverRow(MoneyIn, ids, es, Retired);
    ExcludedNeverRow(MoneyOut, ids, es, WithoutClub);
    ExcludedNeverRow(MoneyOut, ids, es, Retired);
  }

  /** The dashboard money builders never show a sentinel bucket at all. */
  lemma DashboardMoneyRowsNoSentinel(ids: seq<int>, es: seq<Enriched>, c: string)
    requires IsSentinel(c)
    ensures c !in Build(DashboardMoneyIn, ids, es).rows
    ensures c !in Build(DashboardMoneyOut, ids, es).rows
  {
    ExcludedNeverRow(DashboardMoneyIn, ids, es, c);
    ExcludedNeverRow(DashboardMoneyOut, ids, es, c);
  }

  /** The two copies of a money builder differ only in the `Unknown` row. */
  lemma DashboardDropsOnlyUnknown(ids: seq<int>, es: seq<Enriched>, c: string)
    ensures c in Build(DashboardMoneyIn, ids, es).rows <==> c in Build(MoneyIn, ids, es).rows && c != Unknown
    ensures c in Build(DashboardMoneyOut, ids, es).rows <==> c in Build(MoneyOut, ids, es).rows && c != Unknown
  {
    assert DashboardMoneyIn == MoneyIn.(excluded := MoneyIn.excluded + [Unknown]);
    assert DashboardMoneyOut == MoneyOut.(excluded := MoneyOut.excluded + [Unknown]);
    ExcludeOneMore(MoneyIn, Unknown, ids, es, c);
    ExcludeOneMore(MoneyOut, Unknown, ids, es, c);
  }

  /** Excluding one more bucket drops exactly that row. */
  lemma ExcludeOneMore(b: Builder, x: string, ids: seq<int>, es: seq<Enriched>, c: string)
    ensures c in Build(b.(excluded := b.excluded + [x]), ids, es).rows <==> c in Build(b, ids, es).rows && c != x
  {
    var d := b.(excluded := b.excluded + [x]);
    BuildRows(d, ids, es, c);
    BuildRows(b, ids, es, c);
    forall e ensures Qualifies(d, ids, e) <==> Qualifies(b, ids, e) && CountryOf(b.side, e) != x {
      assert CountryOf(b.side, e) in d.excluded <==> CountryOf(b.side, e) in b.excluded || CountryOf(b.side, e) == x;
    }
  }

  /** The rows list each bucket once: `ordered_rows` permutes the distinct group keys. */
  lemma BuildRowsDistinct(b: Builder, ids: seq<int>, es: seq<Enriched>)
    requires Distinct(b.extras)
    ensures Distinct(Build(b, ids, es).rows)
  {
    var sel := Filter(es, QualifiesFor(b, ids));
    if sel != [] {
      DistinctOrderedRows(Countries(b, sel), b.extras);
    }
  }

  /** Row order: `ordered_rows` puts the buckets that are not sentinel rows of the builder
      first, sorted by name, and then the builder's sentinel rows that occur, in the
      builder's order. */
  lemma BuildRowsShape(b: Builder, ids: seq<int>, es: seq<Enriched>)
    ensures var rows := Build(b, ids, es).rows;
            var k := |rows| - |Filter(b.extras, Member(rows))|;
            && 0 <= k <= |rows|
            && SortedBy(rows[..k], StrLe)
            && (forall i :: 0 <= i < k ==> rows[i] !in b.extras)
            && rows[k..] == Filter(b.extras, Member(rows))
  {
    var sel := Filter(es, QualifiesFor(b, ids));
    var rows := Build(b, ids, es).rows;
    if sel == [] {
      FilterNone(b.extras, Member(rows));
    } else {
      var labels := Countries(b, sel);
      OrderedRowsShape(labels, b.extras);
      FilterExt(b.extras, Member(labels), Member(rows));
    }
  }

  /** A builder that excludes all of its sentinel rows shows its rows fully sorted. */
  lemma ExcludedExtrasSorted(b: Builder, ids: seq<int>, es: seq<Enriched>)
    requires forall x :: x in b.extras ==> x in b.excluded
    ensures SortedBy(Build(b, ids, es).rows, StrLe)
  {
    var sel := Filter(es, QualifiesFor(b, ids));
    if sel != [] {
      var labels := Countries(b, sel);
      ExcludedExtrasAbsent(b, ids, es);
      OrderedRowsWithoutExtras(labels, b.extras);
    }
  }

  lemma ExcludedExtrasAbsent(b: Builder, ids: seq<int>, es: seq<Enriched>)
    requires forall x :: x in b.extras ==> x in b.excluded
    ensures forall x :: x in b.extras ==> x !in Build(b, ids, es).rows
  {
    forall x | x in b.extras ensures x !in Build(b, ids, es).rows {
      ExcludedNeverRow(b, ids, es, x);
    }
  }

  /** The money matrices list their countries alphabetically. */
  lemma MoneyRowsSorted(ids: seq<int>, es: seq<Enriched>)
    ensures SortedBy(Build(MoneyIn, ids, es).rows, StrLe)
    ensures SortedBy(Build(MoneyOut, ids, es).rows, StrLe)
    ensures SortedBy(Build(DashboardMoneyIn, ids, es).rows, StrLe)
    ensures SortedBy(Build(DashboardMoneyOut, ids, es).rows, StrLe)
  {
    ExcludedExtrasSorted(MoneyIn, ids, es);
    ExcludedExtrasSorted(MoneyOut, ids, es);
    ExcludedExtrasSorted(DashboardMoneyIn, ids, es);
    ExcludedExtrasSorted(DashboardMoneyOut, ids, es);
  }

  /** Players in: `Without Club`, when present, is the last row; every other bucket,
      `Retired` and `Unknown` included, comes before it in alphabetical order. */
  lemma PlayersInRowOrder(ids: seq<int>, es: seq<Enriched>)
    ensures var rows := Build(PlayersIn, ids, es).rows;
            var k := if WithoutClub in rows then |rows| - 1 else |rows|;
            && 0 <= k <= |rows|
            && SortedBy(rows[..k], StrLe)
            && (forall i :: 0 <= i < k ==> rows[i] != WithoutClub)
            && rows[k..] == (if WithoutClub in rows then [WithoutClub] else [])
  {
    BuildRowsShape(PlayersIn, ids, es);
    OneSentinelLast(Build(PlayersIn, ids, es).rows, WithoutClub, StrLe);
  }

  /** Players out: the sorted ordinary buckets (with `Unknown` among them), then
      `Without Club`, then `Retired`, each of the two only when present. */
  lemma PlayersOutRowOrder(ids: seq<int>, es: seq<Enriched>)
    ensures var rows := Build(PlayersOut, ids, es).rows;
            var tail := (if WithoutClub in rows then [WithoutClub] else []) + (if Retired in rows then [Retired] else []);
            var k := |rows| - |tail|;
            && 0 <= k <= |rows|
            && SortedBy(rows[..k], StrLe)
            && (forall i :: 0 <= i < k ==> rows[i] != WithoutClub && rows[i] != Retired)
            && rows[k..] == tail
  {
    BuildRowsShape(PlayersOut, ids, es);
    TwoSentinelsLast(Build(PlayersOut, ids, es).rows, WithoutClub, Retired, StrLe);
  }

  /** `ordered_rows` of distinct labels with distinct extras is distinct. */
  lemma DistinctOrderedRows(labels: seq<string>, extras: seq<string>)
    requires Distinct(labels) && Distinct(extras)
    ensures Distinct(OrderedRows(labels, extras))
  {
    OrderedRowsPermutation(labels, extras);
    forall x ensures multiset(OrderedRows(labels, extras))[x] <= 1 {
      DistinctMultiset(labels, x);
    }
    CountsAtMostOne(OrderedRows(labels, extras));
  }

  // ---------- cells ----------

  /** Reference definition of a cell: the weight of each qualifying transfer of the pair,
      added up row by row over the original table. */
  function CellTotal(b: Builder, ids: seq<int>, es: seq<Enriched>, country: string, club: int): real
  {
    if es == [] then 0.0
    else
      var e := es[0];
      (if Qualifies(b, ids, e) && ClubOf(b.side, e) == Some(club) && CountryOf(b.side, e) == country
       then Weight(b)(e) else 0.0)
      + CellTotal(b, ids, es[1..], country, club)
  }

  lemma {:induction false} CellIsTotal(b: Builder, ids: seq<int>, es: seq<Enriched>, country: string, club: int)
    ensures Cell(b, Filter(es, QualifiesFor(b, ids)), country, club) == CellTotal(b, ids, es, country, club)
  {
    if es != [] {
      CellIsTotal(b, ids, es[1..], country, club);
      var e := es[0];
      var q := QualifiesFor(b, ids);
      var k := ClubIs(b, club);
      var p := KeyIs(CountryKey(b), country);
      var rest := Filter(Filter(Filter(es[1..], q), k), p);
      var h1 := if q(e) then [e] else [];
      assert Filter(es, q) == h1 + Filter(es[1..], q);
      FilterConcat(h1, Filter(es[1..], q), k);
      var h2 := if q(e) && k(e) then [e] else [];
      assert Filter(h1, k) == h2;
      FilterConcat(h2, Filter(Filter(es[1..], q), k), p);
      var h3 := if q(e) && k(e) && p(e) then [e] else [];
      assert Filter(h2, p) == h3;
      SumConcat(h3, rest, Weight(b));
    }
  }

  /** Every cell of a built matrix is the reference total of its (row, column) pair. */
  lemma BuildCells(b: Builder, ids: seq<int>, es: seq<Enriched>, i: int, j: int)
    requires 0 <= i < |Build(b, ids, es).rows| && 0 <= j < |ids|
    ensures Build(b, ids, es).cells[i][j] == CellTotal(b, ids, es, Build(b, ids, es).rows[i], ids[j])
  {
    CellIsTotal(b, ids, es, Build(b, ids, es).rows[i], ids[j]);
  }

  /** A transfer with no positive fee never reaches a money cell, yet counts in the player
      matrix of the same side when its club is requested and its player is known. */
  lemma ZeroFeeCountsOnlyAsPlayer(ids: seq<int>, e: Enriched, side: Side)
    requires e.feeEur <= 0.0
    requires ClubOf(side, e).Some? && ClubOf(side, e).value in ids
    ensures !Qualifies(Builder(side, Money, [WithoutClub, Retired], [WithoutClub, Retired]), ids, e)
    ensures !Qualifies(Builder(side, Money, [WithoutClub, Retired, Unknown], [WithoutClub, Retired]), ids, e)
    ensures Qualifies(Builder(side, Players, [], [WithoutClub]), ids, e)
    ensures Qualifies(Builder(side, Players, [], [WithoutClub, Retired]), ids, e)
    ensures e.row.playerId.Some? ==> Weight(Builder(side, Players, [], [WithoutClub]))(e) == 1.0
  {
  }

  /** Every player-matrix cell counts qualifying transfers, so it is a non-negative whole
      number of players. */
  lemma {:induction false} PlayerCellIsCount(b: Builder, ids: seq<int>, es: seq<Enriched>, country: string, club: int)
    requires b.measure == Players
    ensures CellTotal(b, ids, es, country, club) == CountKnownPlayers(b, ids, es, country, club) as real
  {
    if es != [] {
      PlayerCellIsCount(b, ids, es[1..], country, club);
    }
  }

  /** The number of qualifying transfers of a pair that name a player. */
  function CountKnownPlayers(b: Builder, ids: seq<int>, es: seq<Enriched>, country: string, club: int): nat
  {
    if es == [] then 0
    else
      var e := es[0];
      (if Qualifies(b, ids, e) && ClubOf(b.side, e) == Some(club) && CountryOf(b.side, e) == country
          && e.row.playerId.Some? then 1 else 0)
      + CountKnownPlayers(b, ids, es[1..], country, club)
  }

  // ---------- column conservation ----------

  /** The sum of column `j` over all rows. */
  function ColSum(cells: seq<seq<real>>, j: int): real
    requires forall i :: 0 <= i < |cells| ==> 0 <= j < |cells[i]|
  {
    if cells == [] then 0.0
    else
      assert 0 <= j < |cells[0]|;
      cells[0][j] + ColSum(cells[1..], j)
  }

  lemma {:induction false} ColSumByKeys(b: Builder, sel: seq<Enriched>, rows: seq<string>, ids: seq<int>, j: int)
    requires 0 <= j < |ids|
    ensures ColSum(Cells(b, sel, rows, ids), j)
         == SumByKeys(rows, Filter(sel, ClubIs(b, ids[j])), CountryKey(b), Weight(b))
  {
    if rows != [] {
      ColSumByKeys(b, sel, rows[1..], ids, j);
      var cells := Cells(b, sel, rows, ids);
      assert cells[1..] == Cells(b, sel, rows[1..], ids);
    }
  }

  /** Grouping and reindexing lose nothing: a column adds up to the total weight of all
      qualifying transfers of its club. */
  lemma ColumnConservation(b: Builder, ids: seq<int>, es: seq<Enriched>, j: int)
    requires Distinct(b.extras) && 0 <= j < |ids|
    ensures ColSum(Build(b, ids, es).cells, j)
         == Sum(Filter(Filter(es, QualifiesFor(b, ids)), ClubIs(b, ids[j])), Weight(b))
  {
    var sel := Filter(es, QualifiesFor(b, ids));
    if sel != [] {
      var keys := Countries(b, sel);
      var rows := OrderedRows(keys, b.extras);
      ColSumByKeys(b, sel, rows, ids, j);
      var clubSel := Filter(sel, ClubIs(b, ids[j]));
      DistinctOrderedRows(keys, b.extras);
      forall e | e in clubSel ensures CountryKey(b)(e) in rows {
        assert e in sel;
      }
      PartitionSum(rows, clubSel, CountryKey(b), Weight(b));
    }
  }

  // ---------- percentages ----------

  /** The matrices `column_percentage_matrix` accepts. A non-empty matrix whose column labels
      repeat makes the lookup of a column total yield several totals, and the `> 0` test on
      them raises; every matrix the program passes has the distinct top-club ids as columns. */
  predicate PercentDefined(m: Matrix)
  {
    |m.rows| == 0 || |m.cols| == 0 || Distinct(m.cols)
  }

  /** A matrix built over distinct club ids, as the top-club selection yields, is accepted. */
  lemma BuiltPercentDefined(b: Builder, ids: seq<int>, es: seq<Enriched>)
    requires Distinct(ids)
    ensures PercentDefined(Build(b, ids, es))
  {
  }

  /** `column_percentage_matrix`: each column as a percentage of its total; a column with a
      total of 0 or less becomes all 0. A matrix without rows or columns is returned as is. */
  function ColumnPercentage(m: Matrix): (p: Matrix)
    requires WellShaped(m) && PercentDefined(m)
    ensures WellShaped(p) && p.rows == m.rows && p.cols == m.cols
    ensures |m.rows| == 0 || |m.cols| == 0 ==> p == m
  {
    if |m.rows| == 0 || |m.cols| == 0 then m
    else Matrix(m.rows, m.cols, Scale(m.cells, m.cells, |m.cols|))
  }

  /** `column_percentage_matrix(None)` is None. */
  function ColumnPercentageOf(m: Option<Matrix>): (p: Option<Matrix>)
    requires m.Some? ==> WellShaped(m.value) && PercentDefined(m.value)
    ensures p.None? <==> m.None?
  {
    match m
    case None => None
    case Some(x) => Some(ColumnPercentage(x))
  }

  /** Every column total of a matrix with `width` columns. */
  predicate HasWidth(cells: seq<seq<real>>, width: nat)
  {
    forall i :: 0 <= i < |cells| ==> |cells[i]| == width
  }

  /** A cell's percentage of its column total `total`. */
  function Percent(x: real, total: real): real
  {
    if total > 0.0 then x / total * 100.0 else 0.0
  }

  /** The rows of `cells`, each cell scaled by the column totals of `whole`. */
  function Scale(cells: seq<seq<real>>, whole: seq<seq<real>>, width: nat): (r: seq<seq<real>>)
    requires HasWidth(cells, width) && HasWidth(whole, width)
    ensures |r| == |cells| && HasWidth(r, width)
    ensures forall i, j :: 0 <= i < |cells| && 0 <= j < width ==> r[i][j] == Percent(cells[i][j], ColSum(whole, j))
  {
    if cells == [] then []
    else [ScaleRow(cells[0], whole, width)] + Scale(cells[1..], whole, width)
  }

  function ScaleRow(row: seq<real>, whole: seq<seq<real>>, width: nat): (r: seq<real>)
    requires |row| == width && HasWidth(whole, width)
    ensures |r| == width && forall j :: 0 <= j < width ==> r[j] == Percent(row[j], ColSum(whole, j))
  {
    seq(width, j requires 0 <= j < width => Percent(row[j], ColSum(whole, j)))
  }

  /** Summing scaled cells scales the sum. */
  lemma {:induction false} ColSumScaled(cells: seq<seq<real>>, whole: seq<seq<real>>, width: nat, j: int)
    requires HasWidth(cells, width) && HasWidth(whole, width) && 0 <= j < width
    ensures ColSum(Scale(cells, whole, width), j) == Percent(ColSum(cells, j), ColSum(whole, j))
  {
    if cells != [] {
      ColSumScaled(cells[1..], whole, width, j);
      var r := Scale(cells, whole, width);
      assert r[1..] == Scale(cells[1..], whole, width);
      var t := ColSum(whole, j);
      if t > 0.0 {
        PercentAdds(cells[0][j], ColSum(cells[1..], j), t);
      }
    }
  }

  lemma PercentAdds(x: real, y: real, t: real)
    requires t > 0.0
    ensures x / t * 100.0 + y / t * 100.0 == (x + y) / t * 100.0
  {
  }

  /** Each column of the percentage matrix sums to 100, or is all 0 when its total was not
      positive. */
  lemma PercentColumnsSum(m: Matrix, j: int)
    requires WellShaped(m) && PercentDefined(m) && |m.rows| > 0 && 0 <= j < |m.cols|
    ensures ColSum(m.cells, j) > 0.0 ==> ColSum(ColumnPercentage(m).cells, j) == 100.0
    ensures ColSum(m.cells, j) <= 0.0 ==>
      forall i :: 0 <= i < |m.rows| ==> ColumnPercentage(m).cells[i][j] == 0.0
  {
    ColSumScaled(m.cells, m.cells, |m.cols|, j);
    var t := ColSum(m.cells, j);
    if t > 0.0 {
      assert t / t == 1.0;
    }
  }

  /** A non-negative cell is at most its column total when the whole column is non-negative. */
  lemma {:induction false} CellAtMostColSum(cells: seq<seq<real>>, width: nat, j: int, i: int)
    requires HasWidth(cells, width) && 0 <= j < width
    requires forall k :: 0 <= k < |cells| ==> cells[k][j] >= 0.0
    requires 0 <= i < |cells|
    ensures 0.0 <= cells[i][j] <= ColSum(cells, j)
  {
    ColSumNonNegative(cells[1..], width, j);
    if i > 0 {
      CellAtMostColSum(cells[1..], width, j, i - 1);
    }
  }

  lemma {:induction false} ColSumNonNegative(cells: seq<seq<real>>, width: nat, j: int)
    requires HasWidth(cells, width) && 0 <= j < width
    requires forall k :: 0 <= k < |cells| ==> cells[k][j] >= 0.0
    ensures ColSum(cells, j) >= 0.0
  {
    if cells != [] {
      ColSumNonNegative(cells[1..], width, j);
    }
  }

  /** With non-negative cells every percentage lies in [0, 100]. */
  lemma PercentInRange(m: Matrix, i: int, j: int)
    requires WellShaped(m) && PercentDefined(m) && 0 <= i < |m.rows| && 0 <= j < |m.cols|
    requires forall k, l :: 0 <= k < |m.rows| && 0 <= l < |m.cols| ==> m.cells[k][l] >= 0.0
    ensures 0.0 <= ColumnPercentage(m).cells[i][j] <= 100.0
  {
    CellAtMostColSum(m.cells, |m.cols|, j, i);
    var x := m.cells[i][j];
    var t := ColSum(m.cells, j);
    if t > 0.0 {
      PercentBounded(x, t);
    }
  }

  lemma PercentBounded(x: real, t: real)
    requires 0.0 <= x <= t && t > 0.0
    ensures 0.0 <= x / t * 100.0 <= 100.0
  {
    assert x / t <= 1.0;
  }
}
