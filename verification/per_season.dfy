/** `build_per_season_data`: the four aggregation matrices computed once per season, so the
    dashboard can later add up any selection of seasons. The split is lossless: for every
    (country, club) pair the per-season cells add up to the cell of the whole table. */
module PerSeason {
  import opened Wrappers
  import opened Seqs
  import opened Buckets
  import opened Matrices

  /** The four matrices of one season. */
  datatype SeasonMatrices = SeasonMatrices(moneyIn: Matrix, moneyOut: Matrix, playersIn: Matrix, playersOut: Matrix)

  /** The season label of a transfer (`transfer_season`). */
  function TransferSeason(): Enriched -> string
  {
    (e: Enriched) => e.row.season
  }

  /** The transfers of one season, in their original order. */
  function SeasonRows(es: seq<Enriched>, season: string): seq<Enriched>
  {
    Filter(es, KeyIs(TransferSeason(), season))
  }

  /** The four matrices of `season` for the requested clubs. */
  function ForSeason(ids: seq<int>, es: seq<Enriched>, season: string): SeasonMatrices
  {
    var sel := SeasonRows(es, season);
    SeasonMatrices(Build(MoneyIn, ids, sel), Build(MoneyOut, ids, sel), Build(PlayersIn, ids, sel), Build(PlayersOut, ids, sel))
  }

  /** The loop of `build_per_season_data`: one entry per listed season, later listings of the
      same season overwriting earlier ones with the same value. */
  method BuildPerSeasonData(ids: seq<int>, es: seq<Enriched>, allSeasons: seq<string>)
    returns (perSeason: map<string, SeasonMatrices>)
    ensures forall s :: s in perSeason <==> s in allSeasons
    ensures forall s :: s in perSeason ==> perSeason[s] == ForSeason(ids, es, s)
  {
    perSeason := map[];
    var k := 0;
    while k < |allSeasons|
      invariant 0 <= k <= |allSeasons|
      invariant forall s :: s in perSeason <==> s in allSeasons[..k]
      invariant forall s :: s in perSeason ==> perSeason[s] == ForSeason(ids, es, s)
    {
      var season := allSeasons[k];
      perSeason := perSeason[season := ForSeason(ids, es, season)];
      assert allSeasons[..k + 1] == allSeasons[..k] + [season];
      k := k + 1;
    }
    assert allSeasons[..k] == allSeasons;
  }

  // ---------- the split is lossless ----------

  /** What one transfer contributes to the (country, club) cell of builder `b`. */
  function CellWeight(b: Builder, ids: seq<int>, country: string, club: int): Enriched -> real
  {
    (e: Enriched) =>
      if Qualifies(b, ids, e) && ClubOf(b.side, e) == Some(club) && CountryOf(b.side, e) == country
      then Weight(b)(e) else 0.0
  }

  /** A cell total is the sum of the contributions of the transfers. */
  lemma {:induction false} CellTotalIsSum(b: Builder, ids: seq<int>, es: seq<Enriched>, country: string, club: int)
    ensures CellTotal(b, ids, es, country, club) == Sum(es, CellWeight(b, ids, country, club))
  {
    if es != [] {
      CellTotalIsSum(b, ids, es[1..], country, club);
    }
  }

  /** The (country, club) cell of builder `b` added up over the per-season tables. */
  function SeasonsTotal(b: Builder, ids: seq<int>, es: seq<Enriched>, seasons: seq<string>, country: string, club: int): real
  {
    if seasons == [] then 0.0
    else CellTotal(b, ids, SeasonRows(es, seasons[0]), country, club) + SeasonsTotal(b, ids, es, seasons[1..], country, club)
  }

  lemma {:induction false} SeasonsTotalByKeys(b: Builder, ids: seq<int>, es: seq<Enriched>, seasons: seq<string>, country: string, club: int)
    ensures SeasonsTotal(b, ids, es, seasons, country, club)
         == SumByKeys(seasons, es, TransferSeason(), CellWeight(b, ids, country, club))
  {
    if seasons != [] {
      SeasonsTotalByKeys(b, ids, es, seasons[1..], country, club);
      CellTotalIsSum(b, ids, SeasonRows(es, seasons[0]), country, club);
    }
  }

  /** Adding up the per-season cells over seasons that list every transfer's season exactly
      once gives back the cell of the whole table, for each of the four builders. */
  lemma SeasonSplit(b: Builder, ids: seq<int>, es: seq<Enriched>, seasons: seq<string>, country: string, club: int)
    requires Distinct(seasons)
    requires forall e :: e in es ==> e.row.season in seasons
    ensures SeasonsTotal(b, ids, es, seasons, country, club) == CellTotal(b, ids, es, country, club)
  {
    SeasonsTotalByKeys(b, ids, es, seasons, country, club);
    PartitionSum(seasons, es, TransferSeason(), CellWeight(b, ids, country, club));
    CellTotalIsSum(b, ids, es, country, club);
  }

  /** A bucket is a row of the whole-table matrix exactly when it is a row of some season's
      matrix, when the seasons cover every transfer. */
  lemma SeasonRowsCover(b: Builder, ids: seq<int>, es: seq<Enriched>, seasons: seq<string>, c: string)
    requires forall e :: e in es ==> e.row.season in seasons
    ensures c in Build(b, ids, es).rows <==>
            exists s :: s in seasons && c in Build(b, ids, SeasonRows(es, s)).rows
  {
    BuildRows(b, ids, es, c);
    if c in Build(b, ids, es).rows {
      var e :| e in es && Qualifies(b, ids, e) && CountryOf(b.side, e) == c;
      var s := e.row.season;
      assert e in SeasonRows(es, s);
      BuildRows(b, ids, SeasonRows(es, s), c);
    }
    forall s | s in seasons && c in Build(b, ids, SeasonRows(es, s)).rows
      ensures c in Build(b, ids, es).rows
    {
      BuildRows(b, ids, SeasonRows(es, s), c);
    }
  }

  /** A listed season without transfers yields four matrices with no rows and exactly the
      requested columns. */
  lemma EmptySeason(ids: seq<int>, es: seq<Enriched>, season: string)
    requires forall e :: e in es ==> e.row.season != season
    ensures ForSeason(ids, es, season)
         == SeasonMatrices(Matrix([], ids, []), Matrix([], ids, []), Matrix([], ids, []), Matrix([], ids, []))
  {
    FilterNone(es, KeyIs(TransferSeason(), season));
  }
}
