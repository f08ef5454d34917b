/** Per-club statistics: games played and won, win percentage, and money spent and earned on
    transfers, over a selection of seasons or broken down season by season. */
module TeamStats {
  import opened Wrappers
  import opened Seqs
  import opened Buckets
  import opened Seasons

  /** A row of the games table; `season` is the calendar year the season starts in. */
  datatype Game = Game(season: int, homeId: int, awayId: int, homeGoals: int, awayGoals: int)

  /** The figures reported for one club (or one club in one season). */
  datatype Figures = Figures(played: nat, won: nat, winPct: real, spent: real, earned: real)

  datatype ClubStats = ClubStats(clubId: int, figures: Figures)

  datatype SeasonStats = SeasonStats(season: string, figures: Figures)

  // ---------- games ----------

  function IsHome(club: int): Game -> bool { (g: Game) => g.homeId == club }
  function IsAway(club: int): Game -> bool { (g: Game) => g.awayId == club }
  function HomeWin(): Game -> bool { (g: Game) => g.homeGoals > g.awayGoals }
  function AwayWin(): Game -> bool { (g: Game) => g.awayGoals > g.homeGoals }

  /** Home plus away appearances. */
  function Played(games: seq<Game>, club: int): nat
  {
    |Filter(games, IsHome(club))| + |Filter(games, IsAway(club))|
  }

  /** Home games with more home goals plus away games with more away goals: a draw is no win. */
  function Won(games: seq<Game>, club: int): (won: nat)
    ensures won <= Played(games, club)
  {
    |Filter(Filter(games, IsHome(club)), HomeWin())| + |Filter(Filter(games, IsAway(club)), AwayWin())|
  }

  /** Reference count of appearances, game by game. */
  function Appearances(games: seq<Game>, club: int): nat
  {
    if games == [] then 0
    else (if games[0].homeId == club then 1 else 0) + (if games[0].awayId == club then 1 else 0)
         + Appearances(games[1..], club)
  }

  /** Reference count of wins, game by game: strictly more goals than the opponent. */
  function Wins(games: seq<Game>, club: int): nat
  {
    if games == [] then 0
    else (if games[0].homeId == club && games[0].homeGoals > games[0].awayGoals then 1 else 0)
         + (if games[0].awayId == club && games[0].awayGoals > games[0].homeGoals then 1 else 0)
         + Wins(games[1..], club)
  }

  /** The filtered counts agree with the game-by-game reference counts. */
  lemma PlayedIsAppearances(games: seq<Game>, club: int)
    ensures Played(games, club) == Appearances(games, club)
    ensures Won(games, club) == Wins(games, club)
  {
    PlayedCount(games, club);
    WonCount(games, club);
  }

  lemma {:induction false} PlayedCount(games: seq<Game>, club: int)
    ensures Played(games, club) == Appearances(games, club)
  {
    if games != [] {
      PlayedCount(games[1..], club);
    }
  }

  lemma {:induction false} WonCount(games: seq<Game>, club: int)
    ensures Won(games, club) == Wins(games, club)
  {
    if games != [] {
      WonCount(games[1..], club);
      FilterFilterCons(games, IsHome(club), HomeWin());
      FilterFilterCons(games, IsAway(club), AwayWin());
    }
  }

  /** Win percentage, 0 for a club without games. */
  function WinPct(won: nat, played: nat): (pct: real)
    requires won <= played
    ensures played == 0 ==> pct == 0.0
    ensures 0.0 <= pct <= 100.0
    ensures played > 0 && won == played ==> pct == 100.0
  {
    if played > 0 then won as real / played as real * 100.0 else 0.0
  }

  // ---------- money ----------

  function BuysFor(club: int): Enriched -> bool { (e: Enriched) => e.row.toId == Some(club) }
  function SellsFor(club: int): Enriched -> bool { (e: Enriched) => e.row.fromId == Some(club) }
  function FeeOf(): Enriched -> real { (e: Enriched) => e.feeEur }

  /** Fees paid by the club: transfers into it. */
  function Spent(es: seq<Enriched>, club: int): real
  {
    Sum(Filter(es, BuysFor(club)), FeeOf())
  }

  /** Fees received by the club: transfers out of it. */
  function Earned(es: seq<Enriched>, club: int): real
  {
    Sum(Filter(es, SellsFor(club)), FeeOf())
  }

  /** Money spent and earned is never negative when no fee is. */
  lemma MoneyNonNegative(es: seq<Enriched>, club: int)
    requires forall e :: e in es ==> e.feeEur >= 0.0
    ensures Spent(es, club) >= 0.0 && Earned(es, club) >= 0.0
  {
    var b := Filter(es, BuysFor(club));
    var s := Filter(es, SellsFor(club));
    assert forall i :: 0 <= i < |b| ==> b[i] in es;
    assert forall i :: 0 <= i < |s| ==> s[i] in es;
    SumNonNegative(b, FeeOf());
    SumNonNegative(s, FeeOf());
  }

  function FiguresOf(games: seq<Game>, es: seq<Enriched>, club: int): (f: Figures)
    ensures f.won <= f.played
    ensures 0.0 <= f.winPct <= 100.0 && (f.played == 0 ==> f.winPct == 0.0)
  {
    var played := Played(games, club);
    var won := Won(games, club);
    Figures(played, won, WinPct(won, played), Spent(es, club), Earned(es, club))
  }

  /** A club with no game and no transfer in the selection gets all-zero figures. */
  lemma InactiveClubFigures(games: seq<Game>, es: seq<Enriched>, club: int)
    requires forall g :: g in games ==> g.homeId != club && g.awayId != club
    requires forall e :: e in es ==> e.row.toId != Some(club) && e.row.fromId != Some(club)
    ensures FiguresOf(games, es, club) == Figures(0, 0, 0.0, 0.0, 0.0)
  {
    FilterNone(games, IsHome(club));
    FilterNone(games, IsAway(club));
    FilterNone(es, BuysFor(club));
    FilterNone(es, SellsFor(club));
  }

  // ---------- season selection ----------

  /** The game years of the selected seasons; unparsable labels contribute nothing. */
  function GamesYears(seasons: seq<string>): (years: seq<int>)
    ensures |years| <= |seasons|
    ensures forall y :: y in years <==> exists s :: s in seasons && SeasonYear(s) == Some(y)
    ensures years == [] <==> forall s :: s in seasons ==> SeasonYear(s).None?
  {
    if seasons == [] then []
    else
      var rest := GamesYears(seasons[1..]);
      assert forall s :: s in seasons <==> s == seasons[0] || s in seasons[1..];
      match SeasonYear(seasons[0])
      case None => rest
      case Some(y) => [y] + rest
  }

  function InYears(years: seq<int>): Game -> bool { (g: Game) => g.season in years }

  /** The games of the selected seasons; all games when no selected label parses. */
  function GamesOf(games: seq<Game>, selected: Option<seq<string>>): (gs: seq<Game>)
    ensures selected.None? ==> gs == games
    ensures selected.Some? && GamesYears(selected.value) == [] ==> gs == games
    ensures selected.Some? && GamesYears(selected.value) != [] ==>
              forall g :: g in gs <==> g in games && g.season in GamesYears(selected.value)
  {
    var years := if selected.Some? then GamesYears(selected.value) else [];
    if years != [] then Filter(games, InYears(years)) else games
  }

  /** `calculate_team_statistics`: one record per requested club, in order. Games are
      restricted to the years of the parsable selected seasons, transfers to the selected
      season labels. */
  function TeamStatistics(clubIds: seq<int>, games: seq<Game>, es: seq<Enriched>, selected: Option<seq<string>>): (r: seq<ClubStats>)
    ensures |r| == |clubIds|
    ensures forall i :: 0 <= i < |r| ==> r[i].clubId == clubIds[i]
    ensures forall i :: 0 <= i < |r| ==> r[i].figures.won <= r[i].figures.played
  {
    var gs := GamesOf(games, selected);
    var ts := FilterBySeasons(es, selected);
    seq(|clubIds|, i requires 0 <= i < |clubIds| => ClubStats(clubIds[i], FiguresOf(gs, ts, clubIds[i])))
  }

  /** With no selection everything counts. */
  lemma TeamStatisticsAll(clubIds: seq<int>, games: seq<Game>, es: seq<Enriched>, i: int)
    requires 0 <= i < |clubIds|
    ensures TeamStatistics(clubIds, games, es, None)[i].figures == FiguresOf(games, es, clubIds[i])
  {
  }

  /** When no selected label parses as a season, games go unfiltered while transfers are
      still restricted to the selected labels. */
  lemma UnparsableSelectionKeepsAllGames(clubIds: seq<int>, games: seq<Game>, es: seq<Enriched>, selected: seq<string>, i: int)
    requires forall s :: s in selected ==> SeasonYear(s).None?
    requires 0 <= i < |clubIds|
    ensures TeamStatistics(clubIds, games, es, Some(selected))[i].figures
         == FiguresOf(games, FilterBySeasons(es, Some(selected)), clubIds[i])
  {
  }

  /** When some selected label parses, each record counts exactly the games of the
      selected game years and the transfers of the selected season labels. */
  lemma TeamStatisticsSelected(clubIds: seq<int>, games: seq<Game>, es: seq<Enriched>, selected: seq<string>, i: int)
    requires GamesYears(selected) != []
    requires 0 <= i < |clubIds|
    ensures var f := TeamStatistics(clubIds, games, es, Some(selected))[i].figures;
            var gs := Filter(games, InYears(GamesYears(selected)));
            var ts := FilterBySeasons(es, Some(selected));
            f.played == Played(gs, clubIds[i]) && f.won == Won(gs, clubIds[i])
            && f.spent == Spent(ts, clubIds[i]) && f.earned == Earned(ts, clubIds[i])
  {
  }

  // ---------- per season ----------

  /** `calculate_per_season_statistics`: one record per parsable season, in order; a label
      whose start year does not parse yields no record. */
  function PerSeasonStatistics(club: int, games: seq<Game>, es: seq<Enriched>, seasons: seq<string>): (r: seq<SeasonStats>)
    ensures |r| <= |seasons|
  {
    if seasons == [] then []
    else
      var s := seasons[0];
      var rest := PerSeasonStatistics(club, games, es, seasons[1..]);
      match SeasonYear(s)
      case None => rest
      case Some(year) =>
        [SeasonStats(s, FiguresOf(Filter(games, InYears([year])), Filter(es, InSeasons([s])), club))] + rest
  }

  function Parsable(): string -> bool { (s: string) => SeasonYear(s).Some? }

  function SeasonOf(r: seq<SeasonStats>): (labels: seq<string>)
    ensures |labels| == |r|
  {
    if r == [] then [] else [r[0].season] + SeasonOf(r[1..])
  }

  /** The records are for exactly the parsable labels, in their order. */
  lemma {:induction false} PerSeasonLabels(club: int, games: seq<Game>, es: seq<Enriched>, seasons: seq<string>)
    ensures SeasonOf(PerSeasonStatistics(club, games, es, seasons)) == Filter(seasons, Parsable())
  {
    if seasons != [] {
      PerSeasonLabels(club, games, es, seasons[1..]);
    }
  }

  /** Each per-season record is the team statistics of that club restricted to that one
      season. */
  lemma PerSeasonIsSingleSeason(club: int, games: seq<Game>, es: seq<Enriched>, s: string)
    requires SeasonYear(s).Some?
    ensures PerSeasonStatistics(club, games, es, [s])
         == [SeasonStats(s, TeamStatistics([club], games, es, Some([s]))[0].figures)]
  {
    assert [s][1..] == [];
    assert GamesYears([s]) == [SeasonYear(s).value];
  }
}
