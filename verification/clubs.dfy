/** The club tables: attaching a country to every club through its domestic competition
    (a pandas left join), the id → country and id → name dictionaries built from the result,
    and the choice of the most-played clubs that become the heatmap columns. */
module Clubs {
  import opened Wrappers
  import opened Seqs
  import opened Sorting
  import opened Buckets
  import opened TeamStats

  /** A row of `clubs.csv`: the club id, its name and its domestic competition id. */
  datatype Club = Club(id: int, name: Option<string>, domesticCompetition: Option<string>)

  /** The two columns of `competitions.csv` the join uses. */
  datatype Competition = Competition(id: string, country: Option<string>)

  /** A club with the `club_country` column attached. */
  datatype ClubRow = ClubRow(club: Club, country: string)

  // ---------------------------------------------------------------------------------------
  // preprocess_clubs
  // ---------------------------------------------------------------------------------------

  /** The predicate "competition c is the domestic competition `id`"; a null id matches nothing. */
  function CompetitionIs(id: Option<string>): Competition -> bool
  {
    (c: Competition) => id == Some(c.id)
  }

  /** The joined country of one competition row, with a null country filled as `Unknown`. */
  function FilledCountry(c: Competition): string
  {
    c.country.GetOr(Unknown)
  }

  /** No competition row matches the club's domestic competition id. */
  predicate Unmatched(club: Club, comps: seq<Competition>)
  {
    forall c :: c in comps ==> !CompetitionIs(club.domesticCompetition)(c)
  }

  /** The rows a left join emits for one club: one per matching competition row, in the
      competitions' order, or a single `Unknown` row when nothing matches. */
  function JoinClub(club: Club, comps: seq<Competition>): (rows: seq<ClubRow>)
    ensures |rows| >= 1
    ensures forall r :: r in rows ==> r.club == club
  {
    var matches := Filter(comps, CompetitionIs(club.domesticCompetition));
    if matches == [] then [ClubRow(club, Unknown)]
    else seq(|matches|, i requires 0 <= i < |matches| => ClubRow(club, FilledCountry(matches[i])))
  }

  /** The countries a club is joined with are exactly those of its matching competitions,
      or `Unknown` alone when none matches. */
  lemma JoinClubRows(club: Club, comps: seq<Competition>)
    ensures Unmatched(club, comps) ==> JoinClub(club, comps) == [ClubRow(club, Unknown)]
    ensures forall c :: c in comps && CompetitionIs(club.domesticCompetition)(c)
              ==> ClubRow(club, FilledCountry(c)) in JoinClub(club, comps)
    ensures forall r :: r in JoinClub(club, comps) && !Unmatched(club, comps) ==>
              exists c :: c in comps && CompetitionIs(club.domesticCompetition)(c) && r.country == FilledCountry(c)
  {
    var p := CompetitionIs(club.domesticCompetition);
    var matches := Filter(comps, p);
    var rows := JoinClub(club, comps);
    if matches != [] {
      assert matches[0] in matches;
      forall c | c in comps && p(c) ensures ClubRow(club, FilledCountry(c)) in rows {
        assert c in matches;
        var i :| 0 <= i < |matches| && matches[i] == c;
        assert rows[i] == ClubRow(club, FilledCountry(c));
      }
      forall r | r in rows ensures exists c :: c in comps && p(c) && r.country == FilledCountry(c) {
        var i :| 0 <= i < |rows| && rows[i] == r;
        assert matches[i] in matches;
      }
    } else {
      forall c | c in comps ensures !p(c) {
        assert c !in matches;
      }
    }
  }

  function JoinAll(clubs: seq<Club>, comps: seq<Competition>): (rows: seq<ClubRow>)
    ensures |rows| >= |clubs|
    ensures forall r :: r in rows ==> r.club in clubs
  {
    if clubs == [] then []
    else JoinClub(clubs[0], comps) + JoinAll(clubs[1..], comps)
  }

  /** `preprocess_clubs`: the left join of the clubs with the de-duplicated
      (competition id, country) pairs. */
  function PreprocessClubs(clubs: seq<Club>, comps: seq<Competition>): (rows: seq<ClubRow>)
    ensures |rows| >= |clubs|
    ensures forall r :: r in rows ==> r.club in clubs
  {
    JoinAll(clubs, Dedup(comps))
  }

  /** Every club survives the left join, and an unmatched club gets the country `Unknown`. */
  lemma {:induction false} EveryClubSurvives(clubs: seq<Club>, comps: seq<Competition>, k: int)
    requires 0 <= k < |clubs|
    ensures exists r :: r in PreprocessClubs(clubs, comps) && r.club == clubs[k]
    ensures Unmatched(clubs[k], comps) ==> ClubRow(clubs[k], Unknown) in PreprocessClubs(clubs, comps)
  {
    var rows := JoinClub(clubs[k], Dedup(comps));
    JoinClubRows(clubs[k], Dedup(comps));
    assert rows[0] in rows;
    JoinAllContains(clubs, Dedup(comps), k, rows[0]);
  }

  lemma JoinAllContains(clubs: seq<Club>, comps: seq<Competition>, k: int, r: ClubRow)
    requires 0 <= k < |clubs| && r in JoinClub(clubs[k], comps)
    ensures r in JoinAll(clubs, comps)
  {
    JoinAllIsFlatMap(clubs, comps);
    FlatMapContains(clubs, JoinWith(comps), k, r);
  }

  function JoinWith(comps: seq<Competition>): Club -> seq<ClubRow>
  {
    (c: Club) => JoinClub(c, comps)
  }

  /** The join is the concatenation of the per-club joins. */
  lemma {:induction false} JoinAllIsFlatMap(clubs: seq<Club>, comps: seq<Competition>)
    ensures JoinAll(clubs, comps) == FlatMap(clubs, JoinWith(comps))
  {
    if clubs != [] {
      JoinAllIsFlatMap(clubs[1..], comps);
    }
  }

  /** Each competition id names one country (the usual shape of `competitions.csv`). */
  predicate UniqueCompetitions(comps: seq<Competition>)
  {
    forall a, b :: a in comps && b in comps && a.id == b.id ==> a == b
  }

  /** The reference reading of the join: the country of the first competition with the
      club's domestic id, or `Unknown`. */
  function CompetitionCountry(id: Option<string>, comps: seq<Competition>): string
  {
    if comps == [] then Unknown
    else if CompetitionIs(id)(comps[0]) then FilledCountry(comps[0])
    else CompetitionCountry(id, comps[1..])
  }

  lemma {:induction false} CompetitionCountryFound(id: Option<string>, comps: seq<Competition>, c: Competition)
    requires UniqueCompetitions(comps)
    requires c in comps && CompetitionIs(id)(c)
    ensures CompetitionCountry(id, comps) == FilledCountry(c)
  {
    if !CompetitionIs(id)(comps[0]) {
      assert c in comps[1..];
      CompetitionCountryFound(id, comps[1..], c);
    }
  }

  lemma {:induction false} CompetitionCountryMissing(id: Option<string>, comps: seq<Competition>)
    requires forall c :: c in comps ==> !CompetitionIs(id)(c)
    ensures CompetitionCountry(id, comps) == Unknown
  {
    if comps != [] {
      CompetitionCountryMissing(id, comps[1..]);
    }
  }

  /** A distinct sequence all of whose elements are equal has at most one element. */
  lemma AllEqualDistinct<T(!new)>(s: seq<T>)
    requires Distinct(s)
    requires forall i, j :: 0 <= i < |s| && 0 <= j < |s| ==> s[i] == s[j]
    ensures |s| <= 1
  {
    if s != [] {
      AllEqualCount(s, s[0]);
      DistinctMultiset(s, s[0]);
    }
  }

  lemma {:induction false} AllEqualCount<T(!new)>(s: seq<T>, x: T)
    requires forall i :: 0 <= i < |s| ==> s[i] == x
    ensures multiset(s)[x] == |s|
  {
    if s != [] {
      assert s == [s[0]] + s[1..];
      AllEqualCount(s[1..], x);
    }
  }

  /** With unique competition ids a club joins exactly one row, whose country is the
      reference country. */
  lemma JoinClubUnique(club: Club, comps: seq<Competition>)
    requires Distinct(comps) && UniqueCompetitions(comps)
    ensures JoinClub(club, comps) == [ClubRow(club, CompetitionCountry(club.domesticCompetition, comps))]
  {
    var p := CompetitionIs(club.domesticCompetition);
    var matches := Filter(comps, p);
    if matches == [] {
      CompetitionCountryMissing(club.domesticCompetition, comps);
    } else {
      FilterDistinct(comps, p);
      assert forall i, j :: 0 <= i < |matches| && 0 <= j < |matches| ==> matches[i] == matches[j] by {
        forall i, j | 0 <= i < |matches| && 0 <= j < |matches| ensures matches[i] == matches[j] {
          assert matches[i] in matches && matches[j] in matches;
        }
      }
      AllEqualDistinct(matches);
      assert matches[0] in matches;
      CompetitionCountryFound(club.domesticCompetition, comps, matches[0]);
    }
  }

  lemma DedupUnique(comps: seq<Competition>)
    requires UniqueCompetitions(comps)
    ensures UniqueCompetitions(Dedup(comps))
  {
  }

  /** When every competition id names one country the join is one-to-one: row `i` is club
      `i` with the country of its domestic competition, or `Unknown`. */
  lemma {:induction false} PreprocessOneToOne(clubs: seq<Club>, comps: seq<Competition>)
    requires UniqueCompetitions(comps)
    ensures |PreprocessClubs(clubs, comps)| == |clubs|
    ensures forall i :: 0 <= i < |clubs| ==>
              PreprocessClubs(clubs, comps)[i] == ClubRow(clubs[i], CompetitionCountry(clubs[i].domesticCompetition, Dedup(comps)))
  {
    DedupUnique(comps);
    JoinAllOneToOne(clubs, Dedup(comps));
  }

  lemma {:induction false} JoinAllOneToOne(clubs: seq<Club>, comps: seq<Competition>)
    requires Distinct(comps) && UniqueCompetitions(comps)
    ensures |JoinAll(clubs, comps)| == |clubs|
    ensures forall i :: 0 <= i < |clubs| ==>
              JoinAll(clubs, comps)[i] == ClubRow(clubs[i], CompetitionCountry(clubs[i].domesticCompetition, comps))
  {
    if clubs != [] {
      JoinClubUnique(clubs[0], comps);
      JoinAllOneToOne(clubs[1..], comps);
    }
  }

  /** Looking a domestic id up in the de-duplicated pairs finds the same country as looking
      it up in the raw competitions. */
  lemma DedupCountry(id: Option<string>, comps: seq<Competition>)
    requires UniqueCompetitions(comps)
    ensures CompetitionCountry(id, Dedup(comps)) == CompetitionCountry(id, comps)
  {
    if c :| c in comps && CompetitionIs(id)(c) {
      CompetitionCountryFound(id, comps, c);
      CompetitionCountryFound(id, Dedup(comps), c);
    } else {
      CompetitionCountryMissing(id, comps);
      CompetitionCountryMissing(id, Dedup(comps));
    }
  }

  // ---------------------------------------------------------------------------------------
  // club_country_map and club_id_to_name
  // ---------------------------------------------------------------------------------------

  /** `dict(zip(club_id, column))` over the joined rows: every club id becomes a key, and a
      key's value is taken from the last row with that id. */
  function ZipById<V>(rows: seq<ClubRow>, column: ClubRow -> V): (m: map<int, V>)
    ensures forall id :: id in m <==> exists i :: 0 <= i < |rows| && rows[i].club.id == id
    ensures forall i :: 0 <= i < |rows| && LastClub(rows, i) ==> m[rows[i].club.id] == column(rows[i])
  {
    var pairs := seq(|rows|, i requires 0 <= i < |rows| => (rows[i].club.id, column(rows[i])));
    assert forall i :: 0 <= i < |rows| ==> pairs[i].0 == rows[i].club.id;
    assert forall i :: 0 <= i < |rows| && LastClub(rows, i) ==> LastWithKey(pairs, i);
    DictFromPairs(pairs)
  }

  /** `club_country_map`. */
  function ClubCountryMap(rows: seq<ClubRow>): map<int, string>
  {
    ZipById(rows, (r: ClubRow) => r.country)
  }

  /** `club_id_to_name`. */
  function ClubNameMap(rows: seq<ClubRow>): map<int, Option<string>>
  {
    ZipById(rows, (r: ClubRow) => r.club.name)
  }

  /** No later row has the same club id as row `i`. */
  predicate LastClub(rows: seq<ClubRow>, i: int)
    requires 0 <= i < |rows|
  {
    forall j :: i < j < |rows| ==> rows[j].club.id != rows[i].club.id
  }

  /** A repeated club id keeps the country of its last row. */
  lemma LastRowWins(rows: seq<ClubRow>, i: int, j: int)
    requires 0 <= i < j < |rows| && rows[i].club.id == rows[j].club.id
    requires LastClub(rows, j)
    ensures ClubCountryMap(rows)[rows[i].club.id] == rows[j].country
    ensures ClubNameMap(rows)[rows[i].club.id] == rows[j].club.name
  {
  }

  /** With unique competition ids and unique club ids, the map gives every club the
      country of its domestic competition, or `Unknown`. */
  lemma ClubCountryMapOf(clubs: seq<Club>, comps: seq<Competition>, k: int)
    requires UniqueCompetitions(comps)
    requires forall i, j :: 0 <= i < j < |clubs| ==> clubs[i].id != clubs[j].id
    requires 0 <= k < |clubs|
    ensures var m := ClubCountryMap(PreprocessClubs(clubs, comps));
            clubs[k].id in m && m[clubs[k].id] == CompetitionCountry(clubs[k].domesticCompetition, comps)
  {
    var rows := PreprocessClubs(clubs, comps);
    PreprocessOneToOne(clubs, comps);
    DedupCountry(clubs[k].domesticCompetition, comps);
    assert rows[k].club == clubs[k];
    assert LastClub(rows, k) by {
      forall j | k < j < |rows| ensures rows[j].club.id != rows[k].club.id {
        assert rows[j].club == clubs[j];
      }
    }
  }

  // ---------------------------------------------------------------------------------------
  // build_top_clubs
  // ---------------------------------------------------------------------------------------

  /** The concatenated home and away id columns. */
  function AppearanceIds(games: seq<Game>): (ids: seq<int>)
    ensures |ids| == 2 * |games|
    ensures forall i :: 0 <= i < |games| ==> ids[i] == games[i].homeId && ids[|games| + i] == games[i].awayId
  {
    seq(|games|, i requires 0 <= i < |games| => games[i].homeId)
      + seq(|games|, i requires 0 <= i < |games| => games[i].awayId)
  }

  /** How often `id` occurs in the concatenated columns. */
  function Count(ids: seq<int>, id: int): nat
  {
    multiset(ids)[id]
  }

  /** The order of `value_counts`: more frequent first. */
  function MoreFrequent(ids: seq<int>): (int, int) -> bool
  {
    (a: int, b: int) => Count(ids, a) >= Count(ids, b)
  }

  lemma MoreFrequentPreorder(ids: seq<int>)
    ensures TotalPreorder(MoreFrequent(ids))
  {
  }

  /** `value_counts().index`: the distinct ids by descending count, ties in order of
      first appearance. */
  function RankByCount(ids: seq<int>): (ranked: seq<int>)
    ensures multiset(ranked) == multiset(Dedup(ids))
  {
    SortBy(Dedup(ids), MoreFrequent(ids))
  }

  /** pandas' `head(n)`: the first `n` entries, or all but the last `-n` when `n` is negative. */
  function Head<T>(s: seq<T>, n: int): (h: seq<T>)
    ensures n >= 0 ==> |h| == if n <= |s| then n else |s|
    ensures n < 0 ==> |h| == if |s| + n >= 0 then |s| + n else 0
    ensures h == s[..|h|]
  {
    if n >= 0 then (if n <= |s| then s[..n] else s)
    else if |s| + n >= 0 then s[..|s| + n]
    else []
  }

  /** `build_top_clubs`: the `topN` most-played ids, then only those present in the clubs table. */
  function BuildTopClubs(games: seq<Game>, known: seq<int>, topN: int): (top: seq<int>)
    ensures topN >= 0 ==> |top| <= topN
    ensures forall id :: id in top <==> id in Head(RankByCount(AppearanceIds(games)), topN) && id in known
  {
    Filter(Head(RankByCount(AppearanceIds(games)), topN), Member(known))
  }

  /** Every chosen id is a known club that played at least one game. */
  lemma TopClubsPlayed(games: seq<Game>, known: seq<int>, topN: int, id: int)
    requires id in BuildTopClubs(games, known, topN)
    ensures id in known
    ensures exists g :: g in games && (g.homeId == id || g.awayId == id)
  {
    var ids := AppearanceIds(games);
    var ranked := RankByCount(ids);
    assert id in ranked;
    assert id in multiset(Dedup(ids));
    assert id in Dedup(ids);
    assert id in ids;
    var k :| 0 <= k < |ids| && ids[k] == id;
    if k < |games| {
      assert games[k].homeId == id;
    } else {
      assert games[k - |games|].awayId == id;
    }
  }

  /** A sorted sequence stays sorted when filtered. */
  lemma {:induction false} FilterSorted<T(!new)>(s: seq<T>, p: T -> bool, le: (T, T) -> bool)
    requires SortedBy(s, le)
    ensures SortedBy(Filter(s, p), le)
  {
    if s != [] {
      FilterSorted(s[1..], p, le);
      var rest := Filter(s[1..], p);
      if p(s[0]) {
        var r := [s[0]] + rest;
        forall i, j | 0 <= i < j < |r| ensures le(r[i], r[j]) {
          if i == 0 {
            assert r[j] in rest;
            var k :| 0 <= k < |s[1..]| && s[1..][k] == r[j];
            assert s[k + 1] == r[j];
          } else {
            assert r[i] == rest[i - 1] && r[j] == rest[j - 1];
          }
        }
      }
    }
  }

  /** The chosen ids are distinct and come in non-increasing order of appearances. */
  lemma TopClubsOrdered(games: seq<Game>, known: seq<int>, topN: int)
    ensures Distinct(BuildTopClubs(games, known, topN))
    ensures forall i, j :: 0 <= i < j < |BuildTopClubs(games, known, topN)| ==>
              Count(AppearanceIds(games), BuildTopClubs(games, known, topN)[i])
                >= Count(AppearanceIds(games), BuildTopClubs(games, known, topN)[j])
  {
    var ids := AppearanceIds(games);
    var ranked := RankByCount(ids);
    var le := MoreFrequent(ids);
    SortSorted(Dedup(ids), le);
    RankedDistinct(ids);
    var h := Head(ranked, topN);
    assert SortedBy(h, le);
    assert Distinct(h);
    FilterSorted(h, Member(known), le);
    FilterDistinct(h, Member(known));
  }

  lemma RankedDistinct(ids: seq<int>)
    ensures Distinct(RankByCount(ids))
  {
    var ranked := RankByCount(ids);
    forall x ensures multiset(ranked)[x] <= 1 {
      DistinctMultiset(Dedup(ids), x);
    }
    CountsAtMostOne(ranked);
  }

  /** Nothing left out of the first `topN` was played more often than anything kept: an id
      that played but was cut has at most the appearances of every chosen id. */
  lemma TopClubsMaximal(games: seq<Game>, known: seq<int>, topN: int, chosen: int, cut: int)
    requires chosen in BuildTopClubs(games, known, topN)
    requires cut in AppearanceIds(games) && cut !in Head(RankByCount(AppearanceIds(games)), topN)
    ensures Count(AppearanceIds(games), cut) <= Count(AppearanceIds(games), chosen)
  {
    var ids := AppearanceIds(games);
    var ranked := RankByCount(ids);
    var h := Head(ranked, topN);
    SortSorted(Dedup(ids), MoreFrequent(ids));
    assert cut in multiset(ranked);
    var j :| 0 <= j < |ranked| && ranked[j] == cut;
    var i :| 0 <= i < |h| && h[i] == chosen;
    assert ranked[i] == chosen;
    assert forall k :: 0 <= k < |h| ==> h[k] == ranked[k];
    assert j >= |h|;
    assert MoreFrequent(ids)(ranked[i], ranked[j]);
  }
}
