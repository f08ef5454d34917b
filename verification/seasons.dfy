/** Season filtering, chronological ordering of "YY/YY" season labels and the row order of the
    country-by-club matrices (alphabetical, then the sentinel rows in a fixed order). */
module Seasons {
  import opened Wrappers
  import opened Seqs
  import opened Sorting
  import opened Text
  import opened Buckets

  // ---------- season filter ----------

  /** The predicate "the row's season is one of `seasons`". */
  function InSeasons(seasons: seq<string>): Enriched -> bool
  {
    (e: Enriched) => e.row.season in seasons
  }

  /** `filter_transfers_by_seasons`: no selection (None or empty) keeps everything;
      otherwise exactly the rows of the selected seasons, in their original order. */
  function FilterBySeasons(ts: seq<Enriched>, seasons: Option<seq<string>>): (r: seq<Enriched>)
    ensures seasons.None? || seasons.value == [] ==> r == ts
    ensures seasons.Some? && seasons.value != [] ==>
      forall e :: e in r <==> e in ts && e.row.season in seasons.value
  {
    if seasons.None? || seasons.value == [] then ts
    else Filter(ts, InSeasons(seasons.value))
  }

  /** A selected row is kept as often as it occurs, an unselected one never. */
  lemma FilterBySeasonsCounts(ts: seq<Enriched>, seasons: seq<string>, e: Enriched)
    requires seasons != []
    ensures multiset(FilterBySeasons(ts, Some(seasons)))[e]
         == if e.row.season in seasons then multiset(ts)[e] else 0
  {
    FilterMultiset(ts, InSeasons(seasons), e);
  }

  /** Filtering by a season list keeps the rows in order: it distributes over concatenation. */
  lemma FilterBySeasonsConcat(a: seq<Enriched>, b: seq<Enriched>, seasons: Option<seq<string>>)
    ensures FilterBySeasons(a + b, seasons) == FilterBySeasons(a, seasons) + FilterBySeasons(b, seasons)
  {
    if seasons.Some? && seasons.value != [] {
      FilterConcat(a, b, InSeasons(seasons.value));
    }
  }

  // ---------- chronological season order ----------

  /** The century rule: two-digit years 90..99 are the 1990s, the others the 2000s. */
  function CenturyYear(year: int): int
  {
    if year >= 90 then 1900 + year else 2000 + year
  }

  /** The text before the first `/` (`season.split('/')[0]`). */
  function StartText(season: string): string
  {
    SplitOn(season, "/")[0]
  }

  /** The calendar year a season label starts in: its start text read as an integer, put in
      its century. `None` when the start text is not an integer. */
  function SeasonYear(season: string): Option<int>
  {
    match ParseInt(StartText(season))
    case None => None
    case Some(year) => Some(CenturyYear(year))
  }

  /** The sort key of a season label; 9999 when its start year does not parse. */
  function SeasonKey(season: string): int
  {
    SeasonYear(season).GetOr(9999)
  }

  predicate SeasonLe(a: string, b: string)
  {
    SeasonKey(a) <= SeasonKey(b)
  }

  lemma SeasonLeTotalPreorder()
    ensures TotalPreorder(SeasonLe)
  {
  }

  /** `sort_seasons_chronologically`: the stable sort by `SeasonKey`. */
  function SortSeasons(seasons: seq<string>): (r: seq<string>)
    ensures multiset(r) == multiset(seasons)
    ensures forall i, j :: 0 <= i < j < |r| ==> SeasonKey(r[i]) <= SeasonKey(r[j])
  {
    SeasonLeTotalPreorder();
    SortSorted(seasons, SeasonLe);
    SortBy(seasons, SeasonLe)
  }

  /** Labels with the same key (e.g. duplicates, or two unparsable labels) keep their order. */
  lemma SortSeasonsStable(seasons: seq<string>, y: string)
    ensures Filter(SortSeasons(seasons), SameRank(SeasonLe, y)) == Filter(seasons, SameRank(SeasonLe, y))
  {
    SeasonLeTotalPreorder();
    SortStable(seasons, SeasonLe, y);
  }

  /** A two-digit start year `yy` followed by `/` and anything. */
  lemma StartOfTwoDigitSeason(yy: string, rest: string)
    requires |yy| == 2 && AllDigits(yy)
    ensures StartText(yy + "/" + rest) == yy
  {
    var s := yy + "/" + rest;
    var p := StartText(s);
    FirstPiece(s, '/');
    assert s[..2] == yy && s[2] == '/';
    assert s[0] != '/' && s[1] != '/';
    assert |p| >= 2;
    assert |p| <= 2;
  }

  /** Season "YY/..." with two digits has key 1990..2089: the 1990s for 90..99, 2000..2089
      otherwise. */
  lemma TwoDigitSeasonKey(yy: string, rest: string)
    requires |yy| == 2 && AllDigits(yy)
    ensures SeasonYear(yy + "/" + rest) == Some(CenturyYear(DigitsValue(yy)))
    ensures SeasonKey(yy + "/" + rest) == CenturyYear(DigitsValue(yy))
    ensures 1990 <= SeasonKey(yy + "/" + rest) <= 2089
    ensures SeasonKey(yy + "/" + rest) < 2000 <==> DigitsValue(yy) >= 90
  {
    StartOfTwoDigitSeason(yy, rest);
    assert DigitsValue(yy) == DigitValue(yy[0]) * 10 + DigitValue(yy[1]) by {
      assert yy[..1][..0] == [];
    }
  }

  /** Two labels out of chronological order are swapped. */
  lemma SortTwoSeasons(a: string, b: string)
    requires SeasonKey(b) < SeasonKey(a)
    ensures SortSeasons([a, b]) == [b, a]
  {
    SortTwo(a, b, SeasonLe);
  }

  /** The century rule at work: a 1990s label ("99/00") sorts before a 2000s label ("00/01"),
      although it is textually later. */
  lemma CenturyTurnOrdered(late: string, lateRest: string, early: string, earlyRest: string)
    requires |late| == 2 && AllDigits(late) && DigitsValue(late) < 90
    requires |early| == 2 && AllDigits(early) && DigitsValue(early) >= 90
    ensures SeasonKey(early + "/" + earlyRest) < 2000 <= SeasonKey(late + "/" + lateRest)
    ensures SortSeasons([late + "/" + lateRest, early + "/" + earlyRest])
         == [early + "/" + earlyRest, late + "/" + lateRest]
  {
    TwoDigitSeasonKey(late, lateRest);
    TwoDigitSeasonKey(early, earlyRest);
    SortTwoSeasons(late + "/" + lateRest, early + "/" + earlyRest);
  }

  /** Unparsable labels go after every two-digit season. */
  lemma UnparsableLast(seasons: seq<string>, i: int, j: int, yy: string, rest: string)
    requires 0 <= i < |SortSeasons(seasons)| && 0 <= j < |SortSeasons(seasons)|
    requires SeasonYear(SortSeasons(seasons)[i]).None?
    requires |yy| == 2 && AllDigits(yy) && SortSeasons(seasons)[j] == yy + "/" + rest
    ensures j < i
  {
    TwoDigitSeasonKey(yy, rest);
    UnparsableKey9999(SortSeasons(seasons)[i]);
    KeyOrderedBefore(SortSeasons(seasons), i, j);
  }

  /** In a key-ordered list, an entry of smaller key comes first. */
  lemma KeyOrderedBefore(r: seq<string>, i: int, j: int)
    requires forall a, b :: 0 <= a < b < |r| ==> SeasonKey(r[a]) <= SeasonKey(r[b])
    requires 0 <= i < |r| && 0 <= j < |r|
    requires SeasonKey(r[j]) < SeasonKey(r[i])
    ensures j < i
  {
  }

  lemma UnparsableKey9999(s: string)
    requires SeasonYear(s).None?
    ensures SeasonKey(s) == 9999
  {
  }

  // ---------- row order ----------

  /** `ordered_rows`: the labels that are not extras, sorted, then the extras that occur, in
      the order of `extras`. */
  function OrderedRows(labels: seq<string>, extras: seq<string>): (rows: seq<string>)
    ensures forall x :: x in rows <==> x in labels
  {
    var core := SortStrings(Filter(labels, NotMember(extras)));
    assert forall x :: x in core <==> x in multiset(core);
    core + Filter(extras, Member(labels))
  }

  /** The shape of the result: a sorted block free of extras, then a sub-sequence of the
      extras, so absent extras never appear and the present ones come last in their fixed
      order. */
  lemma OrderedRowsShape(labels: seq<string>, extras: seq<string>)
    ensures var rows := OrderedRows(labels, extras);
            var k := |rows| - |Filter(extras, Member(labels))|;
            && 0 <= k <= |rows|
            && SortedBy(rows[..k], StrLe)
            && (forall i :: 0 <= i < k ==> rows[i] !in extras)
            && rows[k..] == Filter(extras, Member(labels))
  {
    var core := SortStrings(Filter(labels, NotMember(extras)));
    ConcatSlices(core, Filter(extras, Member(labels)));
    SortedFreeOfExtras(labels, extras);
  }

  /** Without any extra among the labels the rows are simply sorted. */
  lemma OrderedRowsWithoutExtras(labels: seq<string>, extras: seq<string>)
    requires forall x :: x in extras ==> x !in labels
    ensures SortedBy(OrderedRows(labels, extras), StrLe)
  {
    FilterNone(extras, Member(labels));
    assert OrderedRows(labels, extras) == SortStrings(Filter(labels, NotMember(extras)));
  }

  /** The sorted block holds no extra. */
  lemma SortedFreeOfExtras(labels: seq<string>, extras: seq<string>)
    ensures forall i :: 0 <= i < |SortStrings(Filter(labels, NotMember(extras)))| ==>
              SortStrings(Filter(labels, NotMember(extras)))[i] !in extras
  {
    var kept := Filter(labels, NotMember(extras));
    var core := SortStrings(kept);
    forall i | 0 <= i < |core| ensures core[i] !in extras {
      assert core[i] in multiset(core);
      assert core[i] in kept;
      assert NotMember(extras)(core[i]);
    }
  }

  /** With distinct labels and distinct extras, the rows are a permutation of the labels. */
  lemma OrderedRowsPermutation(labels: seq<string>, extras: seq<string>)
    requires Distinct(labels) && Distinct(extras)
    ensures multiset(OrderedRows(labels, extras)) == multiset(labels)
  {
    var core := Filter(labels, NotMember(extras));
    var tail := Filter(extras, Member(labels));
    forall x
      ensures multiset(OrderedRows(labels, extras))[x] == multiset(labels)[x]
    {
      FilterMultiset(labels, NotMember(extras), x);
      FilterMultiset(extras, Member(labels), x);
      DistinctMultiset(labels, x);
      DistinctMultiset(extras, x);
    }
  }
}
