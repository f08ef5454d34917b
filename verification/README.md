# Transfer reconciliation and aggregation pipeline, in Dafny

This project models the pure tabular logic behind a football-transfer dashboard. Given the
clubs, competitions, games and transfers tables, the pipeline:

- parses free-text transfer fees into euros (`parse_fee`);
- puts the two clubs of every transfer into a "country bucket" (a country, or one of the
  sentinels `Without Club`, `Retired`, `Unknown`) and adds both buckets and the fee to each
  row (`classify_club_country`, `build_transfer_enriched`);
- attaches a country to every club through its domestic competition (`preprocess_clubs`)
  and builds the id → country and id → name dictionaries;
- filters transfers by season, sorts "YY/YY" season labels chronologically, and orders
  matrix rows alphabetically with the sentinel rows last (`filter_transfers_by_seasons`,
  `sort_seasons_chronologically`, `ordered_rows`);
- builds the four country × club matrices (money in/out, players in/out), their
  column-percentage form, and one set of matrices per season (`money_in_matrix` …,
  `column_percentage_matrix`, `build_per_season_data`);
- computes per-club games played and won, win percentage and money spent and earned, both
  overall and per season (`calculate_team_statistics`, `calculate_per_season_statistics`),
  and picks the most-played clubs (`build_top_clubs`);
- computes the pure parts of `make_heatmap`:
  - the display order of the rows;
  - the order of the club columns, grouped by country;
  - the contiguous country groups drawn as separators;
  - the reversed y factors;
  - the label-wise reindexing of the value and percentage frames;
- models the exploratory club-report code:
  - the line parser for the markdown list of clubs by country (`load_clubs_report`);
  - name canonicalisation (`standardize_text`);
  - the id-or-name "found" predicate and the coverage counts;
  - the formatting of exported country names.

Tables are sequences of immutable records. A null cell is an `Option`. Fees and percentages
are `real`. Each source function is a pure function or a short method with loop invariants.
Its contract and the lemmas around it state what the source promises.

## Files

Each file is one module.

| file | module | what it holds |
|---|---|---|
| wrappers.dfy | `Wrappers` | `Option` |
| seqs.dfy | `Seqs` | order-keeping `Filter`, real `Sum`, first-occurrence `Dedup`, grouped sums, and the dictionary from `dict(zip(...))` |
| sorting.dfy | `Sorting` | the stable insertion sort standing for Python's `sorted`: permutation, order and stability |
| text.dfy | `Text` | ASCII `lower`, `strip` over Python's full `isspace` set, substring search, `str.replace(tok, '')`, `split`/`join`, string order, and decimal and integer parsing |
| fees.dfy | `Fees` | `parse_fee` |
| buckets.dfy | `Buckets` | the transfer row, `classify_club_country` and `build_transfer_enriched` |
| seasons.dfy | `Seasons` | the season filter, the season sort key and `ordered_rows` |
| matrices.dfy | `Matrices` | the four matrix builders, the dashboard variants and `column_percentage_matrix` |
| team_stats.dfy | `TeamStats` | team statistics, overall and per season |
| clubs.dfy | `Clubs` | `preprocess_clubs`, the club dictionaries and `build_top_clubs` |
| heatmap.dfy | `Heatmap` | the row, column and group logic of `make_heatmap` |
| per_season.dfy | `PerSeason` | `build_per_season_data` |
| clubs_report.dfy | `ClubsReport` | the report line parser |
| country_format.dfy | `CountryFormat` | `str.replace('-', ' ').str.title()` on countries |
| coverage.dfy | `Coverage` | `standardize_text`, `check_if_found`, per-row and unique-pair coverage |

Several operations exist twice in the source, once in data_processing.py / matrix_builders.py
and once in main.py:

- `parse_fee`, `classify_club_country`, `build_transfer_enriched` and `ordered_rows` have
  identical copies, so one model serves both.
- `preprocess_clubs` and `build_top_clubs` likewise have identical copies, modelled once.
- The money matrices are the exception: the main.py copies also exclude `Unknown`. The
  excluded buckets are therefore a parameter of the builder. `MoneyIn`/`MoneyOut` model the
  library copies and `DashboardMoneyIn`/`DashboardMoneyOut` the main.py copies.

Where the code and the documented intent differ, the model follows the code:

- `ordered_rows` keeps `Unknown` in the alphabetical block. It is not one of the default
  extras, so it is neither dropped nor moved to the end.
- The player matrices use pandas `count()` on `player_id`. A transfer with a null player id
  therefore adds 0 to its cell, not 1.
- The club report separator is the literal three-character text ` ¬∑ ` (a mis-decoded middle
  dot) as written in the source. `lstrip('¬∑')` removes the characters `¬` and `∑`.
- In the club report, after a header whose country segment is empty, continuation lines
  are skipped. An empty `current_country` is false in the source's `elif current_country:`
  test.

## Model

| member | source | states |
|---|---|---|
| Fees.ParseFee | data_processing.py:47-50 | A missing cell is a free transfer (0) and a numeric cell is returned as it is. |
| Fees.BlankFeeIsZero | data_processing.py:53-55 | A text made only of whitespace is 0. |
| Fees.NonCashFeeIsZero | data_processing.py:58-69 | Any non-cash marker, matched case-insensitively anywhere in the text, gives 0. This includes the bare `?` and `-`. |
| Fees.TextFeeNonNegative | data_processing.py:58-86 | A written fee is never negative, because a minus sign is itself a non-cash marker. |
| Fees.UnparsableFeeIsZero | data_processing.py:83-86 | Text without non-cash wording whose number, after removing tokens and unit, does not parse gives 0 instead of failing. |
| Fees.NoDigitFeeIsZero | data_processing.py:53-86 | Text without a single digit is 0, whatever else it says: with no marker, the cleaned text has no digit and `float` rejects it. |
| Fees.FeeIgnoresCase | data_processing.py:53-56 | A written fee and its lower-cased form parse to the same value. |
| Fees.DigitsRoundTrip | data_processing.py:71-84 | A digit string followed by nothing, `m` or `k` parses to its value times 1, 1,000,000 or 1,000. |
| Fees.AmountRoundTrip | data_processing.py:71-84 | Any natural number written in decimal with an optional `m`/`k` unit parses back to that number times the unit. |
| Fees.EuroAmountRoundTrip | data_processing.py:71-84 | The same round trip with a leading `€`, which the token removal deletes. |
| Fees.WrittenAmountParses | data_processing.py:53-84 | An amount in any letter case parses to the value of its digits and fraction times its unit. It may be padded by whitespace, carry a leading `€`, commas in its whole part, a decimal fraction, an `m`/`k` unit and a trailing `eur`/`fee` word with or without a space. Instances: `1,500,000` is 1500000, `35m eur` is 35000000, `1.5m` is 1500000 and `10M` is 10000000. |
| Fees.DecimalRoundTrip | data_processing.py:71-84 | `str(n)`, a decimal point, fraction digits and an optional unit parse back to n plus the fraction, times the unit. |
| Buckets.Classify | data_processing.py:89-104 | A non-null id present in the map yields its mapped country; otherwise the bucket is one of the three sentinels. |
| Buckets.IdTakesPrecedence | data_processing.py:94-95 | A known id yields its mapped country whatever the two names say. |
| Buckets.NameBucketRule | data_processing.py:97-104 | Without a known id, `Without Club` comes first, for a name mentioning "without club" or "no club". Otherwise "retired" gives `Retired`. Anything else, including a null name, gives `Unknown`. |
| Buckets.ClassifyIgnoresCase | data_processing.py:97-102 | Lower-casing the name never changes its bucket. |
| Buckets.ClassifyIgnoresPadding | data_processing.py:97-102 | Stripping surrounding whitespace from the name never changes its bucket. |
| Buckets.ClassifyRange | data_processing.py:89-104 | Every bucket is either a value of the country map or a sentinel. |
| Buckets.EnrichTransfers | data_processing.py:107-133 | One enriched row per input row, in order. Each keeps its original row, carries the parsed fee of its cell, and classifies each side from that side's own id and name. |
| Buckets.EnrichKeepsRows | data_processing.py:114-133 | Dropping the added columns gives back exactly the input table. |
| Buckets.EnrichConcat | data_processing.py:115-132 | Enrichment is row by row: enriching two tables one after the other equals enriching their concatenation. |
| Buckets.EnrichedFeesNonNegative | data_processing.py:115 | When no numeric fee cell is negative, no enriched fee is negative. |
| Seasons.FilterBySeasons | data_processing.py:136-143 | With no selection (None or empty) the table is returned unchanged; otherwise a row is kept iff its season label is selected. |
| Seasons.FilterBySeasonsCounts | data_processing.py:143 | A selected row is kept as often as it occurs and an unselected row never. |
| Seasons.FilterBySeasonsConcat | data_processing.py:143 | Filtering keeps the original order: it distributes over concatenation. |
| Seasons.SortSeasons | data_processing.py:156-177 | The result is a permutation of the labels, non-decreasing in the chronological season key. |
| Seasons.SortSeasonsStable | data_processing.py:177 | Labels with the same key keep their relative order. |
| Seasons.TwoDigitSeasonKey | data_processing.py:162-172 | A label "YY/..." has key 1900+YY for YY ≥ 90 and 2000+YY otherwise, so it lies in 1990..2089. |
| Seasons.SortTwoSeasons | data_processing.py:177 | Two labels whose keys are out of order come back swapped. |
| Seasons.CenturyTurnOrdered | data_processing.py:164-172 | A 1990s label (start year 90..99, e.g. "99/00") has key below 2000, a label with start year below 90 (e.g. "00/01") has key 2000 or more, and sorting puts the 1990s label first although it is textually later. |
| Seasons.UnparsableLast | data_processing.py:173-177 | A label whose start year does not parse (key 9999) comes after every two-digit season label. |
| Seasons.OrderedRows | data_processing.py:146-153 | The rows are exactly the input labels: no label is added or lost. |
| Seasons.OrderedRowsShape | data_processing.py:150-153 | The rows are an alphabetically sorted block free of extras, then exactly the extras that occur, in the order of `extras`. |
| Seasons.OrderedRowsPermutation | data_processing.py:146-153 | With distinct labels the rows are a permutation of the labels. |
| Matrices.Build | matrix_builders.py:8-30 | The matrix is well shaped and its columns are exactly the requested club ids, in the requested order. |
| Matrices.BuildRows | matrix_builders.py:14-29 | A bucket is a row iff some qualifying transfer has it: requested club, positive fee for money, bucket not excluded. |
| Matrices.BuildEmpty | matrix_builders.py:20-21 | When no transfer qualifies, the matrix has no rows and exactly the requested columns. |
| Matrices.BuildNoClubs | matrix_builders.py:14-21 | An empty club list gives the empty matrix. |
| Matrices.ExcludedNeverRow | matrix_builders.py:18 | An excluded bucket is never a row. |
| Matrices.MoneyRowsNoWithoutClubOrRetired | matrix_builders.py:14-18 | The money matrices never have a `Without Club` or `Retired` row. |
| Matrices.DashboardMoneyRowsNoSentinel | main.py:166 | The dashboard's money matrices have no sentinel row at all. |
| Matrices.DashboardDropsOnlyUnknown | main.py:156-202 | The dashboard's money matrices have exactly the library rows minus `Unknown`. |
| Matrices.ExcludeOneMore | main.py:156-202 | Adding one bucket to a builder's excluded list removes exactly that row and keeps every other row. |
| Matrices.BuildRowsDistinct | matrix_builders.py:23-29 | No row label repeats. |
| Matrices.BuildRowsShape | matrix_builders.py:29-99 | The rows of every builder (the `ordered_rows` calls at lines 29, 53, 74 and 97-99) are an alphabetically sorted block free of the builder's sentinel rows, then exactly the sentinel rows that occur, in the builder's order. |
| Matrices.MoneyRowsSorted | matrix_builders.py:29-53 | The money matrices, and the dashboard's copies (main.py:177, 201), list their rows fully alphabetically, since their sentinel rows are excluded. |
| Matrices.PlayersInRowOrder | matrix_builders.py:74 | Players in: `Without Club` is the last row when present. Every other row, `Retired` and `Unknown` included, comes before it in alphabetical order. |
| Matrices.PlayersOutRowOrder | matrix_builders.py:97-99 | Players out: the alphabetical block, with `Unknown` inside it, then `Without Club`, then `Retired`, each only when present. |
| Matrices.CellIsTotal | matrix_builders.py:23-27 | A cell is the builder's total over the qualifying transfers of its (country, club) pair. That is the fee sum for money and the known-player count for players, and 0 when the pair has none. |
| Matrices.BuildCells | matrix_builders.py:23-28 | Cell (i, j) of the built matrix is that total for row i's bucket and the j-th requested club. |
| Matrices.ZeroFeeCountsOnlyAsPlayer | matrix_builders.py:17 | A transfer of a requested club with fee ≤ 0 never enters a money matrix but always enters the player matrices, counting 1 when its player id is known. |
| Matrices.PlayerCellIsCount | matrix_builders.py:68-72 | A player cell is the number of qualifying transfers of its pair that have a player id. |
| Matrices.ColumnConservation | matrix_builders.py:23-29 | Grouping and reindexing lose nothing: column j adds up to the total weight of all qualifying transfers of club j. |
| Matrices.ColumnPercentage | matrix_builders.py:102-119 | Defined on matrices that are empty or have distinct column labels (`PercentDefined`); rows, columns and shape are kept, and a matrix without rows or columns is returned as it is. |
| Matrices.BuiltPercentDefined | heatmap_factory.py:354-359 | Every matrix built over distinct club ids, as the top-club selection yields (`Clubs.TopClubsOrdered`), satisfies the precondition of `column_percentage_matrix`, so the program's calls never raise. |
| Matrices.ColumnPercentageOf | matrix_builders.py:107-108 | A missing matrix stays missing. |
| Matrices.PercentColumnsSum | matrix_builders.py:110-118 | A column with a positive total sums to 100 afterwards; a column with total ≤ 0 becomes all 0. |
| Matrices.PercentInRange | matrix_builders.py:113-118 | For a non-negative matrix every percentage lies in [0, 100]. |
| TeamStats.Won | data_processing.py:233-239 | Games won never exceed games played. |
| TeamStats.PlayedIsAppearances | data_processing.py:229-239 | Games played equals a game-by-game count of home plus away appearances. Wins equal a count of games with strictly more goals than the opponent, so a draw is no win. |
| TeamStats.WinPct | data_processing.py:242 | The win percentage is 0 without games, lies in [0, 100], and is 100 when every game was won. |
| TeamStats.MoneyNonNegative | data_processing.py:244-252 | Money spent and earned are never negative when no fee is. |
| TeamStats.FiguresOf | data_processing.py:229-252 | One club's figures have won ≤ played and a guarded percentage in [0, 100]. |
| TeamStats.InactiveClubFigures | data_processing.py:294-321 | A club with no game and no transfer in the selection gets all-zero figures. |
| TeamStats.GamesYears | data_processing.py:203-216 | The game years are exactly the century-adjusted start years of the parsable selected labels; there are none iff no label parses. |
| TeamStats.GamesOf | data_processing.py:203-222 | With no selection, or no parsable selected label, all games are kept. Otherwise a game is kept iff its season is one of the selected game years. |
| TeamStats.TeamStatistics | data_processing.py:228-263 | One record per requested club id, in input order, each with won ≤ played. What each record counts is stated by `TeamStats.TeamStatisticsAll`, `TeamStats.TeamStatisticsSelected` and `TeamStats.UnparsableSelectionKeepsAllGames`. |
| TeamStats.TeamStatisticsAll | data_processing.py:218-226 | Without a selection each record covers all games and all transfers. |
| TeamStats.UnparsableSelectionKeepsAllGames | data_processing.py:218-226 | When no selected label parses, each record's figures (played, won, win percentage, spent, earned) are those of all games and of the transfers restricted to the selected labels. |
| TeamStats.TeamStatisticsSelected | data_processing.py:218-252 | When some selected label parses, each club's games played and won count exactly the games of the selected game years. Its money spent and earned sum exactly the transfers of the selected season labels. |
| TeamStats.PerSeasonStatistics | data_processing.py:282-292 | There is at most one record per listed season. |
| TeamStats.PerSeasonLabels | data_processing.py:282-292 | The records are for exactly the parsable labels, in order; an unparsable label yields none. |
| TeamStats.PerSeasonIsSingleSeason | data_processing.py:294-330 | Each per-season record equals the team statistics of that club restricted to that one season. |
| Clubs.JoinClub | data_processing.py:16-22 | The left join gives every club at least one row, and all its rows are about that club. |
| Clubs.JoinClubRows | data_processing.py:15-22 | An unmatched club gets the single row `Unknown`. Each matching competition contributes its country, with null filled as `Unknown`. Every row of a matched club comes from a match. |
| Clubs.PreprocessClubs | data_processing.py:11-24 | There are at least as many rows as clubs, and every row is for an input club. |
| Clubs.EveryClubSurvives | data_processing.py:16-22 | Every club survives the join, and an unmatched club has the row `Unknown`. |
| Clubs.PreprocessOneToOne | data_processing.py:15-22 | When every competition id names one country, row i is club i with the country of its domestic competition (or `Unknown`). |
| Clubs.DedupCountry | data_processing.py:15 | `drop_duplicates` on the competition pairs does not change any club's country. |
| Clubs.ZipById | main.py:585-590 | The dictionary's keys are exactly the ids of the rows, and each id maps to the value of its last row. |
| Clubs.LastRowWins | main.py:585-590 | When an id repeats, both dictionaries take the country and the name of its last row. |
| Clubs.ClubCountryMapOf | main.py:582-587 | With unique club ids and unique competition ids, the id → country map gives every club the country of its domestic competition. |
| Clubs.AppearanceIds | data_processing.py:31-34 | The concatenated id column is every home id followed by every away id. |
| Clubs.RankByCount | data_processing.py:31-35 | The ranking holds every distinct club id exactly once. |
| Clubs.Head | data_processing.py:35 | `head(n)` is the first n entries, or all but the last -n for negative n. |
| Clubs.BuildTopClubs | data_processing.py:27-38 | At most `top_n` ids. An id is chosen iff it is among the first `top_n` ranked ids and is a known club. |
| Clubs.TopClubsPlayed | data_processing.py:31-37 | Every chosen id is a known club that appears in some game. |
| Clubs.TopClubsOrdered | data_processing.py:31-37 | The chosen ids are distinct, in non-increasing order of appearance count. |
| Clubs.TopClubsMaximal | data_processing.py:31-35 | A club cut by `head` never has more appearances than a chosen one. |
| Heatmap.RowTotals | heatmap_factory.py:43 | The row totals are keyed by exactly the row labels and hold each row's sum. |
| Heatmap.ColTotals | heatmap_factory.py:42 | The column totals are keyed by exactly the club ids and hold each column's sum. |
| Heatmap.DisplayRows | heatmap_factory.py:45-50 | The display rows are exactly the matrix rows. |
| Heatmap.DisplayRowsShape | heatmap_factory.py:45-50 | A block without specials comes first, sorted by descending row total then name. It is followed by exactly the specials present, in the order `Without Club`, `Retired`, `Unknown`. |
| Heatmap.DisplayRowsPermutation | heatmap_factory.py:45-50 | With distinct rows the display rows are a permutation of them. |
| Heatmap.ReverseInvolution | heatmap_factory.py:122 | Reversing the y factors twice gives back the display rows. |
| Heatmap.OrderedClubIdsPermutation | heatmap_factory.py:58-82 | The ordered club ids are a permutation of the matrix columns: each appears exactly once. |
| Heatmap.OrderedClubIdsShape | heatmap_factory.py:61-82 | First come the clubs whose country is a display row, in row order, within a country by descending total then name. Then come the other clubs, sorted by (country, −total, name). |
| Heatmap.ComputeGroups | heatmap_factory.py:274-289 | The groups are the maximal runs of equal country over the ordered club ids. |
| Heatmap.RunsCover | heatmap_factory.py:274-289 | Every column index lies in some group. |
| Heatmap.RunsOrdered | heatmap_factory.py:274-289 | Groups are disjoint and in column order. |
| Heatmap.RunStarts | heatmap_factory.py:279-286 | A group starts at column k iff k is 0 or the country changes at k. |
| Heatmap.Reindex | heatmap_factory.py:91-93 | Reindexing succeeds iff the matrix labels are distinct, and yields exactly the requested labels. |
| Heatmap.ReindexAt | heatmap_factory.py:203 | Every requested (row, club) pair holds the original value of that pair, or 0 when the original lacks it. |
| Heatmap.ReindexIdentity | heatmap_factory.py:91-93 | Reindexing a matrix to its own labels changes nothing. |
| Heatmap.MakeLayout | heatmap_factory.py:31-39 | An empty matrix (no rows or no columns) draws the placeholder, and only an empty one does. |
| Heatmap.MakeLayoutRows | heatmap_factory.py:45-122 | A non-empty matrix with distinct labels is drawn. Its rows are a permutation of the matrix rows, the y factors are those rows reversed, and a percentage layer is drawn iff one is given. |
| Heatmap.MakeLayoutClubs | heatmap_factory.py:55-91 | The drawn club columns are a permutation of the matrix columns. |
| Heatmap.MakeLayoutValues | heatmap_factory.py:91-93 | Every drawn absolute value is the matrix value of the same (row, club) pair. |
| Heatmap.MakeLayoutPercent | heatmap_factory.py:200-203 | Every drawn percentage is the percentage-matrix value of the same pair, 0 where that matrix lacks it. |
| PerSeason.BuildPerSeasonData | heatmap_factory.py:330-344 | There is an entry for exactly the listed seasons. Each holds the four builders applied to that season's transfers only. |
| PerSeason.SeasonSplit | heatmap_factory.py:337-343 | When every transfer's season is listed once, a cell summed over the per-season matrices equals the whole-table cell, for each builder. |
| PerSeason.SeasonRowsCover | heatmap_factory.py:337-343 | A bucket is a whole-table row iff it is a row of some season's matrix. |
| PerSeason.EmptySeason | heatmap_factory.py:337-343 | A season without transfers yields four matrices with no rows and exactly the requested columns. |
| ClubsReport.HeaderPath | initial_understanding/data_analysis.py:33 | The header pattern captures the longest run of `[a-z/_.-]` after `**` that is followed by `.txt**`; it matches nothing iff no such run exists. |
| ClubsReport.BacktrackLen | initial_understanding/data_analysis.py:33 | Backtracking from a run of k path characters settles on the largest length j ≤ k followed by `.txt**`; no longer length up to k is followed by it; 0 means none is. |
| ClubsReport.BacktrackSkip | initial_understanding/data_analysis.py:33 | Lengths not followed by `.txt**` are passed over: the match from k equals the match from any shorter m when nothing closes between them. |
| ClubsReport.HeaderOfPath | initial_understanding/data_analysis.py:47-51 | A line `**` + path + `.txt**` + anything is a header with exactly that path. |
| ClubsReport.PathCountry | initial_understanding/data_analysis.py:53 | The country lookup fails iff the path has no `/`. |
| ClubsReport.PathCountryOf | initial_understanding/data_analysis.py:52-53 | The country is the directory holding the list file (the second-to-last `/` segment). |
| ClubsReport.ReduceLinksPlain | initial_understanding/data_analysis.py:75 | Text without the link opener `**[` is left unchanged. |
| ClubsReport.ReduceLink | initial_understanding/data_analysis.py:35 | A markdown link `**[name](url)**` is replaced by `name`, and scanning goes on after it. |
| ClubsReport.LStripChars | initial_understanding/data_analysis.py:77 | `lstrip` removes exactly the leading characters from the set and nothing else. |
| ClubsReport.NamesMembership | initial_understanding/data_analysis.py:70-83 | A name is emitted iff it is the non-empty cleaned form of some piece. |
| ClubsReport.ClubsOf | initial_understanding/data_analysis.py:69-83 | Every record of a line has a non-empty name and the current country. |
| ClubsReport.LineStep | initial_understanding/data_analysis.py:42-83 | Reading one line aborts the parse iff it is a header whose path has no `/`. Every record it emits has a non-empty name. |
| ClubsReport.LineStepSkips | initial_understanding/data_analysis.py:42-67 | Before the first header, a blank or non-header line is skipped. |
| ClubsReport.ParsedNamesFilled | initial_understanding/data_analysis.py:79-83 | Every parsed record has a non-empty name. |
| ClubsReport.ParseFailsIff | initial_understanding/data_analysis.py:47-90 | The parse returns None iff some line is a header whose path has no `/`. |
| ClubsReport.ParseConcat | initial_understanding/data_analysis.py:41-83 | Parsing is a left-to-right scan. Parsing a + b is parsing a, then parsing b from the country a ends with. |
| ClubsReport.PreambleIgnored | initial_understanding/data_analysis.py:42-67 | Blank lines and lines before the first header contribute nothing. |
| ClubsReport.ClubListRoundTrip | initial_understanding/data_analysis.py:70-83 | Plain names written after `: ` and joined by the separator are read back as exactly those names, in order. |
| ClubsReport.HeaderLineRoundTrip | initial_understanding/data_analysis.py:47-83 | A header line written by the report yields its clubs under the country directory of its path, and that country becomes current. |
| CountryFormat.ReplaceChar | initial_understanding/data_analysis.py:283 | `replace` keeps the length and substitutes the character exactly at its occurrences. |
| CountryFormat.Title | initial_understanding/data_analysis.py:283 | Position by position, a character is upper-cased at the start of a word and lower-cased after a letter; non-letters are kept. |
| CountryFormat.FormatCountryShape | initial_understanding/data_analysis.py:283 | The exported country has no hyphen. Its spaces are exactly the input's hyphens and spaces, and it spells the input up to case. Each word starts upper-case. |
| CountryFormat.TitleWordStarts | initial_understanding/data_analysis.py:283 | A letter comes out upper-case iff it starts a word, and lower-case iff it continues one. |
| CountryFormat.TitleIdempotent | initial_understanding/data_analysis.py:283 | Title-casing twice is title-casing once. |
| CountryFormat.FormatCountryIdempotent | initial_understanding/data_analysis.py:283 | Formatting an already formatted country changes nothing. |
| Coverage.Standardize | initial_understanding/data_analysis.py:5-12 | A null stays null; anything else comes out stripped and without upper-case letters. |
| Coverage.StandardizeIdempotent | initial_understanding/data_analysis.py:9-12 | Standardizing twice is standardizing once, for a transliteration that yields ASCII and leaves ASCII alone. |
| Coverage.StandardizeIgnoresCase | initial_understanding/data_analysis.py:12 | Two ASCII names that differ only in case standardize alike. |
| Coverage.Found | initial_understanding/data_analysis.py:355-362 | A club with neither id nor name is never found, and a known id is always found. |
| Coverage.FoundByNameOnly | initial_understanding/data_analysis.py:360-362 | When the id is null or unknown, a club is found iff its name is non-null and known. |
| Coverage.FoundMonotone | initial_understanding/data_analysis.py:355-362 | Growing the known ids or names never loses a found club. |
| Coverage.RowCoverage | initial_understanding/data_analysis.py:399-419 | The three counts are the rows with both, at least one and neither club found. count_both ≤ count_one and count_one + count_none = number of rows. |
| Coverage.SideCounts | initial_understanding/data_analysis.py:399-418 | Rows found on the from side plus rows found on the to side equal count_both + count_one. |
| Coverage.UniquePairsMembers | initial_understanding/data_analysis.py:341-347 | The unique pairs are distinct. A pair is listed iff it has an id or a name and some transfer names it on either side. |
| Coverage.PairCoverage | initial_understanding/data_analysis.py:347-367 | The found count never exceeds the number of unique pairs. |
| Coverage.FullPairCoverage | initial_understanding/data_analysis.py:355-367 | Every unique pair is found iff every club named on either side of any transfer is found or blank. |

## Left out

- Reading CSV and report files (`load_data`, `open`) and the CSV export: tables and report
  lines are given as sequences.
- The `RuntimeError` when a dataset fails to load: loading is not modelled.
- All Bokeh presentation: figures, colour mappers, colour bars, hover tools, spans, `CustomJS`
  toggles, `output_file`/`show`, and the `build_matrices_and_heatmaps` wiring. This includes
  the `"Name (Country)"` display column labels and the stacking of frames for plotting.
- `unidecode` is a foreign library: `Coverage.Standardize` takes the transliteration as a
  function parameter.
- `str(text)` on non-string input to `standardize_text`: the model takes strings only.
- Floating point: fees, sums and percentages are exact `real`s, so `round(win_pct, 2)` and
  rounding errors in column sums are not modelled.
- Python `float()` is modelled for plain decimal numerals only: optional sign, digits,
  optional fraction. Exponents, `inf`, `nan` and underscores are not accepted. A fee
  written that way counts as 0 in the model.
- Text.ParseInt: Python's `int()` also accepts underscores between digits and non-ASCII decimal
  digits. The model accepts ASCII digits with one optional sign only, so such a season label
  counts as unparsable.
- Fees.WrittenAmountParses: covers commas in the whole part only, one leading `€` and one
  trailing currency word. Other placements of the removed tokens parse the same in the source
  but are not stated.
- Heatmap.ClubName, Heatmap.ColumnKeys: club names are taken to be text. In the source a
  null (NaN) name tied on column total with a text name makes `sorted` raise `TypeError`.
  The model assumes names are never null and does not model that failure.
- PerSeason.BuildPerSeasonData: the result is a map from season to matrix, so the dict's
  insertion order (the order of the listed seasons) is not kept. No modelled code iterates
  over the result; it is only returned.
- `lower` and `title` act on ASCII letters only; Unicode case mapping is not modelled.
  `strip` removes every character Python's `str.isspace` accepts, Unicode whitespace included.
- `value_counts` leaves the order of equal counts unspecified; the model breaks ties by
  first appearance.
- Matrices.ColumnPercentage: on a non-empty matrix with a repeated column label the source raises
  `ValueError` (a column total is then several values). The model makes distinct labels a
  precondition (`PercentDefined`) instead of an outcome; `Matrices.BuiltPercentDefined` shows
  the program's matrices, built over the distinct top-club ids, meet it.
- pandas `reindex` raises on duplicate labels: `Heatmap.Reindex` returns `None` and the
  drawing `Failed`, instead of raising.
- The known-id and known-name sets of the coverage code are parameters. Building them from
  the clubs table, the ranking file and the club report is not modelled, and neither is
  printing the coverage percentage.
- The guard that skips the coverage sections when no knowledge base was loaded
  (initial_understanding/data_analysis.py:335, 395) is not modelled.
- The link pattern's `.*?` is modelled as the shortest text up to `)**`. Python's `.` does not
  match a newline, but lines never contain one after `strip`.
- ClubsReport.ReduceLink: stated only for link URLs without `)`.
- Coverage.StandardizeIgnoresCase: stated only for ASCII names; transliteration of non-ASCII
  text is a parameter.
- Coverage.Found: its own contract gives the two one-way facts. The full "id known or name
  known" characterization is `Coverage.FoundByNameOnly` together with `Coverage.Found`'s
  precedence of a known id.
