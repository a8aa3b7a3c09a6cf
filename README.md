# Inferify dashboards: filtering and aggregation

This project models the data pipeline behind two pages of the Inferify
dashboard: the Home page (`Inferify/Home.py`) and the Popularidade page
(`Inferify/pages/Popularidade.py`). The pipeline sits between loading the CSV
tables and drawing the charts. Each page:

- derives the sidebar's option lists from the songs table;
- filters the songs by an inclusive year range and three multiselects
  (artist, `Album`, genre);
- restricts the artist popularity and artist information tables to a set of
  artists;
- computes the numbers the charts show.

The tables are sequences of records, and a cell that may be missing (NaN) is
an `Option`. Every pandas expression becomes a pure function over these
sequences, and lemmas prove its properties.

Modules, leaves first:

- `Wrappers`: `Option`, and `IsIn`, which is `isin` on one cell (a missing
  cell is never a member).
- `Arith`: monotonicity of multiplication by a positive factor, which the
  rounding and sum bounds use.
- `Orders`: `StrLess`, Python's `str` ordering (lexicographic on code points),
  proved to be a strict total order.
- `Frames`: the generic table operations. These are the boolean mask `Where`,
  subsequence, `sort_values(ascending=False)` (`SortDesc`), `head`
  after a sort (`TopK`), `nunique`, and column sums.
- `Tables`: the `Song`, `PopRow` and `InfoRow` records.
- `Facets`: `sorted(col.dropna().unique())`, the year slider bounds and the
  `[:5]` defaults.
- `SongFilter`: the selection and `df_filtrado`. Both pages use this filter.
- `SideTables`: the `isin` restrictions of the popularity and information
  tables.
- `Groups`: `groupby(key)[val].count()` and `.nunique()`, each sorted
  descending.
- `Home`: the semi-joins of the Home page, its three metrics and its four
  grouped tables.
- `Popularidade`: the restriction by the selected artists, the two top-10
  lists, the ranking and its five-column grid, and the rounded mean per
  `tipo`.

Notes on what the code does:

- Grouped tables are sorted by pandas' default unstable sort, so the model
  promises only a non-increasing order and a permutation. It promises no
  tie-break.
- `groupby(...).mean()` on an empty table gives an empty table, not a 0. So
  `MeanByType` of no rows is the empty sequence.
- The Popularidade page computes `df_filtrado` (lines 60-66) but never uses
  it. Its popularity table depends only on the selected artists
  (`Popularidade.RestrictedIgnoresSongFilter`).
- The `if not df_filtrado.empty else 0` guard on the artist metric (Home.py
  line 84) agrees with plain `nunique()`, because an empty view has no
  artist (`Home.Metrics`).

## Model

| member | source | states |
|---|---|---|
| `Orders.StrLessIsStrictTotalOrder` | Inferify/Home.py:32 | The string order `sorted` uses is irreflexive, transitive and total. |
| `Facets.Distinct` | Inferify/Home.py:20 | `sorted(dropna().unique())` under any strict total order: strictly ascending, holds exactly the non-missing values of the column, and is no longer than the column. |
| `Facets.AscendingUnique` | Inferify/Home.py:20 | Two strictly ascending lists with the same elements are equal, so the option list is the only sorted enumeration of the column's values. |
| `Facets.Options` | Inferify/Home.py:32-50 | The artist, album and genre option lists are strictly ascending in string order and duplicate-free. Their elements are exactly the non-missing cells, and their length is the column's `nunique`. |
| `Facets.Years` | Inferify/Home.py:20 | The year option list is strictly ascending and holds exactly the non-missing years. |
| `Facets.YearBounds` | Inferify/Home.py:21 | `None` (where `min` raises) exactly when no year is present. Otherwise both bounds are years of the column and every year lies between them. |
| `Facets.Defaults` | Inferify/Home.py:36 | The default selection is a prefix of the options, of length the smaller of 5 and the number of options, and a subset of them. |
| `Facets.BuildFacets` | Inferify/Home.py:20-56 | The facets are absent exactly when no song has a year. Otherwise `yearMin <= yearMax`, every song's year lies in that range, and `yearMin` and `yearMax` are years of some song, every song's year lies in that range, and each option list is strictly ascending in `str` order and holds exactly the values some song has. |
| `Facets.DefaultsSmallest` | Inferify/Home.py:32-36 | On an ascending option list the first five options precede every option left out, so the defaults are the smallest options. |
| `SongFilter.Filter` | Inferify/Home.py:59-65 | A song is in the view iff its year is in `[lo, hi]` and its artist, album and genre are each selected. The view is a subsequence of the table. |
| `SongFilter.FilterComplete` | Inferify/Home.py:60-64 | No song in the view has a missing artist, album, genre or year, because `isin` and the range test never pass a null. |
| `SongFilter.FilterMultiplicity` | Inferify/Home.py:59-65 | A kept song occurs in the view as often as in the table, and a rejected one never occurs. |
| `SongFilter.FilterEmptySelection` | Inferify/Home.py:62-64 | An empty artist, album or genre selection (or an inverted range) gives an empty view, whatever the other tests are. |
| `SongFilter.FilterIdempotent` | Inferify/Home.py:60-64 | Filtering the view again with the same selection returns the same view. |
| `SongFilter.FilterMonotone` | Inferify/Home.py:61-63 | A wider range or larger selected sets never remove a row. The narrower view is a subsequence of the wider one. |
| `SongFilter.DefaultSelection` | Inferify/Home.py:23-56 | The initial selection spans the slider's whole range, and each selected set is exactly the set of the first five options of its list (`options[:5]`, lines 36, 45 and 54). |
| `SongFilter.DefaultSelectionView` | Inferify/Home.py:27 | With the initial selection the year test keeps every song that has a year. The view is exactly the songs with a year whose artist, album and genre are among the first five options. |
| `SongFilter.FilterScenario` | Inferify/pages/Popularidade.py:60-66 | Two songs from 2000 and 2001, all artists, albums and genres selected, range `[2000, 2000]`: only the 2000 song is kept. |
| `Frames.Where` | Inferify/Home.py:70 | A boolean mask keeps exactly the rows satisfying it and is never longer than the table. |
| `Frames.WhereIsSubseq` | Inferify/Home.py:59 | A mask keeps rows in their original order. |
| `Frames.WhereIsMonotone` | Inferify/Home.py:73-74 | A weaker mask keeps every row a stronger one keeps, in order. |
| `Frames.WhereIdempotent` | Inferify/Home.py:65 | Masking twice with one mask equals masking once. |
| `Frames.WhereMultiplicity` | Inferify/Home.py:62 | A mask keeps each passing row with its full multiplicity and drops each failing one. |
| `Frames.SortDesc` | Inferify/pages/Popularidade.py:105 | `sort_values(ascending=False)` returns a permutation of the table, non-increasing in the key. |
| `Frames.SortDescNoDups` | Inferify/Home.py:98 | Sorting keeps distinct entries distinct. |
| `Frames.SumBySortDesc` | Inferify/Home.py:98 | Sorting does not change a column's sum. |
| `Frames.TopK` | Inferify/pages/Popularidade.py:78 | `sort_values(...).head(n)` returns the smaller of `n` and the table's length in rows, non-increasing, a sub-multiset of the table. No row left out has a larger key than the last row kept. |
| `Frames.NUniqueBounds` | Inferify/Home.py:86 | `nunique` is at most the number of cells, and at least 1 when some cell is present. |
| `SideTables.PopularityOf` | Inferify/Home.py:70 | The popularity rows kept are exactly those whose `nome` is in the artist set, in table order. |
| `SideTables.PopularityOfMultiplicity` | Inferify/Home.py:70 | A kept popularity row keeps all its copies, and a dropped one keeps none. |
| `SideTables.InfoOf` | Inferify/Home.py:72-75 | The information rows kept are exactly those whose `nome` or `banda` is in the artist set, in table order. |
| `SideTables.InfoOfMultiplicity` | Inferify/Home.py:72-75 | A kept information row keeps all its copies, and a dropped one keeps none. |
| `SideTables.PopularityOfMonotone` | Inferify/pages/Popularidade.py:69 | Restricting to fewer artists keeps a subsequence of the rows kept for more. |
| `Home.ArtistsOf` | Inferify/Home.py:68 | The artists of the view are exactly the artist values of its songs. |
| `Home.AlbumsOf` | Inferify/Home.py:86 | The albums of the view are exactly the album values of its songs. |
| `Home.HomePopularity` | Inferify/Home.py:68-70 | A popularity row is kept iff its `nome` is the artist of some song in the filtered view. Order is preserved. |
| `Home.HomeInfo` | Inferify/Home.py:72-75 | An information row is kept iff its `nome` or its `banda` is the artist of some song in the filtered view. Order is preserved. |
| `Home.Metrics` | Inferify/Home.py:84-86 | The song count is the view's length. The artist count is the number of distinct artists (0 on an empty view), and the album count is the number of distinct albums. Both distinct counts are at most the song count. |
| `Home.FilteredMetrics` | Inferify/Home.py:84-86 | On a filtered view the artist count and the album count are 0 exactly when there are no songs. |
| `Home.TitlesPerGenre` | Inferify/Home.py:98 | One entry per genre present, each once, carrying the number of its songs that have a title. Entries are non-increasing in count, and the counts sum to the songs with both a genre and a title. |
| `Home.FilteredTitlesPerGenreSum` | Inferify/Home.py:98 | On a filtered view the genre counts sum to the number of songs that have a title. |
| `Home.GenresPerArtist` | Inferify/Home.py:104 | One entry per artist present, each once, carrying its distinct genre count. The count is at most the artist's song count, and entries are non-increasing. |
| `Home.AlbumsPerArtist` | Inferify/Home.py:110 | One entry per artist present, each once, carrying its distinct album count. The count is at most the artist's song count, and entries are non-increasing. |
| `Home.AlbumsPerYear` | Inferify/Home.py:116 | One entry per year present, each once, carrying its distinct album count. The count is at most that year's song count, and entries are non-increasing. |
| `Home.FilteredNUniquePositive` | Inferify/Home.py:104-116 | On a filtered view every per-group `nunique` is at least 1. |
| `Groups.Aggregate` | Inferify/Home.py:104 | A grouped table has exactly the present keys, each once, with that key's statistic, non-increasing in it. |
| `Groups.CountBy` | Inferify/Home.py:98 | `groupby(key)[val].count()` sorted descending: each present key once, with its number of rows that have a value. |
| `Groups.NUniqueBy` | Inferify/Home.py:110 | `groupby(key)[val].nunique()` sorted descending: each present key once, with its distinct value count. |
| `Groups.CountBySum` | Inferify/Home.py:98 | The counts of a `count()` table sum to the rows whose key and value are both present. |
| `Groups.GroupNUniqueBounds` | Inferify/Home.py:104 | A group's `nunique` lies between 0 and the group's size, and is at least 1 when some row of the group has a value. |
| `Groups.NUniqueTableBounds` | Inferify/Home.py:116 | Every entry of a `nunique()` table is at most its group's size. It is at least 1 when no keyed row lacks its value. |
| `Popularidade.Restricted` | Inferify/pages/Popularidade.py:69 | The popularity rows kept are exactly those whose `nome` is a selected artist, in table order. |
| `Popularidade.RestrictedIgnoresSongFilter` | Inferify/pages/Popularidade.py:60-69 | Two selections with the same artists give the same restricted table. Year, album and genre play no part. |
| `Popularidade.HomePopularityWithinRestricted` | Inferify/pages/Popularidade.py:69 | Home's restricted popularity table is a subsequence of this page's. |
| `Popularidade.TopByPopularity` | Inferify/pages/Popularidade.py:78 | The top 10 by popularity: `min(10, n)` rows, non-increasing, a sub-multiset of the table. Every excluded row is at most as popular as the last row kept. |
| `Popularidade.TopByFollowers` | Inferify/pages/Popularidade.py:84 | The top 10 by followers: `min(10, n)` rows, non-increasing, a sub-multiset of the table. Every excluded row has at most as many followers as the last row kept. |
| `Popularidade.Ranking` | Inferify/pages/Popularidade.py:105 | The ranking is a permutation of the restricted table, non-increasing in popularity. |
| `Popularidade.GridColumn` | Inferify/pages/Popularidade.py:108 | Row `i` goes to a column in `[0, 5)` that is congruent to `i` modulo 5. |
| `Popularidade.Layout` | Inferify/pages/Popularidade.py:106-109 | The grid has five columns. |
| `Popularidade.LayoutColumns` | Inferify/pages/Popularidade.py:107-109 | Column `c` holds the ranked rows `c, c+5, c+10, ...` in order. That is `n/5` rows, plus one when `c < n % 5`. |
| `Popularidade.LayoutBalanced` | Inferify/pages/Popularidade.py:106-108 | Each column receives the floor or the ceiling of `n/5` rows. |
| `Popularidade.RoundHalfEven` | Inferify/pages/Popularidade.py:113 | `round(num/den)` is an integer within 1/2 of `num/den`. On an exact half it is the even neighbour. |
| `Popularidade.RoundHalfEvenUnique` | Inferify/pages/Popularidade.py:113 | Those two properties determine the rounded value. |
| `Popularidade.RoundedMeanBetween` | Inferify/pages/Popularidade.py:113 | The rounded mean of values in `[lo, hi]` lies in `[lo, hi]`. |
| `Popularidade.GroupMean` | Inferify/pages/Popularidade.py:113 | A group's rounded mean is within 1/2 of `sum/count` and even on an exact half, which `RoundHalfEvenUnique` shows determines it. It lies between the group's smallest and largest popularity. |
| `Popularidade.MeanByType` | Inferify/pages/Popularidade.py:113 | One entry per distinct `tipo` present, in ascending order. Each carries `GroupMean` of its group: within 1/2 of the group's `sum/count`, even on an exact half, and lying between the group's minimum and maximum popularity. |

## Left out

- Loading the CSV files from local paths and from raw GitHub URLs (Home.py lines 12-14, Popularidade.py lines 13-15). This is file and network I/O; the tables are parameters.
- The Streamlit widgets (sidebar, slider, multiselect, columns, metric, image, markdown, dataframe). Their outputs, the year range and the three selected sets, are the `Selection` parameter. The model accepts any range, including one the slider would clamp.
- The Plotly and Altair charts (bar charts, the log-scale scatter, the boxplot of Popularidade.py lines 88-101). These only draw results the model computes, or the restricted table itself.
- The static data-dictionary text (Home.py lines 125-146).
- Floating point: the mean per `tipo` is the exact rational `sum/count`, rounded half to even as numpy's `round` does. IEEE rounding of the float mean is not modelled.
- Frames.SortDesc: does not fix the order among equal keys, because pandas' default sort is not stable. Only non-increasing order and permutation are promised.
- The `astype(str)` on the genre facet (Home.py line 50): genres are strings throughout.
- Columns the pipeline does not read (lyrics, word counts, sentiment scores and emotions, `imagem_principal`). The image URL is only shown next to a ranked row.
- `PopRow` and `InfoRow.nome` are not nullable. A missing `nome` would never match a selected artist anyway. A missing `tipo`, which `groupby` would drop, is not modelled.
- pandas' `isin` treats NaN as a member of a list that holds NaN. The filtered view never has a missing artist, so `unique()` of its artists holds no NaN, and the model drops missing cells.
- `int(...)` on the year bounds: years are integers in the model.
