# Genre aggregation of the movie revenue dashboard

This project models, in Dafny, the per-genre aggregation behind the movie
dashboard's genre charts (`ChartCreator.__create_genres_df` and the row
re-ordering in `ChartCreator.__create_figs_12`). Starting from a dataset of
movies, each with a list of genre labels, a revenue and a rating, it:

1. builds the genre universe: all genre lists are flattened, collected into a
   set and turned back into a list (`GenreUniverse`);
2. scans, for every genre, all movies with one membership test per movie and
   accumulates the number of movies, the revenue total and the rating total
   (`GenreStats.ScanGenres`);
3. divides the totals by the count to get revenue per movie and average rating
   (`GenreStats.Quotients`);
4. zips genre, count, overall revenue, revenue per movie and average rating into
   a table of rows (`GenreTable`);
5. sorts that table ascending by revenue per movie, and then sorts the result by
   overall revenue (`RowOrder`).

The reference meaning of every statistic is a filter followed by a fold
(`Movies.Containing`, `Movies.Total`, `Movies.Mean`). The central result is
`GenreTable.CreateGenresTable`: the table it returns has exactly one row per
observed genre, and each row holds that genre's count (at least one), total
revenue and exact averages. `RowOrder.SortKeepsDescription` shows that sorting
keeps all of this, because a sort moves whole rows.

Files: `movies.dfy` (module `Movies`), `universe.dfy` (`GenreUniverse`),
`stats.dfy` (`GenreStats`), `table.dfy` (`GenreTable`), `ordering.dfy`
(`RowOrder`).

Modelling choices:

- Revenue and rating are `real`. Averages are exact quotients, and nothing is
  rounded.
- `list(set)` in the source gives no particular order. `GenreUniverse.ListOfSet`
  picks elements nondeterministically, and its contract promises only a
  duplicate-free list of the set's elements.
- Python's `zip` stops at the shortest column. `GenreTable.Zip` does the same.
- The source divides with no guard, so a zero count would raise. `Quotients`
  requires positive counts. `GenreTable.CreateGenresTable` meets this
  requirement through `GenreStats.ObservedGenresHaveMovies`: every genre in the
  universe occurs in some movie, so its count is at least one.
- The table has no total-rating column. The source zips only five columns, and
  the model does the same.
- The source sorts with pandas `sort_values` and its default `quicksort`
  algorithm, which is not stable. The contracts of `SortValues` therefore say
  only "sorted and a permutation of the rows". The insertion sort used as the
  model's definition is one admissible order for ties.

## Model

| member | source | states |
|---|---|---|
| `Movies.CountedOncePerMovie` | chart_creator_module.py:40-45 | One more movie raises a genre's count by exactly one when its genre list holds the genre, however many times it lists it, and by zero otherwise. Both totals grow by that movie's revenue or rating in the first case and are unchanged in the second. |
| `Movies.MovieCountIsIndexCount` | chart_creator_module.py:40-43 | A genre's movie count equals the number of dataset indices whose genre list holds the genre. This is an independent description of the filter. |
| `Movies.ObservedIffCounted` | chart_creator_module.py:21-43 | Some movie lists a genre if and only if that genre's movie count is at least one. |
| `Movies.MeanWithinBounds` | chart_creator_module.py:48-55 | If every value of a column lies in [lo, hi], the mean of that column over a non-empty set of movies lies in [lo, hi]. |
| `Movies.TwoGenreExample` | chart_creator_module.py:40-45 | For the movies ["Action"], ["Action","Drama"] and ["Drama"] with revenues 100, 200 and 300, Action has 2 movies and 300 revenue, and Drama has 2 movies and 500 revenue. |
| `GenreUniverse.Flatten` | chart_creator_module.py:21 | A label is in the flattened list if and only if some movie's genre list holds it. |
| `GenreUniverse.GenreSet` | chart_creator_module.py:23-26 | The set built by adding every flattened label contains exactly the labels some movie lists. |
| `GenreUniverse.ListOfSet` | chart_creator_module.py:29 | Converting the set to a list gives no duplicates, exactly the set's elements, and as many entries as the set has. |
| `GenreUniverse.Universe` | chart_creator_module.py:21-29 | The genre list has no duplicate labels and holds a label if and only if some movie lists it (soundness and completeness). |
| `GenreStats.ScanGenres` | chart_creator_module.py:30-45 | The three columns are as long as the genre list. For each i, entry i is the number of movies whose genre list holds genres[i], and the revenue and rating totals over exactly those movies. |
| `GenreStats.Quotients` | chart_creator_module.py:47-55 | Averaging needs a count for every total and no zero count. Entry i is then the exact quotient of total i by count i, and there is one average per total. `QuotientsAreMeans` relates it to the reference mean, and `GenreTable.AveragesWithinBounds` bounds it. |
| `GenreStats.QuotientsAreMeans` | chart_creator_module.py:47-55 | When the counts and totals are a genre's true movie count and column total, each quotient is the mean of the column over exactly the movies that list that genre. |
| `GenreStats.ObservedGenresHaveMovies` | chart_creator_module.py:41-55 | Every genre of the universe has a count of at least one, so no average divides by zero. |
| `GenreTable.Zip` | chart_creator_module.py:58-61 | Row i is made of entry i of every column. The table is as long as the shortest column. |
| `GenreTable.ZipKeepsGenreColumn` | chart_creator_module.py:58-61 | When the columns have equal length, reading the genre column back from the zipped table gives the genre list unchanged. |
| `GenreTable.ZippedGenresMatch` | chart_creator_module.py:29-61 | A table whose genre column is the universe has distinct genres and one row for each observed genre, and no other rows. |
| `GenreTable.ZippedRowsDescribe` | chart_creator_module.py:33-61 | Zipping the scan's columns with their quotients gives rows with a count of at least one, the genre's true totals, and revenue per movie and average rating equal to the means over the genre's movies. |
| `GenreTable.CreateGenresTable` | chart_creator_module.py:20-62 | The table has one row per observed genre and no other rows, with no genre repeated, and as many rows as there are distinct labels. Each row holds its genre's movie count (at least one), its overall revenue, and its exact revenue per movie and average rating. |
| `GenreTable.AveragesWithinBounds` | chart_creator_module.py:47-55 | If every movie's revenue (or rating) lies in [lo, hi], every row's revenue per movie (or average rating) lies in [lo, hi]. |
| `RowOrder.SortedPairwise` | chart_creator_module.py:66 | In a table sorted by a metric, every row's value is at most the value of every row below it, not only the next one. |
| `RowOrder.Insert` | chart_creator_module.py:66 | Inserting a row into a table sorted by a metric keeps it sorted and adds exactly that row. The new first row is either the inserted row or the old first row. |
| `RowOrder.SortValues` | chart_creator_module.py:66 | The sorted table is non-decreasing in the chosen metric and is a permutation of the input rows. |
| `RowOrder.ChartOrders` | chart_creator_module.py:64-74 | The first chart's table is sorted by revenue per movie, and the second is that table re-sorted by overall revenue. Both are permutations of the genre table. |
| `RowOrder.SortedPermutationsAgreeOnKeys` | chart_creator_module.py:66-74 | Any two orderings of the same rows that are both sorted by a metric hold the same value of that metric at every position. Whatever order a sort gives to ties, the sorted metric column is determined. |
| `RowOrder.SortedKeepsKeys` | chart_creator_module.py:66 | Sorting a table that is already sorted by the metric leaves that metric column unchanged, position by position. |
| `RowOrder.StrictlySortedIsUnique` | chart_creator_module.py:66 | When no two rows share a metric value, the only ordering of the rows that is sorted by that metric is the table itself. |
| `RowOrder.StrictlySortedIsFixedPoint` | chart_creator_module.py:66 | When the metric column is strictly increasing, sorting returns the table unchanged. |
| `RowOrder.SortKeepsGenresDistinct` | chart_creator_module.py:66 | Sorting never makes two rows share a genre. |
| `RowOrder.SortKeepsDescription` | chart_creator_module.py:66 | A sorted genre table is still a genre table of the same movies. Every row keeps its genre together with that genre's count, totals and averages. |
| `RowOrder.PermutationKeepsDescription` | chart_creator_module.py:58-74 | Any re-ordering of a genre table's whole rows is still a genre table of the same movies. No two rows come to share a genre, and every row keeps its genre's statistics. |
| `RowOrder.PermutationKeepsGenresDistinct` | chart_creator_module.py:66 | Re-ordering the rows of a table whose genres are distinct never makes two rows share a genre. |
| `RowOrder.ChartOrdersDescribe` | chart_creator_module.py:64-80 | Both tables the charts are drawn from are genre tables of the same movies. |

## Left out

- Loading the Excel file and dropping its unnamed column (chart_creator_module.py:13-18) are file I/O. The genres string is parsed with `eval`, which is dynamic code evaluation. The model takes an already parsed sequence of movie records.
- `round(..., 2)` on the averages (chart_creator_module.py:50, 55) is floating-point presentation rounding. The model keeps exact quotients, and the sorts compare exact values.
- Floating-point summation is not modelled. Totals are exact sums of reals.
- Chart construction with plotly (chart_creator_module.py:68-80) happens inside the charting library. This includes the bar charts and the three runtime histograms with ten bins, two of them with a logarithmic y axis (chart_creator_module.py:82-86).
- The figure property getters (chart_creator_module.py:88-106) are trivial.
- `dash_app.py` is page layout, routing and callbacks over figures that are already built. It does no computation.
- In-place mutation of the data frame is modelled as returning a new table. The second sort takes the first sort's result, as the source does.
- RowOrder.SortedKeepsKeys: re-sorting a sorted table is promised to keep the metric column, not the rows themselves. With ties, pandas' unstable default sort may swap rows of equal value, so the rows are promised unchanged only when the values are strictly increasing (`RowOrder.StrictlySortedIsFixedPoint`).
- RowOrder.SortValues: the contract does not promise which order rows with equal keys take. This matches pandas' default unstable sort.
- Standard deviation, standard error, grouping by distributor and highlight colours are not computed by `ChartCreator`. They are not modelled.
- Missing values are not modelled: every movie has a revenue and a rating, and the model's real numbers have no NaN. In the source a missing value is NaN, and its effect depends on the column. A NaN Rating reaches only the genre's rating total (chart_creator_module.py:45) and so only its average rating (chart_creator_module.py:55). Overall revenue and revenue per movie stay numbers, so both sorts place that row by its revenue like any other. A NaN Revenue makes the genre's overall revenue (chart_creator_module.py:44) and revenue per movie (chart_creator_module.py:50) NaN, and leaves its average rating alone. Both sorts (chart_creator_module.py:66, 74) then place that row last, because `na_position` defaults to last.
- Runtime is not a field of `Movies.Movie`, because only the histograms, which are left out, read it.
