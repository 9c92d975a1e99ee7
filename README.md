# Book-rating dashboard: cleaning, year filter and top-10 counts

This project models the data logic of a small book-rating dashboard. There are
two scripts:

- A cleaning script (`filter.py`) loads the merged rating table. It replaces
  every `age` above 80 and every `book_rating` of 0 with a missing marker, then
  writes the table back over the same file.
- A dashboard (`dataviz.py`) reads the table. It keeps the rows whose
  `year_pub` lies in the range picked on a slider (1950 to 2020, both ends
  inclusive). From those rows it draws three bar charts: the ten most frequent
  locations, book titles and authors, each with its number of rows.

The model has five modules:

- `Records` (`records.dfy`): the row. `age` and `book_rating` are `Measure`
  values: `Present(n)` or `Missing`. `Missing` is the explicit missing marker
  (the script writes the string `'N/A'`, which reads back as a missing value).
- `Cleaner` (`cleaner.dfy`): the cleaning script. The source changes the table
  in place, so the script is modelled as methods that loop over an
  `array<Row>`. `BlankImplausibleAges` models line 9, `BlankZeroRatings` models
  line 10 and `CleanInPlace` models both. Each method is proved equal to a
  function on sequences (`AgePass`, `RatingPass`, `Clean`). The lemmas state
  the properties of those functions.
- `YearFilter` (`year_filter.dfy`): the slider and the boolean-mask selection.
- `Frequency` (`frequency.dfy`): the `value_counts(...).head(10)` aggregation.
  The library does not promise any order among equal counts. So the
  properties are proved for every list that meets `IsValueCounts` (one entry
  per distinct value, exact counts, counts non-increasing). `ValueCounts` is
  one such list. It keeps first-occurrence order among ties, and it proves
  that such a list always exists.
- `Dashboard` (`dashboard.dfy`): one render. The view is filtered from the
  whole table, and the three charts are computed from that view.

## Model

| member | source | states |
|---|---|---|
| `Cleaner.MapRowsAt` | filter.py:9-10 | A whole-column assignment keeps the number and order of rows and changes each row by the rule alone |
| `Cleaner.CleanRow` | filter.py:9-10 | After cleaning, an age above 80 is missing; an age of 80, a lower age or a missing age is kept; a rating of 0 is missing; any other rating is kept; every other column of the row is unchanged; row count is unchanged |
| `Cleaner.Thresholds` | filter.py:9-10 | Edge values: age 81 is blanked, age 80 is kept, rating 0 is blanked, rating 1 is kept |
| `Cleaner.PassesCommute` | filter.py:9-10 | The age rule and the rating rule are independent: applying them in either order gives the same table |
| `Cleaner.CleanedIsClean` | filter.py:9-10 | After cleaning, no present age exceeds 80 and no present rating is 0 |
| `Cleaner.CleanFixedPoints` | filter.py:9-10 | Cleaning leaves a table unchanged if and only if the table is already clean |
| `Cleaner.CleanIdempotent` | filter.py:9-10 | Cleaning a cleaned table changes nothing |
| `Cleaner.BlankImplausibleAges` | filter.py:9 | In place, the loaded table becomes `AgePass` of the old table |
| `Cleaner.BlankZeroRatings` | filter.py:10 | In place, the loaded table becomes `RatingPass` of the old table |
| `Cleaner.CleanInPlace` | filter.py:7-13 | In place, the table becomes `Clean` of the old table and is clean afterwards |
| `YearFilter.FilterByYear` | dataviz.py:67 | The view is never longer than the table |
| `YearFilter.FilterMembership` | dataviz.py:67 | A row is in the view if and only if it is in the table and `lo <= year_pub <= hi` (both bounds inclusive) |
| `YearFilter.KeptPositionsSpec` | dataviz.py:67 | The kept index labels are increasing and are exactly the positions the mask accepts; the view holds the table's row at each of them |
| `YearFilter.FilterIsSubsequence` | dataviz.py:67 | The view is a subsequence of the table: rows are unmodified and keep their relative order |
| `YearFilter.FilterMultiplicity` | dataviz.py:67 | A row in range occurs in the view as often as in the table; a row out of range does not occur in the view |
| `YearFilter.FilterKeepsAllIff` | dataviz.py:67 | The view is the whole table, in order, if and only if every year is in range |
| `YearFilter.FilterEmptyIff` | dataviz.py:67 | The view is empty if and only if no year is in range |
| `YearFilter.DefaultSelectionView` | dataviz.py:64-67 | The default (1950, 2020) is a value the slider allows, and at the default the view keeps exactly the rows published from 1950 to 2020 |
| `YearFilter.DefaultSelectionKeepsAllIff` | dataviz.py:64-67 | At the default, the view is the whole table if and only if no year lies outside 1950 to 2020; otherwise those rows are dropped |
| `YearFilter.SliderView` | dataviz.py:64-67 | For any slider value, the view holds only years from 1950 to 2020; a single-year range keeps exactly that year |
| `Frequency.Count` | dataviz.py:75 | A value's count is at most the number of rows, and it is positive if and only if the value occurs |
| `Frequency.FirstOccurrences` | dataviz.py:75 | The distinct values of a column, with no duplicates, are exactly the values that occur |
| `Frequency.SortOrders` | dataviz.py:75 | The ranking sorts entries by non-increasing count (`ascending=False`) |
| `Frequency.SortKeepsValuesDistinct` | dataviz.py:75 | The ranking neither duplicates nor merges values |
| `Frequency.ValueCountsIsValueCounts` | dataviz.py:75 | `ValueCounts` gives one entry per distinct value with its exact count, in non-increasing count order |
| `Frequency.ValueCountsLength` | dataviz.py:75 | A value-count list has exactly one entry per distinct value |
| `Frequency.ValueCountsTotal` | dataviz.py:75 | The counts of a value-count list add up to the number of rows |
| `Frequency.TopLength` | dataviz.py:75-77 | The top list has min(10, number of distinct values) entries, so it has at most 10 entries and is empty for an empty view |
| `Frequency.TopEntries` | dataviz.py:75-77 | Top values are pairwise distinct; each count is the value's number of rows, so it is at least 1; counts are non-increasing |
| `Frequency.TopIsTop` | dataviz.py:75-77 | A value is left out only when the list is full (10 entries), and it occurs no more often than the last listed value |
| `Frequency.TopTotal` | dataviz.py:75-77 | The counts in the top list add up to at most the number of rows in the view |
| `Frequency.TopValuesChart` | dataviz.py:75-97 | All the top-list properties above, for each of the three charts (location, title, author) over a view |
| `Dashboard.EmptyRangeCharts` | dataviz.py:67-97 | When no year is in range, the view and all three top lists are empty, and none of this is an error |
| `Dashboard.ChartTotals` | dataviz.py:67-97 | The view is no longer than the table, and no chart's counts add up to more than the view's rows |

## Left out

- Fetching the decorative animation and checking its HTTP status (dataviz.py:14-22). This is network I/O.
- Reading and writing the CSV file and its Latin-1 encoding (dataviz.py:42, filter.py:7, filter.py:13). The table is an in-memory sequence, or an array for the in-place cleaner. Overwriting the file in place is not modelled. The model assumes the missing marker reads back as missing, which is how `'N/A'` behaves when the file is read again. An in-memory second run of filter.py:9 would compare the string `'N/A'` with 80, and that is not modelled.
- The correlation matrix (dataviz.py:117). It is floating-point Pearson correlation computed inside the data-frame library.
- All histograms, scatter plots, the 3D plot, the heatmap figure, the chart template and the page, tabs and text (dataviz.py:11, dataviz.py:25-39, dataviz.py:45-61, dataviz.py:70-180). These are rendering only. This includes how the histograms treat missing markers.
- Tie order in the top-10 lists. The library's `value_counts` does not promise an order among equal counts, so the model claims only non-increasing counts. `ValueCounts` keeps first-occurrence order among ties, but no lemma claims that order.
- `value_counts` drops missing keys. The model treats location, title and author as always present strings.
- Ages, ratings and years are integers. A fractional age such as 80.5, which a floating-point column can hold, is not modelled. Neither is a missing `year_pub`.
