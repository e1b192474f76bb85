# Event coincidence analysis, modelled in Dafny

This project models the core of a small event coincidence analysis (ECA)
tool. The tool asks whether outbreak years coincide with other shock
years (climatic, conflict, ecological, economic, geophysical,
technological) more often than chance alignment would predict.

It has two parts:

- **The engine (`eca.py`).** The engine:
  - normalises a column to an integer series;
  - counts the rows where both events occur (a dot product), the total of each series and the two conditional rates;
  - builds a Monte Carlo null distribution by shuffling the second series once per trial;
  - reports the smoothed one-sided p-value `(#{sims >= observed} + 1) / (N + 1)` and the mean of the null draws.
- **The panel logic of the app (`app.py`).** The app:
  - relabels infectious-disease shocks as outbreaks and keeps seven categories;
  - pivots the records into a (country, year) × category 0/1 panel;
  - runs the engine for every shock category shifted by 1 to 5 rows (recorded years) within each country, adding each lagged column to a growing frame;
  - builds the same-year table;
  - classifies categories as notable (p < 0.05 and positive lift) or weak (p ≥ 0.05).

Modules:

- `Wrappers` (`wrappers.dfy`): `Option` and `Result`.
- `Permutations` (`permutations.dfy`): the random source. Each Monte Carlo trial's `rng.permutation(b)` is an input permutation `p` of the row indices, and the shuffled series is `b[p[0]], b[p[1]], …`. The properties proved hold for every choice of permutations.
- `Eca` (`eca.dfy`): the engine. Frames are maps from column name to cells. A cell is missing or a number. Counts are unbounded integers. Rates, p-values and means are exact reals. A NaN rate is `None`. A missing column is the error `MissingColumn`, where pandas raises `KeyError`.
- `Ordering` (`ordering.dfy`): Python's order on strings and on (country, year) tuples. Also the sorted list of distinct values that `pivot_table` uses for its index and its column headers.
- `App` (`app.dfy`): record cleaning, the panel, the per-country lag shift, the lag loop, the same-year loop and the classification.

Notes on the code:

- **Which total divides each rate.** The rate keyed `"<event_a> with <event_b>"` is `coincidences / total_a`, and the one keyed `"<event_b> with <event_a>"` is `coincidences / total_b` (`eca.py:16-23`). The model follows the code.
- **When two rate keys coincide.** For some names the two keys are the same string even though the event names differ. Then the second entry wins, and `Eca.CoincidenceSummary` states exactly that.
- **No fail-fast on a zero simulation count.** The code does not reject `simulations <= 0`. With no draws, `np.mean` of an empty array is NaN and warns. `Eca.MonteCarloCoincidences` accepts 0 and returns the empty distribution. `Eca.RunEventCoincidenceAnalysis` requires `simulations > 0`, so that the mean exists.
- **One seed for every lag test.** Every lag test is called with the same `random_state=random_seed` (`app.py:108`). So every (category, lag) pair is tested against the same sequence of permutations. `App.LagAnalysis` passes the same draws to every pair.
- **Lags count rows, not years.** The lag shift moves a value by row position inside each country's group (`app.py:102`). The panel has a row for a country-year only when some kept shock was recorded that year. So a lag of k pairs a row with the k-th earlier recorded year of the same country, which can be more than k calendar years back. The app's text says the categories are lagged "by one to five years" (`app.py:141`). `App.LagCountsRowsNotYears` shows a two-row country, with rows for 2000 and 2005, where lag 1 pairs 2005 with the 2000 shock.
- **No check for 0/1 values.** The normaliser does not check that values are 0 or 1 (`eca.py:7`). `Eca.IntegersPassThrough` shows that any integer, including 2, passes through unchanged. The counting properties are stated for 0/1 series (`Eca.IsBinary`).

## Model

| member | source | states |
|---|---|---|
| Eca.BinarySeries | eca.py:5-7 | same length as the column; a missing cell becomes 0; every other cell becomes its value truncated toward zero; no 0/1 check |
| Eca.TruncateToInt | eca.py:7 | `astype(int)` truncates toward zero: for x ≥ 0, r ≤ x < r + 1; for x < 0, r − 1 < x ≤ r |
| Eca.IntegersPassThrough | eca.py:5-7 | an integer column passes through the normaliser unchanged, whatever its values |
| Eca.DotCountsCoincidences | eca.py:14 | on 0/1 series the dot product equals the number of rows where both series are 1 |
| Eca.DotSymmetric | eca.py:14 | the joint count is the same with the two events swapped |
| Eca.DotBounds | eca.py:14-15 | on 0/1 series, 0 ≤ coincidences ≤ total_a and coincidences ≤ total_b |
| Eca.SumCountsOnes | eca.py:15 | on a 0/1 series the total is the number of ones in it |
| Eca.Rate | eca.py:16-17 | the rate is undefined exactly when its total is not positive; otherwise rate × total = coincidences |
| Eca.RateIsShare | eca.py:16-17 | a defined rate whose joint count is at most its total lies in [0, 1] |
| Eca.CoincidenceSummary | eca.py:10-25 | fails exactly when a column is missing, naming event_a first; otherwise coincidences = dot product, totals keyed by the two names, the two rate keys, and each key's rate over its own total, with the later key winning when the keys coincide |
| Eca.SummaryOfBinaryColumns | eca.py:10-25 | on 0/1 columns: coincidences = number of rows where both occur, bounded by both totals; every defined rate lies in [0, 1]; the rate over total_b is undefined exactly when total_b = 0 |
| Permutations.ShuffleKeepsMultiset | eca.py:40 | a shuffle by a permutation keeps the multiset of values |
| Eca.ShuffleKeepsTotal | eca.py:40 | a shuffled 0/1 series is a 0/1 series with the same number of ones |
| Permutations.Shuffle | eca.py:40 | a shuffled series has B's length; every value it holds is one of B's, and every value of B appears in it |
| Eca.NullDistribution | eca.py:39-43 | one simulated joint count per trial, in trial order; its bounds are stated by Eca.NullDistributionBounds |
| Eca.NullDistributionBounds | eca.py:39-43 | on 0/1 series every simulated joint count lies in [0, min(total_a, total_b)] |
| Eca.MonteCarloCoincidences | eca.py:28-44 | fails exactly when a column is missing; otherwise returns one entry per trial, in trial order: A's dot product with B shuffled by that trial's permutation |
| Eca.CountAtLeast | eca.py:58 | the count of draws ≥ observed is at most N; it equals N exactly when every draw is ≥ observed, and 0 exactly when none is |
| Eca.CountAtLeastCounts | eca.py:58 | the count is the number of trials whose coincidence count is ≥ the observed one |
| Eca.PValue | eca.py:58 | p = (number of trials ≥ observed + 1)/(N+1); 1/(N+1) ≤ p ≤ 1; p = 1 exactly when every draw is ≥ observed; p = 1/(N+1) exactly when no draw is |
| Eca.SmoothedShare | eca.py:58 | for c ≤ N, (c+1)/(N+1) lies in [1/(N+1), 1]; it is 1 iff c = N and 1/(N+1) iff c = 0 |
| Eca.Mean | eca.py:63 | mean × N = sum of the draws |
| Eca.SumBetween | eca.py:63 | draws in [lo, hi] sum to between lo·N and hi·N |
| Eca.MeanBetween | eca.py:63 | the mean of draws in [lo, hi] lies in [lo, hi] |
| Eca.RunEventCoincidenceAnalysis | eca.py:47-64 | missing column errors as above; the summary does not depend on the draws; N simulations; p-value and mean of those; 1/(N+1) ≤ p ≤ 1; on 0/1 columns the expected count lies in [0, min(total_a, total_b)], and a zero observed count gives p = 1 |
| Ordering.StrLessIsStrictTotalOrder | app.py:21-31 | Python's string order, by which pivot_table sorts its column headers, is a strict total order |
| Ordering.KeyLessIsStrictTotalOrder | app.py:21-31 | the (country, year) tuple order of the pivot index is a strict total order |
| Ordering.Insert | app.py:21-31 | inserting a value adds exactly that value to the list's members |
| Ordering.InsertCorrect | app.py:21-31 | inserting into a strictly sorted list keeps it strictly sorted |
| Ordering.SortedDistinct | app.py:21-31 | the pivot's index and header list holds exactly the values that occur |
| Ordering.SortedDistinctCorrect | app.py:21-31 | under a strict total order the pivot's index and header list is strictly sorted |
| App.CleanRecords | app.py:15-19 | infectious-disease shocks become outbreaks; exactly the relabelled records with one of the seven categories survive |
| App.CellValue | app.py:21-31 | a pivot cell is 0 or 1, and it is 1 exactly when some record has that key and category |
| App.BuildPanel | app.py:21-31 | the panel is sorted and 0/1; its index holds exactly the record keys; its columns hold exactly the record categories; a cell is 1 iff a matching record exists |
| App.CleanPanelColumns | app.py:15-31 | every panel column is one of the seven kept categories |
| App.ShockColumns | app.py:34 | the shock columns are the panel columns other than Outbreak, still sorted |
| App.AnalysisColumns | app.py:35-36 | Outbreak followed by exactly the shock columns in order, with no second Outbreak; fails exactly when there is no Outbreak column |
| App.LagShift | app.py:102 | the lagged column has one entry per row; its meaning by group position is stated by App.LagShiftWithinGroup |
| App.GroupValuesAt | app.py:102 | the m-th value of a country's group comes from the row with m earlier rows of that group |
| App.LagShiftWithinGroup | app.py:102 | a row with fewer than k earlier rows in its country gets 0; any other row gets the value exactly k group rows earlier |
| App.OccurrencesOfPrefix | app.py:102 | a row's group position is below its group's size |
| App.ShortGroupIsZero | app.py:102 | a country with at most k rows gets only zeros |
| App.LagShiftIsBinary | app.py:102 | shifting a 0/1 column gives a 0/1 column of the same length |
| App.LagSpecs | app.py:98 | 5 × (number of shock columns) specs: spec t is (column t / 5, lag t mod 5 + 1), in variable-major order |
| App.LagColumnName | app.py:101 | `f"{variable}_lag{lag}"`: the name starts with the variable followed by `_`; a single-digit lag gives a name 5 characters longer, ending in the lag's digit |
| App.LagColumnNamesDistinct | app.py:101 | distinct (variable, lag) pairs with single-digit lags have distinct column names |
| App.LagColumnNameIsFresh | app.py:101-102 | a lagged column name is never a category name, so it never overwrites a panel column |
| App.RecordOf | app.py:110-120 | a lag row carries its variable and lag, and its lift is observed minus expected coincidences |
| App.LagRecordBounds | app.py:103-121 | each lag row counts the outbreak rows that coincide with the lagged column; the count is bounded by both totals; p lies in [1/(N+1), 1]; the expected count lies in [0, min of the totals]; the lift is at most the count |
| App.LagCountsRowsNotYears | app.py:102 | in a country with rows for 2000 and 2005 only, lag 1 puts the 2000 value on the 2005 row, five years later |
| App.AnalyseLagged | app.py:103-121 | the engine run on the two columns Outbreak and col_name read from the updated frame gives the row built from those two series |
| App.LagFrameKeepsPanel | app.py:97-102 | after any number of passes the frame still holds every panel column unchanged |
| App.LagFrameKeys | app.py:97-102 | after t passes the frame holds exactly the panel columns and the names of the first t specs |
| App.LagFrameHoldsLagged | app.py:97-102 | after t passes, each spec done has its lagged column in the frame under its name |
| App.LagStep | app.py:100-121 | one pass adds spec t's lagged column to the frame and analyses the frame's Outbreak and lagged columns, yielding spec t's record |
| App.LagLoop | app.py:97-121 | the loop over specs yields one record per spec, in order, and the frame after all specs |
| App.LagAnalysis | app.py:97-121 | the lag section: the specs name panel columns; the records are those of every (shock column, lag 1..5) pair in order; the final frame is the panel plus every lagged column |
| App.SameYearRows | app.py:54-71 | one row per shock column, in order, carrying that column's count, expected count, p-value and totals, with lift = coincidences − expected |
| App.PositiveVariables | app.py:88 | a category is notable iff some row has p < 0.05 and lift > 0 |
| App.WeakVariables | app.py:89 | a category is weak iff some row has p ≥ 0.05 |
| App.PositiveAndWeakDisjoint | app.py:69-89 | with one row per category, no category is both notable and weak, and a notable category has a positive lift |

## Left out

- **Random number generation.** `np.random.default_rng` and `rng.permutation` (`eca.py:38`, `eca.py:40`) are foreign code. Each trial's permutation is an input. NumPy's exact draw sequence and seed reproducibility are not modelled.
- **`batch_event_coincidence`.** It is imported at `app.py:4`, but `eca.py` does not define it, so it is not part of this model. `App.SameYearRows` takes its per-category results as an input map.
- **`conditional_rates` fields.** The same-year and lag tables read `summary["conditional_rates"]` (`app.py:58`, `app.py:67-68`, `app.py:118`). The engine returns that dictionary under the key `"rates"`, so these lookups would raise `KeyError`. The two share columns are left out of `App.SameYearRow` and `App.LagRecord`.
- **Presentation and I/O.** The Streamlit UI (every `st.*` call) and reading the CSV (`app.py:14`) are left out.
- **Display steps.** Sorting the tables for display (`app.py:73`, `app.py:123-126`) and best-lag selection by `groupby().first()` (`app.py:128-137`) are presentation over pandas and are left out.
- **Title-casing** of the upper-case column names (`app.py:33`) is cosmetic. Panel columns keep the category strings.
- **Dropped columns and year cast.** Dropping the `type` and `count` columns and casting the year to an integer (`app.py:16-18`) are left out. A record carries an integer year from the start.
- **Floating point.** Draws are kept as integers rather than the float array of `eca.py:41`. NaN is `None`. Means, rates and p-values are exact reals rather than IEEE doubles.
- **Eca.RunEventCoincidenceAnalysis:** requires `simulations > 0`. The code's zero-simulation path (an empty distribution and a NaN mean) is not modelled. Nor are negative counts: there `range` is empty, and `(count + 1) / (simulations + 1)` (`eca.py:58`) divides by zero at −1 and gives a negative p-value below −1. The app's slider only passes 500 to 5000.
- **Eca.MonteCarloCoincidences:** takes the simulation count as a natural number. The code's negative counts, which draw nothing, are not modelled.
- **Eca.BinarySeries:** casts with unbounded integers. `astype(int)` (`eca.py:7`) casts to 64-bit integers, so a value of magnitude 2^63 or more does not truncate toward zero there. Infinite values raise an error, and a cell of the model cannot hold them. Sums and dot products (`eca.py:14-15`) are unbounded integers as well, where NumPy wraps around at 64 bits. That can matter only for the non-0/1 columns the engine lets through. Panel cells are 0 or 1, so the app never reaches these cases.
- **Default arguments.** The defaults `event_a="Outbreak"`, `event_b="Climatic"`, `simulations=1000` and `random_state=None` (`eca.py:10`, `eca.py:28-33`, `eca.py:47-52`) are dropped. Every call names all its arguments, as the app's calls do.
- **App.LagColumnNamesDistinct:** stated for lags below 10 only. Those are the only lags the lag loop uses (1 to 5).
