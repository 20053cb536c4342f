# State classification and school order aggregation

This project models, in Dafny, three small pure pieces of the reporting scripts of a nonprofit's tree-request program, and proves properties of them.

- **`get_states`** takes a reference table of (full name, abbreviation, postal code) rows and cleans it. Every column is lowered, and the abbreviation also loses its periods. The function then classifies each free-text state input, lowered but not stripped of periods. The order is: full name, then abbreviation, then code, then unidentified. A match resolves to the first row with that value. It keeps a tally of the four categories and returns the resolved row's code, or the sentinel `"UNKNOWN"` (module `States`).
- **The tree-request dashboard** (module `Dashboard`) does the following:
  - builds the sorted list of distinct school ids;
  - computes per-school total sapling counts;
  - computes per-school counts since a cutoff `days` days before `now`;
  - builds the fortnightly contest windows from 1642957200 in steps of 1209600 seconds;
  - buckets orders into those windows in `update_contest`.
- **The commitments map** (module `Progress`):
  - drops the `"UNKNOWN"` labels;
  - upper-cases the rest;
  - groups and counts them per state;
  - sorts the counts from most to fewest.

Supporting modules:
- `Text`: ASCII lowering and upper-casing, and period stripping.
- `Seqs`: first index, occurrence count, sums and gathering by positions.
- `Wrappers`: `Option` and `Result`.

Two data structures are replaced by values:
- the table and the orders are plain sequences of records;
- the wall clock is an integer parameter `now`.

A filter over the order table is a `Criterion` value, such as a school, a cutoff, a window or two criteria together. It stands for the boolean mask the script builds.

Two consequences of the classifier's cleaning are worth spelling out:
- **Periods.** Only the table's abbreviations lose their periods (deps/states/get_states.py:10); the inputs are only lowered (line 15). So an input written with periods, such as `Fla.`, is never an abbreviation (`States.ExampleLabels`, `States.PeriodedInputIsNoAbbreviation`).
- **Case.** Labels are the lowered table codes. Only the map script upper-cases them (maps/progress.py:17).

## Model

| member | source | states |
|---|---|---|
| Text.Lower | deps/states/get_states.py:9-15 | Lowering keeps the length and lowers every position, and its result holds no upper-case letter. |
| Text.StripPeriods | deps/states/get_states.py:10 | The result holds no period, and every other character occurs exactly as often as before. |
| Text.StripPeriodsAppend | deps/states/get_states.py:10 | Stripping a concatenation strips each part, so the kept characters stay in their original order. |
| Text.Upper | maps/progress.py:17 | Upper-casing keeps the length, upper-cases every position, and leaves no lower-case letter (partner: `Text.UpperOfLower`). |
| Text.LowerKeepsPeriods | deps/states/get_states.py:10-15 | Lowering neither adds nor removes a period. |
| Text.StripTrailingPeriod | deps/states/get_states.py:10 | A period-free abbreviation with one trailing period, such as `Fla.`, is stripped back to itself. |
| Text.LowerOfUpper | deps/states/get_states.py:15 | Lowering an upper-cased string gives the same as lowering the original, so casing is forgotten. |
| Text.UpperOfLower | maps/progress.py:17 | Upper-casing a lowered code gives the same as upper-casing the original. |
| Seqs.FirstIndex | deps/states/get_states.py:23-29 | The position found holds the value and no earlier position does, as `np.argmax` returns the first true entry. |
| States.CanonicalEntry | deps/states/get_states.py:9-11 | The cleaned name and code are the originals lowered, and the cleaned abbreviation is the original with its periods removed, then lowered. The cleaned row is therefore lower case with no period in its abbreviation, and cleaning an already clean row changes nothing. |
| States.Canonicalize | deps/states/get_states.py:9-11 | The table is cleaned row by row, keeping its length and row order, and every row is clean afterwards. |
| States.Classify | deps/states/get_states.py:19-32 | An input gets a row exactly when it is identified, and the row lies inside the table. Which category wins, and which row, is stated by its partner `States.ClassifySound`. |
| States.ClassifySound | deps/states/get_states.py:21-32 | Full name wins whenever the input is in the name column. Abbreviation applies only when the name did not match, and code only when neither did. A resolved row holds the input in the matched column, and no earlier row does. |
| States.ClassifyAtRow | deps/states/get_states.py:19-32 | On a cleaned table, an input first found at row `i` of a column, and absent from every column of higher priority, is classified in that column's category at row `i`. |
| States.LabelOfFullName | deps/states/get_states.py:9-23 | Stated on the raw table: an input whose lowered form equals the lowered name of row `i`, and of no earlier row, is tallied as a full name. Its label is row `i`'s lowered code. |
| States.LabelOfAbbreviation | deps/states/get_states.py:9-26 | An input whose lowered form matches no lowered name, but equals the period-stripped, lowered abbreviation of row `i` and of no earlier row, is tallied as an abbreviation. Its label is row `i`'s lowered code. |
| States.LabelOfCode | deps/states/get_states.py:9-29 | An input whose lowered form matches no lowered name or cleaned abbreviation, but equals the lowered code of row `i` and of no earlier row, is tallied as a code. Its label is that lowered code. |
| States.LabelOfUnmatched | deps/states/get_states.py:9-39 | An input whose lowered form matches no lowered name, cleaned abbreviation or lowered code is tallied as unidentified and labelled `"UNKNOWN"`. |
| States.Tally.Bump | deps/states/get_states.py:22-31 | Classifying one input adds one to exactly the counter of its category and one to the total. |
| States.GetStates | deps/states/get_states.py:14-39 | There is one code per input, in input order. Code k is input k's label under the corrected lookup (see Findings). Each tally counter equals the number of inputs of its category, and the counters add up to the number of inputs. |
| States.TallyCoversEveryInput | deps/states/get_states.py:14-32 | Each tally counter is the number of inputs of its category. The four counts sum to the input length, so every input lands in exactly one category. |
| States.Label | deps/states/get_states.py:39 | The corrected lookup gives the sentinel or a code of the cleaned table. The partner `States.LabelIsUnknownOrCode` adds that the sentinel comes exactly for unidentified inputs. |
| States.LabelAsWritten | deps/states/get_states.py:32-39 | The lookup through index 999 also gives the sentinel or a code of the cleaned table. Its partners `States.SentinelAgreesBelow1000` and `States.SentinelHidesRow999` say when it matches `States.Label`. |
| States.LowerCaseIsNotUnknown | deps/states/get_states.py:39 | No lower-case string is the upper-case sentinel. |
| States.LabelIsUnknownOrCode | deps/states/get_states.py:11-39 | Every label is the sentinel or the lowered code of some table row. It is the sentinel exactly when the input was unidentified. |
| States.LabelIgnoresCase | deps/states/get_states.py:15 | The label and the tally category depend only on the lowered input. Lowered and upper-cased inputs get the same label and the same category as the original. |
| States.PeriodedInputIsNoAbbreviation | deps/states/get_states.py:10-15 | An input holding a period is never classified as an abbreviation. |
| States.KnownLabelIsRecognised | deps/states/get_states.py:27-39 | Feeding a recognised label back in gives a recognised label again. |
| States.SentinelAgreesBelow1000 | deps/states/get_states.py:32-39 | With fewer than 1000 rows, the lookup through index 999 gives the same labels as the corrected lookup. |
| States.SentinelHidesRow999 | deps/states/get_states.py:32-39 | A 1000-row table shows the collision. An input matching row 999 by full name is tallied as a state but labelled `"UNKNOWN"` by the lookup as written. The corrected lookup gives its code. |
| States.ExampleLabels | deps/states/get_states.py:9-39 | On a table of Texas, Iowa and Florida, `Texas` gives `tx`, `tx` gives `tx`, `ZZ` gives `UNKNOWN`, `Fla` gives `fl` and `Fla.` gives `UNKNOWN`. |
| Dashboard.Select | dashboards/treeRequestDash.py:124 | A boolean-mask selection is never longer than the table. Which rows it keeps, and how often, is stated by its partner `Dashboard.SelectSound`. |
| Dashboard.SelectTwice | dashboards/treeRequestDash.py:142-143 | Masking the selected rows again is one selection by both criteria together. |
| Dashboard.SelectSumIsMaskedSum | dashboards/treeRequestDash.py:124-125 | The sum of `number` over the selected rows equals the sum over the whole table with every non-matching order counted as 0. |
| Dashboard.SelectSound | dashboards/treeRequestDash.py:124 | A boolean-mask selection keeps exactly the orders meeting the criterion, each as often as the table holds it, and drops every other order. |
| Dashboard.SumNumbersSplits | dashboards/treeRequestDash.py:142-143 | The sum since a cutoff plus the sum before it is the whole sum. |
| Dashboard.InsertSorted | dashboards/treeRequestDash.py:32 | Inserting an id into a strictly increasing list keeps it strictly increasing and adds exactly that id. |
| Dashboard.SchoolCodes | dashboards/treeRequestDash.py:32 | The school list is strictly increasing, so it is sorted and duplicate-free. It holds exactly the ids that occur in the orders. |
| Dashboard.SaplingCounts | dashboards/treeRequestDash.py:115-127 | There is one count per listed school. Count k is the sum, over the whole order table, of each order's `number` if its school is school k and 0 otherwise. The partner `Dashboard.SaplingCountsConserve` states what the counts add up to. |
| Dashboard.RecentSaplingCounts | dashboards/treeRequestDash.py:129-146 | There is one count per listed school. Count k is the sum, over the whole order table, of each order's `number` if its school is school k and it was submitted at or after `now` less `days` days, and 0 otherwise. The partner `Dashboard.RecentWithinTotal` relates it to the total counts. |
| Dashboard.SchoolWithoutOrdersCountsZero | dashboards/treeRequestDash.py:121-125 | A listed school with no orders gets 0. |
| Dashboard.OneSchoolStep | dashboards/treeRequestDash.py:124-125 | One more order raises a school's sum by the order's size exactly when the order is that school's, and leaves it unchanged otherwise. |
| Dashboard.SaplingCountsConserve | dashboards/treeRequestDash.py:115-127 | When every order's school is listed once, the per-school counts add up to the total of all orders. |
| Dashboard.RecentWithinTotal | dashboards/treeRequestDash.py:136-146 | A school's total is its recent count plus its count before the cutoff. With non-negative order sizes, the recent count never exceeds the total. |
| Dashboard.UpdateData | dashboards/treeRequestDash.py:42-54 | The table lists exactly the order schools in increasing order. Row k holds school k's total count and its count over the last 7 days. The total counts account for every order. With non-negative sizes, each weekly count is at most its total. |
| Dashboard.CompetitionCount | dashboards/treeRequestDash.py:92 | The count is the number of fortnights begun since the first start: `now` lies in contest number `count`, between its start and the next one. |
| Dashboard.ContestWindows | dashboards/treeRequestDash.py:90-94 | There are `max(0, floor((now - start) / delta) + 2)` windows. Window i starts at `start + i * delta` and lasts one `delta`. Each window ends where the next begins. |
| Dashboard.WindowsCoverUpToNow | dashboards/treeRequestDash.py:90-94 | Every instant from the first start up to `now` lies in some window, and the last window starts after `now`. |
| Dashboard.ContestWindowsHaveDistinctStarts | dashboards/treeRequestDash.py:90-94 | No two of the dashboard's windows start at the same instant. |
| Dashboard.StartLabels | dashboards/treeRequestDash.py:66 | There are no more datetime columns than windows, and the first column is the first window's start. Its partner `Dashboard.StartLabelsSound` states that the columns are exactly the distinct starts. |
| Dashboard.StartLabelsSound | dashboards/treeRequestDash.py:66 | The contest's datetime columns are the window starts: each start names exactly one column, and no column is named twice. |
| Dashboard.DistinctStartsKeepEveryWindow | dashboards/treeRequestDash.py:66 | With distinct starts, every window gets a column of its own, in window order. |
| Dashboard.ScanWindow | dashboards/treeRequestDash.py:67-70 | The scan always reaches the last order. It fails exactly when an order inside the window has an unlisted school. Otherwise, each listed school's cell is the sum over its orders inside the window, both ends included. |
| Dashboard.UpdateContestAsWritten | dashboards/treeRequestDash.py:56-72 | The scan position is never reset, so only the first window's scan reads any order. There is one column per distinct window start. Only the first column can be non-zero. It holds the first window's sums unless a later window starts at the same instant and resets it to 0. Only an order in the first window can make the call fail. |
| Dashboard.UpdateContest | dashboards/treeRequestDash.py:56-72 | For windows with distinct starts, with the scan restarted for every window, column w holds each school's sum inside window w. The call fails exactly when some order inside some window has an unlisted school. |
| Dashboard.OwnSchoolsAreListed | dashboards/treeRequestDash.py:31-32 | The dashboard's own school list holds the school of every order, so the contest lookup cannot fail on it. |
| Dashboard.SecondContestOrderIsDropped | dashboards/treeRequestDash.py:64-70 | An order placed in the second contest is worth 5 in the second window's cell and 0 in the first. The first is the only column the as-written scan fills. |
| Progress.KnownIndices | maps/progress.py:15 | The known positions are exactly the non-sentinel positions, in increasing order, and there are `len - count("UNKNOWN")` of them. |
| Progress.DropUnknown | maps/progress.py:15-16 | No sentinel survives the filter, and the kept length is the input length less the number of sentinels. |
| Progress.DropUnknownStep | maps/progress.py:15-16 | Extending the column by one label extends the kept labels by that label, unless it is the sentinel. |
| Progress.DropUnknownKeepsCounts | maps/progress.py:15-16 | Every other label is kept exactly as often as it occurred. |
| Progress.DropUnknownAppend | maps/progress.py:15-16 | Filtering distributes over concatenation, so kept entries keep their relative order. |
| Progress.UnknownCountIsUnidentified | maps/progress.py:12-18 | The number of dropped labels is the tally's unidentified count, so the plottable count is the inputs less that counter. |
| Progress.Plottable | maps/progress.py:15-17 | There is one plotted state per label that is not `"UNKNOWN"`, and plotted state k is the upper case of the k-th such label. The partners `Progress.PlottableOfOne` and `Progress.PlottableAppend` fix the plotted column label by label, and `Progress.PlottableAreUpperCodes` says which states can appear. |
| Progress.PlottableOfOne | maps/progress.py:15-17 | A single `"UNKNOWN"` label plots as nothing, and any other single label plots as its upper case. |
| Progress.PlottableAppend | maps/progress.py:15-17 | Plotting a concatenation of label columns concatenates their plotted columns, so plotted states keep the order of their labels. |
| Progress.PlottableAreUpperCodes | maps/progress.py:17-22 | Every plotted state is the upper-case form of some reference-table code. |
| Progress.AddOneGroups | maps/progress.py:26 | Adding one occurrence keeps the table a grouping of the longer column: one row per distinct state, and each count is its number of occurrences. |
| Progress.AddOneTotal | maps/progress.py:26 | Adding one occurrence adds one to the counts' sum. |
| Progress.GroupCount | maps/progress.py:26 | The grouped table has one row per distinct state, and every state of the column has a row. Each count is the state's number of occurrences and at least 1. The counts add up to the column length. |
| Progress.InsertByCount | maps/progress.py:27 | Inserting into a table sorted by decreasing count keeps it sorted and adds exactly that row. |
| Progress.SortByCount | maps/progress.py:27 | Sorting yields counts from most to fewest and is a permutation of the rows. |
| Progress.SortByCountTotal | maps/progress.py:27 | Sorting keeps the sum of the counts. |
| Progress.SortByCountUnique | maps/progress.py:27 | Sorting keeps states unique. |
| Progress.SortKeepsGroups | maps/progress.py:27 | The sorted table is still the grouping of the same column. |
| Progress.StateCounts | maps/progress.py:26-27 | The final table groups the plotted states, with the counts adding up to the number of plotted commitments, ordered from most to fewest. |

## Left out

- Google Drive access, credential handling and file upload are external services and are not modelled.
- Reading the reference CSV, the commitments CSV and the `tree_order` table is I/O. The model takes the table, the labels and the orders as given sequences.
- Writing the workbook and its three sheets is output only and not modelled. So are the plotly choropleth and every `print`, including the printed identification tally (returned by `States.GetStates` instead).
- The float clock `time.time()` is an integer `now` parameter. Fractional seconds are not modelled.
- The contest's `datetime.fromtimestamp` column labels depend on the time zone. Columns are identified by window start instead. Distinct starts are taken to give distinct labels; local time breaks this only for two starts an hour apart across a daylight-saving change.
- Dashboard.UpdateContest: requires distinct window starts. With a repeated start, the corrected scan would write by window position into a table whose columns are keyed by start, and no intended result is evident. The dashboard's own windows meet the requirement (`Dashboard.ContestWindowsHaveDistinctStarts`).
- The contest's `sort_values(by='submit_time')` is not modelled. Cell sums and the failure condition do not depend on the order of the orders.
- `Progress.SortByCount`: ties between equal counts are not ordered. The pandas sort is not stable, and only the non-increasing order and the permutation are promised.
- `Progress.GroupCount`: rows come in first-appearance order, not the key order pandas' `groupby` uses. Only the sorted result is used later.
- Lowering and upper-casing are ASCII only. Unicode case folding is not modelled.
- Integers are unbounded. The int64 columns of the order table are not modelled as wrapping, because realistic sapling counts are far from the bound.
- School ids are integers, and the `"UNKNOWN"` sentinel is the only non-code label.

## Findings

| source | as written | input that shows it | evidently intended | confidence | as-written member | corrected member |
|---|---|---|---|---|---|---|
| dashboards/treeRequestDash.py:64-70 | The scan position `i` is set to 0 once, before the loop over windows. The first window's scan consumes every order, and later windows scan nothing. | One order of school 7, size 5, submitted one second after the second contest starts, with `now` at the first start: both columns stay 0. | Restart the scan for each window, so each column sums the orders inside its own window. | high; not executed | Dashboard.UpdateContestAsWritten | Dashboard.UpdateContest |
| deps/states/get_states.py:32-39 | Index 999 marks an unidentified input, but it is also a valid row index. | A 1000-row table whose row 999 is `texas`: the input `texas` is tallied as a full name but labelled `UNKNOWN` (`States.SentinelHidesRow999`). | Mark unidentified inputs with no row at all (`States.Label`), so the label is the sentinel exactly when the input is unidentified (`States.LabelIsUnknownOrCode`). | low (the shipped table has about fifty rows); not executed | States.LabelAsWritten | States.Label |
