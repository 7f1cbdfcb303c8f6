# Publication dashboard: the data pipeline

This project models the data pipeline of `dashboard.py`, a Dash page that
surveys academic publications. Each spreadsheet row describes one
publication: repository, title, author, year, the keywords it was found
with, and pages.

At start-up the program does four things:
- it normalises the year column and drops the rows whose year does not parse;
- it splits each keyword cell on `,\s*`, explodes the frame to one row per
  keyword and strips every keyword;
- it counts the keywords;
- it lists the sorted keyword and repository options.

On every change of the controls, the callback `atualizar_grafico` does
four things:
- it keeps the rows of the ticked repositories and, when any keyword is
  picked, only the rows with a picked keyword;
- it groups the kept rows by (year, repository) and counts them;
- it draws a placeholder, a line chart or a bar chart;
- it tabulates the kept rows projected onto the six original columns, with
  exact duplicates dropped.

The model is written as pure functions over sequences, one module per stage:

| module | file | stage |
|---|---|---|
| `Records` | `records.dfy` | rows, records and year loading |
| `Text` | `text.dfy` | `str.isspace`, `strip`, the `,\s*` split and the plain comma split |
| `Ordering` | `ordering.dfy` | Python's string order, `sorted(set(...))` |
| `Keywords` | `keywords.dfy` | the explode step, the keyword counts, the option lists |
| `Aggregate` | `aggregate.dfy` | the two filters and the group-by count |
| `Dashboard` | `dashboard.dfy` | chart choice, the de-duplicated table, the callback, the start-up index |
| `Scenario` | `scenario.dfy` | a worked session over three publications |
| `Seqs`, `Wrappers` | `seqs.dfy`, `wrappers.dfy` | filter, map, flat-map, de-duplication, `Option` |

Modelling choices:
- **Years.** A year cell has an abstract type `Y`. Parsing it is the
  parameter `parse: Y -> Option<int>`, which stands for
  `pd.to_datetime(..., errors="coerce").dt.year`. A loaded record is a
  `Row<int>`.
- **Missing keywords.** A NaN keyword cell is `None` and reads as `""`, as
  `fillna("")` makes it.
- **The `Páginas` column.** It is an opaque `Pages` value. It only takes
  part in the whole-row equality of `drop_duplicates`.
- **The keyword selection.** It is an `Option<seq<string>>`. Both `None`
  and `Some([])` are falsy for `if keywords:`.
- **The split.** The `,\s*` split is modelled as the regular-expression
  engine runs it (`Text.SplitCommaSpace`). The model proves that after
  `strip()` it gives the same tokens as the plain split on `,`.
- **Whitespace.** It is the set that Python's `str.isspace()` accepts.
  `\s` on `str` patterns and `str.strip()` use the same set.
- **Ordering.** `groupby` sorts its keys ascending by year, then by
  repository. `sorted` compares strings code point by code point.

## Model

| member | source | states |
|---|---|---|
| Records.Load | dashboard.py:10-12 | as many records are loaded as there are rows whose year parses |
| Records.LoadConcat | dashboard.py:10-12 | loading works row by row, so the loaded records keep the source order |
| Records.LoadSingle | dashboard.py:10-12 | a row survives, carrying its parsed year, exactly when its year parses; otherwise it is dropped |
| Records.LoadKeepsParsed | dashboard.py:10-12 | every row whose year parses is loaded with the parsed integer year |
| Records.LoadProvenance | dashboard.py:10-12 | every loaded record comes from a source row whose year parses to the record's year, all other fields unchanged |
| Text.TrimLeftSpec | dashboard.py:20 | `lstrip` returns the longest suffix not starting with whitespace; everything cut off is whitespace |
| Text.TrimRightSpec | dashboard.py:20 | `rstrip` returns the longest prefix not ending with whitespace; everything cut off is whitespace |
| Text.Strip | dashboard.py:20 | a stripped string neither starts nor ends with whitespace |
| Text.StripIsSlice | dashboard.py:20 | the stripped string is a slice of the input, and only whitespace is cut off at either end |
| Text.StripTrimLeft | dashboard.py:20 | `strip` after `lstrip` is `strip` |
| Text.StripTrimmed | dashboard.py:20 | `strip` leaves a string without surrounding whitespace unchanged |
| Text.StripAfterSpaces | dashboard.py:18-20 | `strip` removes whitespace placed in front of a stripped string |
| Text.TrimLeftSpaces | dashboard.py:18-20 | leading whitespace does not survive `lstrip` |
| Text.SpacesHaveNoComma | dashboard.py:18 | a whitespace run never contains a comma |
| Text.CountCommasTrimLeft | dashboard.py:18 | removing leading whitespace never removes a comma |
| Text.SplitComma | dashboard.py:18 | the plain comma split has one piece more than there are commas, and no piece contains a comma |
| Text.SplitCommaSpace | dashboard.py:18 | the `,\s*` split also has one piece more than there are commas |
| Text.JoinSplitComma | dashboard.py:18 | joining the comma-split pieces with commas gives the cell back |
| Text.SplitCommaJoin | dashboard.py:18 | splitting comma-free pieces joined by commas gives the pieces back |
| Text.SplitCommaPrefix | dashboard.py:18 | a comma-free prefix only extends the first piece of the split |
| Text.SplitCommaTrimLeft | dashboard.py:18 | removing leading whitespace from a cell only trims its first piece |
| Text.SplitCommaSpaceBySplitComma | dashboard.py:18 | the `,\s*` split equals the plain split with the leading whitespace removed from the second and later pieces |
| Text.StripSplitEquivalence | dashboard.py:18-20 | after stripping, the `,\s*` split and the plain comma split give the same tokens |
| Ordering.StrLessIrreflexive | dashboard.py:38 | no string sorts before itself |
| Ordering.StrLessTransitive | dashboard.py:38 | the string order is transitive |
| Ordering.StrLessTotal | dashboard.py:38 | any two different strings are ordered one way or the other |
| Ordering.Insert | dashboard.py:38 | adding a string to a strictly sorted list keeps it strictly sorted, and adds exactly that string |
| Ordering.SortedDistinct | dashboard.py:50-52 | `sorted(unique(...))`: strictly ascending, with exactly the values of the column |
| Ordering.StrictlySortedUnique | dashboard.py:38 | a strictly sorted list is determined by its elements |
| Keywords.Tokens | dashboard.py:18-20 | a keyword cell yields one token more than it has commas |
| Keywords.TokensTrimmed | dashboard.py:20 | no token starts or ends with whitespace |
| Keywords.TokensBySplitComma | dashboard.py:18-20 | each token is the stripped piece at the same position of the plain comma split |
| Keywords.ExpandRecord | dashboard.py:18-20 | a record explodes to one row per token, in token order, each row carrying the whole record unchanged |
| Keywords.ExpandRecordTrimmed | dashboard.py:18-20 | every row of a record's expansion carries that record and a stripped keyword |
| Keywords.ExpandRecordSize | dashboard.py:18-19 | a record yields 1 + (number of commas in its keyword cell) rows |
| Keywords.MissingKeywordsYieldOneRow | dashboard.py:18-19 | a NaN or empty keyword cell yields exactly one row, with keyword `""` |
| Keywords.OneToken | dashboard.py:18-20 | a cell holding one keyword, without a comma, yields exactly that keyword |
| Keywords.TwoTokens | dashboard.py:18-20 | two keywords separated by a comma and any whitespace yield exactly those two keywords, in order |
| Keywords.DuplicateKeywordsKept | dashboard.py:18-20 | a keyword repeated in one cell gives two equal rows; they are not merged |
| Keywords.ExpandMembership | dashboard.py:19 | a row of the frame is one of its own record's rows, and every loaded record contributes all of its rows |
| Keywords.ExpandSize | dashboard.py:18-19 | the frame has one row per record, plus one per comma over all keyword cells |
| Seqs.FlatMapConcat | dashboard.py:19 | exploding works block by block, so records keep their order in the frame |
| Keywords.KeywordFreq | dashboard.py:23 | the counts' keys are exactly the keywords of the frame (`""` included), and each maps to its number of rows |
| Keywords.FreqStep | dashboard.py:23 | counting one more row bumps the count of its own keyword and of no other |
| Keywords.AbsentKeywordCount | dashboard.py:23 | a keyword that is not a key of the counts occurs in no row |
| Keywords.FreqTotal | dashboard.py:23 | the counts of the dropdown keywords add up to the number of rows of the frame |
| Keywords.SumFreqCounts | dashboard.py:37-38 | the sum of the counts of distinct keywords is the number of rows carrying one of them |
| Keywords.KeywordOptions | dashboard.py:37-38 | the dropdown lists the counted keywords in strictly ascending order |
| Keywords.RepoOptions | dashboard.py:50-52 | the checklist lists, in strictly ascending order, exactly the repositories of the frame |
| Aggregate.SelectFacts | dashboard.py:113-116 | a row is kept exactly when its repository is ticked and, if any keyword is picked, its keyword is picked |
| Aggregate.SelectOnePass | dashboard.py:113-116 | the two filters in a row are one filter by the conjunction of the conditions |
| Aggregate.SelectIsSubsequence | dashboard.py:113-116 | the kept rows are a subsequence of the frame |
| Aggregate.NoRepoSelectsNothing | dashboard.py:113 | with no repository ticked, nothing is kept, whatever the keywords |
| Aggregate.NoKeywordIsRepoFilter | dashboard.py:115-116 | with no keyword picked, the selection is exactly the repository filter |
| Aggregate.DefaultSelectsAll | dashboard.py:52 | the default selection (every repository, no keyword) keeps the whole frame |
| Aggregate.KeyLessIrreflexive | dashboard.py:119 | no key sorts before itself |
| Aggregate.KeyLessTransitive | dashboard.py:119 | the key order is transitive |
| Aggregate.KeyLessTotal | dashboard.py:119 | any two different keys are ordered one way or the other |
| Aggregate.GroupCounts | dashboard.py:119 | the result is strictly ascending by (year, repository), every count is at least 1, and each key's count is its number of rows |
| Aggregate.GroupStep | dashboard.py:119 | counting one more row keeps the entry list a grouping of the rows |
| Aggregate.AddHitLookup | dashboard.py:119 | counting a hit adds one to its own key and leaves every other key alone |
| Aggregate.AddHitSorted | dashboard.py:119 | counting a hit keeps the entries strictly sorted by key |
| Aggregate.AddHitSum | dashboard.py:119 | counting a hit raises the total of the counts by one |
| Aggregate.GroupingUnique | dashboard.py:119 | any sorted entry list with positive counts that counts every key correctly is the one the group-by builds |
| Aggregate.SortedGroupsUnique | dashboard.py:119 | two sorted lists of positive entries with the same counts for every key are equal |
| Aggregate.SortedKeysDistinct | dashboard.py:119 | no two entries share a (year, repository) key |
| Aggregate.GroupEntryCount | dashboard.py:119 | every entry counts the rows with its key, and at least one |
| Aggregate.GroupKeyPresent | dashboard.py:119 | a key has an entry exactly when some row has that key |
| Aggregate.GroupCovers | dashboard.py:119 | every kept row is counted under its own (year, repository) entry |
| Aggregate.GroupTotal | dashboard.py:119 | the counts add up to the number of grouped rows |
| Aggregate.GroupEmpty | dashboard.py:119 | there is no entry exactly when there is no row |
| Aggregate.SingleKeyGroups | dashboard.py:119 | rows that all share one key form a single entry counting all of them |
| Dashboard.ChooseChart | dashboard.py:122-141 | the placeholder exactly when nothing is grouped; otherwise a line chart exactly for `"linha"` and a bar chart for any other value; the grouped data is never changed |
| Dashboard.Table | dashboard.py:146-147 | no two table rows are equal, and a record is in the table exactly when some kept row carries it |
| Seqs.Dedup | dashboard.py:147 | `drop_duplicates`: the same elements, no element twice, never longer |
| Seqs.DedupFirstOccurrenceOrder | dashboard.py:147 | the surviving rows are in the order of their first occurrences |
| Dashboard.TableOrder | dashboard.py:146-147 | the table keeps the first copy of each projected row, in first-occurrence order |
| Dashboard.TableIsSubsequence | dashboard.py:146-147 | the table is a subsequence of the projected kept rows |
| Dashboard.Update | dashboard.py:112-149 | the chart counts add up to the number of kept rows; the table never has more rows than that; the placeholder shows exactly when the table is empty |
| Dashboard.NoRepoView | dashboard.py:113-123 | with no repository ticked, the page shows the placeholder and an empty table, whatever the keywords and the chart type |
| Dashboard.InitialView | dashboard.py:112-149 | the first page (no keyword, every repository) counts every row of the frame and tabulates every distinct record |
| Dashboard.BuildIndex | dashboard.py:10-52 | the counts count the frame, both option lists are strictly ascending, and every dropdown keyword has a count of at least 1 |
| Dashboard.OptionCounted | dashboard.py:37-38 | a keyword among the counts' keys has a count of at least 1 |
| Dashboard.IndexProvenance | dashboard.py:10-19 | no row whose year does not parse reaches the frame: every row comes from a source row whose year parses to its year, all other fields unchanged |
| Scenario.Frame | dashboard.py:18-20 | records with cells "ML, AI", "AI" and NaN explode to the rows (ML), (AI), (AI) and ("") |
| Scenario.PickAI | dashboard.py:112-147 | picking AI with both repositories gives one group (2020, A, 2) and two table rows |
| Scenario.PickMLAndAI | dashboard.py:112-147 | picking ML and AI with repository A gives a count of 3 for (2020, A) but still two table rows |
| Scenario.OnlyRepoB | dashboard.py:112-147 | no keyword and only repository B give one group (2021, B, 1) and that publication's single table row |

## Left out

- Reading the spreadsheet with `pd.read_excel` (line 7) is file I/O. The model starts from the rows.
- How `pd.to_datetime(..., errors="coerce")` reads a cell (line 10) is library behaviour. It is the parameter `parse`.
- The app, the layout, the widget styling and the dropdown label text `f"{kw} ({palavra_freq[kw]})"` (lines 26-101) are UI. The model keeps only the option lists and the counts behind the labels.
- The callback decorator (lines 105-111) and `app.run` (lines 153-154) are framework plumbing.
- The figure contents, titles and `update_layout` (lines 123-143) are rendering. The model keeps the chart kind and the grouped rows it plots.
- The table's browser-side `filter_action="native"` (line 84) runs outside the program.
- The source overwrites DataFrame columns in place and rebinds `df` (lines 10-20). The model computes each frame instead. Only the resulting values are observable.
- Keyword cells that are neither text nor NaN: `.str.split` turns such cells into NaN. The model takes every cell to be text or missing.
- Repository cells that are NaN or not strings: `groupby` and `sorted` treat them specially. The model takes repositories to be strings.
- Columns of the spreadsheet other than the six shown in the table are not modelled. A source with extra columns de-duplicates on the six projected ones, as the model does.
- A `None` repository selection (an `isin(None)` that raises) and a `None` chart type are not modelled. The checklist always sends a list and the radio items a string.
- Keywords.Expand: has no contract of its own. `Keywords.ExpandSize`, `Keywords.ExpandMembership` and `Seqs.FlatMapConcat` state its size, its rows and its order.
- Records.Load: its own contract gives only the count. The record-by-record content and order are in `Records.LoadConcat`, `Records.LoadSingle`, `Records.LoadKeepsParsed` and `Records.LoadProvenance`.
