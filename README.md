# Geo-ARG migration validator, modelled in Dafny

This project models the validator that checks the per-edge time series of
inferred geographic states of an ancestral recombination graph. Each input
entry says that edge `edge_id` was in state `state_id` at time `time`. The
validator comes in two variants:

- **Flat rows** (`load_and_validate_migrations`, with `check_duplicate_times`).
  Rows are grouped per edge in input order. Each edge's path is first checked
  for time points that carry two or more distinct states. This check runs on
  the path as it was read, before sorting. The path is then sorted by time and
  scanned for transitions the adjacency matrix does not allow. An edge is
  reported when either check finds something. Its list holds the transition
  violations first, then the same-time violations.
- **Nested records** (`load_and_validate_migrations_v2`). Each record holds an
  edge id and that edge's entries list. The list is sorted in place by time and
  scanned the same way. There is no same-time check in this variant. An edge is
  written into the result only when it has violations, so a later record with
  the same id overwrites an earlier one only if the later record has violations.

Both variants build the same set of allowed moves from the adjacency matrix,
given here without its index column. A 1 at row `i`, column `j` (0-based)
allows states `i+1` and `j+1` (1-based) to move to each other in both
directions.

Time is a type parameter with a total order passed in as a function.

- In the flat-row flow, times are strings. The source reads them as `str` and
  never parses them. So sorting compares them as Python compares strings, code
  point by code point (`TimeOrder.LexLe`). This order is not numeric: `"10"`
  sorts before `"9"` (`TimeOrder.StringOrderIsNotNumeric`). Equality of times
  is exact string equality.
- In the nested flow, times are numbers (`real`, compared with `<=`).

Python's `list.sort` is stable, so its result is fully determined. The model
specifies it as a functional stable insertion sort, `Timeline.SortedByTime`.
`Timeline.SortByTime` computes that result in place on an array.

Modules, leaf-first, one file each:

- `Records`: entries and violations.
- `TimeOrder`: the two time orders.
- `Timeline`: the stable sort.
- `Adjacency`: the allowed-move set.
- `Transitions`: the transition scan, shared by both flows.
- `TimeConflicts`: `check_duplicate_times`.
- `Reporting`: writing an edge into the result dictionary.
- `CsvChecker`: the flat-row flow.
- `JsonChecker`: the nested flow.

Notes on what the code does:

- Besides same-time conflicts, the flat-row flow also checks transitions
  against the adjacency matrix.
- A same-time record's `states` is the Python set turned into a list. It is not
  sorted.
- The flat-row result maps each edge to a list holding both kinds of violation,
  not to one violation record.
- The comment above `path.sort` promises chronological order, but the times are
  strings, so the order is by code point: `"100.5"` sorts before `"99.2"`
  (`TimeOrder.StringOrderIsNotNumeric`). The model sorts as the code does.

## Model

| member | source | states |
|---|---|---|
| `TimeOrder.LexLe` | data_processing/geoarg_checker_csv.py:98 | reference definition of Python's `<=` on `str`, code point by code point, a proper prefix first; characterised by `TimeOrder.LexLeIsTotalOrder` and `TimeOrder.StringOrderIsNotNumeric` |
| `TimeOrder.LexLeIsTotalOrder` | data_processing/geoarg_checker_csv.py:10-18 | time strings, compared as Python compares `str` values, form a total order (total, antisymmetric, transitive), so sorting by them is well defined |
| `TimeOrder.StringOrderIsNotNumeric` | data_processing/geoarg_checker_csv.py:98 | sorting by the time string is lexicographic, not numeric: "10" comes before "9" |
| `Timeline.SortedByTime` | data_processing/geoarg_checker_json.py:46 | reference definition of the list `list.sort` leaves (here and at geoarg_checker_csv.py:98), as a stable insertion sort, of the input's length; characterised by `Timeline.SortedByTimeIsSorted`, `Timeline.SortedByTimePermutes` and `Timeline.SortedByTimeIsStable` |
| `Timeline.SortByTime` | data_processing/geoarg_checker_csv.py:98 | sorts an edge's entries in place; the array afterwards equals the stable sort by time of its old contents |
| `Timeline.InsertLast` | data_processing/geoarg_checker_json.py:46 | one insertion step of the in-place sort: the first i+1 cells become the sorted prefix with the next entry inserted after every entry whose time is not later than its own; the rest of the array is unchanged |
| `Timeline.SortedByTimeIsSorted` | data_processing/geoarg_checker_csv.py:98 | under a total order the sort result is in non-decreasing time order, every pair of positions included |
| `Timeline.SortedByTimePermutes` | data_processing/geoarg_checker_json.py:46 | the sort result is a permutation (same multiset) of its input |
| `Timeline.SortedByTimeIsStable` | data_processing/geoarg_checker_json.py:46 | the sort is stable: for every time, the entries at that time appear in the same relative order as in the input |
| `Adjacency.ValidTransitions` | data_processing/geoarg_checker_json.py:26-32 | the allowed set holds (a, b) exactly when cell (a-1, b-1) or cell (b-1, a-1) of the matrix is 1; it is symmetric and holds nothing else |
| `Adjacency.BuildValidTransitions` | data_processing/geoarg_checker_csv.py:74-79 | the nested loops produce exactly that set: a pair is added iff an entry equal to 1 exists in either orientation, with 1-based states |
| `Transitions.Flagged` | data_processing/geoarg_checker_csv.py:106-111 | reference definition of the test on pair i: the two states differ and the ordered pair is not allowed; characterised by `Transitions.TransitionReportedIff` and `Transitions.NoViolationIff` |
| `Transitions.TransitionViolations` | data_processing/geoarg_checker_json.py:50-66 | at most len(path)-1 violations (none for an empty path); each has differing from/to states and a pair that is not allowed |
| `Transitions.FlaggedPositions` | data_processing/geoarg_checker_csv.py:102-111 | the positions i whose neighbours differ in state by a move that is not allowed, each once, in increasing order |
| `Transitions.TransitionViolationsAreFlaggedPairs` | data_processing/geoarg_checker_csv.py:102-118 | the k-th violation is the record (time_start, time_end, from_state, to_state) of the k-th flagged pair: one per flagged pair, in position order |
| `Transitions.TransitionReportedIff` | data_processing/geoarg_checker_json.py:55-59 | the record of pair i is among the violations iff the states at i and i+1 differ and that ordered pair is not allowed |
| `Transitions.NoViolationIff` | data_processing/geoarg_checker_csv.py:106-111 | a path has no transition violation iff no pair of it is flagged |
| `Transitions.TransitionTimesOrdered` | data_processing/geoarg_checker_csv.py:113-114 | on a time-sorted path every violation's time_start is at most its time_end |
| `Transitions.SteadyPathIsValid` | data_processing/geoarg_checker_csv.py:106-108 | a path that stays in one state is never flagged |
| `Transitions.ScanTransitions` | data_processing/geoarg_checker_json.py:50-66 | the index loop returns exactly the transition violations of the array's contents |
| `TimeConflicts.DistinctTimes` | data_processing/geoarg_checker_csv.py:37-39 | the dictionary's keys: every time of the path, each once |
| `TimeConflicts.Conflicts` | data_processing/geoarg_checker_csv.py:43-49 | over a list of times, a record for a time iff it has two or more states, holding exactly those states, and at most one per time when the times are distinct |
| `TimeConflicts.SameTimeViolations` | data_processing/geoarg_checker_csv.py:42-49 | a record for time t iff the path has at least two distinct states at t; its states are exactly the distinct states at t (so at least 2); no two records share a time |
| `TimeConflicts.ConflictsKeepOrder` | data_processing/geoarg_checker_csv.py:43-49 | the report loop keeps the order of the keys it walks: when the times come in order of first appearance, so do the records |
| `TimeConflicts.SameTimeViolationsInFirstAppearanceOrder` | data_processing/geoarg_checker_csv.py:37-43 | the records come in the order in which their times first occur in the path, the key order of the grouping dictionary (`TimeConflicts.DistinctTimesInFirstAppearanceOrder` states the same of the keys) |
| `TimeConflicts.DistinctTimesInFirstAppearanceOrder` | data_processing/geoarg_checker_csv.py:37-39 | the grouping dictionary's keys come in the order in which their times first occur in the path |
| `TimeConflicts.NoConflictIff` | data_processing/geoarg_checker_csv.py:43-51 | the report is empty iff entries sharing a time share their state; in particular an empty path yields [] |
| `TimeConflicts.GroupStatesByTime` | data_processing/geoarg_checker_csv.py:36-39 | the grouping loop yields the keys `DistinctTimes` (every time of the path once, in order of first appearance by `TimeConflicts.DistinctTimesInFirstAppearanceOrder`), each keyed to exactly the set of states recorded at it |
| `TimeConflicts.CheckDuplicateTimes` | data_processing/geoarg_checker_csv.py:26-51 | the grouping loop and the report loop return exactly `SameTimeViolations`, whose records are in order of first appearance by `TimeConflicts.SameTimeViolationsInFirstAppearanceOrder` |
| `CsvChecker.PathOf` | data_processing/geoarg_checker_csv.py:86-88 | an edge's list is no longer than the input and is empty for an id that does not occur |
| `CsvChecker.PathOfIsRowsOfEdge` | data_processing/geoarg_checker_csv.py:86-88 | the m-th entry of edge e's list is the (time, state) of the m-th row with edge_id e, so every row lands in its own edge's list, in input order, and in no other |
| `CsvChecker.GroupByEdge` | data_processing/geoarg_checker_csv.py:86-88 | the grouping loop yields one list per edge id that occurs (and no other key), each equal to that edge's list, and a duplicate-free key order |
| `CsvChecker.SortedPath` | data_processing/geoarg_checker_csv.py:98 | after path.sort an edge's list is in non-decreasing time (string) order and is a permutation of the entries of its rows |
| `CsvChecker.TransitionTimesInStringOrder` | data_processing/geoarg_checker_csv.py:113-114 | every transition violation of an edge has time_start <= time_end in string order |
| `CsvChecker.EdgeViolations` | data_processing/geoarg_checker_csv.py:95-122 | reference definition of an edge's combined list: the transition violations of the sorted path followed by the same-time violations of the path as read; characterised by `CsvChecker.EdgeViolationsEmptyIff`, `CsvChecker.ConflictingRowsReported` and `CsvChecker.TransitionTimesInStringOrder` |
| `CsvChecker.EdgeViolationsEmptyIff` | data_processing/geoarg_checker_csv.py:95-122 | an edge's combined list is empty iff no time of its path carries two states and no neighbouring pair of the sorted path makes a move that is not allowed |
| `CsvChecker.ConflictingRowsReported` | data_processing/geoarg_checker_csv.py:37-44 | two rows of one edge with equal time strings and different states always make that edge's combined list non-empty |
| `CsvChecker.ValidateEdge` | data_processing/geoarg_checker_csv.py:95-122 | the per-edge body returns the transition violations of the sorted path followed by the same-time violations of the path as read |
| `CsvChecker.WrittenEdges` | data_processing/geoarg_checker_csv.py:91-122 | visiting every grouped edge once and writing its combined list only when non-empty leaves exactly the edges with a non-empty list, each mapped to that list |
| `CsvChecker.LoadAndValidateMigrations` | data_processing/geoarg_checker_csv.py:54-124 | an edge id is a key of the result iff it occurs in the rows and its combined list is non-empty, and then maps to that list |
| `JsonChecker.PathViolations` | data_processing/geoarg_checker_json.py:46-66 | reference definition of one record's violations: the transition scan of its entries once sorted by time; characterised by `JsonChecker.ViolationTimesOrdered` and, through `Transitions.TransitionViolations`, by the transition lemmas |
| `JsonChecker.Outcomes` | data_processing/geoarg_checker_json.py:41-66 | one (edge id, violations) pair per record, in record order, as many as there are records; characterised by `JsonChecker.OutcomesAt` |
| `JsonChecker.OutcomesAt` | data_processing/geoarg_checker_json.py:41-66 | the k-th pair is the k-th record's edge id with that record's violations |
| `JsonChecker.SortedEntries` | data_processing/geoarg_checker_json.py:46 | a record's sorted entries are in non-decreasing numeric time and a permutation of the original list |
| `JsonChecker.ViolationTimesOrdered` | data_processing/geoarg_checker_json.py:61-62 | every violation of a record has time_start <= time_end |
| `Reporting.Written` | data_processing/geoarg_checker_json.py:68-69 | reference definition of the dictionary after `invalid_edges[edge_id] = …` has run, in order, for every non-empty outcome (also geoarg_checker_csv.py:121-122); characterised by `Reporting.WrittenKeys` and `Reporting.WrittenLastWins` |
| `Reporting.WrittenKeys` | data_processing/geoarg_checker_json.py:68-69 | an id is a key of the result iff some record with that id has violations; a record without violations never adds a key |
| `Reporting.WrittenLastWins` | data_processing/geoarg_checker_json.py:41-69 | a key maps to the violations of the last record with that id that has any: a later record with violations overwrites, a later one without leaves the earlier value in place |
| `JsonChecker.ValidateRecord` | data_processing/geoarg_checker_json.py:42-69 | one iteration: the record's entries array becomes the stable time sort of its contents, no other record's array changes, and the edge is written with its violations exactly when there are any |
| `JsonChecker.WrittenRecordKeys` | data_processing/geoarg_checker_json.py:41-69 | an edge id is a key of the result iff some record with that id has violations |
| `JsonChecker.WrittenRecordLastWins` | data_processing/geoarg_checker_json.py:41-69 | a key maps to the violations of a record with that id that has some, and every later record with that id has none |
| `JsonChecker.LoadAndValidateMigrationsV2` | data_processing/geoarg_checker_json.py:6-71 | every record's entries array is afterwards the stable time sort of what it held on entry, and the result is what writing each record's non-empty outcome, in record order, gives |

## Left out

- Loading and writing files is not modelled. This covers `pd.read_csv`,
  dropping the matrix's index column, `json.load`, `json.dump` and
  `convert_csv_to_json`. The adjacency matrix comes in as `seq<seq<int>>`
  without its index column. The rows and records come in as values.
- `print_validation_results` and the timing code in `__main__` only print. They
  are not modelled.
- Each error record's `'error'` message string is carried by its constructor
  (`Transition` or `SameTime`), not stored as text.
- The order in which Python lists a set is not modelled. `list(states)` has an
  implementation-defined order, so a same-time record's `states` is a
  `set<int>`.
- The results are Dafny maps, so the key order of the returned dictionaries is
  not modelled. `CsvChecker.GroupByEdge` visits the edge ids in the order its
  loop meets them, but no contract states that order: it states only that every
  id occurs once. The order cannot change the flat-row result, since each id is
  written at most once. The order of same-time records is stated and proved
  (`TimeConflicts.SameTimeViolationsInFirstAppearanceOrder`).
- Timsort itself is not modelled. The model uses insertion sort instead. A
  stable sort's result is unique, so both give the same order.
- Numeric times in the nested flow are `real`. IEEE floating point, including
  NaN, infinities and rounding, is not modelled.
- Adjacency entries are integers compared with `== 1`. A matrix cell that
  pandas reads as a float or NaN is not modelled.
- Each matrix row is scanned over its own length. A DataFrame is rectangular,
  so this is the same as the source's scan over the column count.
- Input records have typed fields. A missing key (`KeyError`) and extra keys in
  an entry dictionary are not modelled.
- `JsonChecker.LoadAndValidateMigrationsV2` requires the records' entries arrays
  to be pairwise distinct, because `json.load` builds a fresh list for every
  record. Two records sharing one list is not modelled. The records' contents
  on entry are named by a ghost parameter, `paths`, so that the result can be
  stated in terms of them.
- In the flat-row flow, `path.sort` sorts the list stored in `migrations` in
  place. The model sorts a fresh array holding the same entries. `migrations`
  is local to the function, so the difference cannot be observed.
- The other files of the repository are not part of this model. These are the
  Rust data-migration binaries and the HTTP server under `backend/src/`, and
  the tree-sequence wrapper `data_processing/ts_handler.py`. They are database
  and tree-sequence plumbing, with no validator logic.
- Ancestry-subgraph traversal, migration-step extraction with oldest-transition
  deduplication, and hexagon binning do not appear in the modelled files. They
  are not part of this model.
