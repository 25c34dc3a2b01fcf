# SubmissionsTable, modelled in Dafny

This project models the admin table of the STEMation admin front-end. The
table loads every row of the remote `submissions` table once. It keeps the
full list (`data`) and the list on screen (`filteredData`). The user can
filter the rows by name (`filters.nama`), sort the rows on screen by a
column, and delete a row by its id.

Stripped of rendering and of the remote service, the component is a small
state machine. Its state is `data`, `filteredData`, `filters` and `loading`.
Four transitions act on it: load, filter, sort and delete. Each remote call
enters the model as a parameter giving its outcome:

- `FetchResult`: a `{ data, error }` response, or an exception.
- `DeleteResult`: an `{ error }` response, or an exception.

Files:

- `seqs.dfy` (module `Seqs`): `Array.prototype.filter` and subsequences, with
  the facts about filtering that the table relies on.
- `text.dfy` (module `Text`): lower-casing, `String.prototype.includes` with a
  reference definition of "is a substring of", and JavaScript's `<` on
  strings with a reference definition of lexicographic order.
- `submissions.dfy` (module `Submissions`): the `Submission` record, the
  filter record, the name filter, removal by id, and the column comparator.
  It also holds the stable sort that `handleSort` performs, proved sorted,
  a permutation and stable.
- `table.dfy` (module `Table`): the class `SubmissionsTable` with the four
  state fields and one method per handler.

The class keeps two invariants:

- `Valid()`: every row on screen is a loaded row.
- `ShowsFilter()`: the screen holds exactly the loaded rows that match the
  current filter, in some order. The constructor establishes it. Changing
  the filter re-establishes it. Sorting and deleting preserve it. A
  successful load keeps it while the filter is empty, and the filter is
  empty on mount.

On an error response and on a thrown exception the code sets `loading` to
false (`src/components/SubmissionsTable.tsx:35`, `:44`) and leaves both lists
as they were, so a failed first load shows an empty table.

## Model

| member | source | states |
|---|---|---|
| `Seqs.Filter` | src/components/SubmissionsTable.tsx:65-70 | `filter` returns no more elements than it was given, and each of them satisfies the callback and comes from the input |
| `Seqs.FilterIsSubsequence` | src/components/SubmissionsTable.tsx:65-70 | the kept elements keep their original relative order |
| `Seqs.FilterCount` | src/components/SubmissionsTable.tsx:65-70 | every occurrence of a satisfying value is kept and every occurrence of the others is dropped |
| `Seqs.FilterKeepsAll` | src/components/SubmissionsTable.tsx:66-68 | when the callback accepts every element, `filter` returns the list unchanged |
| `Text.Lower` | src/components/SubmissionsTable.tsx:67 | `toLowerCase` keeps the length; no capital ASCII letter is left; each capital becomes its lower-case letter and every other character is kept |
| `Text.LowerEqIff` | src/components/SubmissionsTable.tsx:67 | two strings lower-case to the same string exactly when they are equal character by character up to ASCII case |
| `Text.LowerIdempotent` | src/components/SubmissionsTable.tsx:67 | lower-casing an already lower-cased string changes nothing |
| `Text.IncludesIff` | src/components/SubmissionsTable.tsx:67 | `includes` holds exactly when the needle occurs at some position of the string |
| `Text.StrLessIff` | src/components/SubmissionsTable.tsx:76-77 | string `<` holds exactly when the left string is a proper prefix of the right one, or has the smaller character where they first differ |
| `Text.StrLessIrreflexive` | src/components/SubmissionsTable.tsx:76-77 | no string is `<` itself |
| `Text.StrLessAsymmetric` | src/components/SubmissionsTable.tsx:76-77 | `a < b` and `b < a` never both hold |
| `Text.StrLessTotal` | src/components/SubmissionsTable.tsx:76-77 | two different strings are always ordered one way or the other |
| `Text.StrLessTransitive` | src/components/SubmissionsTable.tsx:76-77 | string `<` is transitive |
| `Submissions.WithFilter` | src/components/SubmissionsTable.tsx:57 | the spread update sets the named filter field to the new value |
| `Submissions.Filtered` | src/components/SubmissionsTable.tsx:63-71 | the filtered list is a subsequence of `data`; it holds every occurrence of each matching row and no other row; with a non-empty filter, every kept row's lower-cased `nama` contains the lower-cased filter text; with an empty filter it is exactly `data` in the same order |
| `Submissions.FilteredIgnoresCase` | src/components/SubmissionsTable.tsx:67 | two filter texts that lower-case to the same string select the same rows |
| `Submissions.WithoutId` | src/components/SubmissionsTable.tsx:92-93 | removing by id gives a subsequence of the list that drops every row with that id and keeps every other row; when no row has the id the list is unchanged |
| `Submissions.WithoutIdKeepsInclusion` | src/components/SubmissionsTable.tsx:92-93 | removing the id from both lists keeps every displayed row among the loaded rows |
| `Submissions.WithoutIdCommutesWithFilter` | src/components/SubmissionsTable.tsx:92-93 | removing the id from a display that shows the filtered rows gives the filtered rows of the list with the id removed |
| `Submissions.StrOrder` | src/components/SubmissionsTable.tsx:75-79 | on string columns the comparator returns 0 only for equal strings and swapping its arguments negates it |
| `Submissions.StrOrderTransitive` | src/components/SubmissionsTable.tsx:75-79 | on string columns the comparator's "not after" is transitive |
| `Submissions.CompareZero` | src/components/SubmissionsTable.tsx:75-79 | the comparator returns 0 exactly when both rows hold the same value in the column |
| `Submissions.CompareFlip` | src/components/SubmissionsTable.tsx:75-79 | swapping the arguments negates the comparator's result |
| `Submissions.CompareTransitive` | src/components/SubmissionsTable.tsx:75-79 | "compares at most 0" is transitive, so the comparator is a consistent total preorder |
| `Submissions.Insert` | src/components/SubmissionsTable.tsx:75-79 | inserting a row adds exactly that row to the list's contents |
| `Submissions.InsertSorted` | src/components/SubmissionsTable.tsx:75-79 | inserting into a non-decreasing list keeps it non-decreasing |
| `Submissions.SortBy` | src/components/SubmissionsTable.tsx:74-81 | the sorted copy is a permutation of the input and is non-decreasing in the chosen column under the comparator |
| `Submissions.InsertStable` | src/components/SubmissionsTable.tsx:75-79 | insertion places the new row before the other rows with the same column value |
| `Submissions.SortByStable` | src/components/SubmissionsTable.tsx:75-79 | rows with equal values in the column keep their original relative order |
| `Submissions.SortBySorted` | src/components/SubmissionsTable.tsx:74-81 | a list already in order is unchanged, so sorting twice by one column is the same as sorting once |
| `Table.SubmissionsTable.constructor` | src/components/SubmissionsTable.tsx:20-23 | the initial state is two empty lists, an empty name filter and `loading` true |
| `Table.SubmissionsTable.FetchData` | src/components/SubmissionsTable.tsx:33-45 | `loading` is false on every path; on a response without error both lists become the fetched rows, or empty when the response holds none; on an error response or an exception both lists are unchanged |
| `Table.SubmissionsTable.HandleFilterChange` | src/components/SubmissionsTable.tsx:51-61 | only the named filter field changes, and the display is recomputed from `data` with the new filter record; `data` and `loading` are unchanged |
| `Table.SubmissionsTable.FilterData` | src/components/SubmissionsTable.tsx:63-72 | the display becomes the filtered rows of `data`, whatever it held before (an earlier sort is discarded); it is a subsequence of `data`, and is `data` itself for an empty filter; `data` is unchanged |
| `Table.SubmissionsTable.HandleSort` | src/components/SubmissionsTable.tsx:74-81 | the display becomes a permutation of itself, non-decreasing in the chosen column; `data` and the filter are untouched and the display still shows the filtered rows |
| `Table.SubmissionsTable.HandleDelete` | src/components/SubmissionsTable.tsx:84-97 | after a successful delete both lists lose exactly the rows with the id and keep the others in order; after an error response or an exception both lists are unchanged |

## Left out

- The remote queries (`select`, `order`, `delete`, `eq` on the hosted database) are foreign calls. Only their outcome is modelled, as the `FetchResult` and `DeleteResult` parameters.
- The server-side ordering of the fetched rows by `created_at`, newest first, is enforced by the backend. The client never checks it.
- `Text.Lower`: lower-cases ASCII letters only. Full Unicode `toLowerCase`, with its special and length-changing mappings, is not modelled.
- `Text.StrLess`: compares characters as Unicode scalar values. JavaScript compares UTF-16 code units, so the two orders differ for characters outside the Basic Multilingual Plane.
- `absen` and `score` are 32-bit integers in the database. The table does no arithmetic on them, so they are unbounded integers here.
- The library sort is modelled as a stable insertion sort. JavaScript's `Array.prototype.sort` is specified as stable. With a consistent comparator, every stable sort gives the same result.
- React's asynchronous state batching, stale closures over `data` and `filteredData`, and repeated invocation of the `setFilters` updater are framework timing. Each handler is one atomic state update here.
- JSX rendering, the "Loading..." short-circuit and `console.error` logging are user interface and I/O.
- `src/App.tsx` holds only a route table and is not part of this model.
- The error messages carried by failed responses are only logged. They appear in the outcome datatypes and have no effect on the state.
