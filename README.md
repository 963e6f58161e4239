# Documents list view: visible rows, pages, counts, deletion and the process payload

This project models the data logic of the documents list view,
`src/sections/documents/view/documents-list-view.js`, and proves what that
logic promises. The model covers:

- `applyFilter`. It pairs every row with its index, sorts the pairs in place
  (ties go by index), and reads the rows back. It then runs up to three
  filter stages in a fixed order:
  - a case-insensitive substring search over every field value;
  - an exact status match, where `'all'` keeps every row;
  - a role match, which sends each permission code through the fixed table
    `roleMapping`.
- The page window `dataInPage`.
- The badge count on each status tab.
- The filter inside `handleDeleteRow`.
- The list of ids offered to select-all, which holds only `'Received'` rows.
- The payload the process action sends for the selected rows.

The modules are:

- `Sequences`: `Filter`, `Map` and subsequences, standing in for
  `Array.prototype.filter` and `map`, with their general lemmas.
- `StableSort`:
  - the in-place sort of the decorated rows, an insertion sort on an array
    (`SortInPlace`, `SortRows`);
  - the reference definition it is proved against (`StableSorted`);
  - what the sort promises: a permutation, ordered, stable.
- `Documents`: the row record, the filter criteria, the text search and the
  role test.
- `DocumentsListView`: the `ApplyFilter` method and the view's list
  expressions, with their lemmas.

The comparator is a parameter and must be a total preorder. `getComparator`
is not part of this model.

A row's `permissions` is an `Option`, because the code tests
`documents.permissions &&` before it uses the list.

The payload filters only by the selection (lines 350-355). A selected id
whose row is no longer `'Received'` is therefore still sent.
`ReconciledSelectionSubmitsOnlyReceived` proves when only `'Received'` rows
are sent: the ids are unique, and the selection is drawn from the current
select-all list.

## Model

| member | source | states |
|---|---|---|
| DocumentsListView.ApplyFilter | src/sections/documents/view/documents-list-view.js:389-431 | The result is the stably sorted input filtered by `Keep`. It is a subsequence of the sorted input and no longer than the input. A row is in it exactly when it is an input row that passes every switched-on stage. It is ordered by the comparator. A status other than `'all'` leaves only rows of that status. |
| DocumentsListView.VisibleRowsAreSubsequence | src/sections/documents/view/documents-list-view.js:403-430 | The filtered rows are a subsequence of the sorted rows, every shown row is a sorted row, and there are never more of them than input rows. |
| DocumentsListView.VisibleRowsAreKeptRows | src/sections/documents/view/documents-list-view.js:403-430 | A row is shown exactly when it is an input row that `Keep` accepts. |
| DocumentsListView.VisibleRowsAreOrdered | src/sections/documents/view/documents-list-view.js:397-430 | The filtered rows stay in comparator order. |
| StableSort.SortRows | src/sections/documents/view/documents-list-view.js:391-403 | Decorating, sorting the pairs in place and undecorating gives exactly `StableSorted(rows, cmp)`. |
| StableSort.SortInPlace | src/sections/documents/view/documents-list-view.js:397-401 | After the call the array is sorted by the tie-breaking comparator and holds the same pairs as before. |
| StableSort.InsertIntoPrefix | src/sections/documents/view/documents-list-view.js:397-401 | Inserting `a[i]` into the sorted prefix leaves `a[..i+1]` sorted and holding the same pairs as before, and leaves `a[i+1..]` untouched. |
| StableSort.SortedArrangementIsUnique | src/sections/documents/view/documents-list-view.js:397-401 | Any sorted permutation of the decorated rows is the reference arrangement. Every correct sort algorithm therefore gives the same result. |
| StableSort.StableSortedIsPermutation | src/sections/documents/view/documents-list-view.js:391-403 | The sorted rows have the input's length and are a permutation of the input. |
| StableSort.StableSortedIsOrdered | src/sections/documents/view/documents-list-view.js:397-403 | The sorted rows are in non-decreasing comparator order. |
| StableSort.StableSortIsStable | src/sections/documents/view/documents-list-view.js:391-403 | The sort order is a permutation of the input indices that says which input row is at each position. Rows the comparator ties keep their input order. |
| StableSort.SortPairsSorted | src/sections/documents/view/documents-list-view.js:397-401 | The reference arrangement is sorted by the tie-breaking comparator. |
| DocumentsListView.DefaultFiltersKeepEveryRow | src/sections/documents/view/documents-list-view.js:54-58 | With `defaultFilters` the result is the whole sorted input, a permutation of the input. |
| DocumentsListView.NameFilter | src/sections/documents/view/documents-list-view.js:405-411 | A row survives the name stage exactly when some field, lower-cased, contains the lower-cased text at some index. |
| Documents.IncludesFindsOccurrence | src/sections/documents/view/documents-list-view.js:408 | `includes` is true exactly when the needle occurs at some index. |
| Documents.AnyValueIncludes | src/sections/documents/view/documents-list-view.js:407-409 | `some` over the field values is true exactly when one lower-cased value includes the needle. |
| Documents.NameMatchesIff | src/sections/documents/view/documents-list-view.js:405-411 | The name test holds exactly when a lower-cased field holds the lower-cased text at some index. |
| Documents.VerbatimOccurrenceMatches | src/sections/documents/view/documents-list-view.js:405-411 | A field that contains the text verbatim passes the name test. |
| DocumentsListView.NameFilterIgnoresCase | src/sections/documents/view/documents-list-view.js:405-411 | Two texts with the same lower-case form select the same rows. |
| DocumentsListView.StatusFilter | src/sections/documents/view/documents-list-view.js:413-415 | Every surviving row has exactly the chosen status, and every row with that status survives. |
| DocumentsListView.StatusFilterIdempotent | src/sections/documents/view/documents-list-view.js:413-415 | The status stage applied twice equals the stage applied once. |
| DocumentsListView.RoleFilter | src/sections/documents/view/documents-list-view.js:417-428 | A row survives the role stage exactly when it has a permissions list with a code that `roleMapping` maps to a selected label. |
| Documents.AnyCodeSelected | src/sections/documents/view/documents-list-view.js:420-425 | `some` over the codes is true exactly when one code is in `roleMapping` and its label is selected. |
| Documents.UnmappedRowsFailRoleTest | src/sections/documents/view/documents-list-view.js:392-396 | A row with no permissions, or with only codes that are not in `roleMapping`, fails the role test. |
| Documents.RoleTestNeedsKnownLabel | src/sections/documents/view/documents-list-view.js:392-396 | A row passes the role test only when one of the three table labels is selected. |
| DocumentsListView.RoleFilterDropsUnmappedRows | src/sections/documents/view/documents-list-view.js:417-428 | The role stage drops rows with no permissions or with only unmapped codes, whatever labels are selected. |
| DocumentsListView.FiltersIntersect | src/sections/documents/view/documents-list-view.js:405-428 | With all three stages on, a row is shown exactly when it passes each stage on its own. |
| DocumentsListView.StagesCommute | src/sections/documents/view/documents-list-view.js:405-428 | Any two of the name, status and role stages give the same rows in either order. |
| DocumentsListView.SliceIndex | src/sections/documents/view/documents-list-view.js:101-104 | The index `slice` uses lies in `[0, len]` and is the argument itself when that is already in range. |
| DocumentsListView.DataInPage | src/sections/documents/view/documents-list-view.js:101-104 | The page holds at most `rowsPerPage` rows. It is empty when the window starts at or past the end. Otherwise it holds the shorter of `rowsPerPage` and the remaining rows, and row `k` of the page is row `page * rowsPerPage + k` of the filtered rows. |
| DocumentsListView.RowIsOnItsPage | src/sections/documents/view/documents-list-view.js:101-104 | Filtered row `i` appears on page `i / rowsPerPage` at position `i % rowsPerPage`. |
| DocumentsListView.TabCount | src/sections/documents/view/documents-list-view.js:200-203 | The `'all'` badge counts every row. Any other badge is the number of times its status occurs in the table. |
| DocumentsListView.TabCountIsRowsListed | src/sections/documents/view/documents-list-view.js:200-203 | A tab's badge equals the number of rows `applyFilter` lists when that tab is chosen and no other filter is set. |
| DocumentsListView.DeleteRow | src/sections/documents/view/documents-list-view.js:125 | No remaining row has the deleted id, and every row with another id remains. |
| DocumentsListView.DeleteRowRemovesExactly | src/sections/documents/view/documents-list-view.js:125 | The rows left are a subsequence of the table. Each row with another id keeps its multiplicity, and the length drops by the number of rows carrying the id. |
| DocumentsListView.DeleteAbsentIdKeepsTable | src/sections/documents/view/documents-list-view.js:125 | Deleting an id that no row has leaves the table unchanged. |
| DocumentsListView.EligibleIds | src/sections/documents/view/documents-list-view.js:251-255 | The select-all list is as long as the `'Received'` tab's count, the `rowCount` shown beside it. |
| DocumentsListView.EligibleIdsAreReceivedIds | src/sections/documents/view/documents-list-view.js:286-289 | An id is in the select-all list exactly when some `'Received'` row carries it, and the list is a subsequence of the table's ids. |
| DocumentsListView.ProcessPayload | src/sections/documents/view/documents-list-view.js:350-355 | The payload is never longer than the table. |
| DocumentsListView.PayloadDescribesSelectedRows | src/sections/documents/view/documents-list-view.js:350-355 | The selected rows are the table rows whose id is selected, in table order, each as often as it occurs in the table. The payload has one entry per selected row, and entry `k` carries the id, property type id and document type id of selected row `k`. |
| DocumentsListView.PayloadIgnoresUnknownIds | src/sections/documents/view/documents-list-view.js:350-355 | A selected id that no table row carries puts no entry in the payload. |
| DocumentsListView.ReconciledSelectionSubmitsOnlyReceived | src/sections/documents/view/documents-list-view.js:350-355 | When ids are unique and every selected id comes from the select-all list, every submitted row is `'Received'`. |

## Left out

- Rendering, tabs, colours, dialogs, the risky-clause dialog, the router, the snackbar and the `t(...)` localisation: these are user interface.
- The `axiosInstance.post` call, `refreshDocuments`, `useGetDocuments` and `isProcessing`: these are network I/O and asynchronous control. Only the payload construction is modelled.
- `useTable`, `getComparator`, `emptyRows`, `onUpdatePageDeleteRow` and `onSelectAllRows` live in `src/components/table`, which is not part of this model. The comparator, page, page size and selection are therefore inputs.
- `notFound` and `canReset` (lines 108-110): display flags with nothing to prove.
- `console.log` calls in the role filter: output only.
- `Documents.LowerChar` and `Documents.Lower`: `toLowerCase` is modelled for the ASCII letters only. Unicode case mapping is not modelled.
- `Document.values` stands for `Object.values(row)` passed through `String`. The conversion of each field to a string is not modelled, and nothing ties `values` to `id`, `status` or `permissions`. The model therefore cannot show, for example, that searching for a row's own status text keeps that row.
- `StableSort.SortInPlace`: the engine's sort algorithm is replaced by an insertion sort. `SortedArrangementIsUnique` shows that, for a total preorder, every correct sort gives the same array.
- `StableSort.TotalPreorder`: a comparator that is inconsistent, or that returns `NaN`, is excluded by this precondition. The engine's result for such a comparator is implementation-defined.
- `Documents.MappedRole`: lookups of inherited object keys such as `constructor` in `roleMapping` are modelled as misses. Those lookups give non-string values, which `role.includes` never matches among string labels.
- `DocumentsListView.DataInPage`: `page` and `rowsPerPage` are natural numbers. `Slice` models the clamping of negative and out-of-range indices, but the page arguments never exercise it.
