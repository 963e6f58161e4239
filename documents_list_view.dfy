/** The data logic of the documents list view: `applyFilter`, the page
    window, the status tab counts, deleting a row, the ids offered to
    select-all, and the payload of the process action. */
module DocumentsListView {
  import opened Sequences
  import opened StableSort
  import opened Documents

  // ---------------------------------------------------------------------
  // The three filter stages of `applyFilter`, as the callbacks they pass
  // to `Array.prototype.filter`.

  function NameTest(name: string): Document -> bool {
    (d: Document) => NameMatches(d, name)
  }

  function StatusTest(status: string): Document -> bool {
    (d: Document) => d.status == status
  }

  function RoleTest(role: seq<string>): Document -> bool {
    (d: Document) => RoleMatches(d, role)
  }

  /** The name stage: rows with a field that contains `name`, ignoring case. */
  function NameFilter(rows: seq<Document>, name: string): (r: seq<Document>)
    ensures forall d :: d in r <==>
      (d in rows && exists k: nat, i: nat :: k < |d.values| && OccursAt(Lower(d.values[k]), Lower(name), i))
  {
    FilterContains(rows, NameTest(name));
    NameTestIff(name);
    Filter(rows, NameTest(name))
  }

  lemma NameTestIff(name: string)
    ensures forall d :: NameTest(name)(d) <==>
      exists k: nat, i: nat :: k < |d.values| && OccursAt(Lower(d.values[k]), Lower(name), i)
  {
    forall d
      ensures NameTest(name)(d) <==>
        exists k: nat, i: nat :: k < |d.values| && OccursAt(Lower(d.values[k]), Lower(name), i)
    {
      NameMatchesIff(d, name);
    }
  }

  /** The status stage: every row left has exactly the chosen status, and
      every row with that status is left. */
  function StatusFilter(rows: seq<Document>, status: string): (r: seq<Document>)
    ensures forall k :: 0 <= k < |r| ==> r[k].status == status
    ensures forall k :: 0 <= k < |rows| && rows[k].status == status ==> rows[k] in r
  {
    Filter(rows, StatusTest(status))
  }

  /** The role stage: rows with a permissions list holding a code that the
      role table maps to one of the selected labels. */
  function RoleFilter(rows: seq<Document>, role: seq<string>): (r: seq<Document>)
    ensures forall d :: d in r <==>
      (d in rows && d.permissions.Some? &&
       exists k :: 0 <= k < |d.permissions.value| &&
         d.permissions.value[k] in RoleMapping && RoleMapping[d.permissions.value[k]] in role)
  {
    FilterContains(rows, RoleTest(role));
    Filter(rows, RoleTest(role))
  }

  /** What `applyFilter` keeps of a row: each stage that is switched on
      (non-empty text, a status other than `'all'`, a non-empty role list)
      must pass it. */
  predicate Keep(d: Document, filters: Filters) {
    && (filters.name == "" || NameMatches(d, filters.name))
    && (filters.status == AllStatuses || d.status == filters.status)
    && (|filters.role| == 0 || RoleMatches(d, filters.role))
  }

  function KeepTest(filters: Filters): Document -> bool {
    (d: Document) => Keep(d, filters)
  }

  /** The rows `applyFilter` returns keep the order of the stably sorted
      input and are never more than the input. */
  lemma VisibleRowsAreSubsequence(inputData: seq<Document>, cmp: (Document, Document) -> int, filters: Filters)
    ensures IsSubsequence(Filter(StableSorted(inputData, cmp), KeepTest(filters)), StableSorted(inputData, cmp))
    ensures |Filter(StableSorted(inputData, cmp), KeepTest(filters))| <= |inputData|
    ensures forall d :: d in Filter(StableSorted(inputData, cmp), KeepTest(filters)) ==> d in StableSorted(inputData, cmp)
  {
    StableSortedIsPermutation(inputData, cmp);
    FilterIsSubsequence(StableSorted(inputData, cmp), KeepTest(filters));
    SubsequenceBounds(Filter(StableSorted(inputData, cmp), KeepTest(filters)), StableSorted(inputData, cmp));
  }

  /** The rows `applyFilter` returns are exactly the input rows `Keep` accepts. */
  lemma VisibleRowsAreKeptRows(inputData: seq<Document>, cmp: (Document, Document) -> int, filters: Filters)
    ensures forall d :: d in Filter(StableSorted(inputData, cmp), KeepTest(filters)) <==> d in inputData && Keep(d, filters)
  {
    var sorted := StableSorted(inputData, cmp);
    StableSortedIsPermutation(inputData, cmp);
    FilterContains(sorted, KeepTest(filters));
    forall d
      ensures d in sorted <==> d in inputData
    {
      assert d in sorted <==> d in multiset(sorted);
    }
  }

  /** The rows `applyFilter` returns are ordered by the comparator. */
  lemma VisibleRowsAreOrdered(inputData: seq<Document>, cmp: (Document, Document) -> int, filters: Filters)
    requires TotalPreorder(cmp)
    ensures forall i, j :: 0 <= i < j < |Filter(StableSorted(inputData, cmp), KeepTest(filters))| ==>
      cmp(Filter(StableSorted(inputData, cmp), KeepTest(filters))[i], Filter(StableSorted(inputData, cmp), KeepTest(filters))[j]) <= 0
  {
    StableSortedIsOrdered(inputData, cmp);
    FilterKeepsPairwise(StableSorted(inputData, cmp), KeepTest(filters), (x, y) => cmp(x, y) <= 0);
  }

  /** `applyFilter`: stable sort, then
      the name, status and role stages, each only when switched on. The
      result is one filter of the stably sorted rows by `Keep`. */
  method ApplyFilter(inputData: seq<Document>, cmp: (Document, Document) -> int, filters: Filters)
    returns (result: seq<Document>)
    requires TotalPreorder(cmp)
    ensures result == Filter(StableSorted(inputData, cmp), KeepTest(filters))
    ensures IsSubsequence(result, StableSorted(inputData, cmp))
    ensures |result| <= |inputData|
    ensures forall d :: d in result <==> d in inputData && Keep(d, filters)
    ensures forall i, j :: 0 <= i < j < |result| ==> cmp(result[i], result[j]) <= 0
    ensures filters.status != AllStatuses ==> forall d :: d in result ==> d.status == filters.status
  {
    var sorted := SortRows(inputData, cmp);
    // The tests the rows have passed after the name stage and after the status stage.
    ghost var afterName := (d: Document) => filters.name == "" || NameMatches(d, filters.name);
    ghost var afterStatus := (d: Document) => afterName(d) && (filters.status == AllStatuses || d.status == filters.status);

    var data := sorted;
    if filters.name != "" {
      data := NameFilter(data, filters.name);
      FilterAgrees(sorted, NameTest(filters.name), afterName);
    } else {
      FilterKeepsAll(sorted, afterName);
    }

    if filters.status != AllStatuses {
      data := StatusFilter(data, filters.status);
      FilterThen(sorted, afterName, StatusTest(filters.status), afterStatus);
    } else {
      FilterAgrees(sorted, afterName, afterStatus);
    }

    if |filters.role| > 0 {
      data := RoleFilter(data, filters.role);
      FilterThen(sorted, afterStatus, RoleTest(filters.role), KeepTest(filters));
    } else {
      FilterAgrees(sorted, afterStatus, KeepTest(filters));
    }
    result := data;
    VisibleRowsAreSubsequence(inputData, cmp, filters);
    VisibleRowsAreKeptRows(inputData, cmp, filters);
    VisibleRowsAreOrdered(inputData, cmp, filters);
  }

  /** With the default filters every row is shown: the result of
      `applyFilter` is the whole stably sorted input, a permutation of it.
      Resetting the filters therefore brings back every row. */
  lemma DefaultFiltersKeepEveryRow(inputData: seq<Document>, cmp: (Document, Document) -> int)
    ensures Filter(StableSorted(inputData, cmp), KeepTest(DefaultFilters)) == StableSorted(inputData, cmp)
    ensures multiset(Filter(StableSorted(inputData, cmp), KeepTest(DefaultFilters))) == multiset(inputData)
  {
    FilterKeepsAll(StableSorted(inputData, cmp), KeepTest(DefaultFilters));
    StableSortedIsPermutation(inputData, cmp);
  }

  /** The shown rows are the rows that pass every switched-on stage taken on
      its own: filtering by all criteria is the intersection of the stages. */
  lemma FiltersIntersect(rows: seq<Document>, filters: Filters)
    requires filters.name != "" && filters.status != AllStatuses && |filters.role| > 0
    ensures forall d :: d in Filter(rows, KeepTest(filters)) <==>
      d in NameFilter(rows, filters.name) && d in StatusFilter(rows, filters.status) && d in RoleFilter(rows, filters.role)
  {
    forall d
      ensures d in Filter(rows, KeepTest(filters)) <==>
        d in NameFilter(rows, filters.name) && d in StatusFilter(rows, filters.status) && d in RoleFilter(rows, filters.role)
    {
      FilterMultiset(rows, KeepTest(filters), d);
      FilterMultiset(rows, NameTest(filters.name), d);
      FilterMultiset(rows, StatusTest(filters.status), d);
      FilterMultiset(rows, RoleTest(filters.role), d);
    }
  }

  /** The stages may run in any order: each pair of stages commutes. */
  lemma StagesCommute(rows: seq<Document>, filters: Filters)
    ensures StatusFilter(NameFilter(rows, filters.name), filters.status)
         == NameFilter(StatusFilter(rows, filters.status), filters.name)
    ensures RoleFilter(StatusFilter(rows, filters.status), filters.role)
         == StatusFilter(RoleFilter(rows, filters.role), filters.status)
    ensures RoleFilter(NameFilter(rows, filters.name), filters.role)
         == NameFilter(RoleFilter(rows, filters.role), filters.name)
  {
    FilterCommutes(rows, NameTest(filters.name), StatusTest(filters.status));
    FilterCommutes(rows, StatusTest(filters.status), RoleTest(filters.role));
    FilterCommutes(rows, NameTest(filters.name), RoleTest(filters.role));
  }

  /** Applying the status filter twice gives the same rows as applying it once. */
  lemma StatusFilterIdempotent(rows: seq<Document>, status: string)
    ensures StatusFilter(StatusFilter(rows, status), status) == StatusFilter(rows, status)
  {
    FilterIdempotent(rows, StatusTest(status));
  }

  /** Two texts with the same lower-case form select the same rows. */
  lemma NameFilterIgnoresCase(rows: seq<Document>, name1: string, name2: string)
    requires Lower(name1) == Lower(name2)
    ensures NameFilter(rows, name1) == NameFilter(rows, name2)
  {
    FilterAgrees(rows, NameTest(name1), NameTest(name2));
  }

  /** Rows with no permissions, or only codes the role table does not know,
      are dropped by the role stage whatever labels are selected. */
  lemma RoleFilterDropsUnmappedRows(rows: seq<Document>, role: seq<string>, d: Document)
    requires d.permissions.None? || forall code :: code in d.permissions.value ==> code !in RoleMapping
    ensures d !in RoleFilter(rows, role)
  {
    UnmappedRowsFailRoleTest(d, role);
  }

  // ---------------------------------------------------------------------
  // The page window.

  /** The index `Array.prototype.slice` uses for an argument `i` on a
      sequence of length `len`: counted from the end when negative, then
      clamped to `[0, len]`. */
  function SliceIndex(i: int, len: nat): (r: nat)
    ensures r <= len
    ensures 0 <= i <= len ==> r == i
  {
    if i < 0 then (if len + i < 0 then 0 else len + i)
    else if i > len then len
    else i
  }

  /** `s.slice(start, end)`. */
  function Slice<T>(s: seq<T>, start: int, end: int): seq<T> {
    var b, e := SliceIndex(start, |s|), SliceIndex(end, |s|);
    if b < e then s[b..e] else []
  }

  /** `dataInPage`: the window `[page * rowsPerPage, page * rowsPerPage + rowsPerPage)`
      of the filtered rows. It holds at most `rowsPerPage` rows, starts at
      row `page * rowsPerPage`, runs to the end of the rows or of the
      window, and is empty (not an error) when the window starts past the end. */
  function DataInPage<T>(dataFiltered: seq<T>, page: nat, rowsPerPage: nat): (r: seq<T>)
    ensures |r| <= rowsPerPage
    ensures page * rowsPerPage >= |dataFiltered| ==> r == []
    ensures page * rowsPerPage < |dataFiltered| ==>
      |r| == if |dataFiltered| - page * rowsPerPage < rowsPerPage then |dataFiltered| - page * rowsPerPage else rowsPerPage
    ensures forall k :: 0 <= k < |r| ==>
      page * rowsPerPage + k < |dataFiltered| && r[k] == dataFiltered[page * rowsPerPage + k]
  {
    var start := page * rowsPerPage;
    var len := |dataFiltered|;
    assert SliceIndex(start, len) == if start <= len then start else len;
    assert SliceIndex(start + rowsPerPage, len) == if start + rowsPerPage <= len then start + rowsPerPage else len;
    Slice(dataFiltered, start, start + rowsPerPage)
  }

  /** Every filtered row is shown on exactly the page its index falls in, at
      the matching position. */
  lemma RowIsOnItsPage<T>(dataFiltered: seq<T>, rowsPerPage: nat, i: nat)
    requires rowsPerPage > 0 && i < |dataFiltered|
    ensures i % rowsPerPage < |DataInPage(dataFiltered, i / rowsPerPage, rowsPerPage)|
    ensures DataInPage(dataFiltered, i / rowsPerPage, rowsPerPage)[i % rowsPerPage] == dataFiltered[i]
  {
    var page := i / rowsPerPage;
    assert page * rowsPerPage + i % rowsPerPage == i;
    assert page * rowsPerPage <= i;
  }

  // ---------------------------------------------------------------------
  // The status tabs.

  function StatusOf(d: Document): string {
    d.status
  }

  /** The badge on a status tab: every row for `'all'`, else the rows with
      that status — the number of times the status occurs in the table. */
  function TabCount(tableData: seq<Document>, tabValue: string): (n: nat)
    ensures tabValue == AllStatuses ==> n == |tableData|
    ensures tabValue != AllStatuses ==> n == multiset(Map(StatusOf, tableData))[tabValue]
  {
    FilterCountsKey(tableData, StatusOf, tabValue, StatusTest(tabValue));
    if tabValue == AllStatuses then |tableData|
    else |StatusFilter(tableData, tabValue)|
  }

  /** A tab's badge is the number of rows the table lists once that tab is
      chosen and no other filter is set. */
  lemma TabCountIsRowsListed(tableData: seq<Document>, cmp: (Document, Document) -> int, tabValue: string)
    ensures TabCount(tableData, tabValue) == |Filter(StableSorted(tableData, cmp), KeepTest(Filters("", [], tabValue)))|
  {
    var f := Filters("", [], tabValue);
    StableSortedIsPermutation(tableData, cmp);
    FilterPermutation(StableSorted(tableData, cmp), tableData, KeepTest(f));
    if tabValue == AllStatuses {
      FilterKeepsAll(tableData, KeepTest(f));
    } else {
      FilterAgrees(tableData, KeepTest(f), StatusTest(tabValue));
    }
  }

  // ---------------------------------------------------------------------
  // Deleting a row.

  function IdIsNot(id: int): Document -> bool {
    (d: Document) => d.id != id
  }

  function IdOf(d: Document): int {
    d.id
  }

  function Ids(rows: seq<Document>): seq<int> {
    Map(IdOf, rows)
  }

  /** `handleDeleteRow`'s new table: the rows whose id differs from `id`,
      in table order. */
  function DeleteRow(tableData: seq<Document>, id: int): (r: seq<Document>)
    ensures forall k :: 0 <= k < |r| ==> r[k].id != id
    ensures forall k :: 0 <= k < |tableData| && tableData[k].id != id ==> tableData[k] in r
  {
    Filter(tableData, IdIsNot(id))
  }

  function IdIs(id: int): Document -> bool {
    (d: Document) => d.id == id
  }

  /** Deleting removes exactly the rows with that id, one per occurrence,
      and keeps every other row, as often as it occurred, in its original
      relative order. */
  lemma DeleteRowRemovesExactly(tableData: seq<Document>, id: int)
    ensures IsSubsequence(DeleteRow(tableData, id), tableData)
    ensures forall d :: multiset(DeleteRow(tableData, id))[d] == if d.id == id then 0 else multiset(tableData)[d]
    ensures |DeleteRow(tableData, id)| == |tableData| - multiset(Ids(tableData))[id]
  {
    FilterIsSubsequence(tableData, IdIsNot(id));
    forall d
      ensures multiset(DeleteRow(tableData, id))[d] == if d.id == id then 0 else multiset(tableData)[d]
    {
      FilterMultiset(tableData, IdIsNot(id), d);
    }
    FilterCountsKey(tableData, IdOf, id, IdIs(id));
    FilterSplits(tableData, IdIsNot(id), IdIs(id));
  }

  /** Deleting an id that no row has leaves the table as it was. */
  lemma DeleteAbsentIdKeepsTable(tableData: seq<Document>, id: int)
    requires id !in Ids(tableData)
    ensures DeleteRow(tableData, id) == tableData
  {
    forall d | d in tableData
      ensures IdIsNot(id)(d)
    {
      var k := IndexOf(tableData, d);
      MapAt(IdOf, tableData, k);
    }
    FilterKeepsAll(tableData, IdIsNot(id));
  }

  // ---------------------------------------------------------------------
  // Select-all and the process payload.

  /** The ids offered to select-all: the ids of the `'Received'` rows, in
      table order. */
  function EligibleIds(tableData: seq<Document>): (r: seq<int>)
    ensures |r| == TabCount(tableData, Received)
  {
    Ids(StatusFilter(tableData, Received))
  }

  /** The select-all list holds exactly the ids of `'Received'` rows, in
      table order. */
  lemma EligibleIdsAreReceivedIds(tableData: seq<Document>)
    ensures forall x :: x in EligibleIds(tableData) <==> exists d :: d in tableData && d.status == Received && d.id == x
    ensures IsSubsequence(EligibleIds(tableData), Ids(tableData))
  {
    var rows := StatusFilter(tableData, Received);
    forall x
      ensures x in EligibleIds(tableData) <==> exists d :: d in tableData && d.status == Received && d.id == x
    {
      if x in EligibleIds(tableData) {
        var k := IndexOf(EligibleIds(tableData), x);
        MapAt(IdOf, rows, k);
        assert rows[k] in tableData && rows[k].status == Received;
      }
      if exists d :: d in tableData && d.status == Received && d.id == x {
        var d :| d in tableData && d.status == Received && d.id == x;
        FilterMultiset(tableData, StatusTest(Received), d);
        var k := IndexOf(rows, d);
        MapAt(IdOf, rows, k);
      }
    }
    FilterIsSubsequence(tableData, StatusTest(Received));
    MapSubsequence(IdOf, rows, tableData);
  }

  /** One entry of the process payload. */
  datatype Descriptor = Descriptor(id: int, propertyTypeId: int, documentTypeId: int)

  function Describe(d: Document): Descriptor {
    Descriptor(d.id, d.propertyTypeId, d.documentTypeId)
  }

  function IsSelected(selected: seq<int>): Document -> bool {
    (d: Document) => d.id in selected
  }

  /** The table rows whose id is among the selected ids, in table order. */
  function SelectedRows(tableData: seq<Document>, selected: seq<int>): seq<Document> {
    Filter(tableData, IsSelected(selected))
  }

  /** The process payload: for each selected row, its id and its two type ids. */
  function ProcessPayload(tableData: seq<Document>, selected: seq<int>): (r: seq<Descriptor>)
    ensures |r| <= |tableData|
  {
    Map(Describe, SelectedRows(tableData, selected))
  }

  /** The payload has one entry per table row whose id is selected, in table
      order, carrying that row's id and foreign keys; it has no other entries. */
  lemma PayloadDescribesSelectedRows(tableData: seq<Document>, selected: seq<int>)
    ensures IsSubsequence(SelectedRows(tableData, selected), tableData)
    ensures forall d :: d in SelectedRows(tableData, selected) <==> d in tableData && d.id in selected
    ensures forall d :: multiset(SelectedRows(tableData, selected))[d] == if d.id in selected then multiset(tableData)[d] else 0
    ensures |ProcessPayload(tableData, selected)| == |SelectedRows(tableData, selected)|
    ensures forall k :: 0 <= k < |ProcessPayload(tableData, selected)| ==>
      ProcessPayload(tableData, selected)[k] == Describe(SelectedRows(tableData, selected)[k])
  {
    var rows := SelectedRows(tableData, selected);
    FilterIsSubsequence(tableData, IsSelected(selected));
    forall d
      ensures d in rows <==> d in tableData && d.id in selected
      ensures multiset(rows)[d] == if d.id in selected then multiset(tableData)[d] else 0
    {
      FilterMultiset(tableData, IsSelected(selected), d);
    }
    forall k | 0 <= k < |rows|
      ensures ProcessPayload(tableData, selected)[k] == Describe(rows[k])
    {
      MapAt(Describe, rows, k);
    }
  }

  /** A selected id that no table row carries puts nothing in the payload. */
  lemma PayloadIgnoresUnknownIds(tableData: seq<Document>, selected: seq<int>, x: int)
    requires x !in Ids(tableData)
    ensures forall e :: e in ProcessPayload(tableData, selected) ==> e.id != x
  {
    var rows := SelectedRows(tableData, selected);
    forall e | e in ProcessPayload(tableData, selected)
      ensures e.id != x
    {
      var k := IndexOf(ProcessPayload(tableData, selected), e);
      MapAt(Describe, rows, k);
      var m := IndexOf(tableData, rows[k]);
      MapAt(IdOf, tableData, m);
    }
  }

  /** The table's ids are pairwise distinct. */
  predicate UniqueIds(tableData: seq<Document>) {
    forall i, j :: 0 <= i < j < |tableData| ==> tableData[i].id != tableData[j].id
  }

  /** When ids are unique and the selection came from the select-all list of
      the current table, only `'Received'` rows are submitted. The payload
      itself does not look at the status: a selected id whose row is no
      longer `'Received'` is still submitted. */
  lemma ReconciledSelectionSubmitsOnlyReceived(tableData: seq<Document>, selected: seq<int>)
    requires UniqueIds(tableData)
    requires forall x :: x in selected ==> x in EligibleIds(tableData)
    ensures forall d :: d in SelectedRows(tableData, selected) ==> d.status == Received
  {
    EligibleIdsAreReceivedIds(tableData);
    forall d | d in SelectedRows(tableData, selected)
      ensures d.status == Received
    {
      FilterMultiset(tableData, IsSelected(selected), d);
      var d' :| d' in tableData && d'.status == Received && d'.id == d.id;
      var i := IndexOf(tableData, d);
      var j := IndexOf(tableData, d');
      assert i == j;
    }
  }
}
