/**
  database-viewer.php: the paged view of one table of the integration's
  database.  The requested page is clamped to at least 1, pages hold 50 rows,
  only six table names are accepted, rows are ordered by the first of
  `timestamp`, `created_at`, `id` that the table has (else `rowid`), and a
  window of page links around the current page is shown below a non-empty
  page when there is more than one page.

  The database is abstracted to the table's row count and column names; the
  `(int)` cast of the query-string page is taken as already done.
*/
module DatabaseViewer {
  import opened Wrappers

  const PerPage: int := 50

  const AllowedTables: seq<string> :=
    ["integration_controls", "activity_logs", "webhook_events", "system_config",
     "webhook_subscriptions", "webhook_delivery_log"]

  // ---------------------------------------------------------------------
  // Page arithmetic

  /** `max(1, $requested)`. */
  function Page(requested: int): (page: int)
    ensures page >= 1
    ensures requested >= 1 ==> page == requested
    ensures requested < 1 ==> page == 1
  {
    if requested < 1 then 1 else requested
  }

  /** `($page - 1) * $perPage`. */
  function Offset(page: int): int
  {
    (page - 1) * PerPage
  }

  /** Page p (p >= 1) starts at a non-negative multiple of 50, and the offset
      gives the page back: consecutive pages cover consecutive, disjoint
      50-row ranges. */
  lemma OffsetSelectsPage(page: int)
    requires page >= 1
    ensures Offset(page) >= 0 && Offset(page) % PerPage == 0
    ensures Offset(page) / PerPage + 1 == page
    ensures Offset(page + 1) == Offset(page) + PerPage
  {
  }

  /** `ceil($totalRows / $perPage)`. */
  function TotalPages(totalRows: nat): (pages: nat)
    ensures pages * PerPage >= totalRows
    ensures pages > 0 ==> (pages - 1) * PerPage < totalRows
  {
    (totalRows + PerPage - 1) / PerPage
  }

  /** A page has rows exactly when it is one of the TotalPages pages. */
  lemma PageHasRowsIff(requested: int, totalRows: nat)
    ensures Offset(Page(requested)) < totalRows <==> Page(requested) <= TotalPages(totalRows)
  {
    var page := Page(requested);
    var t := TotalPages(totalRows);
    if page <= t {
      assert (page - 1) * PerPage <= (t - 1) * PerPage;
    } else {
      assert (page - 1) * PerPage >= t * PerPage;
    }
  }

  /** How many rows `LIMIT 50 OFFSET $offset` returns from a table of that
      size: one for each of the table's row positions 0 .. totalRows-1 that
      lies in the window [offset, offset + 50). */
  function RowsOnPage(totalRows: nat, offset: int): (n: nat)
    requires offset >= 0
    ensures n <= PerPage
    ensures n > 0 <==> offset < totalRows
    ensures n == |Range(0, totalRows) * Range(offset, offset + PerPage)|
  {
    var hi := if totalRows < offset + PerPage then totalRows else offset + PerPage;
    RangeMembers(0, totalRows);
    RangeMembers(offset, offset + PerPage);
    RangeMembers(offset, hi);
    RangeSize(offset, hi);
    var window := Range(0, totalRows) * Range(offset, offset + PerPage);
    forall k
      ensures k in window <==> k in Range(offset, hi)
    {
    }
    assert window == Range(offset, hi);
    if offset >= totalRows then 0
    else if totalRows - offset < PerPage then totalRows - offset
    else PerPage
  }

  /** The integers in [lo, hi). */
  function Range(lo: int, hi: int): set<int>
    decreases hi - lo
  {
    if hi <= lo then {} else Range(lo, hi - 1) + {hi - 1}
  }

  lemma {:induction false} RangeMembers(lo: int, hi: int)
    ensures forall k :: k in Range(lo, hi) <==> lo <= k < hi
    decreases hi - lo
  {
    if lo < hi {
      RangeMembers(lo, hi - 1);
    }
  }

  lemma {:induction false} RangeSize(lo: int, hi: int)
    ensures |Range(lo, hi)| == if lo < hi then hi - lo else 0
    decreases hi - lo
  {
    if lo < hi {
      RangeSize(lo, hi - 1);
      RangeMembers(lo, hi - 1);
    }
  }

  // ---------------------------------------------------------------------
  // Table whitelist

  /** The whitelist check before any query: only the six known tables. */
  function CheckTable(selectedTable: string): (r: Result<string, string>)
    ensures r.Ok? <==> selectedTable in AllowedTables
    ensures r.Ok? ==> r.value == selectedTable
    ensures r.Err? ==> r.error == "Invalid table name"
  {
    if selectedTable !in AllowedTables then Err("Invalid table name") else Ok(selectedTable)
  }

  // ---------------------------------------------------------------------
  // ORDER BY

  /** The `$orderBy` if-chain: the first of timestamp, created_at, id the
      table has, else rowid. */
  function ChooseOrderBy(columnNames: seq<string>): (orderBy: string)
    ensures orderBy == "timestamp" <==> "timestamp" in columnNames
    ensures orderBy == "created_at" <==> "timestamp" !in columnNames && "created_at" in columnNames
    ensures orderBy == "id" <==> "timestamp" !in columnNames && "created_at" !in columnNames && "id" in columnNames
    ensures orderBy == "rowid" <==> "timestamp" !in columnNames && "created_at" !in columnNames && "id" !in columnNames
  {
    if "timestamp" in columnNames then "timestamp"
    else if "created_at" in columnNames then "created_at"
    else if "id" in columnNames then "id"
    else "rowid"
  }

  // ---------------------------------------------------------------------
  // Pagination links

  datatype Link = Link(page: int, current: bool)

  datatype Pagination = Pagination(previous: bool, links: seq<Link>, next: bool)

  function Max(a: int, b: int): int { if a < b then b else a }
  function Min(a: int, b: int): int { if a < b then a else b }

  /** The pagination bar for a page: Previous when not on page 1, the pages
      from page-2 to page+2 clipped to [1, totalPages] with the current one
      marked, Next when not on the last page. */
  predicate IsPaginationBar(bar: Pagination, page: int, totalPages: int)
  {
    && (bar.previous <==> page > 1)
    && (bar.next <==> page < totalPages)
    && |bar.links| == Max(0, Min(totalPages, page + 2) - Max(1, page - 2) + 1)
    && (forall k :: 0 <= k < |bar.links| ==> bar.links[k].page == Max(1, page - 2) + k)
    && (forall k :: 0 <= k < |bar.links| ==>
          1 <= bar.links[k].page <= totalPages && page - 2 <= bar.links[k].page <= page + 2)
    && (forall k :: 0 <= k < |bar.links| ==> (bar.links[k].current <==> bar.links[k].page == page))
  }

  /** The loop that prints the pagination bar. */
  method PaginationLinks(page: int, totalPages: int) returns (bar: Pagination)
    ensures IsPaginationBar(bar, page, totalPages)
  {
    var previous := page > 1;
    var links := [];
    var i := Max(1, page - 2);
    while i <= Min(totalPages, page + 2)
      invariant Max(1, page - 2) <= i <= Max(Max(1, page - 2), Min(totalPages, page + 2) + 1)
      invariant |links| == i - Max(1, page - 2)
      invariant forall k :: 0 <= k < |links| ==> links[k] == Link(Max(1, page - 2) + k, Max(1, page - 2) + k == page)
      decreases Min(totalPages, page + 2) - i
    {
      links := links + [Link(i, i == page)];
      i := i + 1;
    }
    var next := page < totalPages;
    bar := Pagination(previous, links, next);
  }

  // ---------------------------------------------------------------------
  // The table view

  datatype TableView =
    | TableError(message: string)
    | NoData(table: string)
    | Rows(table: string, orderBy: string, offset: int, shown: nat, totalRows: nat, pagination: Option<Pagination>)

  /** The table branch of database-viewer.php for a chosen table, given the
      table's row count and columns. */
  method ViewTable(selectedTable: string, requestedPage: int, totalRows: nat, columnNames: seq<string>)
    returns (view: TableView)
    ensures view.TableError? <==> selectedTable !in AllowedTables
    ensures view.TableError? ==> view.message == "Invalid table name"
    ensures view.NoData? <==> selectedTable in AllowedTables && Page(requestedPage) > TotalPages(totalRows)
    ensures view.NoData? ==> view.table == selectedTable
    ensures view.Rows? ==>
              && view.table == selectedTable
              && view.orderBy == ChooseOrderBy(columnNames)
              && view.offset == Offset(Page(requestedPage)) < totalRows
              && view.shown == RowsOnPage(totalRows, view.offset) > 0
              && view.totalRows == totalRows
              && (view.pagination.Some? <==> TotalPages(totalRows) > 1)
    ensures view.Rows? && view.pagination.Some? ==>
              IsPaginationBar(view.pagination.value, Page(requestedPage), TotalPages(totalRows))
  {
    var page := Page(requestedPage);
    var offset := Offset(page);
    var checked := CheckTable(selectedTable);
    if checked.Err? {
      return TableError(checked.error);
    }
    var totalPages := TotalPages(totalRows);
    var orderBy := ChooseOrderBy(columnNames);
    var shown := RowsOnPage(totalRows, offset);
    PageHasRowsIff(requestedPage, totalRows);
    if shown == 0 {
      return NoData(selectedTable);
    }
    var pagination := None;
    if totalPages > 1 {
      var bar := PaginationLinks(page, totalPages);
      pagination := Some(bar);
    }
    view := Rows(selectedTable, orderBy, offset, shown, totalRows, pagination);
  }
}
