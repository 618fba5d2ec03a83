/** Cursor pagination as the handlers consume it. The upstream API is not
    modelled: `pages[i]` is the page it returns to the i-th request, whose
    cursor is the `endCursor` of page i - 1. */
module Paging {
  import opened Wrappers

  datatype Page<T> = Page(nodes: seq<T>, hasNextPage: bool, endCursor: string)

  /** The listing ends: some page reports that no page follows. */
  predicate ListingEnds<T>(pages: seq<Page<T>>) {
    exists i :: 0 <= i < |pages| && !pages[i].hasNextPage
  }

  /** Index of the first page without a successor. */
  function LastPage<T>(pages: seq<Page<T>>): (n: nat)
    requires ListingEnds(pages)
    ensures n < |pages| && !pages[n].hasNextPage
    ensures forall i :: 0 <= i < n ==> pages[i].hasNextPage
  {
    if !pages[0].hasNextPage then 0
    else
      var i :| 0 <= i < |pages| && !pages[i].hasNextPage;
      assert 0 <= i - 1 < |pages[1..]| && !pages[1..][i - 1].hasNextPage;
      1 + LastPage(pages[1..])
  }

  /** The `cursor` variable sent with request `i`: null first, then the
      previous page's `endCursor`. */
  function RequestCursor<T>(pages: seq<Page<T>>, i: nat): Option<string>
    requires i <= |pages|
  {
    if i == 0 then None else Some(pages[i - 1].endCursor)
  }

  /** The cursors sent with the first `n` requests. */
  function RequestCursors<T>(pages: seq<Page<T>>, n: nat): (r: seq<Option<string>>)
    requires n <= |pages|
    ensures |r| == n
    ensures forall j :: 0 <= j < n ==> r[j] == RequestCursor(pages, j)
  {
    if n == 0 then [] else RequestCursors(pages, n - 1) + [RequestCursor(pages, n - 1)]
  }

  /** The nodes of the given pages, page after page. */
  function AllNodes<T>(pages: seq<Page<T>>): (r: seq<T>)
  {
    if pages == [] then [] else AllNodes(pages[..|pages| - 1]) + pages[|pages| - 1].nodes
  }
}
