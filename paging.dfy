/** The page window the service cuts out of the sorted search result. */
module Paging {
  import opened Wrappers

  const DefaultPageNumber := 0
  const DefaultPageSize := 3

  function Min(a: int, b: int): int {
    if a <= b then a else b
  }

  /**
   * The page arguments the window arithmetic handles: after the defaults are
   * applied, neither is negative and `pageNumber * pageSize + pageSize` does not
   * overflow a Java `int`.
   */
  predicate PageArgsInRange(pageNumber: Option<int>, pageSize: Option<int>) {
    var pn := pageNumber.GetOr(DefaultPageNumber);
    var ps := pageSize.GetOr(DefaultPageSize);
    0 <= pn && 0 <= ps && pn * ps + ps <= IntMax
  }

  /**
   * `getPage`: a null page number counts as 0 and a null page size as 3. A page
   * that starts inside the list is cut there, up to `pageSize` long. A page that
   * would start past the end is shifted back to the last `pageSize` elements, and
   * when the list is shorter than one page that start is negative and `subList`
   * throws.
   */
  function GetPage<T>(all: seq<T>, pageNumber: Option<int>, pageSize: Option<int>): (r: Result<seq<T>>)
    requires PageArgsInRange(pageNumber, pageSize)
    ensures var pn, ps := pageNumber.GetOr(DefaultPageNumber), pageSize.GetOr(DefaultPageSize);
      && (pn * ps <= |all| ==> r == Ok(all[pn * ps..Min(pn * ps + ps, |all|)]))
      && (pn * ps > |all| && ps <= |all| ==> r == Ok(all[|all| - ps..]))
      && (pn * ps > |all| && ps > |all| ==> r == Err(IndexOutOfBounds))
    ensures r.Ok? ==> |r.value| <= pageSize.GetOr(DefaultPageSize)
  {
    var pn := pageNumber.GetOr(DefaultPageNumber);
    var ps := pageSize.GetOr(DefaultPageSize);
    assert ps * pn == pn * ps;
    var start := if pn * ps <= |all| then ps * pn else |all| - ps;
    var end := Min(ps * pn + ps, |all|);
    var from := Min(start, end);
    assert pn * ps > |all| ==> end == |all|;
    assert pn * ps > |all| && ps <= |all| ==> from == |all| - ps && all[from..end] == all[|all| - ps..];
    if from < 0 then Err(IndexOutOfBounds) else Ok(all[from..end])
  }

  /** Asking for the first page with the whole count as page size returns the whole list. */
  lemma WholeListPage<T>(all: seq<T>)
    requires |all| <= IntMax
    ensures GetPage(all, Some(0), Some(|all|)) == Ok(all)
  {
    assert all[0..|all|] == all;
  }
}
