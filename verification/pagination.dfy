/**
 The list pager: "previous" and "next" buttons around "page p of n".
 */
module Pagination {
  import opened Wrappers

  datatype Button = Previous | Next

  predicate PreviousDisabled(page: int) {
    page <= 1
  }

  predicate NextDisabled(page: int, totalPages: int) {
    page >= totalPages
  }

  /** The page a click asks for, or None when the button is disabled. */
  function Request(page: int, totalPages: int, b: Button): (r: Option<int>)
    ensures b == Previous ==> (r.Some? <==> page > 1)
    ensures b == Next ==> (r.Some? <==> page < totalPages)
    ensures r.Some? ==> (r.value == page - 1 || r.value == page + 1)
    ensures r.Some? ==> (r.value < page <==> b == Previous)
  {
    match b
    case Previous => if PreviousDisabled(page) then None else Some(page - 1)
    case Next => if NextDisabled(page, totalPages) then None else Some(page + 1)
  }

  /** From a page in range, every enabled button leads to a page in range. */
  lemma RequestStaysInRange(page: int, totalPages: int, b: Button)
    requires 1 <= page <= totalPages
    ensures Request(page, totalPages, b).Some? ==> 1 <= Request(page, totalPages, b).value <= totalPages
  {
  }

  /** "Next" then "previous" (and back) returns to the starting page. */
  lemma NextThenPreviousReturns(page: int, totalPages: int)
    requires page >= 1
    ensures Request(page, totalPages, Next).Some? ==>
      Request(Request(page, totalPages, Next).value, totalPages, Previous) == Some(page)
  {
  }

  lemma PreviousThenNextReturns(page: int, totalPages: int)
    requires page <= totalPages
    ensures Request(page, totalPages, Previous).Some? ==>
      Request(Request(page, totalPages, Previous).value, totalPages, Next) == Some(page)
  {
  }

  /** On the first of at most one page both buttons are disabled. */
  lemma SinglePageDisablesBoth(page: int, totalPages: int)
    requires totalPages <= 1 && page == 1
    ensures Request(page, totalPages, Previous).None?
    ensures Request(page, totalPages, Next).None?
  {
  }
}
