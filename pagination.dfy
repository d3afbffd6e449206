/**
 * The pager shared by the list screens: four buttons that ask the parent for a
 * new page index, each disabled at its own end, and the "Página n de m" caption.
 * Pages are numbered from 0; the parent owns the index and the page count.
 */
module Pagination {
  import opened Js

  datatype Button = First | Prev | Next | Last

  /** The index a button passes to `onPageChange`. */
  function Target(b: Button, page: int, totalPages: int): int {
    match b
    case First => 0
    case Prev => if page - 1 < 0 then 0 else page - 1                              // Math.max(0, page - 1)
    case Next => if totalPages - 1 < page + 1 then totalPages - 1 else page + 1    // Math.min(totalPages - 1, page + 1)
    case Last => totalPages - 1
  }

  /** First and previous are disabled on page 0, next and last from the last page on. */
  predicate Disabled(b: Button, page: int, totalPages: int) {
    match b
    case First => page == 0
    case Prev => page == 0
    case Next => page >= totalPages - 1
    case Last => page >= totalPages - 1
  }

  /** The caption between the buttons. */
  function Caption(page: int, totalPages: int): string {
    "Página " + IntToString(page + 1) + " de " + IntToString(totalPages)
  }

  /**
   * On a page in range, a button is disabled exactly when pressing it would leave
   * the page where it is, and an enabled button always lands on a page in range.
   */
  lemma ButtonsStayInRange(b: Button, page: int, totalPages: int)
    requires 0 <= page < totalPages
    ensures Disabled(b, page, totalPages) <==> Target(b, page, totalPages) == page
    ensures 0 <= Target(b, page, totalPages) < totalPages
  {
  }

  /** Each enabled button moves in its own direction: first and previous back, next and last forward. */
  lemma ButtonsMoveTheirWay(b: Button, page: int, totalPages: int)
    requires 0 <= page < totalPages && !Disabled(b, page, totalPages)
    ensures b == First || b == Prev ==> Target(b, page, totalPages) < page
    ensures b == Next || b == Last ==> Target(b, page, totalPages) > page
    ensures b == Prev ==> Target(b, page, totalPages) == page - 1
    ensures b == Next ==> Target(b, page, totalPages) == page + 1
  {
  }

  /**
   * Past the last page (an index kept from a longer list) next and last are
   * disabled, first jumps to page 0 and previous steps back one page at a time.
   */
  lemma PastTheEnd(page: int, totalPages: int)
    requires 1 <= totalPages <= page
    ensures Disabled(Next, page, totalPages) && Disabled(Last, page, totalPages)
    ensures !Disabled(First, page, totalPages) && Target(First, page, totalPages) == 0
    ensures !Disabled(Prev, page, totalPages) && Target(Prev, page, totalPages) == page - 1
  {
  }
}
