/**
 * Laravel's length-aware paginator as the two listings use it: the page
 * number comes from the `page` query parameter, the page holds the items at
 * offset `(page - 1) * perPage`, and the last page is `max(ceil(total /
 * perPage), 1)`.
 */
module Pagination {
  import opened Options

  datatype Page<T> = Page(data: seq<T>, total: nat, perPage: nat, currentPage: nat, lastPage: nat)

  /** The current page: the `page` parameter when it is an integer of at least 1, otherwise 1. */
  function ResolvePage(param: Option<int>): (page: nat)
    ensures page >= 1
    ensures param.Some? && param.value >= 1 ==> page == param.value
    ensures param.None? || param.value < 1 ==> page == 1
  {
    if param.Some? && param.value >= 1 then param.value else 1
  }

  function Min(a: int, b: int): int { if a <= b then a else b }

  /** `ceil(total / perPage)`, and at least 1. */
  function LastPage(total: nat, perPage: nat): (last: nat)
    requires perPage >= 1
    ensures last >= 1
    ensures (last - 1) * perPage < total || last == 1
    ensures total <= last * perPage
  {
    if total <= perPage then 1 else 1 + LastPage(total - perPage, perPage)
  }

  function Paginate<T>(items: seq<T>, perPage: nat, page: nat): (p: Page<T>)
    requires perPage >= 1 && page >= 1
    ensures p.total == |items| && p.perPage == perPage && p.currentPage == page
    ensures p.lastPage == LastPage(|items|, perPage)
    ensures |p.data| <= perPage
    ensures page == 1 ==> p.data == items[..Min(perPage, |items|)]
    ensures forall x :: x in p.data ==> x in items
    ensures forall k :: 0 <= k < |p.data| ==>
      PageStart(perPage, page) + k < |items| && p.data[k] == items[PageStart(perPage, page) + k]
  {
    var start := PageStart(perPage, page);
    var offset := Min(start, |items|);
    var end := Min(offset + perPage, |items|);
    assert offset < end ==> offset == start;
    Page(items[offset..end], |items|, perPage, page, LastPage(|items|, perPage))
  }

  /** The index of the first item of a page. */
  function PageStart(perPage: nat, page: nat): (start: nat)
    requires page >= 1
    ensures page == 1 ==> start == 0
  {
    (page - 1) * perPage
  }

  /**
   * The pages cover the list: the item at index i is on page
   * `i / perPage + 1`, at position `i % perPage`, and that page is not past
   * the last one.
   */
  lemma {:induction false} EveryItemOnItsPage<T>(items: seq<T>, perPage: nat, i: nat)
    requires perPage >= 1 && i < |items|
    ensures var p := Paginate(items, perPage, i / perPage + 1);
      i % perPage < |p.data| && p.data[i % perPage] == items[i] && i / perPage + 1 <= p.lastPage
  {
    var q, r := i / perPage, i % perPage;
    assert i == q * perPage + r && 0 <= r < perPage;
    assert (q + 1 - 1) * perPage == q * perPage;
    var last := LastPage(|items|, perPage);
    if last < q + 1 {
      assert last * perPage <= q * perPage by {
        MulMonotone(last, q, perPage);
      }
      assert false;
    }
  }

  lemma MulMonotone(a: nat, b: nat, c: nat)
    requires a <= b
    ensures a * c <= b * c
  {
  }
}
