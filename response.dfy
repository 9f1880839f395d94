/** src/utils/response.ts: the response envelopes, and the clamping of the
    pagination numbers of a listing. */
module Response {
  import opened Common

  function ResponseValue<T>(status: bool, statusCode: int, message: string): (r: Reply<T>)
    ensures r.status == status && r.statusCode == statusCode && r.message == message
    ensures r.data.None?
  {
    Reply(status, statusCode, message, None)
  }

  function ResponseValueWithData<T>(status: bool, statusCode: int, message: string, data: T): (r: Reply<T>)
    ensures r.status == status && r.statusCode == statusCode && r.message == message
    ensures r.data == Some(data)
  {
    Reply(status, statusCode, message, Some(data))
  }

  /** `Math.ceil(a / b)` for a non-negative `a` and a positive `b`. */
  function CeilDiv(a: int, b: int): (q: int)
    requires a >= 0 && b >= 1
    ensures q >= 0
    ensures q * b >= a
    ensures q == 0 || (q - 1) * b < a
  {
    var q := (a + b - 1) / b;
    assert q * b <= a + b - 1 < q * b + b;
    q
  }

  function Max(a: int, b: int): int { if a >= b then a else b }
  function Min(a: int, b: int): int { if a <= b then a else b }

  /** `x || d` on a number: a missing value (undefined or NaN) and 0 fall back to `d`. */
  function OrDefault(x: Option<int>, d: int): int {
    if x.None? || x.value == 0 then d else x.value
  }

  /** responseValueWithPaginate: `perPage` falls back to 10 and is at least 1;
      `totalPages` is the number of pages the non-negative item count needs,
      and at least 1; the page is clamped into [1, totalPages]. Numbers are
      integers here, so `Math.floor` is the identity. */
  function ResponseValueWithPaginate<T>(status: bool, statusCode: int, message: string, items: seq<T>,
                                        page: Option<int>, perPage: Option<int>, totalItems: int): (r: Reply<PageData<T>>)
    ensures r.status == status && r.statusCode == statusCode && r.message == message && r.data.Some?
    ensures r.data.value.items == items
    ensures r.data.value.perPage >= 1
    ensures (perPage.None? || perPage == Some(0)) ==> r.data.value.perPage == 10
    ensures perPage.Some? && perPage.value >= 1 ==> r.data.value.perPage == perPage.value
    ensures r.data.value.totalItems >= 0
    ensures totalItems >= 0 ==> r.data.value.totalItems == totalItems
    ensures totalItems <= 0 ==> r.data.value.totalItems == 0
    // enough pages for every item, and no page that would be empty, except the single page of an empty listing
    ensures r.data.value.totalPages >= 1
    ensures r.data.value.totalPages * r.data.value.perPage >= r.data.value.totalItems
    ensures r.data.value.totalPages == 1 || (r.data.value.totalPages - 1) * r.data.value.perPage < r.data.value.totalItems
    ensures 1 <= r.data.value.page <= r.data.value.totalPages
    ensures (page.None? || page == Some(0)) ==> r.data.value.page == 1
    ensures page.Some? && 1 <= page.value <= r.data.value.totalPages ==> r.data.value.page == page.value
  {
    var safePerPage := Max(1, OrDefault(perPage, 10));
    var count := Max(0, totalItems);
    var totalPages := Max(1, CeilDiv(count, safePerPage));
    var safePage := Min(Max(1, OrDefault(page, 1)), totalPages);
    Reply(status, statusCode, message,
          Some(PageData(safePage, items, safePerPage, totalPages, count)))
  }
}
