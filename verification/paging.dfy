/** `PagedResponse<T>`: a successful response carrying one page of data and, when
    the total number of records is known, the page count and the next/previous
    flags. */
module Paging {
  import opened Wrappers

  datatype PagedResponse<T> = PagedResponse(
    data: T,
    pageNumber: int,
    pageSize: int,
    totalPages: int,
    totalRecords: int,
    hasNextPage: bool,
    hasPreviousPage: bool,
    succeeded: bool,
    message: Option<string>,
    errors: Option<seq<string>>)

  /** `(int)Math.Ceiling((double)a / b)` for a non-zero divisor. The quotient of two
      32-bit integers is exact enough in a double for the ceiling to be the exact one. */
  function CeilDiv(a: int, b: int): (q: int)
    requires b != 0
    ensures b > 0 ==> (q - 1) * b < a <= q * b
    ensures b < 0 ==> q * b <= a < (q - 1) * b
  {
    if b > 0 then
      CeilDivPositive(a, b);
      0 - ((0 - a) / b)
    else
      CeilDivPositive(0 - a, 0 - b);
      0 - (a / (0 - b))
  }

  lemma CeilDivPositive(a: int, b: int)
    requires b > 0
    ensures (0 - ((0 - a) / b) - 1) * b < a <= (0 - ((0 - a) / b)) * b
  {
    var q := (0 - a) / b;
    var r := (0 - a) % b;
    assert 0 - a == q * b + r && 0 <= r < b;
    assert (0 - q) * b == 0 - q * b;
    assert (0 - q - 1) * b == 0 - q * b - b;
  }

  /** The three-argument constructor: no total, so no page count and neither flag. */
  function Page<T>(data: T, pageNumber: int, pageSize: int): (r: PagedResponse<T>)
    ensures r.data == data && r.pageNumber == pageNumber && r.pageSize == pageSize
    ensures r.totalPages == 0 && r.totalRecords == 0
    ensures !r.hasNextPage && !r.hasPreviousPage
    ensures r.succeeded && r.message.None? && r.errors.None?
  {
    PagedResponse(data, pageNumber, pageSize, 0, 0, false, false, true, None, None)
  }

  /** The four-argument constructor. */
  function PageOf<T>(data: T, pageNumber: int, pageSize: int, totalRecords: int): (r: PagedResponse<T>)
    requires pageSize != 0
    ensures r.data == data && r.pageNumber == pageNumber && r.pageSize == pageSize
    ensures r.totalRecords == totalRecords
    ensures pageSize > 0 ==> (r.totalPages - 1) * pageSize < totalRecords <= r.totalPages * pageSize
    ensures r.hasNextPage <==> pageNumber < r.totalPages
    ensures r.hasPreviousPage <==> pageNumber > 1
    ensures r.succeeded && r.message.None? && r.errors.None?
  {
    var pages := CeilDiv(totalRecords, pageSize);
    PagedResponse(data, pageNumber, pageSize, pages, totalRecords,
      pageNumber < pages, pageNumber > 1, true, None, None)
  }

  /** With a positive page size and a non-negative total: there are no pages exactly
      when there are no records, and there is a next page exactly when records
      remain after this page's records. */
  lemma PageFlags<T>(data: T, pageNumber: int, pageSize: int, totalRecords: int)
    requires pageSize > 0 && totalRecords >= 0
    ensures PageOf(data, pageNumber, pageSize, totalRecords).totalPages >= 0
    ensures PageOf(data, pageNumber, pageSize, totalRecords).totalPages == 0 <==> totalRecords == 0
    ensures PageOf(data, pageNumber, pageSize, totalRecords).hasNextPage <==> pageNumber * pageSize < totalRecords
  {
    var p := PageOf(data, pageNumber, pageSize, totalRecords).totalPages;
    assert (p - 1) * pageSize < totalRecords <= p * pageSize;
    MulOrder(p, 0, pageSize);
    MulOrder(1, p, pageSize);
    MulOrder(pageNumber, p - 1, pageSize);
    MulOrder(p, pageNumber, pageSize);
  }

  /** Multiplying by a positive number keeps the order. */
  lemma MulOrder(a: int, b: int, c: int)
    requires c > 0
    ensures a <= b <==> a * c <= b * c
  {
    if a <= b {
      assert b * c - a * c == (b - a) * c;
    } else {
      assert a * c - b * c == (a - b) * c;
    }
  }

  /** Twenty-five records in pages of ten: three pages; page 3 is the last. */
  lemma PageExample<T>(data: T, pageSize: int, totalRecords: int)
    requires pageSize == 10 && totalRecords == 25
    ensures PageOf(data, 3, pageSize, totalRecords).totalPages == 3
    ensures !PageOf(data, 3, pageSize, totalRecords).hasNextPage
    ensures PageOf(data, 2, pageSize, totalRecords).hasNextPage
    ensures PageOf(data, 2, pageSize, totalRecords).hasPreviousPage
  {
  }
}
