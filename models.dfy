/** The two data-transfer objects of the library: the page request and the page response. */
module Models {
  import opened Wrappers

  const MinInt32: int := -0x8000_0000
  const MaxInt32: int := 0x7FFF_FFFF

  /** A C# `int`. */
  type Int32 = x: int | MinInt32 <= x <= MaxInt32

  /** `PaginatedRequest`: `None` stands for a null string. */
  datatype PaginatedRequest = PaginatedRequest(
    filter: Option<string>,
    orderBy: Option<string>,
    pageNumber: Int32,
    pageSize: Int32)

  /** A request built with the object initialiser's defaults: no filter, no order, page 1 of 10. */
  const DefaultRequest: PaginatedRequest := PaginatedRequest(None, None, 1, 10)

  /** `PaginatedResponse<T>`. */
  datatype PaginatedResponse<T> = PaginatedResponse(
    data: seq<T>,
    totalRecords: Int32,
    totalPages: Int32,
    pageNumber: Int32,
    pageSize: Int32)
}
