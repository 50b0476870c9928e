/** Page requests, as all paginated queries take them. */
module Pagination {
  import opened Words

  datatype PageRequest = PageRequest(key: ByteString, offset: Uint64, limit: Uint64, countTotal: bool)
}
