/** The byte type shared by the search, the UDF wrappers and the patcher. */
module Bytes {
  type byte = bv8
}
