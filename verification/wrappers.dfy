/** The optional-value datatype shared by the validator and the catalog. */
module Wrappers {

  /** A value that may be absent: a nullable column, a missing form part. */
  datatype Option<+T> = None | Some(value: T)
}
