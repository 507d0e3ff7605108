/** Optional values: Kotlin's nullable types (`String?`, `ByteArray?`, `Account?`). */
module Wrappers {

  datatype Option<+T> = None | Some(value: T)
}
