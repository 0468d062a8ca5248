/** Kotlin's nullable values (`String?`, `Timer?`) as an explicit option. */
module Wrappers {

  datatype Option<+T> = None | Some(value: T)

}
