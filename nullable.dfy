/** Java references that may be `null` (configuration values, headers, subjects). */
module Nullable {

  /** `None` stands for a Java `null`. */
  datatype Option<+T> = None | Some(value: T)
}
