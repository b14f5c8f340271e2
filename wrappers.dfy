/** Optional values: the model's replacement for Java's nullable references. */
module Wrappers {

  /** `None` stands where the Java code holds `null`. */
  datatype Option<+T> = None | Some(value: T)
}
