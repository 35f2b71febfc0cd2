/** The optional-value type that stands for the `std::optional` results of the index. */
module Wrappers {

  /** `std::optional<T>`: either nothing (`std::nullopt`) or a value. */
  datatype Option<+T> = None | Some(value: T)
}
