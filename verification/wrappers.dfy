/** The nullable-reference shape every module of the model shares. */
module Wrappers {

  /** A C# reference that may be null: `None` is null, `Some(v)` refers to `v`. */
  datatype Option<+T> = None | Some(value: T)
}
