/** The optional value used throughout the model: a Python value that may be
    missing (a crash, an unbound variable, or the `[]` placeholder that stands
    where a frozenset of targets is expected). */
module Wrappers {

  datatype Option<+T> = None | Some(value: T)
}
