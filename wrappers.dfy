/** The optional value used for the slots of the scoring pool: a slot is
    `None` once its letter of the secret has been credited. */
module Wrappers {
  datatype Option<+T> = None | Some(value: T)
}
