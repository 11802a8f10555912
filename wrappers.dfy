/** A nullable value: the model's stand-in for `Date | null`. */
module Wrappers {

  datatype Option<+T> = None | Some(value: T)

}
