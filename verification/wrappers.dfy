/** The optional value used for the classifier's nullable refs and for "no event". */
module Wrappers {

  datatype Option<+T> = None | Some(value: T)
}
