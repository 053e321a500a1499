/** The source's `null`-or-value results (a JavaScript `null`, an array
    element that may be missing) as an option type. */
module Wrappers {

  datatype Option<+T> = None | Some(value: T)
}
