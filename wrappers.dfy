/** The optional value used for the tab's "None until the first sample" fields
    and for parsers that may fail. */
module Wrappers {

  datatype Option<+T> = None | Some(value: T)

}
