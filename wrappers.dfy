/** The JavaScript value `undefined`, made explicit: `None` is what the source
    reads when it indexes past the end of an array or takes `[0]` of an empty one. */
module Wrappers {

  datatype Option<+T> = None | Some(value: T)
}
