/** The optional-value type shared by the memalloc model: a frame the page
    allocator may fail to hand out, a request the user copy may fail to
    deliver, a fault a page may or may not raise. */
module Wrappers {

  datatype Option<+T> = None | Some(value: T)
}
