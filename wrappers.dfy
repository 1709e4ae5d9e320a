/** The conventional optional-value datatype: `None` stands for JavaScript's
    `undefined`/`null`, `Some` for a present value. */
module Wrappers {

  datatype Option<+T> = None | Some(value: T)
}
