/** The result types shared by the other modules. */
module Wrappers {

  datatype Option<+T> = None | Some(value: T)

  /** The error codes that the constraint engine returns. */
  datatype ErrCode = NC_NOERR | NC_EINVAL | NC_EINVALCOORDS | NC_EDDS | NC_EDATADDS | NC_EDAPCONSTRAINT
}
