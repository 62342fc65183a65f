/** Optional values, used for an absent DOM attribute or storage entry and for
    a draw whose supplied random stream ran out before the loop finished. */
module Wrappers {

  datatype Option<+T> = None | Some(value: T)
}
