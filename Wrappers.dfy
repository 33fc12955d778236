/** Optional values, used where the source returns a sentinel (std::string::npos)
    or performs an action only on some iterations. */
module Wrappers {

  datatype Option<+T> = None | Some(value: T)
}
