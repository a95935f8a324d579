// Results shared by several modules.
module Wrappers {

  datatype Option<T> = None | Some(value: T)

  // 0, -ENOENT and -EINVAL.
  datatype Status = Success | NoEntry | Invalid
}
