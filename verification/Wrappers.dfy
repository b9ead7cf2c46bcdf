/** An optional value: the navigation state and the food section may be absent. */
module Wrappers {

  datatype Option<+T> = None | Some(value: T)
}
