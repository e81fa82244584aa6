/** The optional value used for the planner's missing results and failed lookups. */
module Wrappers {
  datatype Option<+T> = None | Some(value: T)
}
