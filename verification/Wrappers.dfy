module Wrappers {
  datatype Option<+T> = None | Some(value: T) {
    predicate IsFailure() { None? }
    function PropagateFailure<U>(): Option<U> requires None? { None }
    function GetOr(default: T): T { if None? then default else value }
    function Extract(): T requires Some? { value }
  }
}
