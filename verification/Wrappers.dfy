/** The optional value and the choice from a set that other modules share. */
module Wrappers {
  datatype Option<+T> = None | Some(value: T)

  ghost function Choose<T>(s: set<T>): (x: T)
    requires s != {}
    ensures x in s
  {
    var x :| x in s; x
  }
}
