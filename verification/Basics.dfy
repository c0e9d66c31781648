/** What several of the modules need. */
module Basics {
  datatype Option<T> = None | Some(value: T)

  /** Some element of a set, as an iterator over an associative container gives it. */
  method Any<T>(s: set<T>) returns (x: T)
    requires s != {}
    ensures x in s
  {
    x :| x in s;
  }
}
