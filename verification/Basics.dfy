/** What every part of the model shares. */
module Basics {

  datatype Option<+T> = None | Some(value: T)

  /** The values of a list that may hold empty entries. */
  function Present<T>(s: seq<Option<T>>): seq<T> {
    if s == [] then [] else Present(s[..|s| - 1]) + (if s[|s| - 1].Some? then [s[|s| - 1].value] else [])
  }

  lemma {:induction false} SubsetSize<T>(a: set<T>, b: set<T>)
    requires a <= b
    ensures |a| <= |b|
  {
    assert b == a + (b - a);
  }
}
