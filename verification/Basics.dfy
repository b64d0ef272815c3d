/** Notions shared by several modules. */
module Basics {

  datatype Option<T> = None | Some(value: T)

  predicate NoRepeats<T(==)>(s: seq<T>) {
    forall i, j | 0 <= i < j < |s| :: s[i] != s[j]
  }

  /** No two keys share a value. */
  predicate Injective(m: map<string, string>) {
    forall l, k | l in m && k in m && m[l] == m[k] :: l == k
  }
}
