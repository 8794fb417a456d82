/** Optional values, used for Python results that may be absent or raise. */
module Wrappers {

  datatype Option<+T> = None | Some(value: T)

  /** No element occurs twice in s. */
  ghost predicate Distinct<T>(s: seq<T>) {
    forall i, j :: 0 <= i < j < |s| ==> s[i] != s[j]
  }

  /** s is a prefix of t. */
  ghost predicate IsPrefix<T>(s: seq<T>, t: seq<T>) {
    |s| <= |t| && t[..|s|] == s
  }
}
