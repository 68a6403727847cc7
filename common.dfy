/** Result wrappers and the string predicates shared by the other modules. */
module Common {

  /** "No result": the helpers return `undefined` on every rejection. */
  datatype Option<T> = None | Some(value: T)

  /** A verification outcome that also says which gate rejected. */
  datatype Result<T, E> = Success(value: T) | Failure(error: E)

  /** Python's `s.startswith(prefix)`. */
  predicate StartsWith(s: string, prefix: string)
  {
    |prefix| <= |s| && s[..|prefix|] == prefix
  }

  /** Python's `s.endswith(suffix)`. */
  predicate EndsWith(s: string, suffix: string)
  {
    |suffix| <= |s| && s[|s| - |suffix|..] == suffix
  }
}
