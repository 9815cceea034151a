/** Optional values, used where the application stores NULL or returns None. */
module Common {

  datatype Option<+T> = None | Some(value: T)

  /** True when `s` ends with `suffix`. */
  predicate EndsWith(s: string, suffix: string)
  {
    |suffix| <= |s| && s[|s| - |suffix|..] == suffix
  }
}
