/** Prefix and suffix tests on strings. */
module Strings {

  /** `t.startsWith(p)` */
  predicate StartsWith(t: string, p: string) {
    |p| <= |t| && t[..|p|] == p
  }

  /** `t.endsWith(p)` */
  predicate EndsWith(t: string, p: string) {
    |p| <= |t| && t[|t| - |p|..] == p
  }
}
