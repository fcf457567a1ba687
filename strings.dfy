/** Prefix and suffix tests on text, shared by the two file browsers. */
module Strings {

  /** `str::starts_with`. */
  predicate StartsWith(s: string, p: string) {
    |p| <= |s| && s[..|p|] == p
  }

  /** `str::ends_with`. */
  predicate EndsWith(s: string, p: string) {
    |p| <= |s| && s[|s| - |p|..] == p
  }
}
