/** The front of a text, as the parsers test it. */
module Prefixes {
  predicate StartsWith(s: string, p: string) {
    |p| <= |s| && s[..|p|] == p
  }
}
