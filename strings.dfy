/** Cancellation of a common prefix or suffix, used to tell texts apart. */
module Strings {
  /** Texts that agree after a common prefix agree. */
  lemma PrefixCancel(p: string, a: string, b: string)
    requires p + a == p + b
    ensures a == b
  {
    assert a == (p + a)[|p|..];
  }

  /** Texts that agree before a common suffix agree. */
  lemma SuffixCancel(a: string, b: string, q: string)
    requires a + q == b + q
    ensures a == b
  {
    assert a == (a + q)[..|a|];
  }
}
