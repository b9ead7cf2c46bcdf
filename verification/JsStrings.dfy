/**
 * The string prefix and suffix tests used to state what `join` writes at
 * the ends of its text, with the facts about concatenation that prove them.
 */
module JsStrings {

  /** `s.startsWith(prefix)`. */
  predicate StartsWith(s: string, prefix: string) {
    |prefix| <= |s| && s[..|prefix|] == prefix
  }

  /** `s.endsWith(suffix)`. */
  predicate EndsWith(s: string, suffix: string) {
    |suffix| <= |s| && s[|s| - |suffix|..] == suffix
  }

  lemma PrefixOfConcat(x: string, y: string)
    ensures StartsWith(x + y, x)
  {
    assert (x + y)[..|x|] == x;
  }

  lemma SuffixOfConcat(x: string, y: string)
    ensures EndsWith(x + y, y)
  {
    assert (x + y)[|x + y| - |y|..] == y;
  }

  lemma EndsWithTrans(s: string, t: string, u: string)
    requires EndsWith(s, t) && EndsWith(t, u)
    ensures EndsWith(s, u)
  {
    assert s[|s| - |u|..] == s[|s| - |t|..][|t| - |u|..];
  }

  lemma StartsWithShorter(s: string, x: string, y: string)
    requires StartsWith(s, x + y)
    ensures StartsWith(s, x)
  {
    assert s[..|x|] == (x + y)[..|x|];
  }
}
