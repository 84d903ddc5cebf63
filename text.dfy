/**
 * Strings as the merge engine sees them. `String.prototype.toLowerCase` is
 * modelled on ASCII letters only; every other character is left as it is.
 */
module Text {

  /** True when `s` holds no upper-case ASCII letter. */
  predicate IsLower(s: string)
  {
    forall i :: 0 <= i < |s| ==> !('A' <= s[i] <= 'Z')
  }

  function LowerChar(c: char): char
  {
    if 'A' <= c <= 'Z' then (c as int + 32) as char else c
  }

  /** `s.toLowerCase()`, for ASCII letters. */
  function Lower(s: string): string
  {
    seq(|s|, i requires 0 <= i < |s| => LowerChar(s[i]))
  }

  /**
   * A lowered string has no upper-case ASCII letter and the same length,
   * and lowering leaves a lower-case string as it is (so it is idempotent).
   */
  lemma LowerIsLower(s: string)
    ensures |Lower(s)| == |s|
    ensures IsLower(Lower(s))
    ensures IsLower(s) ==> Lower(s) == s
    ensures Lower(Lower(s)) == Lower(s)
  {
  }

  /** `xs.map(x => x.toLowerCase())`. */
  function LowerAll(xs: seq<string>): seq<string>
  {
    seq(|xs|, i requires 0 <= i < |xs| => Lower(xs[i]))
  }
}
