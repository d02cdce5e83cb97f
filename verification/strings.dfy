/** The JavaScript string test the review form relies on:
    `s.includes(sub)` is true when `sub` occurs in `s` at some position. */
module Strings {

  /** `p` is a prefix of `s`. */
  predicate StartsWith(s: string, p: string) {
    |p| <= |s| && s[..|p|] == p
  }

  /** `String.prototype.includes`: `sub` occurs at some position of `s`
      (the empty string occurs in every string). */
  predicate Includes(s: string, sub: string)
    decreases |s|
  {
    StartsWith(s, sub) || (|s| > 0 && Includes(s[1..], sub))
  }

  /** `sub` occurs in `s` starting at index `k`. */
  predicate At(s: string, sub: string, k: int) {
    0 <= k && k + |sub| <= |s| && s[k..k + |sub|] == sub
  }

  /** The recursive definition of `Includes` agrees with the usual meaning:
      `sub` occurs at some index of `s`. */
  lemma {:induction false} IncludesAt(s: string, sub: string)
    ensures Includes(s, sub) <==> exists k :: At(s, sub, k)
    decreases |s|
  {
    if StartsWith(s, sub) {
      assert At(s, sub, 0);
    } else if |s| > 0 {
      IncludesAt(s[1..], sub);
      if exists k :: At(s[1..], sub, k) {
        var k :| At(s[1..], sub, k);
        assert s[1..][k..k + |sub|] == s[k + 1..k + 1 + |sub|];
        assert At(s, sub, k + 1);
      }
      if exists k :: At(s, sub, k) {
        var k :| At(s, sub, k);
        // k is not 0, since `sub` is not a prefix of `s`
        assert s[1..][k - 1..k - 1 + |sub|] == s[k..k + |sub|];
        assert At(s[1..], sub, k - 1);
      }
    }
  }

  /** A string includes each of its prefixes, in particular itself. */
  lemma PrefixIncluded(p: string, rest: string)
    ensures Includes(p + rest, p)
  {
    assert (p + rest)[..|p|] == p;
  }

  /** Every character of an included string is a character of the string
      that includes it; used to show that a message does not mention a label. */
  lemma {:induction false} IncludedCharsOccur(s: string, sub: string, c: char)
    requires Includes(s, sub)
    requires c in sub
    ensures c in s
    decreases |s|
  {
    if StartsWith(s, sub) {
      var k :| 0 <= k < |sub| && sub[k] == c;
      assert s[k] == c;
    } else {
      IncludedCharsOccur(s[1..], sub, c);
      var k :| 0 <= k < |s[1..]| && s[1..][k] == c;
      assert s[k + 1] == c;
    }
  }

  /** Contrapositive form: a character of `sub` missing from `s` shows that
      `s` does not include `sub`. */
  lemma NotIncluded(s: string, sub: string, c: char)
    requires c in sub && c !in s
    ensures !Includes(s, sub)
  {
    if Includes(s, sub) {
      IncludedCharsOccur(s, sub, c);
    }
  }
}
