/** Substring search, the one string operation the lookup classifier relies on. */
module Text {

  /** `prefix` is an initial segment of `s`. */
  predicate StartsWith(s: string, prefix: string) {
    |prefix| <= |s| && s[..|prefix|] == prefix
  }

  /** `sub` occurs in `s` starting at position `i`. */
  predicate OccursAt(s: string, sub: string, i: nat) {
    i <= |s| && StartsWith(s[i..], sub)
  }

  /** Substring test with the meaning of Go's strings.Contains: true exactly when
      `sub` occurs somewhere in `s` (so the empty string is contained in every string). */
  function Contains(s: string, sub: string): (b: bool)
    ensures b <==> exists i: nat :: OccursAt(s, sub, i)
    decreases |s|
  {
    if StartsWith(s, sub) then
      assert OccursAt(s, sub, 0);
      true
    else if s == [] then
      false
    else
      var b := Contains(s[1..], sub);
      if b then
        var i: nat :| OccursAt(s[1..], sub, i);
        assert s[1..][i..] == s[i + 1..];
        assert OccursAt(s, sub, i + 1);
        true
      else
        forall j: nat | 0 < j <= |s|
          ensures OccursAt(s, sub, j) == OccursAt(s[1..], sub, j - 1)
        {
          assert s[1..][j - 1..] == s[j..];
        }
        false
  }

  /** Whatever surrounds it, a string built around `sub` contains `sub`. */
  lemma ContainsInfix(pre: string, sub: string, post: string)
    ensures Contains(pre + sub + post, sub)
  {
    var s := pre + sub + post;
    assert s[|pre|..][..|sub|] == sub;
    assert OccursAt(s, sub, |pre|);
  }
}
