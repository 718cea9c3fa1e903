/** Substring tests on paths, the `x in fn` of the scoring and exclusion rules. */
module Text {

  /** `sub` occurs in `s` starting at position `i`. */
  predicate OccursAt(s: string, sub: string, i: nat) {
    i + |sub| <= |s| && s[i..i + |sub|] == sub
  }

  /** `sub` occurs somewhere in `s` (an empty `sub` occurs everywhere), scanning from the left. */
  predicate Contains(s: string, sub: string)
    decreases |s|
  {
    |sub| <= |s| && (s[..|sub|] == sub || (|s| > 0 && Contains(s[1..], sub)))
  }

  /** Some pattern of `pats` occurs in `s`: Python's `any(x in s for x in pats)`. */
  predicate ContainsAny(s: string, pats: seq<string>) {
    |pats| > 0 && (Contains(s, pats[0]) || ContainsAny(s, pats[1..]))
  }

  /** `ContainsAny` holds exactly when one of the patterns occurs. */
  lemma {:induction false} ContainsAnyIff(s: string, pats: seq<string>)
    ensures ContainsAny(s, pats) <==> exists k | 0 <= k < |pats| :: Contains(s, pats[k])
  {
    if |pats| > 0 {
      ContainsAnyIff(s, pats[1..]);
      if exists k | 0 <= k < |pats| :: Contains(s, pats[k]) {
        var k :| 0 <= k < |pats| && Contains(s, pats[k]);
        if k > 0 {
          assert pats[1..][k - 1] == pats[k];
        }
      }
    }
  }

  /** The scan finds `sub` exactly when it occurs at some position. */
  lemma {:induction false} ContainsIff(s: string, sub: string)
    ensures Contains(s, sub) <==> exists i: nat :: OccursAt(s, sub, i)
    decreases |s|
  {
    if Contains(s, sub) {
      if s[..|sub|] == sub {
        assert OccursAt(s, sub, 0);
      } else {
        ContainsIff(s[1..], sub);
        var i: nat :| OccursAt(s[1..], sub, i);
        assert s[i + 1..i + 1 + |sub|] == s[1..][i..i + |sub|];
        assert OccursAt(s, sub, i + 1);
      }
    }
    if exists i: nat :: OccursAt(s, sub, i) {
      var i: nat :| OccursAt(s, sub, i);
      if i > 0 {
        assert s[1..][i - 1..i - 1 + |sub|] == s[i..i + |sub|];
        assert OccursAt(s[1..], sub, i - 1);
        ContainsIff(s[1..], sub);
      }
    }
  }

  /** A witness position is enough to show that `sub` occurs in `s`. */
  lemma ContainsAt(s: string, sub: string, i: nat)
    requires OccursAt(s, sub, i)
    ensures Contains(s, sub)
  {
    ContainsIff(s, sub);
  }
}
