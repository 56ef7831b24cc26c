/**
 * Substring containment on strings, shared by the Romanized-Arabic rewriter
 * (Python's `key in word`, which decides whether `str.replace` changes
 * anything) and by the verse search (`LIKE '%term%'`).
 */
module Text {

  /** `sub` occurs in `s` starting at index `i`. */
  predicate OccursAt(s: string, sub: string, i: nat)
  {
    i + |sub| <= |s| && s[i..i + |sub|] == sub
  }

  /**
   * `sub` is a substring of `s`: it is a prefix of `s` or of one of its
   * suffixes. The empty string is a substring of every string.
   */
  predicate Contains(s: string, sub: string)
    decreases |s|
  {
    sub <= s || (s != [] && Contains(s[1..], sub))
  }

  lemma EmptyIsContained(s: string)
    ensures Contains(s, [])
  {
  }

  /** An occurrence at a known index makes the substring contained. */
  lemma {:induction false} ContainsAt(s: string, sub: string, i: nat)
    requires OccursAt(s, sub, i)
    ensures Contains(s, sub)
  {
    if i == 0 {
      assert s[..|sub|] == sub;
    } else {
      assert s[1..][i - 1..i - 1 + |sub|] == s[i..i + |sub|];
      ContainsAt(s[1..], sub, i - 1);
    }
  }

  /** Containment is exactly the existence of an occurrence index. */
  lemma {:induction false} ContainsIff(s: string, sub: string)
    ensures Contains(s, sub) <==> exists i: nat :: OccursAt(s, sub, i)
  {
    if Contains(s, sub) {
      if sub <= s {
        assert OccursAt(s, sub, 0);
      } else {
        ContainsIff(s[1..], sub);
        var i: nat :| OccursAt(s[1..], sub, i);
        assert s[1..][i..i + |sub|] == s[i + 1..i + 1 + |sub|];
        assert OccursAt(s, sub, i + 1);
      }
    }
    if exists i: nat :: OccursAt(s, sub, i) {
      var i: nat :| OccursAt(s, sub, i);
      ContainsAt(s, sub, i);
    }
  }

  /** What a suffix contains, the whole string contains. */
  lemma {:induction false} ContainsInSuffix(s: string, sub: string, j: nat)
    requires j <= |s|
    requires Contains(s[j..], sub)
    ensures Contains(s, sub)
  {
    if j > 0 {
      assert s[1..][j - 1..] == s[j..];
      ContainsInSuffix(s[1..], sub, j - 1);
    }
  }

  /** A non-empty prefix of `[c] + t` is `c` followed by a prefix of `t`. */
  lemma PrefixOfCons(c: char, t: string, p: string)
    requires p != []
    ensures p <= [c] + t <==> p[0] == c && p[1..] <= t
  {
    if p[0] == c && p[1..] <= t {
      assert p == [c] + p[1..];
    }
  }
}
