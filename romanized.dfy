/**
 * Romanized Arabic to Arabic script (`transliterate_to_arabic` in app.py).
 *
 * Nine literal, case-sensitive substring replacements are applied one after
 * the other, in the order of the source's dict; each one is Python's
 * `str.replace`: every non-overlapping occurrence, scanning left to right.
 */
module Romanized {
  import opened Text
  import opened Wrappers

  /** A replacement key. Every key in the source is non-empty. */
  type Key = k: string | k != [] witness "3"

  /** One entry of the replacement table. */
  datatype Rule = Rule(key: Key, value: string)

  /** The table of app.py:51-61, in the dict's insertion order. */
  const Rules: seq<Rule> := [
    Rule("3", "ع"),
    Rule("7", "ح"),
    Rule("2", "ء"),
    Rule("gh", "غ"),
    Rule("dh", "ذ"),
    Rule("S", "ص"),
    Rule("D", "ض"),
    Rule("ee", "ي"),
    Rule("ta", "ة")
  ]

  /**
   * Python's `s.replace(key, value)` for a non-empty key: scanning from the
   * left, an occurrence of `key` is replaced and the scan resumes after it;
   * otherwise one character is copied. A string without `key` comes back
   * unchanged, and a replacement no longer than its key never lengthens it.
   */
  function ReplaceAll(s: string, key: Key, value: string): (r: string)
    ensures !Contains(s, key) ==> r == s
    ensures |value| <= |key| ==> |r| <= |s|
    decreases |s|
  {
    if s == [] then []
    else if key <= s then value + ReplaceAll(s[|key|..], key, value)
    else [s[0]] + ReplaceAll(s[1..], key, value)
  }

  /**
   * Up to the first character of `value` that it emits, a replacement
   * result is a copy of its input: nothing was replaced yet.
   */
  lemma {:induction false} ReplaceKeepsPrefix(s: string, key: Key, value: string, m: nat)
    requires value != []
    requires m <= |ReplaceAll(s, key, value)|
    ensures (forall i :: 0 <= i < m ==> ReplaceAll(s, key, value)[i] != value[0]) ==>
              m <= |s| && ReplaceAll(s, key, value)[..m] == s[..m]
    decreases |s|
  {
    if s != [] && m > 0 {
      var r := ReplaceAll(s, key, value);
      if key <= s {
        assert r[0] == value[0];
      } else {
        var r' := ReplaceAll(s[1..], key, value);
        ReplaceKeepsPrefix(s[1..], key, value, m - 1);
        assert r == [s[0]] + r';
        assert forall i :: 0 <= i < m - 1 ==> r'[i] == r[i + 1];
        if forall i :: 0 <= i < m ==> r[i] != value[0] {
          assert r[..m] == [s[0]] + r'[..m - 1];
        }
      }
    }
  }

  /** A prefix of the result free of `value[0]` was already a prefix of the input. */
  lemma PrefixSurvives(s: string, key: Key, value: string, p: string)
    requires value != []
    requires forall i :: 0 <= i < |p| ==> p[i] != value[0]
    ensures p <= ReplaceAll(s, key, value) ==> p <= s
  {
    var r := ReplaceAll(s, key, value);
    if p <= r {
      ReplaceKeepsPrefix(s, key, value, |p|);
      assert r[..|p|] == p;
    }
  }

  /**
   * Replacing `key` by a single character that does not occur in `key`
   * leaves no occurrence of `key` behind.
   */
  lemma {:induction false} ReplaceAllRemovesKey(s: string, key: Key, value: string)
    requires |value| == 1 && value[0] !in key
    ensures !Contains(ReplaceAll(s, key, value), key)
    decreases |s|
  {
    if s != [] {
      var r := ReplaceAll(s, key, value);
      if key <= s {
        var t := s[|key|..];
        ReplaceAllRemovesKey(t, key, value);
        assert r == [value[0]] + ReplaceAll(t, key, value);
        PrefixOfCons(value[0], ReplaceAll(t, key, value), key);
      } else {
        var r' := ReplaceAll(s[1..], key, value);
        ReplaceAllRemovesKey(s[1..], key, value);
        assert r == [s[0]] + r';
        PrefixOfCons(s[0], r', key);
        PrefixOfCons(s[0], s[1..], key);
        assert [s[0]] + s[1..] == s;
        PrefixSurvives(s[1..], key, value, key[1..]);
      }
    }
  }

  /**
   * Replacing `key` by a single character that does not occur in `other`
   * creates no occurrence of `other` that the input did not have.
   */
  lemma {:induction false} ReplaceAllKeepsAbsent(s: string, key: Key, value: string, other: Key)
    requires |value| == 1 && value[0] !in other
    requires !Contains(s, other)
    ensures !Contains(ReplaceAll(s, key, value), other)
    decreases |s|
  {
    if s != [] {
      var r := ReplaceAll(s, key, value);
      if key <= s {
        var t := s[|key|..];
        if Contains(t, other) {
          ContainsInSuffix(s, other, |key|);
        }
        ReplaceAllKeepsAbsent(t, key, value, other);
        assert r == [value[0]] + ReplaceAll(t, key, value);
        PrefixOfCons(value[0], ReplaceAll(t, key, value), other);
      } else {
        var r' := ReplaceAll(s[1..], key, value);
        ReplaceAllKeepsAbsent(s[1..], key, value, other);
        assert r == [s[0]] + r';
        PrefixOfCons(s[0], r', other);
        PrefixOfCons(s[0], s[1..], other);
        assert [s[0]] + s[1..] == s;
        PrefixSurvives(s[1..], key, value, other[1..]);
      }
    }
  }

  /**
   * The table applied pass by pass, in order. Defined from the end so that
   * it follows the source's loop, which reassigns `word` once per entry.
   * A string containing none of the keys comes back unchanged; replacements
   * no longer than their keys never lengthen it.
   */
  function ApplyRules(s: string, rules: seq<Rule>): (r: string)
    ensures (forall i :: 0 <= i < |rules| ==> !Contains(s, rules[i].key)) ==> r == s
    ensures (forall i :: 0 <= i < |rules| ==> |rules[i].value| <= |rules[i].key|) ==> |r| <= |s|
    decreases |rules|
  {
    if rules == [] then s
    else
      var last := rules[|rules| - 1];
      ReplaceAll(ApplyRules(s, rules[..|rules| - 1]), last.key, last.value)
  }

  /** Every replacement is one character that occurs in no key of the table. */
  predicate ValuesAreFresh(rules: seq<Rule>)
  {
    forall i, j :: 0 <= i < |rules| && 0 <= j < |rules| ==>
      |rules[i].value| == 1 && rules[i].value[0] !in rules[j].key
  }

  lemma RulesAreFresh()
    ensures ValuesAreFresh(Rules)
  {
  }

  /**
   * With fresh single-character replacements, no key of the table occurs in
   * the result: each pass removes its own key and later passes do not bring
   * an earlier key back.
   */
  lemma {:induction false} ApplyRulesRemovesKeys(s: string, rules: seq<Rule>)
    requires ValuesAreFresh(rules)
    ensures forall i :: 0 <= i < |rules| ==> !Contains(ApplyRules(s, rules), rules[i].key)
    decreases |rules|
  {
    if rules != [] {
      var n := |rules|;
      var init, last := rules[..n - 1], rules[n - 1];
      assert forall i :: 0 <= i < n - 1 ==> init[i] == rules[i];
      ApplyRulesRemovesKeys(s, init);
      var a := ApplyRules(s, init);
      ReplaceAllRemovesKey(a, last.key, last.value);
      forall i | 0 <= i < n - 1
        ensures !Contains(ApplyRules(s, rules), rules[i].key)
      {
        ReplaceAllKeepsAbsent(a, last.key, last.value, init[i].key);
      }
    }
  }

  /**
   * `transliterate_to_arabic(word)`: the whole table applied to `word`. The
   * result contains none of the nine keys and is never longer than `word`.
   */
  function RomanizedToArabic(word: string): (arabic: string)
    ensures forall i :: 0 <= i < |Rules| ==> !Contains(arabic, Rules[i].key)
    ensures |arabic| <= |word|
  {
    RulesAreFresh();
    ApplyRulesRemovesKeys(word, Rules);
    ApplyRules(word, Rules)
  }

  /** The loop of app.py:62-64, one `word.replace(key, value)` per table entry. */
  method TransliterateToArabic(word: string) returns (result: string)
    ensures result == RomanizedToArabic(word)
  {
    result := word;
    for i := 0 to |Rules|
      invariant result == ApplyRules(word, Rules[..i])
    {
      assert Rules[..i + 1][..i] == Rules[..i];
      result := ReplaceAll(result, Rules[i].key, Rules[i].value);
    }
    assert Rules[..|Rules|] == Rules;
  }

  /** Input containing none of the nine keys is returned unchanged. */
  lemma RomanizedUnchanged(word: string)
    requires forall i :: 0 <= i < |Rules| ==> !Contains(word, Rules[i].key)
    ensures RomanizedToArabic(word) == word
  {
  }

  /*
   * A single-pass reading of the same table: scan from the left and, at
   * each position, either emit the value of the key that starts there or
   * copy one character. The nine passes agree with it because every value
   * is a fresh character and no key's first character occurs in another key.
   */

  /** No key's first character occurs in any other key. */
  predicate KeysAreSeparated(rules: seq<Rule>)
  {
    forall i, j :: 0 <= i < |rules| && 0 <= j < |rules| && i != j ==> rules[i].key[0] !in rules[j].key
  }

  lemma RulesAreSeparated()
    ensures KeysAreSeparated(Rules)
  {
    forall i, j | 0 <= i < |Rules| && 0 <= j < |Rules| && i != j
      ensures Rules[i].key[0] !in Rules[j].key
    {
      var c := Rules[i].key[0];
      assert c == "372gdSDet"[i];
      assert c !in Rules[j].key;
    }
  }

  /** The index of the first rule whose key starts `s`, if any. */
  function MatchingRule(s: string, rules: seq<Rule>): (r: Option<nat>)
    ensures r.Some? ==> r.value < |rules| && rules[r.value].key <= s
    ensures r.Some? ==> forall j :: 0 <= j < r.value ==> !(rules[j].key <= s)
    ensures r.None? ==> forall j :: 0 <= j < |rules| ==> !(rules[j].key <= s)
    decreases |rules|
  {
    if rules == [] then None
    else if rules[0].key <= s then Some(0)
    else match MatchingRule(s, rules[1..])
      case None => None
      case Some(j) => Some(j + 1)
  }

  /** One left-to-right scan that replaces each key where it starts. */
  function SinglePass(s: string, rules: seq<Rule>): (r: string)
    decreases |s|
  {
    if s == [] then []
    else match MatchingRule(s, rules)
      case Some(j) => rules[j].value + SinglePass(s[|rules[j].key|..], rules)
      case None => [s[0]] + SinglePass(s[1..], rules)
  }

  /** A prefix that carries no replacement character was already a prefix of the input. */
  lemma {:induction false} FoldPrefixSurvives(t: string, rules: seq<Rule>, p: string)
    requires forall i :: 0 <= i < |rules| ==> rules[i].value != [] && rules[i].value[0] !in p
    ensures p <= ApplyRules(t, rules) ==> p <= t
    decreases |rules|
  {
    if rules != [] {
      var n := |rules|;
      var init, last := rules[..n - 1], rules[n - 1];
      assert forall i :: 0 <= i < n - 1 ==> init[i] == rules[i];
      FoldPrefixSurvives(t, init, p);
      PrefixSurvives(ApplyRules(t, init), last.key, last.value, p);
    }
  }

  /** Replacing in `p + a` skips `p` when no character of `p` can start `key`. */
  lemma {:induction false} ReplaceSkips(p: string, a: string, key: Key, value: string)
    requires key[0] !in p
    ensures ReplaceAll(p + a, key, value) == p + ReplaceAll(a, key, value)
    decreases |p|
  {
    if p != [] {
      assert (p + a)[0] == p[0] != key[0];
      assert !(key <= p + a);
      assert (p + a)[1..] == p[1..] + a;
      ReplaceSkips(p[1..], a, key, value);
      calc {
        ReplaceAll(p + a, key, value);
        [p[0]] + ReplaceAll(p[1..] + a, key, value);
        [p[0]] + (p[1..] + ReplaceAll(a, key, value));
        { assert p == [p[0]] + p[1..]; }
        p + ReplaceAll(a, key, value);
      }
    } else {
      assert p + a == a;
    }
  }

  /**
   * The first `n` passes over a string that starts with key `j` leave that
   * key in place until pass `j`, which turns it into its value; every pass
   * works on the rest independently.
   */
  lemma {:induction false} FoldOverKey(rules: seq<Rule>, j: nat, t: string, n: nat)
    requires ValuesAreFresh(rules) && KeysAreSeparated(rules)
    requires j < |rules| && n <= |rules|
    ensures ApplyRules(rules[j].key + t, rules[..n]) ==
              (if n <= j then rules[j].key else rules[j].value) + ApplyRules(t, rules[..n])
  {
    if n > 0 {
      var k: string, v: string := rules[j].key, rules[j].value;
      var last := rules[n - 1];
      FoldOverKey(rules, j, t, n - 1);
      ApplyRulesStep(rules[j].key + t, rules, n);
      ApplyRulesStep(t, rules, n);
      var a: string := ApplyRules(t, rules[..n - 1]);
      if n - 1 < j {
        assert last.key[0] !in k;
        ReplaceSkips(k, a, last.key, last.value);
      } else if n - 1 == j {
        assert (k + a)[|k|..] == a;
      } else {
        assert |v| == 1 && v[0] !in last.key;
        ReplaceSkips(v, a, last.key, last.value);
      }
    }
  }

  /** Pass `n` works on the result of the first `n - 1` passes. */
  lemma ApplyRulesStep(s: string, rules: seq<Rule>, n: nat)
    requires 0 < n <= |rules|
    ensures ApplyRules(s, rules[..n]) ==
              ReplaceAll(ApplyRules(s, rules[..n - 1]), rules[n - 1].key, rules[n - 1].value)
  {
    assert rules[..n][..n - 1] == rules[..n - 1];
  }

  /** The first `n` passes copy a leading character at which no key starts. */
  lemma {:induction false} FoldOverChar(rules: seq<Rule>, c: char, t: string, n: nat)
    requires ValuesAreFresh(rules)
    requires n <= |rules|
    requires forall i :: 0 <= i < |rules| ==> !(rules[i].key <= [c] + t)
    ensures ApplyRules([c] + t, rules[..n]) == [c] + ApplyRules(t, rules[..n])
  {
    if n > 0 {
      FoldOverChar(rules, c, t, n - 1);
      assert rules[..n][..n - 1] == rules[..n - 1];
      var init := rules[..n - 1];
      var a := ApplyRules(t, init);
      var k := rules[n - 1].key;
      assert forall i :: 0 <= i < n - 1 ==> init[i] == rules[i];
      assert forall i :: 0 <= i < n - 1 ==> rules[i].value[0] !in k[1..];
      FoldPrefixSurvives(t, init, k[1..]);
      PrefixOfCons(c, t, k);
      PrefixOfCons(c, a, k);
      assert ([c] + a)[1..] == a;
    }
  }

  /** The nine passes and the single scan compute the same string. */
  lemma {:induction false} FoldIsSinglePass(s: string, rules: seq<Rule>)
    requires ValuesAreFresh(rules) && KeysAreSeparated(rules)
    ensures ApplyRules(s, rules) == SinglePass(s, rules)
    decreases |s|
  {
    assert rules[..|rules|] == rules;
    if s == [] {
      assert forall i :: 0 <= i < |rules| ==> !Contains(s, rules[i].key);
    } else {
      match MatchingRule(s, rules)
      case Some(j) =>
        var k := rules[j].key;
        var t := s[|k|..];
        assert s == k + t;
        FoldOverKey(rules, j, t, |rules|);
        FoldIsSinglePass(t, rules);
      case None =>
        assert s == [s[0]] + s[1..];
        FoldOverChar(rules, s[0], s[1..], |rules|);
        FoldIsSinglePass(s[1..], rules);
    }
  }

  /** transliterate_to_arabic is a single left-to-right scan over the table. */
  lemma RomanizedIsSinglePass(word: string)
    ensures RomanizedToArabic(word) == SinglePass(word, Rules)
  {
    RulesAreFresh();
    RulesAreSeparated();
    FoldIsSinglePass(word, Rules);
  }

  /** Under separated keys, at most one key starts a string, so it is the match. */
  lemma MatchIsUnique(s: string, rules: seq<Rule>, j: nat)
    requires KeysAreSeparated(rules)
    requires j < |rules| && rules[j].key <= s
    ensures MatchingRule(s, rules) == Some(j)
  {
    var r := MatchingRule(s, rules);
    assert r.Some?;
    assert rules[j].key[0] in rules[j].key;
    assert rules[r.value].key[0] == s[0] == rules[j].key[0];
  }

  /** A scan step at a position where key `j` starts. */
  lemma SinglePassAtKey(s: string, rules: seq<Rule>, j: nat)
    requires KeysAreSeparated(rules)
    requires j < |rules| && rules[j].key <= s
    ensures SinglePass(s, rules) == rules[j].value + SinglePass(s[|rules[j].key|..], rules)
  {
    MatchIsUnique(s, rules, j);
  }

  /** A scan step at a position where no key starts. */
  lemma SinglePassAtChar(s: string, rules: seq<Rule>)
    requires s != []
    requires forall j :: 0 <= j < |rules| ==> !(rules[j].key <= s)
    ensures SinglePass(s, rules) == [s[0]] + SinglePass(s[1..], rules)
  {
    var r := MatchingRule(s, rules);
    assert r.None?;
  }

  /** Where no key starts at any position, the scan copies its input. */
  lemma {:induction false} SinglePassCopies(s: string, rules: seq<Rule>)
    requires forall i, j :: 0 <= i < |s| && 0 <= j < |rules| ==> !(rules[j].key <= s[i..])
    ensures SinglePass(s, rules) == s
    decreases |s|
  {
    if s != [] {
      assert s[0..] == s;
      SinglePassAtChar(s, rules);
      assert forall i :: 0 <= i < |s| - 1 ==> s[1..][i..] == s[i + 1..];
      SinglePassCopies(s[1..], rules);
    }
  }
}
