/**
 * Concrete inputs run through transliterate_to_arabic, evaluated through
 * the single-scan reading of the table (Romanized.RomanizedIsSinglePass).
 */
module RomanizedExamples {
  import opened Text
  import opened Romanized

  lemma PrefixHead(p: string, s: string)
    ensures p <= s ==> |p| <= |s| && (p != [] ==> p[0] == s[0]) && (|p| > 1 ==> p[1] == s[1])
  {
  }

  /**
   * No key of the table starts at index `i`: the character there is no
   * one-character key, and it does not begin a two-character key.
   */
  predicate StartsNoKey(s: string, i: nat)
    requires i < |s|
  {
    && s[i] !in "372SD"
    && (i + 1 < |s| ==> (s[i], s[i + 1]) !in {('g', 'h'), ('d', 'h'), ('e', 'e'), ('t', 'a')})
  }

  lemma NoKeyAt(s: string)
    requires s != [] && StartsNoKey(s, 0)
    ensures forall j :: 0 <= j < |Rules| ==> !(Rules[j].key <= s)
  {
    forall j | 0 <= j < |Rules| ensures !(Rules[j].key <= s) {
      PrefixHead(Rules[j].key, s);
    }
  }

  lemma NoKeyAnywhere(s: string)
    requires forall i :: 0 <= i < |s| ==> StartsNoKey(s, i)
    ensures forall i, j :: 0 <= i < |s| && 0 <= j < |Rules| ==> !(Rules[j].key <= s[i..])
  {
    forall i | 0 <= i < |s| ensures forall j :: 0 <= j < |Rules| ==> !(Rules[j].key <= s[i..]) {
      assert StartsNoKey(s[i..], 0) == StartsNoKey(s, i);
      NoKeyAt(s[i..]);
    }
  }

  /** A string at none of whose positions a key starts is scanned unchanged. */
  lemma CopyRun(s: string)
    requires forall i :: 0 <= i < |s| ==> StartsNoKey(s, i)
    ensures SinglePass(s, Rules) == s
  {
    NoKeyAnywhere(s);
    SinglePassCopies(s, Rules);
  }

  /** The scan step at a position where table entry `j` starts. */
  lemma KeyStep(s: string, j: nat)
    requires j < |Rules| && Rules[j].key <= s
    ensures SinglePass(s, Rules) == Rules[j].value + SinglePass(s[|Rules[j].key|..], Rules)
  {
    RulesAreSeparated();
    SinglePassAtKey(s, Rules, j);
  }

  /** `3` stands for ain. */
  lemma DigitThree()
    ensures RomanizedToArabic("3") == "ع"
  {
    KeyStep("3", 0);
    assert "3"[1..] == [];
    RomanizedIsSinglePass("3");
  }

  lemma IlmScan()
    ensures SinglePass("ilm", Rules) == "ilm"
  {
    CopyRun("ilm");
  }

  lemma ThreeIlmStep()
    ensures SinglePass("3ilm", Rules) == "ع" + SinglePass("ilm", Rules)
  {
    KeyStep("3ilm", 0);
    assert "3ilm"[1..] == "ilm";
  }

  lemma ThreeIlmScan()
    ensures SinglePass("3ilm", Rules) == "عilm"
  {
    ThreeIlmStep();
    IlmScan();
  }

  /** A key inside a word is replaced and the rest is kept. */
  lemma DigitThreeInWord()
    ensures RomanizedToArabic("3ilm") == "عilm"
  {
    ThreeIlmScan();
    RomanizedIsSinglePass("3ilm");
  }

  /** Text with no key is returned unchanged. */
  lemma Hello()
    ensures RomanizedToArabic("hello") == "hello"
  {
    CopyRun("hello");
    RomanizedIsSinglePass("hello");
  }

  /** The keys are case-sensitive: lower-case `s` and `d` stay ... */
  lemma LowerCaseKept()
    ensures RomanizedToArabic("sd") == "sd"
  {
    CopyRun("sd");
    RomanizedIsSinglePass("sd");
  }

  lemma DScan()
    ensures SinglePass("D", Rules) == "ض"
  {
    assert Rules[6].key == "D" && "D"[..1] == "D";
    KeyStep("D", 6);
    assert "D"[1..] == [];
  }

  lemma SDStep()
    ensures SinglePass("SD", Rules) == "ص" + SinglePass("D", Rules)
  {
    assert Rules[5].key == "S" && "SD"[..1] == "S";
    KeyStep("SD", 5);
    assert "SD"[1..] == "D";
  }

  /** ... while upper-case `S` and `D` are rewritten. */
  lemma UpperCaseRewritten()
    ensures RomanizedToArabic("SD") == "صض"
  {
    SDStep();
    DScan();
    RomanizedIsSinglePass("SD");
  }

  lemma EeeStep()
    ensures SinglePass("eee", Rules) == "ي" + SinglePass("e", Rules)
  {
    assert Rules[7].key == "ee" && "eee"[..2] == "ee";
    KeyStep("eee", 7);
    assert "eee"[2..] == "e";
  }

  lemma EScan()
    ensures SinglePass("e", Rules) == "e"
  {
    CopyRun("e");
  }

  /** Occurrences are taken from the left and do not overlap: `eee` keeps its last `e`. */
  lemma LeftmostOccurrence()
    ensures RomanizedToArabic("eee") == "يe"
  {
    EeeStep();
    EScan();
    RomanizedIsSinglePass("eee");
  }
}
