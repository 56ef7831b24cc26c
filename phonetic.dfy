/**
 * Arabic script to a Latin phonetic approximation
 * (`generate_phonetic_transliteration` in app.py).
 *
 * Each character of the input is looked up independently in a fixed
 * 33-entry table; a character that is not a key is copied through.
 */
module Phonetic {

  /** The character table of app.py:37-43, in the source's order. */
  const Table: map<char, string> := map[
    'ا' := "a", 'ب' := "b", 'ت' := "t", 'ث' := "th", 'ج' := "j", 'ح' := "h", 'خ' := "kh", 'د' := "d",
    'ذ' := "dh", 'ر' := "r", 'ز' := "z", 'س' := "s", 'ش' := "sh", 'ص' := "s", 'ض' := "d",
    'ط' := "t", 'ظ' := "z", 'ع' := "‘", 'غ' := "gh", 'ف' := "f", 'ق' := "q", 'ك' := "k",
    'ل' := "l", 'م' := "m", 'ن' := "n", 'ه' := "h", 'و' := "w", 'ي' := "y", 'ء' := "‘",
    'ة' := "h", 'ى' := "a", 'ئ' := "y", 'ؤ' := "w"
  ]

  /**
   * `transliteration_map.get(char, char)`: the table's value for a key, the
   * character itself otherwise. Either way the piece is one or two
   * characters long and none of its characters is a key of the table.
   */
  function Lookup(c: char): (r: string)
    ensures 1 <= |r| <= 2
    ensures forall i :: 0 <= i < |r| ==> r[i] !in Table
  {
    if c in Table then
      TableShape();
      Table[c]
    else
      [c]
  }

  /** Letters of the Arabic block from hamza (U+0621) to yeh (U+064A). */
  predicate IsArabicLetter(c: char)
  {
    'ء' <= c <= 'ي'
  }

  /**
   * Every key of the table is an Arabic letter; every value is one or two
   * characters, none of them an Arabic letter.
   */
  lemma TableShape()
    ensures forall c | c in Table :: IsArabicLetter(c)
    ensures forall c | c in Table :: 1 <= |Table[c]| <= 2
    ensures forall c, i | c in Table && 0 <= i < |Table[c]| :: !IsArabicLetter(Table[c][i])
  {
  }

  /**
   * The transliteration of `s`: the pieces of its characters, in order.
   * Defined from the end so that it follows the source's accumulator.
   */
  function Phonetic(s: string): (r: string)
    ensures |s| <= |r| <= 2 * |s|
    decreases |s|
  {
    if s == [] then [] else Phonetic(s[..|s| - 1]) + Lookup(s[|s| - 1])
  }

  /** The loop of app.py:44-47: grow the accumulator one character at a time. */
  method GeneratePhoneticTransliteration(arabicWord: string) returns (transliteration: string)
    ensures transliteration == Phonetic(arabicWord)
  {
    transliteration := "";
    for i := 0 to |arabicWord|
      invariant transliteration == Phonetic(arabicWord[..i])
    {
      assert arabicWord[..i + 1][..i] == arabicWord[..i];
      transliteration := transliteration + Lookup(arabicWord[i]);
    }
    assert arabicWord[..|arabicWord|] == arabicWord;
  }

  /** Transliteration works character by character, so it distributes over `+`. */
  lemma {:induction false} PhoneticConcat(a: string, b: string)
    ensures Phonetic(a + b) == Phonetic(a) + Phonetic(b)
    decreases |b|
  {
    if b == [] {
      assert a + b == a;
    } else {
      var b' := b[..|b| - 1];
      assert (a + b)[..|a + b| - 1] == a + b';
      PhoneticConcat(a, b');
    }
  }

  /** A string with no character of the table is its own transliteration. */
  lemma {:induction false} PhoneticUnmapped(s: string)
    requires forall i :: 0 <= i < |s| ==> s[i] !in Table
    ensures Phonetic(s) == s
    decreases |s|
  {
    if s != [] {
      PhoneticUnmapped(s[..|s| - 1]);
      assert s[..|s| - 1] + [s[|s| - 1]] == s;
    }
  }

  /** A key of the table on its own becomes exactly its table value. */
  lemma PhoneticOfKey(c: char)
    requires c in Table
    ensures Phonetic([c]) == Table[c]
  {
    assert [c][..0] == [];
  }

  /** Some entries of the table, read back through Phonetic. */
  lemma PhoneticExamples()
    ensures Phonetic("ث") == "th"
    ensures Phonetic("ع") == "‘" && Phonetic("ء") == "‘"
    ensures Phonetic("ص") == Phonetic("س") == "s"
  {
    PhoneticOfKey('ث');
    PhoneticOfKey('ع');
    PhoneticOfKey('ء');
    PhoneticOfKey('ص');
    PhoneticOfKey('س');
  }

  /** No character of a transliteration is a key of the table. */
  lemma {:induction false} PhoneticHasNoKeys(s: string)
    ensures forall i :: 0 <= i < |Phonetic(s)| ==> Phonetic(s)[i] !in Table
    decreases |s|
  {
    if s != [] {
      PhoneticHasNoKeys(s[..|s| - 1]);
    }
  }

  /** Transliterating a second time changes nothing. */
  lemma PhoneticIdempotent(s: string)
    ensures Phonetic(Phonetic(s)) == Phonetic(s)
  {
    PhoneticHasNoKeys(s);
    PhoneticUnmapped(Phonetic(s));
  }
}
