# arabic-roots: transliteration and verse search, in Dafny

This project models the logic of a small Flask application for searching the
Quran (`app.py`). The application has three pieces of real logic, and the
model covers all three:

- **Arabic to phonetic Latin** (`generate_phonetic_transliteration`). Each
  character is looked up in a fixed 33-entry table, and a character that is
  not in the table is copied through. Module `Phonetic` (phonetic.dfy).
- **Romanized Arabic to Arabic script** (`transliterate_to_arabic`). Nine
  literal, case-sensitive `str.replace` passes run in the dict's order:
  `3, 7, 2, gh, dh, S, D, ee, ta`. Module `Romanized` (romanized.dfy), with
  worked inputs in `RomanizedExamples` (romanized_examples.dfy).
- **Verse search** (the `search` route's query and `query_db`). The
  `verses` table is inner-joined to `surahs` on `surah_id`. A verse is kept
  when its Arabic text or its English translation is `LIKE '%term%'`.
  `query_db(..., one=True)` returns the first row or `None`. Module
  `VerseSearch` (search.dfy).

Two helper modules are shared: `Text` (text.dfy) defines substring
containment, which Python's `str.replace` scans for and which `LIKE` tests,
and `Wrappers` (wrappers.dfy) defines `Option`.

Both source loops become methods and are proved equal to the functions
that specify them. The accumulating loop of
`generate_phonetic_transliteration` is
`Phonetic.GeneratePhoneticTransliteration`. The loop that reassigns `word`
in `transliterate_to_arabic` is `Romanized.TransliterateToArabic`. The
search is a declarative query, so it is modelled as a function over
sequences.

`str.replace` is modelled exactly: scan from the left, replace an occurrence
and continue after it, otherwise copy one character. The nine passes were
also proved equal to one left-to-right scan that, at each position, emits
the value of the key that starts there (`Romanized.FoldIsSinglePass`). That
equality depends on two facts about this table, both proved. First, every
value is one Arabic letter that occurs in no key. Second, no key's first
character occurs in another key. So for this table the order of the passes
can never shadow a key.

Notes on the source:

- The SELECT (app.py:108-110) also names `verses.transliteration`. The
  `verses` table created at make-db.py:24-33 has no such column, so the
  query as written would be rejected by SQLite. The model keeps the JOIN
  and WHERE semantics and the four columns that exist (`VerseSearch.Row`).
  It does not invent contents for the missing column.
- Result rows carry the Arabic text, translation, surah name and surah
  number, as the SELECT lists them. The query computes no phonetic
  rendering and selects no verse number, so neither appears in a row.
- The `surahs` table is a map from `id` to its row, and every row is stored
  under its own id (`VerseSearch.SurahTable`), as its primary key
  (make-db.py:15) guarantees. So a row's `surah_number` is always the
  joined verse's `surah_id`.

## Model

| member | source | states |
|---|---|---|
| `Phonetic.TableShape` | app.py:37-43 | every key of the 33-entry table is an Arabic letter; every value has 1 or 2 characters, none of them an Arabic letter |
| `Phonetic.Lookup` | app.py:46 | `map.get(char, char)` yields 1 to 2 characters, none of them a key of the table |
| `Phonetic.Phonetic` | app.py:44-47 | the transliteration of `s` has between `|s|` and `2*|s|` characters |
| `Phonetic.GeneratePhoneticTransliteration` | app.py:36-47 | the accumulating loop returns exactly `Phonetic(arabic_word)` |
| `Phonetic.PhoneticConcat` | app.py:44-47 | transliteration distributes over concatenation: `Phonetic(a + b) == Phonetic(a) + Phonetic(b)` |
| `Phonetic.PhoneticUnmapped` | app.py:45-46 | a string with no character from the table is its own transliteration |
| `Phonetic.PhoneticOfKey` | app.py:37-46 | a single key transliterates to exactly its table value |
| `Phonetic.PhoneticExamples` | app.py:38-41 | `ث` gives `th`; `ع` and `ء` give `‘`; `ص` and `س` both give `s` |
| `Phonetic.PhoneticHasNoKeys` | app.py:37-47 | no character of a transliteration is a key of the table |
| `Phonetic.PhoneticIdempotent` | app.py:36-47 | transliterating a transliteration changes nothing |
| `Text.ContainsIff` | app.py:113-114 | the substring test behind `LIKE '%term%'` holds exactly when the term occurs at some index |
| `Romanized.ReplaceAll` | app.py:63 | `str.replace` with a non-empty key returns a key-free input unchanged and never lengthens when the value is no longer than the key |
| `Romanized.ReplaceAllRemovesKey` | app.py:62-63 | after replacing a key by one character not in that key, the key no longer occurs |
| `Romanized.ReplaceAllKeepsAbsent` | app.py:62-63 | replacing by one character not in `other` creates no occurrence of `other` that the input lacked |
| `Romanized.ApplyRules` | app.py:62-64 | the pass-by-pass fold leaves input with none of the keys unchanged, and does not lengthen it when every value is no longer than its key |
| `Romanized.RulesAreFresh` | app.py:51-61 | every value in the table is one character that occurs in no key |
| `Romanized.RulesAreSeparated` | app.py:51-61 | no key's first character occurs in any other key |
| `Romanized.ApplyRulesRemovesKeys` | app.py:62-64 | with fresh one-character values, no key of the table occurs in the fold's result, so later passes never bring back an earlier key |
| `Romanized.TransliterateToArabic` | app.py:50-64 | the loop over the dict's items returns exactly the ordered fold of the nine replacements |
| `Romanized.RomanizedUnchanged` | app.py:50-64 | input containing none of `3,7,2,gh,dh,S,D,ee,ta` is returned unchanged |
| `Romanized.RomanizedToArabic` | app.py:50-64 | `transliterate_to_arabic(word)` contains none of the nine keys and is never longer than `word` |
| `Romanized.FoldIsSinglePass` | app.py:62-64 | with fresh values and separated keys, the sequence of passes equals one left-to-right scan that replaces each key where it starts |
| `Romanized.RomanizedIsSinglePass` | app.py:50-64 | `transliterate_to_arabic` equals that single scan over its table |
| `RomanizedExamples.DigitThree` | app.py:52 | `"3"` becomes `"ع"` |
| `RomanizedExamples.DigitThreeInWord` | app.py:52-64 | `"3ilm"` becomes `"عilm"` |
| `RomanizedExamples.Hello` | app.py:50-64 | `"hello"` is returned unchanged |
| `RomanizedExamples.LowerCaseKept` | app.py:57-58 | lower-case `"sd"` is returned unchanged |
| `RomanizedExamples.UpperCaseRewritten` | app.py:57-58 | upper-case `"SD"` becomes `"صض"` |
| `RomanizedExamples.LeftmostOccurrence` | app.py:59-63 | `"eee"` becomes `"يe"`: the leftmost, non-overlapping occurrence is replaced |
| `VerseSearch.Like` | app.py:113-114 | `value LIKE '%term%'` holds exactly when the term occurs at some index of the value |
| `VerseSearch.Selected` | app.py:112-113 | a verse is kept exactly when some stored surah row has `id` equal to its `surah_id` and its text or translation is LIKE the term |
| `VerseSearch.JoinRow` | app.py:109-110 | for a joined pair, the row carries the verse's text and translation, the surah's name, and the verse's `surah_id` as `surah_number` |
| `VerseSearch.Search` | app.py:108-114 | every row comes from a verse that has a surah and whose text or translation contains the term; every such verse gives a row; there are no more rows than verses |
| `VerseSearch.SearchConcat` | app.py:108-114 | rows come in verse-table order: the search distributes over concatenation of the verses |
| `VerseSearch.RowsMatchTerm` | app.py:109-113 | each row's `arabic` or `translation` contains the term, and its `surah_number` names a stored surah whose name the row carries |
| `VerseSearch.OrphanVersesDropped` | app.py:112 | a verse whose `surah_id` has no surah row contributes nothing, wherever it stands among the verses |
| `VerseSearch.NoMatchNoRows` | app.py:113-114 | when no verse matches, the result is the empty sequence |
| `VerseSearch.EmptyTermMatchesAll` | app.py:113-114 | the empty term yields one row per joined verse, in order |
| `VerseSearch.QueryDb` | app.py:28-33 | `one=False` returns all rows; `one=True` returns `None` exactly on an empty result and the first row otherwise |
| `VerseSearch.SearchHead` | app.py:108-114 | the result is empty exactly when no verse is selected; otherwise its first row is that of the first selected verse |
| `VerseSearch.FirstSearchRow` | app.py:28-33 | the search fetched with `one=True` is `None` exactly when nothing matches, else the first selected verse's row |
| `VerseSearch.SearchFor` | app.py:101-114 | the route searches for the Romanized-to-Arabic form of the submitted term: every row is the joined row of a verse selected for that form, and every such verse gives a row |
| `VerseSearch.PlainTermSearchedAsTyped` | app.py:104-105 | a term with none of the keys is searched exactly as typed |
| `VerseSearch.FatihaExample` | app.py:108-114 | surah 1 with verse "Praise be to Allah": searching "Allah" gives exactly that verse's row, numbered 1 |

## Left out

- Flask routing, templates and the `request`/`g` handling (app.py:1-25, 66-119, apart from the search query) are web plumbing. The model takes the search term and the table contents as parameters.
- The Google Translate call, its exception path and the `pronunciation or generate_phonetic_transliteration(...)` fallback of the `/root` route (app.py:81-93) are left out. They depend on a foreign network service whose behaviour cannot be seen.
- The SQLite connection lifecycle (`get_db`, `close_db`, app.py:14-25) and cursor handling (app.py:29-32) are left out. `query_db` is modelled from the fetched rows onward.
- VerseSearch.Like: reads `LIKE '%term%'` as case-sensitive substring containment. SQLite folds ASCII case in `LIKE`, and a `%` or `_` inside the term acts as a wildcard. The model does neither, so on such terms it is stricter than the database.
- VerseSearch.Search: returns rows in verse-table order. The query has no ORDER BY, so SQLite promises no order.
- The `verses.transliteration` column the SELECT names does not exist. The model leaves it out rather than modelling the resulting query error.
- make-db.py, the one-shot JSON-to-SQLite import, is not part of this model. Only its table shapes are used. The `roots` table and its sample rows (make-db.py:35-72) are read by no query and are left out too.
- Romanized.ReplaceAll: takes only non-empty keys (`Romanized.Key`). Python's `str.replace` with an empty key inserts the value between characters, but the table has no empty key.
- Whether the nine passes give the same result in every order is not proved. What is proved is that they equal a single scan, and that no pass brings back an earlier key.
