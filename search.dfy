/**
 * The verse search of app.py:97-116 and the row selection of `query_db`
 * (app.py:28-33), over in-memory copies of the two tables that make-db.py
 * creates.
 *
 * The query is
 *   SELECT ... FROM verses JOIN surahs ON verses.surah_id = surahs.id
 *   WHERE verses.text LIKE '%term%' OR verses.translation LIKE '%term%'
 * and is modelled as a filter over the verses, in table order, joined to
 * the surah whose primary key is the verse's `surah_id`.
 */
module VerseSearch {
  import opened Text
  import opened Wrappers
  import Romanized

  /** A row of the `surahs` table (make-db.py:13-22). */
  datatype Surah = Surah(
    id: int,
    name: string,
    transliteration: string,
    translation: string,
    kind: string,
    totalVerses: int)

  /**
   * A row of the `verses` table (make-db.py:24-33): `id` is the verse
   * number within its surah and `surahId` refers to `surahs.id`.
   */
  datatype Verse = Verse(id: int, surahId: int, text: string, translation: string)

  /** Every surah is stored under its own id. */
  predicate KeyedById(surahs: map<int, Surah>)
  {
    forall id | id in surahs :: surahs[id].id == id
  }

  /** The `surahs` table, looked up by its primary key `id`. */
  type SurahTable = m: map<int, Surah> | KeyedById(m) witness map[]

  /**
   * One result row: `verses.text AS arabic`, `verses.translation`,
   * `surahs.name AS surah_name` and `surahs.id AS surah_number`.
   * The SELECT also names `verses.transliteration`, but the `verses` table
   * has no such column, so the query as written is rejected by the
   * database; the row here carries the four columns that exist.
   */
  datatype Row = Row(arabic: string, translation: string, surahName: string, surahNumber: int)

  /** `value LIKE '%term%'`: the term occurs somewhere in the value. */
  function Like(value: string, term: string): (b: bool)
    ensures b <==> exists i: nat :: OccursAt(value, term, i)
  {
    ContainsIff(value, term);
    Contains(value, term)
  }

  /**
   * A verse survives the JOIN and the WHERE clause: some stored surah row
   * has `surahs.id = verses.surah_id`, and the text or the translation is LIKE
   * the term.
   */
  function Selected(v: Verse, surahs: SurahTable, term: string): (b: bool)
    ensures b <==>
              && (exists k | k in surahs :: surahs[k].id == v.surahId)
              && (Like(v.text, term) || Like(v.translation, term))
  {
    v.surahId in surahs && (Like(v.text, term) || Like(v.translation, term))
  }

  /**
   * The row that the SELECT list builds from a verse and the surah it is
   * joined to; its `surah_number` is the verse's `surah_id`.
   */
  function JoinRow(v: Verse, s: Surah): (row: Row)
    requires s.id == v.surahId
    ensures row.surahNumber == v.surahId && row.surahName == s.name
    ensures row.arabic == v.text && row.translation == v.translation
  {
    Row(v.text, v.translation, s.name, s.id)
  }

  /**
   * The rows of the query, in the order of the verses. Every row comes from
   * a verse that has a surah and whose text or translation contains the
   * term; every such verse gives a row.
   */
  function Search(verses: seq<Verse>, surahs: SurahTable, term: string): (rows: seq<Row>)
    ensures |rows| <= |verses|
    ensures forall row | row in rows ::
              exists v | v in verses :: Selected(v, surahs, term) && row == JoinRow(v, surahs[v.surahId])
    ensures forall v | v in verses && Selected(v, surahs, term) :: JoinRow(v, surahs[v.surahId]) in rows
    decreases |verses|
  {
    if verses == [] then []
    else
      var v := verses[0];
      var rest := Search(verses[1..], surahs, term);
      if Selected(v, surahs, term) then [JoinRow(v, surahs[v.surahId])] + rest else rest
  }

  /** The rows follow the order of the verses table: the search distributes over `+`. */
  lemma {:induction false} SearchConcat(a: seq<Verse>, b: seq<Verse>, surahs: SurahTable, term: string)
    ensures Search(a + b, surahs, term) == Search(a, surahs, term) + Search(b, surahs, term)
    decreases |a|
  {
    if a == [] {
      assert a + b == b;
    } else {
      assert (a + b)[0] == a[0];
      assert (a + b)[1..] == a[1..] + b;
      SearchConcat(a[1..], b, surahs, term);
    }
  }

  /**
   * Read on the rows themselves: each row's Arabic text or translation
   * contains the term, and its surah number names a stored surah whose name
   * the row carries.
   */
  lemma RowsMatchTerm(verses: seq<Verse>, surahs: SurahTable, term: string)
    ensures forall row | row in Search(verses, surahs, term) ::
              && (Like(row.arabic, term) || Like(row.translation, term))
              && row.surahNumber in surahs
              && surahs[row.surahNumber].name == row.surahName
  {
  }

  /** A verse whose surah is missing never appears, wherever it stands and whatever the term. */
  lemma OrphanVersesDropped(a: seq<Verse>, o: Verse, b: seq<Verse>, surahs: SurahTable, term: string)
    requires o.surahId !in surahs
    ensures Search(a + [o] + b, surahs, term) == Search(a + b, surahs, term)
  {
    SearchConcat(a + [o], b, surahs, term);
    SearchConcat(a, [o], surahs, term);
    SearchConcat(a, b, surahs, term);
    assert [o][1..] == [];
  }

  /** No verse matching means an empty result, not an error. */
  lemma NoMatchNoRows(verses: seq<Verse>, surahs: SurahTable, term: string)
    requires forall v | v in verses :: !Like(v.text, term) && !Like(v.translation, term)
    ensures Search(verses, surahs, term) == []
  {
  }

  /**
   * The empty term matches everything: when every verse has its surah, the
   * result has one row per verse, in order.
   */
  lemma {:induction false} EmptyTermMatchesAll(verses: seq<Verse>, surahs: SurahTable)
    requires forall i :: 0 <= i < |verses| ==> verses[i].surahId in surahs
    ensures |Search(verses, surahs, "")| == |verses|
    ensures forall i :: 0 <= i < |verses| ==>
              Search(verses, surahs, "")[i] == JoinRow(verses[i], surahs[verses[i].surahId])
    decreases |verses|
  {
    if verses != [] {
      EmptyIsContained(verses[0].text);
      EmptyTermMatchesAll(verses[1..], surahs);
    }
  }

  /** The value `query_db` returns: all rows, or with `one` the first row if any. */
  datatype Fetched<T> = AllRows(rows: seq<T>) | OneRow(row: Option<T>)

  /** `(rv[0] if rv else None) if one else rv` (app.py:33). */
  function QueryDb<T>(rv: seq<T>, one: bool): (r: Fetched<T>)
    ensures !one ==> r == AllRows(rv)
    ensures one ==> r.OneRow? && (r.row.Some? <==> rv != [])
    ensures one && rv != [] ==> r.row == Some(rv[0])
  {
    if one then OneRow(if rv != [] then Some(rv[0]) else None) else AllRows(rv)
  }

  /** Verse `i` is the first one the query selects. */
  predicate FirstSelected(verses: seq<Verse>, surahs: SurahTable, term: string, i: nat)
  {
    && i < |verses|
    && Selected(verses[i], surahs, term)
    && forall k :: 0 <= k < i ==> !Selected(verses[k], surahs, term)
  }

  /**
   * The result is empty exactly when no verse is selected; otherwise its
   * first row is that of the first selected verse.
   */
  lemma {:induction false} SearchHead(verses: seq<Verse>, surahs: SurahTable, term: string)
    ensures Search(verses, surahs, term) == [] <==>
              forall i :: 0 <= i < |verses| ==> !Selected(verses[i], surahs, term)
    ensures Search(verses, surahs, term) != [] ==>
              exists i: nat :: FirstSelected(verses, surahs, term, i)
                && Search(verses, surahs, term)[0] == JoinRow(verses[i], surahs[verses[i].surahId])
    decreases |verses|
  {
    if verses != [] {
      var v, tail := verses[0], verses[1..];
      var rows := Search(verses, surahs, term);
      if Selected(v, surahs, term) {
        assert FirstSelected(verses, surahs, term, 0);
      } else {
        SearchHead(tail, surahs, term);
        assert rows == Search(tail, surahs, term);
        assert forall k :: 0 < k < |verses| ==> verses[k] == tail[k - 1];
        if rows != [] {
          var i: nat :| FirstSelected(tail, surahs, term, i)
            && rows[0] == JoinRow(tail[i], surahs[tail[i].surahId]);
          assert FirstSelected(verses, surahs, term, i + 1);
        }
      }
    }
  }

  /**
   * The search asked for one row yields None exactly when no verse is
   * selected, and otherwise the row of the first selected verse.
   */
  lemma FirstSearchRow(verses: seq<Verse>, surahs: SurahTable, term: string)
    ensures QueryDb(Search(verses, surahs, term), true) == OneRow(None) <==>
              forall i :: 0 <= i < |verses| ==> !Selected(verses[i], surahs, term)
    ensures QueryDb(Search(verses, surahs, term), true).row.Some? ==>
              exists i: nat :: FirstSelected(verses, surahs, term, i)
                && QueryDb(Search(verses, surahs, term), true).row.value
                   == JoinRow(verses[i], surahs[verses[i].surahId])
  {
    SearchHead(verses, surahs, term);
  }

  /**
   * The `search` route (app.py:101-114): the submitted term is first
   * rewritten from Romanized Arabic, then searched for.
   */
  function SearchFor(verses: seq<Verse>, surahs: SurahTable, searchTerm: string): (rows: seq<Row>)
    ensures forall row | row in rows ::
              exists v | v in verses :: Selected(v, surahs, Romanized.RomanizedToArabic(searchTerm))
                && row == JoinRow(v, surahs[v.surahId])
    ensures forall v | v in verses && Selected(v, surahs, Romanized.RomanizedToArabic(searchTerm)) ::
              JoinRow(v, surahs[v.surahId]) in rows
  {
    Search(verses, surahs, Romanized.RomanizedToArabic(searchTerm))
  }

  /** A term with none of the Romanized keys (Arabic script, most English) is searched as typed. */
  lemma PlainTermSearchedAsTyped(verses: seq<Verse>, surahs: SurahTable, searchTerm: string)
    requires forall i :: 0 <= i < |Romanized.Rules| ==> !Contains(searchTerm, Romanized.Rules[i].key)
    ensures SearchFor(verses, surahs, searchTerm) == Search(verses, surahs, searchTerm)
  {
    Romanized.RomanizedUnchanged(searchTerm);
  }

  /**
   * One surah with one verse: searching its translation for "Allah" gives
   * exactly the row for surah 1.
   */
  lemma FatihaExample()
    ensures
      var fatiha := Surah(1, "Al-Fatiha", "Al-Fatihah", "The Opener", "meccan", 7);
      var verse := Verse(1, 1, "الحمد لله", "Praise be to Allah");
      Search([verse], map[1 := fatiha], "Allah") == [Row("الحمد لله", "Praise be to Allah", "Al-Fatiha", 1)]
  {
    var t := "Praise be to Allah";
    assert t[13..18] == "Allah";
    ContainsAt(t, "Allah", 13);
    var verse := Verse(1, 1, "الحمد لله", t);
    assert [verse][1..] == [];
  }
}
