/** The word list shown to the player: English/Chinese pairs read from the
    rows of `words.csv`, or a two-word built-in list when the file is absent.
    The CSV reader itself is not modelled; its rows are the input. */
module WordList {
  import opened Wrappers
  import opened Text

  /** One CSV row, reduced to the two columns the loader reads. */
  datatype Row = Row(english: string, chinese: string)

  /** One entry of the word list. */
  datatype WordPair = WordPair(en: string, zh: string)

  /** What every entry of the list looks like: a non-empty English word in
      normal form, and a Chinese word with no whitespace at either end. */
  predicate WellFormed(p: WordPair) {
    p.en != [] && IsNormal(p.en) && IsStripped(p.zh)
  }

  /** A row contributes a pair exactly when its English column is not blank. */
  predicate Keeps(row: Row) {
    !AllSpace(row.english)
  }

  /** The loader's test on the normalised English word is `Keeps`: the word
      is non-empty exactly when the column is not all whitespace. */
  lemma KeepsIff(row: Row)
    ensures Keeps(row) <==> Normalize(row.english) != []
  {
    StripEmptyIff(row.english);
  }

  /** The pair a kept row becomes. */
  function PairOf(row: Row): (p: WordPair)
    requires Keeps(row)
    ensures WellFormed(p)
    ensures EqualIgnoringCase(p.en, Strip(row.english))
    ensures p.zh == Strip(row.chinese)
  {
    KeepsIff(row);
    NormalizeIsStripUpToCase(row.english);
    WordPair(Normalize(row.english), Strip(row.chinese))
  }

  /** What one row adds to the list: its pair, or nothing when its English
      column is blank. */
  function RowPairs(row: Row): (ps: seq<WordPair>)
    ensures |ps| <= 1
  {
    if Keeps(row) then [PairOf(row)] else []
  }

  /** The pairs read from the rows, in file order; blank English words are
      skipped. There are never more pairs than rows. */
  function PairsFromRows(rows: seq<Row>): (pairs: seq<WordPair>)
    ensures |pairs| <= |rows|
  {
    if rows == [] then []
    else PairsFromRows(rows[..|rows| - 1]) + RowPairs(rows[|rows| - 1])
  }

  /** The list used when `words.csv` does not exist. */
  const Fallback: seq<WordPair> := [WordPair("cat", "小貓"), WordPair("dog", "小狗")]

  /** The loader: the pairs of the file's kept rows, in file order, when
      there is a file; the built-in list otherwise. Either way every entry is
      well formed. */
  function LoadWordPairs(file: Option<seq<Row>>): (pairs: seq<WordPair>)
    ensures forall k :: 0 <= k < |pairs| ==> WellFormed(pairs[k])
    ensures file.None? ==> pairs == Fallback
    ensures file.Some? ==> pairs == PairsFromRows(file.value)
    ensures file.Some? ==> |pairs| <= |file.value|
  {
    match file
    case None =>
      assert WellFormed(Fallback[0]) && WellFormed(Fallback[1]);
      Fallback
    case Some(rows) =>
      PairsWellFormed(rows);
      PairsFromRows(rows)
  }

  /** Every pair read from rows is well formed. */
  lemma {:induction false} PairsWellFormed(rows: seq<Row>)
    ensures forall k :: 0 <= k < |PairsFromRows(rows)| ==> WellFormed(PairsFromRows(rows)[k])
  {
    if rows != [] {
      var init := rows[..|rows| - 1];
      PairsWellFormed(init);
      var ps, qs := PairsFromRows(init), RowPairs(rows[|rows| - 1]);
      assert PairsFromRows(rows) == ps + qs;
      forall k | 0 <= k < |ps + qs|
        ensures WellFormed((ps + qs)[k])
      {
        if k < |ps| {
          assert (ps + qs)[k] == ps[k];
        } else {
          assert (ps + qs)[k] == qs[k - |ps|];
        }
      }
    }
  }

  /** Reading two blocks of rows gives the pairs of the first block followed
      by the pairs of the second: the order of the file is kept. */
  lemma {:induction false} PairsFromRowsAppend(a: seq<Row>, b: seq<Row>)
    ensures PairsFromRows(a + b) == PairsFromRows(a) + PairsFromRows(b)
  {
    if b == [] {
      assert a + b == a;
    } else {
      var b0, last := b[..|b| - 1], b[|b| - 1];
      assert (a + b)[..|a + b| - 1] == a + b0;
      assert (a + b)[|a + b| - 1] == last;
      PairsFromRowsAppend(a, b0);
      var pa, pb, qs := PairsFromRows(a), PairsFromRows(b0), RowPairs(last);
      assert PairsFromRows(a + b) == (pa + pb) + qs;
      assert PairsFromRows(b) == pb + qs;
    }
  }

  /** A single row gives its pair when its English column is not blank, and
      nothing otherwise. */
  lemma PairsFromOneRow(row: Row)
    ensures PairsFromRows([row]) == if Keeps(row) then [PairOf(row)] else []
  {
    assert [row][..0] == [];
  }

  /** `row` is kept and becomes `p`. */
  predicate MakesPair(row: Row, p: WordPair) {
    Keeps(row) && p == PairOf(row)
  }

  /** A pair is produced exactly when some row with a non-blank English
      column makes it. */
  lemma {:induction false} PairsFromRowsMembers(rows: seq<Row>, p: WordPair)
    ensures p in PairsFromRows(rows) <==> exists row :: row in rows && MakesPair(row, p)
  {
    if rows == [] {
      assert PairsFromRows(rows) == [];
    } else {
      var init, last := rows[..|rows| - 1], rows[|rows| - 1];
      assert rows == init + [last];
      PairsFromRowsMembers(init, p);
      assert PairsFromRows(rows) == PairsFromRows(init) + RowPairs(last);
      assert p in RowPairs(last) <==> MakesPair(last, p);
      SomeRowMakesSnoc(init, last, p);
    }
  }

  /** Some row of `init + [last]` makes `p` exactly when some row of `init`
      does or `last` does. */
  lemma SomeRowMakesSnoc(init: seq<Row>, last: Row, p: WordPair)
    ensures (exists row :: row in init + [last] && MakesPair(row, p)) <==>
            (exists row :: row in init && MakesPair(row, p)) || MakesPair(last, p)
  {
    assert forall row :: row in init + [last] <==> row in init || row == last;
  }

  /** A pair's English word needs no further normalising. */
  lemma PairEnglishIsFixed(rows: seq<Row>, k: nat)
    requires k < |PairsFromRows(rows)|
    ensures Normalize(PairsFromRows(rows)[k].en) == PairsFromRows(rows)[k].en
    ensures Strip(PairsFromRows(rows)[k].zh) == PairsFromRows(rows)[k].zh
  {
    PairsWellFormed(rows);
    var p := PairsFromRows(rows)[k];
    assert WellFormed(p);
    NormalizeFixesIff(p.en);
    StripFixesIff(p.zh);
  }
}
