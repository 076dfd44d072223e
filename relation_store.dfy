/**
 * The two tables of the relations database, held in memory:
 *   words(id INTEGER PRIMARY KEY AUTOINCREMENT, lemma TEXT NOT NULL UNIQUE, pos TEXT NOT NULL)
 *   derived_forms(id INTEGER PRIMARY KEY AUTOINCREMENT, lemma_id INTEGER NOT NULL, form TEXT NOT NULL,
 *                 pos TEXT NOT NULL, relation_type TEXT NOT NULL)
 * Rows are kept in rowid order (the order a full-table scan returns them) and each table has
 * the AUTOINCREMENT counter SQLite keeps in `sqlite_sequence`. Only the statements the two
 * pipelines issue are modelled.
 */
module RelationStore {
  import opened Wrappers
  import opened PyText

  datatype WordRow = WordRow(id: int, lemmaText: string, pos: string)  // column `lemma`
  datatype DerivedRow = DerivedRow(id: int, lemmaId: int, form: string, pos: string, relationType: string)

  datatype Tables = Tables(words: seq<WordRow>, derived: seq<DerivedRow>, wordSeq: int, derivedSeq: int)

  predicate WordIdsAscending(words: seq<WordRow>) {
    forall i, j :: 0 <= i < j < |words| ==> words[i].id < words[j].id
  }

  predicate LemmasUnique(words: seq<WordRow>) {
    forall i, j :: 0 <= i < j < |words| ==> words[i].lemmaText != words[j].lemmaText
  }

  predicate DerivedIdsAscending(derived: seq<DerivedRow>) {
    forall i, j :: 0 <= i < j < |derived| ==> derived[i].id < derived[j].id
  }

  /** What SQLite maintains: rowid order, unique lemmas, counters at or above every rowid used. */
  predicate TablesValid(t: Tables) {
    && WordIdsAscending(t.words)
    && LemmasUnique(t.words)
    && (forall i :: 0 <= i < |t.words| ==> t.words[i].id <= t.wordSeq)
    && DerivedIdsAscending(t.derived)
    && (forall i :: 0 <= i < |t.derived| ==> t.derived[i].id <= t.derivedSeq)
  }

  // ---------------------------------------------------------------------------
  // Queries
  // ---------------------------------------------------------------------------

  /** `SELECT id FROM words WHERE lemma = ?` (binary comparison), first row in rowid order. */
  function FindLemma(words: seq<WordRow>, lemmaText: string): (r: Option<WordRow>)
    ensures r.None? <==> forall i :: 0 <= i < |words| ==> words[i].lemmaText != lemmaText
    ensures r.Some? ==> exists i :: 0 <= i < |words| && words[i] == r.value && r.value.lemmaText == lemmaText
  {
    if words == [] then None
    else if words[0].lemmaText == lemmaText then Some(words[0])
    else FindLemma(words[1..], lemmaText)
  }

  /**
   * `SELECT id FROM words WHERE lemma = ? COLLATE NOCASE`, `fetchone()`, taken as the first match
   * of a scan in rowid order (the query itself fixes no order).
   */
  function FindLemmaNoCase(words: seq<WordRow>, lemmaText: string): (r: Option<WordRow>)
    ensures r.Some? ==> r.value in words
  {
    if words == [] then None
    else if EqualNoCase(words[0].lemmaText, lemmaText) then Some(words[0])
    else FindLemmaNoCase(words[1..], lemmaText)
  }

  /** The row found is the first whose lemma equals the text ignoring case; none when no lemma does. */
  lemma {:induction false} FindLemmaNoCaseFirst(words: seq<WordRow>, lemmaText: string)
    ensures var r := FindLemmaNoCase(words, lemmaText);
            && (r.None? <==> forall i :: 0 <= i < |words| ==> !EqualNoCase(words[i].lemmaText, lemmaText))
            && (r.Some? ==> exists i :: 0 <= i < |words| && words[i] == r.value && EqualNoCase(r.value.lemmaText, lemmaText)
                                        && forall j :: 0 <= j < i ==> !EqualNoCase(words[j].lemmaText, lemmaText))
    decreases |words|
  {
    if words != [] && !EqualNoCase(words[0].lemmaText, lemmaText) {
      var tail := words[1..];
      FindLemmaNoCaseFirst(tail, lemmaText);
      var r := FindLemmaNoCase(tail, lemmaText);
      assert forall i :: 0 <= i < |tail| ==> tail[i] == words[i + 1];
      if r.None? {
        forall i | 0 <= i < |words| ensures !EqualNoCase(words[i].lemmaText, lemmaText) {
          if i > 0 {
            assert words[i] == tail[i - 1];
          }
        }
      } else {
        var i :| 0 <= i < |tail| && tail[i] == r.value && EqualNoCase(r.value.lemmaText, lemmaText)
                 && forall j :: 0 <= j < i ==> !EqualNoCase(tail[j].lemmaText, lemmaText);
        assert words[i + 1] == r.value;
        forall j | 0 <= j < i + 1 ensures !EqualNoCase(words[j].lemmaText, lemmaText) {
          if j > 0 {
            assert words[j] == tail[j - 1];
          }
        }
      }
    }
  }

  /**
   * When only one lemma equals the text ignoring case, every scan order finds that row: which
   * row `fetchone()` gives does not depend on the order SQLite visits the table or its index.
   */
  lemma FindLemmaNoCaseUnique(words: seq<WordRow>, lemmaText: string, i: nat)
    requires i < |words| && EqualNoCase(words[i].lemmaText, lemmaText)
    requires forall j :: 0 <= j < |words| && EqualNoCase(words[j].lemmaText, lemmaText) ==> j == i
    ensures FindLemmaNoCase(words, lemmaText) == Some(words[i])
  {
    FindLemmaNoCaseFirst(words, lemmaText);
  }

  /** `SELECT id, form FROM derived_forms WHERE lemma_id = ?`: every such row, in rowid order. */
  function RowsOf(derived: seq<DerivedRow>, lemmaId: int): (rows: seq<DerivedRow>)
    ensures forall r :: r in rows <==> r in derived && r.lemmaId == lemmaId
    ensures |rows| <= |derived|
  {
    if derived == [] then []
    else (if derived[0].lemmaId == lemmaId then [derived[0]] else []) + RowsOf(derived[1..], lemmaId)
  }

  /** The selected rows keep the table's ascending id order. */
  lemma {:induction false} RowsOfAscending(derived: seq<DerivedRow>, lemmaId: int)
    requires DerivedIdsAscending(derived)
    ensures DerivedIdsAscending(RowsOf(derived, lemmaId))
    decreases |derived|
  {
    if derived != [] {
      var tail := derived[1..];
      assert DerivedIdsAscending(tail) by {
        forall i, j | 0 <= i < j < |tail| ensures tail[i].id < tail[j].id {
          assert tail[i] == derived[i + 1] && tail[j] == derived[j + 1];
        }
      }
      RowsOfAscending(tail, lemmaId);
      if derived[0].lemmaId == lemmaId {
        var rest := RowsOf(tail, lemmaId);
        forall k | 0 <= k < |rest| ensures derived[0].id < rest[k].id {
          assert rest[k] in tail;
          var m :| 0 <= m < |tail| && tail[m] == rest[k];
          assert tail[m] == derived[m + 1];
        }
        AscendingCons(derived[0], rest);
      }
    }
  }

  lemma AscendingCons(x: DerivedRow, rest: seq<DerivedRow>)
    requires DerivedIdsAscending(rest)
    requires forall k :: 0 <= k < |rest| ==> x.id < rest[k].id
    ensures DerivedIdsAscending([x] + rest)
  {
    var rows := [x] + rest;
    forall i, j | 0 <= i < j < |rows| ensures rows[i].id < rows[j].id {
      assert rows[j] == rest[j - 1];
      if i > 0 {
        assert rows[i] == rest[i - 1];
      }
    }
  }

  // ---------------------------------------------------------------------------
  // Statements that change the tables
  // ---------------------------------------------------------------------------

  /**
   * `INSERT OR IGNORE INTO words (lemma, pos)`: a lemma already present is left alone. The
   * AUTOINCREMENT rowid is drawn before the UNIQUE check, so an ignored row still uses it up.
   */
  function InsertOrIgnoreWord(t: Tables, lemmaText: string, pos: string): Tables {
    if FindLemma(t.words, lemmaText).Some? then t.(wordSeq := t.wordSeq + 1)
    else t.(words := t.words + [WordRow(t.wordSeq + 1, lemmaText, pos)], wordSeq := t.wordSeq + 1)
  }

  /**
   * `INSERT OR REPLACE INTO derived_forms (lemma_id, form, pos, relation_type)`: the only key is
   * the freshly assigned rowid, so nothing is ever replaced and the row is appended.
   */
  function InsertDerived(t: Tables, lemmaId: int, form: string, pos: string, relationType: string): Tables {
    t.(derived := t.derived + [DerivedRow(t.derivedSeq + 1, lemmaId, form, pos, relationType)],
       derivedSeq := t.derivedSeq + 1)
  }

  lemma InsertOrIgnoreWordValid(t: Tables, lemmaText: string, pos: string)
    requires TablesValid(t)
    ensures var r := InsertOrIgnoreWord(t, lemmaText, pos);
            TablesValid(r) && r.derived == t.derived && r.derivedSeq == t.derivedSeq
            && r.words[..|t.words|] == t.words && FindLemma(r.words, lemmaText).Some?
            && |r.words| <= |t.words| + 1 && r.wordSeq == t.wordSeq + 1
  {
    var r := InsertOrIgnoreWord(t, lemmaText, pos);
    if FindLemma(t.words, lemmaText).None? {
      assert r.words[|t.words|].lemmaText == lemmaText;
    }
  }

  lemma InsertDerivedValid(t: Tables, lemmaId: int, form: string, pos: string, relationType: string)
    requires TablesValid(t)
    ensures TablesValid(InsertDerived(t, lemmaId, form, pos, relationType))
  {
  }

  /** The database connection: both tables and their counters, changed in place by statements. */
  class Database {
    var words: seq<WordRow>
    var derived: seq<DerivedRow>
    var wordSeq: int
    var derivedSeq: int

    function State(): Tables
      reads this
    {
      Tables(words, derived, wordSeq, derivedSeq)
    }

    ghost predicate Valid()
      reads this
    {
      TablesValid(State())
    }

    /** An open database holding the given tables. */
    constructor (t: Tables)
      ensures State() == t
    {
      words, derived, wordSeq, derivedSeq := t.words, t.derived, t.wordSeq, t.derivedSeq;
    }

    method InsertOrIgnoreWordRow(lemmaText: string, pos: string)
      requires Valid()
      modifies this
      ensures Valid()
      ensures State() == InsertOrIgnoreWord(old(State()), lemmaText, pos)
    {
      ghost var before := State();
      if FindLemma(words, lemmaText).None? {
        words, wordSeq := words + [WordRow(wordSeq + 1, lemmaText, pos)], wordSeq + 1;
      } else {
        wordSeq := wordSeq + 1;
      }
      assert State() == InsertOrIgnoreWord(before, lemmaText, pos);
      InsertOrIgnoreWordValid(before, lemmaText, pos);
    }

    method SelectWordId(lemmaText: string) returns (id: Option<int>)
      ensures id.None? <==> FindLemma(words, lemmaText).None?
      ensures id.Some? ==> id.value == FindLemma(words, lemmaText).value.id
    {
      var row := FindLemma(words, lemmaText);
      id := if row.Some? then Some(row.value.id) else None;
    }

    method SelectWordIdNoCase(lemmaText: string) returns (id: Option<int>)
      ensures id.None? <==> FindLemmaNoCase(words, lemmaText).None?
      ensures id.Some? ==> id.value == FindLemmaNoCase(words, lemmaText).value.id
    {
      var row := FindLemmaNoCase(words, lemmaText);
      id := if row.Some? then Some(row.value.id) else None;
    }

    method SelectDerivedRows(lemmaId: int) returns (rows: seq<DerivedRow>)
      ensures rows == RowsOf(derived, lemmaId)
    {
      rows := RowsOf(derived, lemmaId);
    }

    method InsertDerivedRow(lemmaId: int, form: string, pos: string, relationType: string)
      requires Valid()
      modifies this
      ensures Valid()
      ensures State() == InsertDerived(old(State()), lemmaId, form, pos, relationType)
    {
      InsertDerivedValid(State(), lemmaId, form, pos, relationType);
      derived := derived + [DerivedRow(derivedSeq + 1, lemmaId, form, pos, relationType)];
      derivedSeq := derivedSeq + 1;
    }
  }
}
