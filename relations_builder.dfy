/**
 * The generation pipeline of `relationsBuilder.py`: the paisà vocabulary loader, the WordNet
 * noun filter, the validation of the model's proposed derived forms, the insertion of the
 * validated forms into the two tables and the chunk loop of `main`.
 *
 * The WordNet lexicon, the vocabulary file, the model (through the retrying client) and
 * `json.loads` are inputs: `llm(chunk)` is how the model answers the prompt built from `chunk`,
 * and `decode` is what `json.loads` makes of a response (None when it raises).
 */
module RelationsBuilder {
  import opened Wrappers
  import opened PyText
  import opened PyValue
  import OD = OrderedDict
  import opened RelationStore
  import MistralInterface

  /** The placeholder for a form that does not exist (or was rejected). */
  const NA := "N/A"
  /** The part of speech stored for every head lemma. */
  const NounPos := "n"
  /** The relation recorded for every derived form. */
  const Morphological := "morphological"
  /** `invokeLLM`'s default number of attempts, which `process_chunk` relies on. */
  const DefaultAttempts := 5

  // ===========================================================================
  // load_paisa_set
  // ===========================================================================

  /** A line the loader ignores: empty, a comment, or whitespace only. */
  predicate IsSkipped(line: string) {
    line == [] || line[0] == '#' || Strip(line) == []
  }

  /** The lemma a kept line contributes: its first comma-separated field, stripped. */
  function LineLemma(line: string): string {
    Strip(FirstField(line, ","))
  }

  /** What one line contributes to the set: nothing for a skipped line. */
  function LineContribution(line: string): Option<string> {
    if IsSkipped(line) then None else Some(LineLemma(line))
  }

  /**
   * `s` is the set `load_paisa_set` returns for the file with these lines (None: the file
   * does not exist, and the set is empty).
   */
  ghost predicate IsVocabularyOf(s: set<string>, file: Option<seq<string>>) {
    match file
    case None => s == {}
    case Some(lines) => forall w :: w in s <==> exists i :: 0 <= i < |lines| && LineContribution(lines[i]) == Some(w)
  }

  /** A `lemma,frequency` line contributes its lemma field without the surrounding blanks. */
  lemma LineLemmaOfField(field: string, rest: string)
    requires !Contains(field, ",")
    ensures LineLemma(field + "," + rest) == Strip(field)
  {
    var line := field + "," + rest;
    FirstFieldIsPrefix(line, ",");
    ContainsIff(field, ",");
    assert MatchAt(line, ",", |field|) by {
      assert line[|field|..|field| + 1] == ",";
    }
    forall k: nat | k < |field| ensures !MatchAt(line, ",", k) {
      assert !MatchAt(field, ",", k);
      assert line[k..k + 1] == field[k..k + 1];
    }
    assert FirstField(line, ",") == line[..|field|] == field;
  }

  /** The values the lines contribute, one line after the other. */
  function Collect(lines: seq<string>, contribution: string -> Option<string>): set<string> {
    if lines == [] then {}
    else
      var n := |lines| - 1;
      Collect(lines[..n], contribution) + Contributed(contribution(lines[n]))
  }

  /** The set holding what one line contributes. */
  function Contributed(o: Option<string>): set<string> {
    match o
    case None => {}
    case Some(w) => {w}
  }

  /** One more line adds its contribution. */
  lemma CollectNext(lines: seq<string>, contribution: string -> Option<string>, k: nat)
    requires k < |lines|
    ensures Collect(lines[..k + 1], contribution) == Collect(lines[..k], contribution) + Contributed(contribution(lines[k]))
  {
    assert lines[..k + 1][..k] == lines[..k];
  }

  /** The lines collected by `LineContribution` are the vocabulary of the file. */
  lemma CollectIsVocabulary(lines: seq<string>)
    ensures IsVocabularyOf(Collect(lines, LineContribution), Some(lines))
  {
    forall w ensures w in Collect(lines, LineContribution) <==> exists i :: 0 <= i < |lines| && LineContribution(lines[i]) == Some(w) {
      CollectMember(lines, LineContribution, w);
    }
  }

  /** A value is collected exactly when some line contributes it. */
  lemma {:induction false} CollectMember(lines: seq<string>, contribution: string -> Option<string>, w: string)
    ensures w in Collect(lines, contribution) <==> exists i :: 0 <= i < |lines| && contribution(lines[i]) == Some(w)
    decreases |lines|
  {
    if lines != [] {
      var n := |lines| - 1;
      var init := lines[..n];
      CollectMember(init, contribution, w);
      if exists i :: 0 <= i < |lines| && contribution(lines[i]) == Some(w) {
        var i :| 0 <= i < |lines| && contribution(lines[i]) == Some(w);
        if i < n {
          assert init[i] == lines[i];
        }
      }
      if w in Collect(init, contribution) {
        var i :| 0 <= i < n && contribution(init[i]) == Some(w);
        assert lines[i] == init[i];
      }
    }
  }

  /** The vocabulary loader: one pass over the lines, adding each kept line's lemma. */
  method LoadPaisaSet(file: Option<seq<string>>) returns (s: set<string>)
    ensures IsVocabularyOf(s, file)
  {
    if file.None? {
      return {};
    }
    var lines := file.value;
    s := {};
    for k := 0 to |lines|
      invariant s == Collect(lines[..k], LineContribution)
    {
      var line := lines[k];
      CollectNext(lines, LineContribution, k);
      if line == [] || line[0] == '#' || Strip(line) == [] {
        continue;
      }
      var term := Strip(FirstField(line, ","));
      s := s + {term};
    }
    assert lines[..|lines|] == lines;
    CollectIsVocabulary(lines);
  }

  // ===========================================================================
  // build_word_list
  // ===========================================================================

  /**
   * A WordNet lemma as the filter sees it: `getattr(lemma, 'pos', None)` and
   * `getattr(lemma, '_lemma', None)`, each None when absent or not a string.
   */
  datatype LexLemma = LexLemma(pos: Option<string>, text: Option<string>)

  /** No digit, and nothing but alphanumerics, spaces and hyphens (`isdigit`/`isalnum` as given). */
  predicate WellFormedNoun(text: string, isDigit: char -> bool, isAlnum: char -> bool) {
    && (forall i :: 0 <= i < |text| ==> !isDigit(text[i]))
    && (forall i :: 0 <= i < |text| ==> isAlnum(text[i]) || text[i] == ' ' || text[i] == '-')
  }

  /** The lemma is a noun whose text `w` passes the filter. */
  predicate Yields(l: LexLemma, w: string, isDigit: char -> bool, isAlnum: char -> bool) {
    l.pos == Some(NounPos) && l.text == Some(w) && WellFormedNoun(w, isDigit, isAlnum)
  }

  /** Ascending in Python's string order, hence without duplicates. */
  predicate StrictlySorted(ws: seq<string>) {
    forall i, j :: 0 <= i < j < |ws| ==> Less(ws[i], ws[j])
  }

  /** `ws` is what `build_word_list` returns for the lexicon. */
  ghost predicate IsWordListOf(ws: seq<string>, lexicon: seq<LexLemma>, isDigit: char -> bool, isAlnum: char -> bool) {
    && StrictlySorted(ws)
    && forall w :: w in ws <==> exists i :: 0 <= i < |lexicon| && Yields(lexicon[i], w, isDigit, isAlnum)
  }

  lemma StrictlySortedDistinct(ws: seq<string>)
    requires StrictlySorted(ws)
    ensures forall i, j :: 0 <= i < j < |ws| ==> ws[i] != ws[j]
  {
    forall i, j | 0 <= i < j < |ws| ensures ws[i] != ws[j] {
      LessIrreflexive(ws[i]);
    }
  }

  /** `x` placed into a strictly sorted list (nothing changes when it is already there). */
  function InsertSorted(ws: seq<string>, x: string): (r: seq<string>)
    requires StrictlySorted(ws)
    ensures StrictlySorted(r)
    ensures forall y :: y in r <==> y in ws || y == x
  {
    if ws == [] then [x]
    else if x == ws[0] then ws
    else if Less(x, ws[0]) then
      assert StrictlySorted([x] + ws) by {
        forall j | 0 <= j < |ws| ensures Less(x, ws[j]) {
          if j > 0 {
            LessTransitive(x, ws[0], ws[j]);
          }
        }
      }
      [x] + ws
    else
      LessTotal(x, ws[0]);
      var rest := InsertSorted(ws[1..], x);
      assert StrictlySorted([ws[0]] + rest) by {
        forall j | 0 <= j < |rest| ensures Less(ws[0], rest[j]) {
          assert rest[j] in rest;
        }
      }
      [ws[0]] + rest
  }

  /** `sorted(set(xs))`. */
  function SortedSet(xs: seq<string>): (r: seq<string>)
    ensures StrictlySorted(r)
    ensures forall y :: y in r <==> y in xs
  {
    if xs == [] then []
    else
      var n := |xs| - 1;
      assert xs == xs[..n] + [xs[n]];
      InsertSorted(SortedSet(xs[..n]), xs[n])
  }

  /** A strictly sorted list is determined by its elements: the word list is unique. */
  lemma {:induction false} SortedListsWithSameElements(a: seq<string>, b: seq<string>)
    requires StrictlySorted(a) && StrictlySorted(b)
    requires forall y :: y in a <==> y in b
    ensures a == b
    decreases |a|
  {
    if a != [] {
      assert a[0] in a;
      assert b != [];
      assert b[0] in b;
      if a[0] != b[0] {
        var i :| 0 <= i < |a| && a[i] == b[0];
        var j :| 0 <= j < |b| && b[j] == a[0];
        assert i > 0 && j > 0;
        LessTransitive(a[0], b[0], a[0]);
        LessIrreflexive(a[0]);
      }
      StrictlySortedDistinct(a);
      StrictlySortedDistinct(b);
      assert a == [a[0]] + a[1..] && b == [b[0]] + b[1..];
      forall y ensures y in a[1..] <==> y in b[1..] {
        if y in a[1..] {
          var i :| 1 <= i < |a| && a[i] == y;
          assert y != a[0] && y in a;
          var j :| 0 <= j < |b| && b[j] == y;
          assert j != 0 && b[1..][j - 1] == y;
        }
        if y in b[1..] {
          var j :| 1 <= j < |b| && b[j] == y;
          assert y != b[0] && y in b;
          var i :| 0 <= i < |a| && a[i] == y;
          assert i != 0 && a[1..][i - 1] == y;
        }
      }
      SortedListsWithSameElements(a[1..], b[1..]);
    }
  }

  lemma WordListUnique(a: seq<string>, b: seq<string>, lexicon: seq<LexLemma>, isDigit: char -> bool, isAlnum: char -> bool)
    requires IsWordListOf(a, lexicon, isDigit, isAlnum) && IsWordListOf(b, lexicon, isDigit, isAlnum)
    ensures a == b
  {
    SortedListsWithSameElements(a, b);
  }

  /** The noun filter: collect the accepted texts in lexicon order, then sort and dedupe. */
  method BuildWordList(lexicon: seq<LexLemma>, isDigit: char -> bool, isAlnum: char -> bool)
    returns (wordList: seq<string>)
    ensures IsWordListOf(wordList, lexicon, isDigit, isAlnum)
  {
    var candidates: seq<string> := [];
    for k := 0 to |lexicon|
      invariant forall w :: w in candidates <==> exists i :: 0 <= i < k && Yields(lexicon[i], w, isDigit, isAlnum)
    {
      var entry := lexicon[k];
      if entry.pos == Some(NounPos) {
        if entry.text.None? {
          continue;
        }
        var text := entry.text.value;
        if exists i :: 0 <= i < |text| && isDigit(text[i]) {
          continue;
        }
        if exists i :: 0 <= i < |text| && !isAlnum(text[i]) && text[i] != ' ' && text[i] != '-' {
          continue;
        }
        candidates := candidates + [text];
      }
    }
    wordList := SortedSet(candidates);
  }

  // ===========================================================================
  // process_chunk: validation of the proposed forms
  // ===========================================================================

  /** The three forms kept for one noun: adjective `a`, verb `v`, adverb `r`. */
  datatype Forms = Forms(a: string, v: string, r: string)

  const NoForms := Forms(NA, NA, NA)

  /** Every form is the placeholder or a lemma of the vocabulary. */
  predicate InVocabulary(f: Forms, paisa: set<string>) {
    (f.a == NA || f.a in paisa) && (f.v == NA || f.v in paisa) && (f.r == NA || f.r in paisa)
  }

  /**
   * One proposed value after the vocabulary check: anything but "N/A" that is not a lemma of
   * the vocabulary becomes "N/A"; None when the membership test raises (a list or a dict).
   */
  function CheckForm(x: Value, paisa: set<string>): (r: Option<string>)
    ensures r.Some? ==> r.value == NA || r.value in paisa
    ensures x.Str? && (x.s == NA || x.s in paisa) ==> r == Some(x.s)
    ensures x.Str? && x.s !in paisa ==> r == Some(NA)
    ensures !x.Str? && r.Some? ==> r == Some(NA)
    ensures r.None? <==> x.List? || x.Dict?
  {
    if x == Str(NA) then Some(NA)
    else match MemberOf(x, paisa)
      case None => None
      case Some(found) => if found then Some(x.s) else Some(NA)
  }

  /** The `morpho` object of an entry, when the entry is a dict that has one. */
  predicate HasMorpho(entry: Value) {
    entry.Dict? && HasKey(entry.entries, "morpho")
  }

  /** `morpho.get(key, 'N/A')` for a dict-valued `morpho`. */
  function Proposed(morpho: seq<(string, Value)>, key: string): Value {
    GetOr(morpho, key, Str(NA))
  }

  /**
   * The forms `process_chunk` stores for one entry; None when the entry makes the loop raise
   * (`morpho` truthy but not a dict, or an unhashable proposed value).
   */
  function EntryForms(entry: Value, paisa: set<string>): (r: Option<Forms>)
    ensures r.Some? ==> InVocabulary(r.value, paisa)
    ensures !HasMorpho(entry) ==> r == Some(NoForms)
    ensures HasMorpho(entry) && !Truthy(DictGet(entry.entries, "morpho")) ==> r == Some(NoForms)
    ensures HasMorpho(entry) && Truthy(DictGet(entry.entries, "morpho")) && !DictGet(entry.entries, "morpho").Dict?
            ==> r.None?
  {
    if !HasMorpho(entry) then Some(NoForms)
    else
      var morpho := DictGet(entry.entries, "morpho");
      if !Truthy(morpho) then Some(NoForms)
      else if !morpho.Dict? then None
      else
        var a := CheckForm(Proposed(morpho.entries, "a"), paisa);
        var v := CheckForm(Proposed(morpho.entries, "v"), paisa);
        var r := CheckForm(Proposed(morpho.entries, "r"), paisa);
        if a.Some? && v.Some? && r.Some? then Some(Forms(a.value, v.value, r.value)) else None
  }

  /**
   * For a dict-valued `morpho`: the entry raises exactly when one of the three proposed values
   * is a list or a dict, and otherwise each slot holds its checked proposal.
   */
  lemma EntryFormsOfMorphoDict(entry: Value, paisa: set<string>)
    requires HasMorpho(entry) && DictGet(entry.entries, "morpho").Dict?
    ensures var m := DictGet(entry.entries, "morpho").entries;
            && (EntryForms(entry, paisa).None? <==>
                || MemberOf(Proposed(m, "a"), paisa).None?
                || MemberOf(Proposed(m, "v"), paisa).None?
                || MemberOf(Proposed(m, "r"), paisa).None?)
            && (EntryForms(entry, paisa).Some? ==>
                EntryForms(entry, paisa).value == Forms(CheckForm(Proposed(m, "a"), paisa).value,
                                                        CheckForm(Proposed(m, "v"), paisa).value,
                                                        CheckForm(Proposed(m, "r"), paisa).value))
  {
  }

  /** A proposed form that is a lemma of the vocabulary is kept verbatim. */
  lemma ProposedLemmaKept(entry: Value, paisa: set<string>, key: string, form: string)
    requires HasMorpho(entry) && DictGet(entry.entries, "morpho").Dict?
    requires Proposed(DictGet(entry.entries, "morpho").entries, key) == Str(form) && form in paisa
    requires EntryForms(entry, paisa).Some?
    ensures key == "a" ==> EntryForms(entry, paisa).value.a == form
    ensures key == "v" ==> EntryForms(entry, paisa).value.v == form
    ensures key == "r" ==> EntryForms(entry, paisa).value.r == form
  {
  }

  /**
   * The dict `process_chunk` builds from `results.items()`, continuing from `terms`: the loop
   * stops at the first entry that raises, and what was built so far is returned.
   */
  predicate AllInVocabulary(terms: OD.Dict<Forms>, paisa: set<string>) {
    forall i :: 0 <= i < |terms| ==> InVocabulary(terms[i].1, paisa)
  }

  function ValidateFrom(items: seq<(string, Value)>, paisa: set<string>, terms: OD.Dict<Forms>): OD.Dict<Forms>
    decreases |items|
  {
    if items == [] then terms
    else match EntryForms(items[0].1, paisa)
      case None => terms
      case Some(f) => ValidateFrom(items[1..], paisa, OD.Put(terms, items[0].0, f))
  }

  /** The terms of one chunk, from the decoded response (None: `json.loads` raised). */
  function Validate(parsed: Option<Value>, paisa: set<string>): (terms: OD.Dict<Forms>)
    ensures AllInVocabulary(terms, paisa)
    ensures !(parsed.Some? && parsed.value.Dict?) ==> terms == []
  {
    if parsed.Some? && parsed.value.Dict? then
      ValidateFromInVocabulary(parsed.value.entries, paisa, []);
      ValidateFrom(parsed.value.entries, paisa, [])
    else []
  }

  lemma {:induction false} ValidateFromInVocabulary(items: seq<(string, Value)>, paisa: set<string>, terms: OD.Dict<Forms>)
    requires AllInVocabulary(terms, paisa)
    ensures AllInVocabulary(ValidateFrom(items, paisa, terms), paisa)
    decreases |items|
  {
    if items != [] {
      var e := EntryForms(items[0].1, paisa);
      if e.Some? {
        var next := OD.Put(terms, items[0].0, e.value);
        OD.PutEntries(terms, items[0].0, e.value);
        assert AllInVocabulary(next, paisa) by {
          forall i | 0 <= i < |next| ensures InVocabulary(next[i].1, paisa) {
            if next[i] != (items[0].0, e.value) {
              var j :| 0 <= j < |terms| && terms[j] == next[i];
            }
          }
        }
        ValidateFromInVocabulary(items[1..], paisa, next);
      }
    }
  }

  /**
   * The entries of the response up to the first one that raises, each with its forms: what the
   * validation keeps when the response's keys are distinct (as `json.loads` makes them).
   */
  function AcceptedPrefix(items: seq<(string, Value)>, paisa: set<string>): (p: OD.Dict<Forms>)
    ensures |p| <= |items|
    ensures forall i :: 0 <= i < |p| ==> p[i].0 == items[i].0 && EntryForms(items[i].1, paisa) == Some(p[i].1)
    ensures |p| < |items| ==> EntryForms(items[|p|].1, paisa).None?
  {
    if items == [] then []
    else match EntryForms(items[0].1, paisa)
      case None => []
      case Some(f) => [(items[0].0, f)] + AcceptedPrefix(items[1..], paisa)
  }

  predicate DistinctItems(items: seq<(string, Value)>) {
    forall i, j :: 0 <= i < j < |items| ==> items[i].0 != items[j].0
  }

  /** No key of `items` is a key of `terms`. */
  predicate KeysDisjoint(items: seq<(string, Value)>, terms: OD.Dict<Forms>) {
    forall i, j :: 0 <= i < |items| && 0 <= j < |terms| ==> items[i].0 != terms[j].0
  }

  /** Moving an accepted first entry into `terms` keeps the keys distinct and disjoint. */
  lemma AppendsStep(items: seq<(string, Value)>, terms: OD.Dict<Forms>, f: Forms)
    requires items != [] && DistinctItems(items) && KeysDisjoint(items, terms)
    ensures OD.Put(terms, items[0].0, f) == terms + [(items[0].0, f)]
    ensures DistinctItems(items[1..]) && KeysDisjoint(items[1..], terms + [(items[0].0, f)])
  {
    assert !OD.HasKey(terms, items[0].0);
    OD.PutNewKey(terms, items[0].0, f);
    var rest := items[1..];
    var next := terms + [(items[0].0, f)];
    forall i, j | 0 <= i < j < |rest| ensures rest[i].0 != rest[j].0 {
      assert rest[i] == items[i + 1] && rest[j] == items[j + 1];
    }
    forall i, j | 0 <= i < |rest| && 0 <= j < |next| ensures rest[i].0 != next[j].0 {
      assert rest[i] == items[i + 1];
      if j < |terms| {
        assert next[j] == terms[j];
      }
    }
  }

  lemma {:induction false} ValidateFromAppends(items: seq<(string, Value)>, paisa: set<string>, terms: OD.Dict<Forms>)
    requires DistinctItems(items) && KeysDisjoint(items, terms)
    ensures ValidateFrom(items, paisa, terms) == terms + AcceptedPrefix(items, paisa)
    decreases |items|
  {
    if items != [] {
      var e := EntryForms(items[0].1, paisa);
      if e.Some? {
        var rest := items[1..];
        var next := terms + [(items[0].0, e.value)];
        AppendsStep(items, terms, e.value);
        assert ValidateFrom(items, paisa, terms) == ValidateFrom(rest, paisa, next);
        ValidateFromAppends(rest, paisa, next);
        assert AcceptedPrefix(items, paisa) == [(items[0].0, e.value)] + AcceptedPrefix(rest, paisa);
        assert next + AcceptedPrefix(rest, paisa) == terms + ([(items[0].0, e.value)] + AcceptedPrefix(rest, paisa));
      }
    }
  }

  /**
   * A response object with distinct keys gives its entries in order, up to (not including) the
   * first one that raises: all of them when none does, a partial dict otherwise.
   */
  lemma ValidateKeepsPrefix(items: seq<(string, Value)>, paisa: set<string>)
    requires DistinctItems(items)
    ensures Validate(Some(Dict(items)), paisa) == AcceptedPrefix(items, paisa)
  {
    ValidateFromAppends(items, paisa, []);
  }

  /** The validated terms of one chunk: `llm(chunk)` answers, `decode` parses the response. */
  function ChunkTerms(chunk: seq<string>, paisa: set<string>, llm: seq<string> -> nat -> MistralInterface.CallOutcome,
                      decode: string -> Option<Value>): OD.Dict<Forms>
  {
    Validate(decode(MistralInterface.Invoke(llm(chunk), DefaultAttempts).response), paisa)
  }

  /**
   * A call that gives up returns "", on which `json.loads` raises: the except clause leaves the
   * terms empty, so the chunk is skipped.
   */
  lemma FailedCallGivesNoTerms(chunk: seq<string>, paisa: set<string>, llm: seq<string> -> nat -> MistralInterface.CallOutcome,
                               decode: string -> Option<Value>)
    requires decode("") == None
    requires !MistralInterface.Invoke(llm(chunk), DefaultAttempts).success
    ensures ChunkTerms(chunk, paisa, llm, decode) == []
  {
    MistralInterface.SuccessMeansLastAnswered(llm(chunk), DefaultAttempts, 0);
  }

  /** `process_chunk`: one model call, then the validation loop over the decoded entries. */
  method ProcessChunk(chunk: seq<string>, paisa: set<string>, llm: seq<string> -> nat -> MistralInterface.CallOutcome,
                      decode: string -> Option<Value>)
    returns (terms: OD.Dict<Forms>)
    ensures terms == ChunkTerms(chunk, paisa, llm, decode)
    ensures AllInVocabulary(terms, paisa)
  {
    var response, success, calls := MistralInterface.InvokeLLM(llm(chunk), DefaultAttempts);
    var results := decode(response);
    terms := [];
    if results.Some? && results.value.Dict? {
      var items := results.value.entries;
      var k := 0;
      while k < |items|
        invariant 0 <= k <= |items|
        invariant ValidateFrom(items[k..], paisa, terms) == ValidateFrom(items, paisa, [])
        decreases |items| - k
      {
        var (noun, entry) := items[k];
        var forms := EntryForms(entry, paisa);
        if forms.None? {
          break;
        }
        assert items[k..][1..] == items[k + 1..];
        terms := OD.Put(terms, noun, forms.value);
        k := k + 1;
      }
    }
  }

  // ===========================================================================
  // insert_terms
  // ===========================================================================

  /** The items of `{'a': a, 'v': v, 'r': r}`, in that order: (slot key, form). */
  function Slots(f: Forms): seq<(string, string)> {
    [("a", f.a), ("v", f.v), ("r", f.r)]
  }

  /** A form that gets a row: non-empty and not the placeholder. */
  predicate Stored(form: string) {
    form != "" && form != NA
  }

  /** The derived rows added for one lemma id, slot by slot. */
  function AfterSlots(t: Tables, lemmaId: int, slots: seq<(string, string)>): Tables
    decreases |slots|
  {
    if slots == [] then t
    else
      var t1 := if Stored(slots[0].1) then InsertDerived(t, lemmaId, slots[0].1, slots[0].0, Morphological) else t;
      AfterSlots(t1, lemmaId, slots[1..])
  }

  /** One iteration of the outer loop: the lemma's word row, then its derived rows. */
  function AfterEntry(t: Tables, lemmaText: string, f: Forms): Tables {
    var t1 := InsertOrIgnoreWord(t, lemmaText, NounPos);
    match FindLemma(t1.words, lemmaText)
    case None => t1
    case Some(row) => AfterSlots(t1, row.id, Slots(f))
  }

  /** The tables after `insert_terms(conn, terms)`. */
  function AfterInsertTerms(t: Tables, terms: OD.Dict<Forms>): Tables
    decreases |terms|
  {
    if terms == [] then t else AfterInsertTerms(AfterEntry(t, terms[0].0, terms[0].1), terms[1..])
  }

  /** `insert_terms`: for each term, the word row, a lookup of its id, then one row per stored form. */
  method InsertTerms(db: Database, terms: OD.Dict<Forms>)
    requires db.Valid()
    modifies db
    ensures db.Valid()
    ensures db.State() == AfterInsertTerms(old(db.State()), terms)
  {
    for k := 0 to |terms|
      invariant db.Valid()
      invariant AfterInsertTerms(db.State(), terms[k..]) == AfterInsertTerms(old(db.State()), terms)
    {
      var (lemmaText, forms) := terms[k];
      assert terms[k..][1..] == terms[k + 1..];
      ghost var before := db.State();
      db.InsertOrIgnoreWordRow(lemmaText, NounPos);
      var row := db.SelectWordId(lemmaText);
      if row.None? {
        continue;
      }
      var lemmaId := row.value;
      ghost var t1 := db.State();
      var slots := Slots(forms);
      for j := 0 to |slots|
        invariant db.Valid()
        invariant AfterSlots(db.State(), lemmaId, slots[j..]) == AfterSlots(t1, lemmaId, slots)
      {
        var (pos, form) := slots[j];
        assert slots[j..][1..] == slots[j + 1..];
        if form != "" && form != NA {
          db.InsertDerivedRow(lemmaId, form, pos, Morphological);
        }
      }
      assert db.State() == AfterEntry(before, lemmaText, forms);
    }
  }

  // ---------------------------------------------------------------------------
  // What insert_terms does to the tables
  // ---------------------------------------------------------------------------

  /** A derived row without its id: what `insert_terms` asks to be recorded. */
  datatype Claim = Claim(lemmaId: int, form: string, pos: string, relationType: string)

  function ClaimOf(row: DerivedRow): Claim {
    Claim(row.lemmaId, row.form, row.pos, row.relationType)
  }

  function Claims(rows: seq<DerivedRow>): seq<Claim> {
    if rows == [] then [] else [ClaimOf(rows[0])] + Claims(rows[1..])
  }

  /** The rows one lemma's slots ask for: one per stored form, in slot order. */
  function SlotClaims(lemmaId: int, slots: seq<(string, string)>): seq<Claim>
    decreases |slots|
  {
    if slots == [] then []
    else (if Stored(slots[0].1) then [Claim(lemmaId, slots[0].1, slots[0].0, Morphological)] else [])
         + SlotClaims(lemmaId, slots[1..])
  }

  /** The rows the terms ask for, each carrying the id its lemma has in `words`. */
  function ExpectedClaims(words: seq<WordRow>, terms: OD.Dict<Forms>): seq<Claim>
    decreases |terms|
  {
    if terms == [] then []
    else
      (match FindLemma(words, terms[0].0)
       case None => []
       case Some(row) => SlotClaims(row.id, Slots(terms[0].1)))
      + ExpectedClaims(words, terms[1..])
  }

  lemma {:induction false} ClaimsAppend(a: seq<DerivedRow>, b: seq<DerivedRow>)
    ensures Claims(a + b) == Claims(a) + Claims(b)
    decreases |a|
  {
    if a == [] {
      assert a + b == b;
    } else {
      assert (a + b)[1..] == a[1..] + b;
      ClaimsAppend(a[1..], b);
    }
  }

  /** The claims of the rows, one by one. */
  lemma {:induction false} ClaimsAt(rows: seq<DerivedRow>)
    ensures |Claims(rows)| == |rows|
    ensures forall i :: 0 <= i < |rows| ==> Claims(rows)[i] == ClaimOf(rows[i])
    decreases |rows|
  {
    if rows != [] {
      ClaimsAt(rows[1..]);
    }
  }

  /** Slot rows are appended behind the existing ones, with consecutive fresh ids; no word changes. */
  lemma {:induction false} AfterSlotsEffect(t: Tables, lemmaId: int, slots: seq<(string, string)>)
    requires TablesValid(t)
    ensures var r := AfterSlots(t, lemmaId, slots);
            && TablesValid(r)
            && r.words == t.words && r.wordSeq == t.wordSeq
            && |r.derived| >= |t.derived|
            && r.derived[..|t.derived|] == t.derived
            && Claims(r.derived[|t.derived|..]) == SlotClaims(lemmaId, slots)
    decreases |slots|
  {
    if slots != [] {
      var t1 := if Stored(slots[0].1) then InsertDerived(t, lemmaId, slots[0].1, slots[0].0, Morphological) else t;
      if Stored(slots[0].1) {
        InsertDerivedValid(t, lemmaId, slots[0].1, slots[0].0, Morphological);
      }
      AfterSlotsEffect(t1, lemmaId, slots[1..]);
      var r := AfterSlots(t, lemmaId, slots);
      assert r.derived[..|t1.derived|][..|t.derived|] == r.derived[..|t.derived|];
      assert r.derived[|t.derived|..] == t1.derived[|t.derived|..] + r.derived[|t1.derived|..];
      ClaimsAppend(t1.derived[|t.derived|..], r.derived[|t1.derived|..]);
    }
  }

  /** A lemma found in a prefix of the rows is found at the same row in all of them. */
  lemma {:induction false} FindLemmaExtend(words: seq<WordRow>, more: seq<WordRow>, lemmaText: string)
    requires FindLemma(words, lemmaText).Some?
    ensures FindLemma(words + more, lemmaText) == FindLemma(words, lemmaText)
    decreases |words|
  {
    if words[0].lemmaText != lemmaText {
      assert (words + more)[1..] == words[1..] + more;
      FindLemmaExtend(words[1..], more, lemmaText);
    }
  }

  /** One term keeps the tables well formed and leaves the rows that were there untouched. */
  lemma AfterEntryKeepsRows(t: Tables, lemmaText: string, f: Forms)
    requires TablesValid(t)
    ensures var r := AfterEntry(t, lemmaText, f);
            && TablesValid(r)
            && |t.words| <= |r.words| <= |t.words| + 1
            && r.words[..|t.words|] == t.words
            && |r.derived| >= |t.derived|
            && r.derived[..|t.derived|] == t.derived
  {
    InsertOrIgnoreWordValid(t, lemmaText, NounPos);
    var t1 := InsertOrIgnoreWord(t, lemmaText, NounPos);
    AfterSlotsEffect(t1, FindLemma(t1.words, lemmaText).value.id, Slots(f));
  }

  /** One term: the word row it may add is a noun row for it, and its lemma is then found. */
  lemma AfterEntryWord(t: Tables, lemmaText: string, f: Forms)
    requires TablesValid(t)
    ensures var r := AfterEntry(t, lemmaText, f);
            && (|r.words| > |t.words| ==> r.words[|t.words|].lemmaText == lemmaText && r.words[|t.words|].pos == NounPos)
            && FindLemma(r.words, lemmaText).Some?
  {
    InsertOrIgnoreWordValid(t, lemmaText, NounPos);
    var t1 := InsertOrIgnoreWord(t, lemmaText, NounPos);
    AfterSlotsEffect(t1, FindLemma(t1.words, lemmaText).value.id, Slots(f));
  }

  /** One term: the derived rows it appends are its slot rows, with the id its lemma has. */
  lemma AfterEntryClaims(t: Tables, lemmaText: string, f: Forms)
    requires TablesValid(t)
    ensures var r := AfterEntry(t, lemmaText, f);
            && FindLemma(r.words, lemmaText).Some?
            && |r.derived| >= |t.derived|
            && Claims(r.derived[|t.derived|..]) == SlotClaims(FindLemma(r.words, lemmaText).value.id, Slots(f))
  {
    InsertOrIgnoreWordValid(t, lemmaText, NounPos);
    var t1 := InsertOrIgnoreWord(t, lemmaText, NounPos);
    AfterSlotsEffect(t1, FindLemma(t1.words, lemmaText).value.id, Slots(f));
  }

  /** After `insert_terms` the tables are well formed and the rows that were there are untouched. */
  lemma {:induction false} InsertTermsKeepsRows(t: Tables, terms: OD.Dict<Forms>)
    requires TablesValid(t)
    ensures var r := AfterInsertTerms(t, terms);
            && TablesValid(r)
            && |r.words| >= |t.words| && r.words[..|t.words|] == t.words
            && |r.derived| >= |t.derived| && r.derived[..|t.derived|] == t.derived
    decreases |terms|
  {
    if terms != [] {
      var t1 := AfterEntry(t, terms[0].0, terms[0].1);
      AfterEntryKeepsRows(t, terms[0].0, terms[0].1);
      InsertTermsKeepsRows(t1, terms[1..]);
      var r := AfterInsertTerms(t1, terms[1..]);
      assert r.words[..|t1.words|][..|t.words|] == r.words[..|t.words|];
      assert r.derived[..|t1.derived|][..|t.derived|] == r.derived[..|t.derived|];
    }
  }

  /** Every word row `insert_terms` adds is a noun row for one of the terms. */
  lemma {:induction false} InsertTermsAddsNouns(t: Tables, terms: OD.Dict<Forms>)
    requires TablesValid(t)
    ensures var r := AfterInsertTerms(t, terms);
            forall i :: |t.words| <= i < |r.words| ==> r.words[i].pos == NounPos && OD.HasKey(terms, r.words[i].lemmaText)
    decreases |terms|
  {
    if terms != [] {
      var t1 := AfterEntry(t, terms[0].0, terms[0].1);
      AfterEntryKeepsRows(t, terms[0].0, terms[0].1);
      AfterEntryWord(t, terms[0].0, terms[0].1);
      InsertTermsAddsNouns(t1, terms[1..]);
      InsertTermsKeepsRows(t1, terms[1..]);
      var r := AfterInsertTerms(t1, terms[1..]);
      forall i | |t.words| <= i < |r.words|
        ensures r.words[i].pos == NounPos && OD.HasKey(terms, r.words[i].lemmaText)
      {
        if i < |t1.words| {
          assert r.words[i] == t1.words[i] == t1.words[|t.words|];
          assert terms[0].0 == r.words[i].lemmaText;
        } else {
          var j :| 0 <= j < |terms[1..]| && terms[1..][j].0 == r.words[i].lemmaText;
          assert terms[j + 1].0 == r.words[i].lemmaText;
        }
      }
    }
  }

  /** After `insert_terms` every lemma of the terms has a word row. */
  lemma {:induction false} InsertTermsFindsLemmas(t: Tables, terms: OD.Dict<Forms>)
    requires TablesValid(t)
    ensures forall k :: 0 <= k < |terms| ==> FindLemma(AfterInsertTerms(t, terms).words, terms[k].0).Some?
    decreases |terms|
  {
    if terms != [] {
      var t1 := AfterEntry(t, terms[0].0, terms[0].1);
      FirstTermClaims(t, terms);
      InsertTermsFindsLemmas(t1, terms[1..]);
      var r := AfterInsertTerms(t1, terms[1..]);
      forall k | 1 <= k < |terms| ensures FindLemma(r.words, terms[k].0).Some? {
        assert terms[1..][k - 1] == terms[k];
      }
    }
  }

  /** Exactly one row of `words` carries the lemma. */
  predicate OccursOnce(words: seq<WordRow>, lemmaText: string) {
    exists i :: 0 <= i < |words| && words[i].lemmaText == lemmaText
                && forall j :: 0 <= j < |words| && words[j].lemmaText == lemmaText ==> j == i
  }

  /** After `insert_terms`, every lemma of the terms occurs exactly once in `words`. */
  lemma InsertTermsLemmasOnce(t: Tables, terms: OD.Dict<Forms>)
    requires TablesValid(t)
    ensures forall k :: 0 <= k < |terms| ==> OccursOnce(AfterInsertTerms(t, terms).words, terms[k].0)
  {
    InsertTermsFindsLemmas(t, terms);
    InsertTermsKeepsRows(t, terms);
    var words := AfterInsertTerms(t, terms).words;
    assert LemmasUnique(words);
    forall k | 0 <= k < |terms| ensures OccursOnce(words, terms[k].0) {
      var row := FindLemma(words, terms[k].0).value;
      var i :| 0 <= i < |words| && words[i] == row && row.lemmaText == terms[k].0;
      assert words[i].lemmaText == terms[k].0;
    }
  }

  /** The inductive step of `InsertTermsAppendsClaims`, on the row sequences alone. */
  lemma ClaimsOfTwoSteps(d0: seq<DerivedRow>, d1: seq<DerivedRow>, d2: seq<DerivedRow>, words: seq<WordRow>,
                         id: int, terms: OD.Dict<Forms>)
    requires terms != []
    requires |d0| <= |d1| <= |d2| && d2[..|d1|] == d1
    requires FindLemma(words, terms[0].0).Some? && FindLemma(words, terms[0].0).value.id == id
    requires Claims(d1[|d0|..]) == SlotClaims(id, Slots(terms[0].1))
    requires Claims(d2[|d1|..]) == ExpectedClaims(words, terms[1..])
    ensures Claims(d2[|d0|..]) == ExpectedClaims(words, terms)
  {
    var a, b := d1[|d0|..], d2[|d1|..];
    SuffixSplit(d1, d2, |d0|);
    ClaimsAppend(a, b);
    assert ExpectedClaims(words, terms) == SlotClaims(id, Slots(terms[0].1)) + ExpectedClaims(words, terms[1..]);
  }

  /** A suffix of a sequence extending `d1` is the matching suffix of `d1`, then the extension. */
  lemma SuffixSplit<T>(d1: seq<T>, d2: seq<T>, i: nat)
    requires i <= |d1| <= |d2| && d2[..|d1|] == d1
    ensures d2[i..] == d1[i..] + d2[|d1|..]
  {
    assert d2 == d2[..|d1|] + d2[|d1|..];
  }

  /**
   * `insert_terms` appends exactly the rows the terms ask for: one per stored form, term by
   * term and slot by slot, each with its lemma's id, its slot key and "morphological".
   */
  lemma {:induction false} InsertTermsAppendsClaims(t: Tables, terms: OD.Dict<Forms>)
    requires TablesValid(t)
    ensures var r := AfterInsertTerms(t, terms);
            |r.derived| >= |t.derived| && Claims(r.derived[|t.derived|..]) == ExpectedClaims(r.words, terms)
    decreases |terms|
  {
    if terms != [] {
      var t1 := AfterEntry(t, terms[0].0, terms[0].1);
      var r := AfterInsertTerms(t1, terms[1..]);
      FirstTermClaims(t, terms);
      InsertTermsAppendsClaims(t1, terms[1..]);
      assert AfterInsertTerms(t, terms) == r;
      ClaimsOfTwoSteps(t.derived, t1.derived, r.derived, r.words, FindLemma(t1.words, terms[0].0).value.id, terms);
    }
  }

  /** What the first term of `insert_terms` leaves behind, seen from the end of the whole loop. */
  lemma FirstTermClaims(t: Tables, terms: OD.Dict<Forms>)
    requires TablesValid(t) && terms != []
    ensures var t1 := AfterEntry(t, terms[0].0, terms[0].1);
            var r := AfterInsertTerms(t1, terms[1..]);
            && TablesValid(t1)
            && |t.derived| <= |t1.derived| <= |r.derived| && r.derived[..|t1.derived|] == t1.derived
            && FindLemma(t1.words, terms[0].0).Some?
            && FindLemma(r.words, terms[0].0) == FindLemma(t1.words, terms[0].0)
            && Claims(t1.derived[|t.derived|..]) == SlotClaims(FindLemma(t1.words, terms[0].0).value.id, Slots(terms[0].1))
  {
    var t1 := AfterEntry(t, terms[0].0, terms[0].1);
    AfterEntryKeepsRows(t, terms[0].0, terms[0].1);
    AfterEntryClaims(t, terms[0].0, terms[0].1);
    InsertTermsKeepsRows(t1, terms[1..]);
    var r := AfterInsertTerms(t1, terms[1..]);
    assert r.words == t1.words + r.words[|t1.words|..];
    FindLemmaExtend(t1.words, r.words[|t1.words|..], terms[0].0);
  }

  // ===========================================================================
  // main: the chunk loop
  // ===========================================================================

  /** `range(start, stop, step)` for a non-zero step. */
  function RangeStarts(start: int, stop: int, step: int): seq<int>
    requires step != 0
    decreases if step > 0 then stop - start else start - stop
  {
    if (step > 0 && start < stop) || (step < 0 && stop < start) then [start] + RangeStarts(start + step, stop, step)
    else []
  }

  /** A positive step gives `start`, `start + step`, ... up to but excluding `stop`. */
  lemma {:induction false} RangeStartsAscending(start: int, stop: int, step: int)
    requires step > 0
    ensures var r := RangeStarts(start, stop, step);
            && (r == [] <==> stop <= start)
            && (r != [] ==> r[0] == start && stop <= r[|r| - 1] + step)
            && (forall k :: 0 <= k < |r| ==> start <= r[k] < stop)
            && (forall k :: 0 <= k < |r| - 1 ==> r[k + 1] == r[k] + step)
    decreases stop - start
  {
    if start < stop {
      RangeStartsAscending(start + step, stop, step);
      var r := RangeStarts(start, stop, step);
      assert forall k :: 1 <= k < |r| ==> r[k] == RangeStarts(start + step, stop, step)[k - 1];
    }
  }

  /** The chunks `word_list[i:i + chunk_size]` for `i in range(start, len(word_list), chunk_size)`. */
  function Chunks(words: seq<string>, start: int, size: int): seq<seq<string>>
    requires size != 0
  {
    var starts := RangeStarts(start, |words|, size);
    seq(|starts|, k requires 0 <= k < |starts| => Slice(words, starts[k], starts[k] + size))
  }

  /** The first chunk, then the chunks of the range that starts one step later. */
  lemma ChunksUnfold(words: seq<string>, start: int, size: int)
    requires size != 0 && Chunks(words, start, size) != []
    ensures Chunks(words, start, size) == [Slice(words, start, start + size)] + Chunks(words, start + size, size)
  {
    var starts := RangeStarts(start, |words|, size);
    var rest := RangeStarts(start + size, |words|, size);
    assert starts == [start] + rest;
    var cs := Chunks(words, start, size);
    var more := Chunks(words, start + size, size);
    assert |cs| == 1 + |more|;
    forall k | 1 <= k < |cs| ensures cs[k] == more[k - 1] {
      assert starts[k] == rest[k - 1];
    }
  }

  /** Resuming at `start + chunk_size` processes the same chunks, less the first. */
  lemma ChunksResume(words: seq<string>, start: int, size: int)
    requires size != 0 && Chunks(words, start, size) != []
    ensures Chunks(words, start + size, size) == Chunks(words, start, size)[1..]
  {
    ChunksUnfold(words, start, size);
  }

  /** Resuming `k` chunks later processes the chunks from the `k`-th on. */
  lemma {:induction false} ChunksSkip(words: seq<string>, start: int, size: int, k: nat)
    requires size != 0 && k <= |Chunks(words, start, size)|
    ensures Chunks(words, start + k * size, size) == Chunks(words, start, size)[k..]
    decreases k
  {
    if k > 0 {
      ChunksResume(words, start, size);
      ChunksSkip(words, start + size, size, k - 1);
      assert start + size + (k - 1) * size == start + k * size;
    }
  }

  /** Each chunk is non-empty and holds at most `chunk_size` words. */
  lemma {:induction false} ChunkSizes(words: seq<string>, start: int, size: int)
    requires 0 <= start && 0 < size
    ensures forall c :: c in Chunks(words, start, size) ==> 1 <= |c| <= size
    decreases |words| - start
  {
    if Chunks(words, start, size) != [] {
      ChunksUnfold(words, start, size);
      ChunkSizes(words, start + size, size);
      RangeStartsAscending(start, |words|, size);
    }
  }

  function Concat(cs: seq<seq<string>>): seq<string> {
    if cs == [] then [] else cs[0] + Concat(cs[1..])
  }

  /** In order, the chunks are exactly the words from `start` on. */
  lemma {:induction false} ChunksConcat(words: seq<string>, start: int, size: int)
    requires 0 <= start && 0 < size
    ensures Concat(Chunks(words, start, size)) == if start < |words| then words[start..] else []
    decreases |words| - start
  {
    if start < |words| {
      var cs := Chunks(words, start, size);
      ChunksUnfold(words, start, size);
      ChunksConcat(words, start + size, size);
      FirstChunkThenRest(words, start, size);
      assert Concat(cs) == cs[0] + Concat(cs[1..]);
    } else {
      assert RangeStarts(start, |words|, size) == [];
    }
  }

  /** The first chunk followed by the words after it is everything from `start` on. */
  lemma FirstChunkThenRest(words: seq<string>, start: nat, size: int)
    requires start < |words| && 0 < size
    ensures Slice(words, start, start + size) + (if start + size < |words| then words[start + size..] else [])
            == words[start..]
  {
    var end := if start + size < |words| then start + size else |words|;
    assert Slice(words, start, start + size) == words[start..end];
    assert words[start..] == words[start..end] + words[end..];
  }

  /** One iteration of the chunk loop: the chunk's terms are inserted unless there are none. */
  function ChunkStep(t: Tables, chunk: seq<string>, paisa: set<string>,
                     llm: seq<string> -> nat -> MistralInterface.CallOutcome, decode: string -> Option<Value>): Tables
  {
    var terms := ChunkTerms(chunk, paisa, llm, decode);
    if terms == [] then t else AfterInsertTerms(t, terms)
  }

  /** A chunk whose call gives up inserts nothing: the tables are left as they were. */
  lemma FailedCallLeavesTables(t: Tables, chunk: seq<string>, paisa: set<string>,
                               llm: seq<string> -> nat -> MistralInterface.CallOutcome, decode: string -> Option<Value>)
    requires decode("") == None
    requires !MistralInterface.Invoke(llm(chunk), DefaultAttempts).success
    ensures ChunkStep(t, chunk, paisa, llm, decode) == t
  {
    FailedCallGivesNoTerms(chunk, paisa, llm, decode);
  }

  /** The tables after the loop has gone through the chunks in order. */
  function AfterChunks(t: Tables, chunks: seq<seq<string>>, paisa: set<string>,
                       llm: seq<string> -> nat -> MistralInterface.CallOutcome, decode: string -> Option<Value>): Tables
    decreases |chunks|
  {
    if chunks == [] then t
    else AfterChunks(ChunkStep(t, chunks[0], paisa, llm, decode), chunks[1..], paisa, llm, decode)
  }

  /** The tables after `main(start, chunk_size)`'s loop. */
  function AfterRun(t: Tables, words: seq<string>, start: int, size: int, paisa: set<string>,
                    llm: seq<string> -> nat -> MistralInterface.CallOutcome, decode: string -> Option<Value>): Tables
    requires size != 0
  {
    AfterChunks(t, Chunks(words, start, size), paisa, llm, decode)
  }

  lemma {:induction false} AfterChunksSplit(t: Tables, a: seq<seq<string>>, b: seq<seq<string>>, paisa: set<string>,
                                            llm: seq<string> -> nat -> MistralInterface.CallOutcome,
                                            decode: string -> Option<Value>)
    ensures AfterChunks(t, a + b, paisa, llm, decode) == AfterChunks(AfterChunks(t, a, paisa, llm, decode), b, paisa, llm, decode)
    decreases |a|
  {
    if a == [] {
      assert a + b == b;
    } else {
      assert (a + b)[1..] == a[1..] + b;
      AfterChunksSplit(ChunkStep(t, a[0], paisa, llm, decode), a[1..], b, paisa, llm, decode);
    }
  }

  /**
   * A run interrupted after `k` chunks and restarted with `--start` moved `k` chunks on ends with
   * the same tables as the uninterrupted run.
   */
  lemma ResumedRunEqualsFullRun(t: Tables, words: seq<string>, start: int, size: int, k: nat, paisa: set<string>,
                                llm: seq<string> -> nat -> MistralInterface.CallOutcome, decode: string -> Option<Value>)
    requires size != 0 && k <= |Chunks(words, start, size)|
    ensures var cs := Chunks(words, start, size);
            AfterRun(AfterChunks(t, cs[..k], paisa, llm, decode), words, start + k * size, size, paisa, llm, decode)
            == AfterRun(t, words, start, size, paisa, llm, decode)
  {
    var cs := Chunks(words, start, size);
    ChunksSkip(words, start, size, k);
    assert cs == cs[..k] + cs[k..];
    AfterChunksSplit(t, cs[..k], cs[k..], paisa, llm, decode);
  }

  // ---------------------------------------------------------------------------
  // What a run leaves in the tables
  // ---------------------------------------------------------------------------

  /** A derived row the pipeline may write: a vocabulary form, of an existing word, in a slot. */
  predicate Attested(c: Claim, words: seq<WordRow>, paisa: set<string>) {
    && c.form in paisa
    && c.relationType == Morphological
    && c.pos in {"a", "v", "r"}
    && exists j :: 0 <= j < |words| && words[j].id == c.lemmaId
  }

  lemma {:induction false} SlotClaimsAttested(words: seq<WordRow>, j: nat, f: Forms, paisa: set<string>)
    requires j < |words| && InVocabulary(f, paisa)
    ensures forall c :: c in SlotClaims(words[j].id, Slots(f)) ==> Attested(c, words, paisa)
  {
    var id := words[j].id;
    var s := Slots(f);
    assert s[1..] == [("v", f.v), ("r", f.r)];
    assert s[1..][1..] == [("r", f.r)];
    assert s[1..][1..][1..] == [];
    var cr := if Stored(f.r) then [Claim(id, f.r, "r", Morphological)] else [];
    var cv := if Stored(f.v) then [Claim(id, f.v, "v", Morphological)] else [];
    var ca := if Stored(f.a) then [Claim(id, f.a, "a", Morphological)] else [];
    assert SlotClaims(id, s[1..][1..]) == cr + [];
    assert SlotClaims(id, s[1..]) == cv + cr;
    assert SlotClaims(id, s) == ca + (cv + cr);
    forall c | c in ca + (cv + cr) ensures Attested(c, words, paisa) {
      assert words[j].id == c.lemmaId;
    }
  }

  /** Every row the terms ask for carries a vocabulary form, a slot key and an existing word's id. */
  lemma {:induction false} ExpectedClaimsAttested(words: seq<WordRow>, terms: OD.Dict<Forms>, paisa: set<string>)
    requires AllInVocabulary(terms, paisa)
    ensures forall c :: c in ExpectedClaims(words, terms) ==> Attested(c, words, paisa)
    decreases |terms|
  {
    if terms != [] {
      assert AllInVocabulary(terms[1..], paisa) by {
        forall i | 0 <= i < |terms[1..]| ensures InVocabulary(terms[1..][i].1, paisa) {
          assert terms[1..][i] == terms[i + 1];
        }
      }
      ExpectedClaimsAttested(words, terms[1..], paisa);
      match FindLemma(words, terms[0].0)
      case None =>
      case Some(row) =>
        var j :| 0 <= j < |words| && words[j] == row;
        SlotClaimsAttested(words, j, terms[0].1, paisa);
    }
  }

  /** The derived rows from index `from` on are attested against these words. */
  predicate RowsAttested(derived: seq<DerivedRow>, from: nat, words: seq<WordRow>, paisa: set<string>) {
    forall i :: from <= i < |derived| ==> Attested(ClaimOf(derived[i]), words, paisa)
  }

  /** Attestation survives adding word rows. */
  lemma RowsAttestedExtend(derived: seq<DerivedRow>, from: nat, words: seq<WordRow>, more: seq<WordRow>, paisa: set<string>)
    requires RowsAttested(derived, from, words, paisa)
    ensures RowsAttested(derived, from, words + more, paisa)
  {
    forall i | from <= i < |derived| ensures Attested(ClaimOf(derived[i]), words + more, paisa) {
      var j :| 0 <= j < |words| && words[j].id == derived[i].lemmaId;
      assert (words + more)[j] == words[j];
    }
  }

  /** One chunk: tables stay well formed, old rows stay, and every new derived row is attested. */
  lemma ChunkStepEffect(t: Tables, chunk: seq<string>, paisa: set<string>,
                        llm: seq<string> -> nat -> MistralInterface.CallOutcome, decode: string -> Option<Value>)
    requires TablesValid(t)
    ensures var r := ChunkStep(t, chunk, paisa, llm, decode);
            && TablesValid(r)
            && |r.words| >= |t.words| && r.words[..|t.words|] == t.words
            && |r.derived| >= |t.derived| && r.derived[..|t.derived|] == t.derived
            && RowsAttested(r.derived, |t.derived|, r.words, paisa)
  {
    var terms := ChunkTerms(chunk, paisa, llm, decode);
    if terms != [] {
      var r := AfterInsertTerms(t, terms);
      InsertTermsKeepsRows(t, terms);
      InsertTermsAppendsClaims(t, terms);
      ExpectedClaimsAttested(r.words, terms, paisa);
      var added := r.derived[|t.derived|..];
      ClaimsAt(added);
      forall i | |t.derived| <= i < |r.derived| ensures Attested(ClaimOf(r.derived[i]), r.words, paisa) {
        assert ClaimOf(r.derived[i]) == Claims(added)[i - |t.derived|];
      }
    }
  }

  /** A whole run keeps the tables well formed and never changes a row that was there. */
  lemma {:induction false} RunKeepsRows(t: Tables, chunks: seq<seq<string>>, paisa: set<string>,
                                        llm: seq<string> -> nat -> MistralInterface.CallOutcome,
                                        decode: string -> Option<Value>)
    requires TablesValid(t)
    ensures var r := AfterChunks(t, chunks, paisa, llm, decode);
            && TablesValid(r)
            && |r.words| >= |t.words| && r.words[..|t.words|] == t.words
            && |r.derived| >= |t.derived| && r.derived[..|t.derived|] == t.derived
    decreases |chunks|
  {
    if chunks != [] {
      var t1 := ChunkStep(t, chunks[0], paisa, llm, decode);
      ChunkStepEffect(t, chunks[0], paisa, llm, decode);
      RunKeepsRows(t1, chunks[1..], paisa, llm, decode);
      var r := AfterChunks(t1, chunks[1..], paisa, llm, decode);
      assert r.words[..|t1.words|][..|t.words|] == r.words[..|t.words|];
      assert r.derived[..|t1.derived|][..|t.derived|] == r.derived[..|t.derived|];
    }
  }

  /**
   * A whole run writes only derived rows whose form is in the vocabulary, whose slot is a, v
   * or r, whose relation is "morphological" and whose lemma id is that of a word row.
   */
  lemma {:induction false} RunWritesAttestedRows(t: Tables, chunks: seq<seq<string>>, paisa: set<string>,
                                                 llm: seq<string> -> nat -> MistralInterface.CallOutcome,
                                                 decode: string -> Option<Value>)
    requires TablesValid(t)
    ensures var r := AfterChunks(t, chunks, paisa, llm, decode);
            |r.derived| >= |t.derived| && RowsAttested(r.derived, |t.derived|, r.words, paisa)
    decreases |chunks|
  {
    RunKeepsRows(t, chunks, paisa, llm, decode);
    if chunks != [] {
      var t1 := ChunkStep(t, chunks[0], paisa, llm, decode);
      ChunkStepEffect(t, chunks[0], paisa, llm, decode);
      RunWritesAttestedRows(t1, chunks[1..], paisa, llm, decode);
      RunKeepsRows(t1, chunks[1..], paisa, llm, decode);
      var r := AfterChunks(t1, chunks[1..], paisa, llm, decode);
      assert r.words == t1.words + r.words[|t1.words|..];
      RowsAttestedExtend(t1.derived, |t.derived|, t1.words, r.words[|t1.words|..], paisa);
      forall i | |t.derived| <= i < |r.derived| ensures Attested(ClaimOf(r.derived[i]), r.words, paisa) {
        if i < |t1.derived| {
          assert r.derived[..|t1.derived|][i] == t1.derived[i];
        }
      }
    }
  }

  /** One iteration of the chunk loop: process the chunk, then insert its terms unless there are none. */
  method HandleChunk(db: Database, chunk: seq<string>, paisa: set<string>,
                     llm: seq<string> -> nat -> MistralInterface.CallOutcome, decode: string -> Option<Value>)
    requires db.Valid()
    modifies db
    ensures db.Valid()
    ensures db.State() == ChunkStep(old(db.State()), chunk, paisa, llm, decode)
  {
    var terms := ProcessChunk(chunk, paisa, llm, decode);
    if terms != [] {
      InsertTerms(db, terms);
    }
  }

  /** Processing one more chunk after a prefix of the chunks. */
  lemma AfterChunksNext(t: Tables, chunks: seq<seq<string>>, k: nat, paisa: set<string>,
                        llm: seq<string> -> nat -> MistralInterface.CallOutcome, decode: string -> Option<Value>)
    requires k < |chunks|
    ensures AfterChunks(t, chunks[..k + 1], paisa, llm, decode)
            == ChunkStep(AfterChunks(t, chunks[..k], paisa, llm, decode), chunks[k], paisa, llm, decode)
  {
    assert chunks[..k + 1] == chunks[..k] + [chunks[k]];
    AfterChunksSplit(t, chunks[..k], [chunks[k]], paisa, llm, decode);
  }

  /** The loop `for i in range(start, len(word_list), chunk_size)` of `main`. */
  method RunChunks(db: Database, wordList: seq<string>, start: int, chunkSize: int, paisa: set<string>,
                   llm: seq<string> -> nat -> MistralInterface.CallOutcome, decode: string -> Option<Value>)
    requires db.Valid() && chunkSize != 0
    modifies db
    ensures db.Valid()
    ensures db.State() == AfterRun(old(db.State()), wordList, start, chunkSize, paisa, llm, decode)
  {
    var starts := RangeStarts(start, |wordList|, chunkSize);
    ghost var t0 := db.State();
    ghost var chunks := Chunks(wordList, start, chunkSize);
    for k := 0 to |starts|
      invariant db.Valid()
      invariant db.State() == AfterChunks(t0, chunks[..k], paisa, llm, decode)
    {
      var i := starts[k];
      var chunk := Slice(wordList, i, i + chunkSize);
      assert chunks[k] == chunk;
      AfterChunksNext(t0, chunks, k, paisa, llm, decode);
      HandleChunk(db, chunk, paisa, llm, decode);
    }
    assert chunks[..|starts|] == chunks;
  }

  /**
   * `main(start, chunk_size)` after the tables exist: load the vocabulary, build the noun list,
   * then process and insert chunk by chunk. `ok` is false when `range` rejects a zero chunk
   * size, before any chunk is processed.
   */
  method Generate(db: Database, lexicon: seq<LexLemma>, paisaFile: Option<seq<string>>, start: int, chunkSize: int,
                  isDigit: char -> bool, isAlnum: char -> bool,
                  llm: seq<string> -> nat -> MistralInterface.CallOutcome, decode: string -> Option<Value>)
    returns (ok: bool, paisa: set<string>, wordList: seq<string>)
    requires db.Valid()
    modifies db
    ensures db.Valid()
    ensures IsVocabularyOf(paisa, paisaFile)
    ensures IsWordListOf(wordList, lexicon, isDigit, isAlnum)
    ensures ok <==> chunkSize != 0
    ensures ok ==> db.State() == AfterRun(old(db.State()), wordList, start, chunkSize, paisa, llm, decode)
    ensures !ok ==> db.State() == old(db.State())
  {
    paisa := LoadPaisaSet(paisaFile);
    wordList := BuildWordList(lexicon, isDigit, isAlnum);
    if chunkSize == 0 {
      return false, paisa, wordList;
    }
    RunChunks(db, wordList, start, chunkSize, paisa, llm, decode);
    ok := true;
  }
}
