# Italian derived-forms pipelines, modelled in Dafny

The repository `italian_derivatives` builds and cleans a small SQLite database of Italian
nouns and their morphologically derived forms. Each derived form is an adjective (`a`), a verb
(`v`) or an adverb (`r`). This project models the three pipelines that make up its core.

- **The retrying model client** (`MistralInterface.invokeLLM`). It makes up to `attempts`
  chat-completion calls and reads the content defensively from an SDK object or a dict.
  Missing or empty content and `SDKError` are retried. Any other exception stops the loop. The
  first truthy content is stripped and returned with `True`.
- **The generation pipeline** (`relationsBuilder.py`). It has five parts:
  - loading the paisà vocabulary;
  - filtering, sorting and deduplicating WordNet nouns;
  - cutting the noun list into chunks from `--start`;
  - asking the model for each chunk's derived forms and downgrading every form the vocabulary
    does not attest to `N/A`;
  - inserting the results into `words` (INSERT OR IGNORE on the unique lemma) and
    `derived_forms` (INSERT OR REPLACE, which always appends because the only key is the auto id).
- **The reconciliation dry run** (`dbRelationCleanup.py`). It works in five steps:
  - index the batch inputs by `custom_id`;
  - cut the derived and root terms out of each prompt with `str.find` and slicing, with a
    `derived -> root` fallback;
  - treat an answer containing "no" as a candidate;
  - confirm candidates with `--yes` or a typed reply, keeping them in a dict where the last
    write wins;
  - plan and render one `DELETE` statement per `derived_forms` row of each confirmed root
    word, found case-insensitively.

  The database is only read.

Each module is one file:
- `wrappers.dfy` (Option);
- `py_text.dfy` (Python string semantics: `strip`, ASCII `lower`, `find`, slicing, `split`,
  string order, `str(int)`);
- `py_value.dfy` (an abstract Python/JSON value with object and dict shapes);
- `ordered_dict.dfy` (an insertion-ordered dict with `d[k] = v`);
- `relation_store.dfy` (the two tables as a `Database` class with AUTOINCREMENT counters);
- `mistral_interface.dfy`;
- `relations_builder.dfy`;
- `db_relation_cleanup.dfy`.

The loops of the source are methods. Each method's `ensures` ties its result, or the new database
state, to a specification function. The properties of each pipeline are lemmas about those
functions.

Outside inputs are parameters:
- The SDK call is an oracle from attempt number to outcome.
- The model behind a chunk's prompt is `llm(chunk)`.
- `json.loads` is `decode`.
- The WordNet lexicon and the vocabulary file's lines are plain inputs.
- The JSONL records arrive already decoded.
- The replies to `input()` are a sequence.

## Model

| member | source | states |
|---|---|---|
| MistralInterface.ExtractContent | MistralInterface.py:58-72 | a result that is neither an SDK object nor a dict yields no content |
| MistralInterface.Classify | MistralInterface.py:74-87 | an attempt answers exactly when the content is a non-empty string, and the answer is that string stripped; it is retried exactly on `SDKError` or falsy content; any other exception is unexpected |
| MistralInterface.InvokeLLM | MistralInterface.py:43-88 | the retry loop returns the response, the success flag and the number of SDK calls given by the reference definition `Invoke` |
| MistralInterface.NoAttemptsNoCall | MistralInterface.py:43-48 | with `attempts <= 0` no call is made and `("", False)` is returned |
| MistralInterface.InvokeFromBounds | MistralInterface.py:48-88 | the loop never makes more than `attempts` calls, and every call before the last one was a transient failure |
| MistralInterface.SuccessMeansLastAnswered | MistralInterface.py:74-77 | a success returns the stripped content of the last call made; a failure always returns the empty response |
| MistralInterface.AtMostAttemptsCalls | MistralInterface.py:48 | at most `max(attempts, 0)` SDK calls are made |
| MistralInterface.AnswerAfterTransients | MistralInterface.py:74-84 | k transient failures followed by an answer give success with that answer after exactly k+1 calls |
| MistralInterface.UnexpectedAfterTransients | MistralInterface.py:85-88 | k transient failures followed by any other exception give `("", False)` after exactly k+1 calls |
| MistralInterface.AllTransient | MistralInterface.py:78-88 | when every attempt fails transiently the result is `("", False)` after exactly `attempts` calls |
| MistralInterface.LaterOutcomesIrrelevant | MistralInterface.py:74-77 | two SDKs that agree on the calls actually made give the same result: nothing after the stopping call is consulted |
| MistralInterface.ContentFoundInEveryShape | MistralInterface.py:59-72 | `choices[0].message.content` is found whichever of the result, the choice and the message are SDK objects or dicts |
| MistralInterface.WhitespaceContentSucceedsEmpty | MistralInterface.py:74-77 | whitespace-only content counts as success, with the empty string as response |
| MistralInterface.EmptyContentIsRetried | MistralInterface.py:78-84 | missing or `""` content is treated exactly like an `SDKError` |
| MistralInterface.NoChoicesIsRetried | MistralInterface.py:62-66 | a result whose `choices` is not a non-empty list counts as missing content and is retried |
| PyValue.GetOr | relationsBuilder.py:153-155 | `d.get(key, default)` is the default for an absent key and otherwise the value of an entry with that key |
| PyValue.First | MistralInterface.py:66-67 | `choices[0]` of a non-empty list is its first item; on a dict, an object, a number or None the access raises |
| PyValue.MemberOf | relationsBuilder.py:156-161 | `x in paisa_set` raises exactly for lists and dicts, and is true exactly for a string of the set |
| PyText.StripEmptyIff | relationsBuilder.py:108 | `line.strip() == ''` exactly when the line is empty or only whitespace |
| PyText.StripBounds | dbRelationCleanup.py:148-149 | `strip()` returns a slice of the string with only whitespace cut off at either end |
| PyText.StripIdempotent | dbRelationCleanup.py:139-149 | stripping an already stripped term changes nothing |
| PyText.LowerStripCommute | dbRelationCleanup.py:152 | `strip().lower()` equals `lower().strip()` |
| PyText.Find | dbRelationCleanup.py:117-131 | a result of `find(sub, start)` other than -1 is an index at or after `start` where `sub` occurs |
| PyText.FindLeast | dbRelationCleanup.py:117-131 | `find` gives -1 exactly when `sub` occurs nowhere at or after `start`, and otherwise no occurrence lies between `start` and the index it gives |
| PyText.FindFirstMatch | dbRelationCleanup.py:123 | a match at or after `start` with none before it is the index `find` returns |
| PyText.ContainsIff | dbRelationCleanup.py:138 | `sub in s` holds exactly when `sub` matches at some index |
| PyText.SliceBound | dbRelationCleanup.py:124 | a slice bound is clamped into the string, and a negative one counts from the end |
| PyText.SliceToMinusOne | dbRelationCleanup.py:123-124 | `s[i:-1]` drops the last character, which is what a failed `find` for the closing quote does |
| PyText.SplitOnce | dbRelationCleanup.py:139 | `split("->", 1)` gives the text before the first arrow and the text after it, which rejoin to the original |
| PyText.FirstFieldIsPrefix | relationsBuilder.py:110-113 | `line.split(",")[0]` is the prefix up to the first comma, or the whole line when it has none |
| PyText.LessTransitive | relationsBuilder.py:131 | Python's string order is transitive |
| PyText.LessTotal | relationsBuilder.py:131 | of two different strings one is less than the other |
| PyText.LessIrreflexive | relationsBuilder.py:131 | no string is less than itself |
| PyText.NatToString | dbRelationCleanup.py:198-199 | `str(n)` is a non-empty run of decimal digits without a leading zero |
| PyText.DecimalRoundTrip | dbRelationCleanup.py:198-199 | reading back the decimal digits of `str(n)` gives `n` |
| PyText.IntToStringInjective | dbRelationCleanup.py:198-199 | different row ids render as different text |
| OrderedDict.Get | dbRelationCleanup.py:111 | `d.get(k)` is None exactly when the key is absent |
| OrderedDict.GetEntry | dbRelationCleanup.py:111 | the value found for a key is the value of an entry with that key |
| OrderedDict.Put | dbRelationCleanup.py:160 | after `d[k] = v` the key gives `v`, every other key gives what it gave before, and keys stay distinct |
| OrderedDict.PutInPlace | dbRelationCleanup.py:160 | assignment keeps every existing key in its position and leaves other entries untouched |
| OrderedDict.PutNewKey | relationsBuilder.py:162 | a new key is appended at the end of the insertion order |
| OrderedDict.PutExistingKey | dbRelationCleanup.py:160 | reassigning an existing key does not change the dict's length |
| OrderedDict.PutEntries | relationsBuilder.py:162 | every entry after an assignment is an old entry or the new pair |
| OrderedDict.FromPairs | dbRelationCleanup.py:159-160 | the dict built by assigning pairs in order has distinct keys |
| OrderedDict.FromPairsLastWins | dbRelationCleanup.py:159-160 | each key holds the value of its last assignment |
| OrderedDict.FromPairsKeys | dbRelationCleanup.py:159-160 | the keys of the dict are exactly the keys that were assigned |
| RelationStore.FindLemma | relationsBuilder.py:172-173 | the lookup finds nothing exactly when no row has the lemma, and otherwise a row of `words` carrying that lemma |
| RelationStore.FindLemmaNoCase | dbRelationCleanup.py:175 | the row found for the root is a row of `words` |
| RelationStore.FindLemmaNoCaseFirst | dbRelationCleanup.py:175 | the NOCASE lookup finds nothing exactly when no lemma equals the root ignoring ASCII case, and otherwise the first such row of a rowid-order scan |
| RelationStore.FindLemmaNoCaseUnique | dbRelationCleanup.py:175 | when only one lemma equals the root ignoring case, that row is the one found, whatever order the rows are visited in |
| RelationStore.RowsOf | dbRelationCleanup.py:181 | the selected rows are exactly the `derived_forms` rows with that `lemma_id` |
| RelationStore.RowsOfAscending | dbRelationCleanup.py:181 | over a table in ascending id order, the selected rows come in ascending id order as well |
| RelationStore.InsertOrIgnoreWordValid | relationsBuilder.py:171 | INSERT OR IGNORE keeps the tables well formed, keeps existing word rows and all derived rows, adds at most one word row, leaves the lemma present, and uses up one AUTOINCREMENT id even when the row is ignored |
| RelationStore.InsertDerivedValid | relationsBuilder.py:180-186 | appending a derived row with the next auto id keeps the tables well formed |
| RelationStore.Database.InsertOrIgnoreWordRow | relationsBuilder.py:171 | the connection's new state is the old one after INSERT OR IGNORE (a new lemma appended under the next id, an existing one left alone, the counter advanced in both cases), still well formed |
| RelationStore.Database.SelectWordId | relationsBuilder.py:172-177 | `fetchone()` gives the id of the row with that lemma, or nothing exactly when there is none |
| RelationStore.Database.SelectWordIdNoCase | dbRelationCleanup.py:175-179 | `fetchone()` gives the id of the first NOCASE-equal lemma row, or nothing exactly when there is none |
| RelationStore.Database.SelectDerivedRows | dbRelationCleanup.py:181 | `fetchall()` gives the rows with that `lemma_id`, in the order of a scan of the table (ascending ids, by `RowsOfAscending`) |
| RelationStore.Database.InsertDerivedRow | relationsBuilder.py:180-186 | the connection's new state has the row appended under the next auto id, still well formed |
| RelationsBuilder.LineLemmaOfField | relationsBuilder.py:110-113 | a `lemma,frequency` line contributes its stripped lemma field |
| RelationsBuilder.CollectMember | relationsBuilder.py:106-115 | a lemma is in the set exactly when some line contributes it |
| RelationsBuilder.LoadPaisaSet | relationsBuilder.py:100-115 | a missing file gives the empty set; otherwise the set holds exactly the stripped first fields of the lines that are not empty, comments or blank |
| RelationsBuilder.CollectNext | relationsBuilder.py:107-114 | the set after one more line is the set before it with that line's term, if any, added |
| RelationsBuilder.CollectIsVocabulary | relationsBuilder.py:106-115 | the collected set holds a text exactly when it is the stripped first field of a line that is kept |
| RelationsBuilder.StrictlySortedDistinct | relationsBuilder.py:131 | a strictly sorted word list has no duplicates |
| RelationsBuilder.InsertSorted | relationsBuilder.py:131 | inserting into a sorted set list keeps it strictly sorted, with exactly the old elements and the new one |
| RelationsBuilder.SortedSet | relationsBuilder.py:131 | `sorted(set(xs))` is strictly sorted and has exactly the elements of `xs` |
| RelationsBuilder.SortedListsWithSameElements | relationsBuilder.py:131 | two strictly sorted lists with the same elements are equal |
| RelationsBuilder.WordListUnique | relationsBuilder.py:118-132 | the word list of a lexicon is determined uniquely |
| RelationsBuilder.BuildWordList | relationsBuilder.py:118-132 | the list is strictly sorted and holds exactly the string texts of pos-`n` lemmas without digits and with only alphanumerics, spaces and hyphens |
| RelationsBuilder.CheckForm | relationsBuilder.py:156-161 | a checked form is `N/A` or in the vocabulary; a vocabulary string is kept verbatim; any other string becomes `N/A`; a list or dict raises |
| RelationsBuilder.EntryForms | relationsBuilder.py:148-162 | the stored forms are all `N/A` or in the vocabulary; an entry that is not a dict, lacks `morpho` or has falsy `morpho` gets all three `N/A`; a truthy non-dict `morpho` raises |
| RelationsBuilder.EntryFormsOfMorphoDict | relationsBuilder.py:151-161 | with a dict `morpho`, the entry raises exactly when one of the three proposals is a list or dict, and otherwise each slot holds its checked proposal |
| RelationsBuilder.ProposedLemmaKept | relationsBuilder.py:153-161 | a proposed form in the vocabulary is stored verbatim in its slot |
| RelationsBuilder.Validate | relationsBuilder.py:143-165 | every stored form is `N/A` or in the vocabulary, and a response that fails to parse as an object gives no terms |
| RelationsBuilder.ValidateFromInVocabulary | relationsBuilder.py:147-162 | the validation loop only ever stores vocabulary forms or `N/A` |
| RelationsBuilder.AcceptedPrefix | relationsBuilder.py:147-163 | the kept entries are the response's entries in order up to the first one that raises, each with its forms |
| RelationsBuilder.ValidateFromAppends | relationsBuilder.py:147-162 | with distinct, new keys the loop appends the accepted entries in order |
| RelationsBuilder.AppendsStep | relationsBuilder.py:147-162 | assigning an accepted entry whose key is new appends it, and the remaining keys stay distinct and new |
| RelationsBuilder.ValidateKeepsPrefix | relationsBuilder.py:143-165 | a response with distinct keys yields its entries up to the first raising one: all of them, or a partial dict |
| RelationsBuilder.FailedCallGivesNoTerms | relationsBuilder.py:143-165 | when the client gives up it returns "", `json.loads` raises on it, and the chunk has no terms |
| RelationsBuilder.ProcessChunk | relationsBuilder.py:135-165 | the terms of a chunk are those of `ChunkTerms` (one client call, then the validation loop) and are all `N/A` or vocabulary forms |
| RelationsBuilder.InsertTerms | relationsBuilder.py:168-187 | the tables after the call are `AfterInsertTerms` of the tables before, and stay well formed |
| RelationsBuilder.AfterSlotsEffect | relationsBuilder.py:178-186 | one lemma's slots append exactly one row per stored form behind the old rows and change no word |
| RelationsBuilder.FindLemmaExtend | relationsBuilder.py:172-173 | a lemma found before more words are added is still found at the same row |
| RelationsBuilder.AfterEntryKeepsRows | relationsBuilder.py:170-186 | one term adds at most one word row and only appends derived rows |
| RelationsBuilder.AfterEntryWord | relationsBuilder.py:171-173 | the word row a term adds is a noun row for its lemma, and the lemma is found afterwards |
| RelationsBuilder.AfterEntryClaims | relationsBuilder.py:172-186 | the derived rows a term appends are its slot rows under its lemma's id |
| RelationsBuilder.InsertTermsKeepsRows | relationsBuilder.py:168-187 | `insert_terms` keeps the tables well formed and never changes or removes an existing row |
| RelationsBuilder.InsertTermsAddsNouns | relationsBuilder.py:171 | every word row `insert_terms` adds has pos `n` and a lemma of the terms |
| RelationsBuilder.InsertTermsFindsLemmas | relationsBuilder.py:171-176 | afterwards every lemma of the terms has a word row |
| RelationsBuilder.InsertTermsLemmasOnce | relationsBuilder.py:171-176 | afterwards every lemma of the terms occurs exactly once in `words` |
| RelationsBuilder.InsertTermsAppendsClaims | relationsBuilder.py:178-186 | the appended derived rows are exactly one per stored form, term by term and slot by slot, with the lemma's id, the slot key and `morphological` |
| RelationsBuilder.FirstTermClaims | relationsBuilder.py:168-186 | the first term leaves a word row whose lookup the later terms do not change, and its slot rows precede every later row |
| RelationsBuilder.RangeStartsAscending | relationsBuilder.py:201 | `range(start, stop, step)` with a positive step is `start, start+step, …`, all below `stop`, and empty exactly when `stop <= start` |
| RelationsBuilder.ChunksUnfold | relationsBuilder.py:201-202 | the chunks are the first slice followed by the chunks starting one step later |
| RelationsBuilder.ChunksResume | relationsBuilder.py:201-202 | the chunks from `start + chunk_size` are the chunks from `start` without the first |
| RelationsBuilder.ChunksSkip | relationsBuilder.py:201-202 | the chunks from `start + k*chunk_size` are the chunks from `start` without the first k |
| RelationsBuilder.ChunkSizes | relationsBuilder.py:201-202 | every chunk is non-empty and holds at most `chunk_size` words |
| RelationsBuilder.ChunksConcat | relationsBuilder.py:201-202 | the chunks concatenate in order to `word_list[start:]` |
| RelationsBuilder.AfterChunksSplit | relationsBuilder.py:201-205 | processing two runs of chunks one after the other is processing their concatenation |
| RelationsBuilder.AfterChunksNext | relationsBuilder.py:201-205 | processing one more chunk after a prefix of chunks is one more `ChunkStep` |
| RelationsBuilder.FailedCallLeavesTables | relationsBuilder.py:202-205 | a chunk whose call gives up leaves the tables unchanged |
| RelationsBuilder.HandleChunk | relationsBuilder.py:202-205 | one loop iteration (the chunk's terms, inserted only when there are any) keeps the tables well formed and leaves them as `ChunkStep` |
| RelationsBuilder.RunChunks | relationsBuilder.py:201-205 | the loop over `range(start, len(word_list), chunk_size)` keeps the tables well formed and leaves them as `AfterRun` |
| RelationsBuilder.ResumedRunEqualsFullRun | relationsBuilder.py:190-205 | a run stopped after k chunks and restarted with `--start` moved k chunks on ends with the same tables as the full run |
| RelationsBuilder.SlotClaimsAttested | relationsBuilder.py:178-186 | each slot row of an existing lemma carries a vocabulary form, a slot key `a`/`v`/`r`, `morphological` and that word's id |
| RelationsBuilder.ExpectedClaimsAttested | relationsBuilder.py:156-186 | every derived row the terms ask for is attested: vocabulary form, slot key, `morphological`, an existing word's id |
| RelationsBuilder.ChunkStepEffect | relationsBuilder.py:202-205 | one chunk keeps the tables well formed, keeps every old row, and writes only attested derived rows |
| RelationsBuilder.RunKeepsRows | relationsBuilder.py:201-205 | a whole run keeps the tables well formed and never changes an existing row |
| RelationsBuilder.RunWritesAttestedRows | relationsBuilder.py:201-205 | every derived row a whole run writes is attested against the final words |
| RelationsBuilder.Generate | relationsBuilder.py:190-207 | `main` loads the vocabulary and the word list as specified; a zero chunk size raises before any chunk and leaves the tables unchanged; otherwise they end as `AfterRun` |
| DbRelationCleanup.InputMapOf | dbRelationCleanup.py:43-51 | no id appears twice in the index |
| DbRelationCleanup.InputMapIndexes | dbRelationCleanup.py:46-50 | an id is indexed exactly when some record carries it; records without `custom_id` are left out |
| DbRelationCleanup.InputMapLastWins | dbRelationCleanup.py:46-50 | an id maps to the last record carrying it |
| DbRelationCleanup.BuildInputMap | dbRelationCleanup.py:43-51 | the loop builds the index `InputMapOf` |
| DbRelationCleanup.YesNoReply | dbRelationCleanup.py:54-62 | a blank reply gives the default; otherwise the answer is yes exactly when the first non-blank character is `y` or `Y` |
| DbRelationCleanup.QuotedTemplate | dbRelationCleanup.py:117-132 | in a prompt `… marker t ' …` with no earlier marker, the term cut out is exactly `t` |
| DbRelationCleanup.QuotedUnclosed | dbRelationCleanup.py:123-124 | with no closing quote the slice ends at `len-1`, so the term loses its last character |
| DbRelationCleanup.ExtractIgnoresQuestionWhenTermsFound | dbRelationCleanup.py:134-149 | when both terms cut from the prompt are non-empty, `question`/`text` are never used and the terms are the cut ones, stripped |
| DbRelationCleanup.SplitAtFirstArrow | dbRelationCleanup.py:138-141 | `a -> b` split once on the arrow gives `a` and `b` when `a` has no arrow |
| DbRelationCleanup.ExtractFallsBack | dbRelationCleanup.py:134-149 | when a cut term is empty, `a -> b` in the question (or else the text) supplies both terms, stripped |
| DbRelationCleanup.IsNoIff | dbRelationCleanup.py:152-154 | the answer is a "no" exactly when it contains `n` followed by `o` in any letter case, anywhere |
| DbRelationCleanup.NullAnswerCountsAsNo | dbRelationCleanup.py:151-154 | a JSON null answer is rendered `None`, which counts as a "no" |
| DbRelationCleanup.JudgeCandidateIff | dbRelationCleanup.py:107-154 | an output is a candidate exactly when its id indexes an input, both terms are determined and its answer is a "no"; the pair is the extracted one |
| DbRelationCleanup.ScanAutoYes | dbRelationCleanup.py:154-160 | with `--yes` every candidate is confirmed, in order, and no reply is read |
| DbRelationCleanup.ScanInteractive | dbRelationCleanup.py:154-160 | without `--yes` one reply is read per candidate; the run fails when replies run out, and otherwise confirms exactly the candidates answered yes |
| DbRelationCleanup.ScanCrashIsFinal | dbRelationCleanup.py:107-160 | an exception in the scan ends the run whatever follows |
| DbRelationCleanup.ScanCrashesOnRaisingRecord | dbRelationCleanup.py:117-151 | an output whose record access raises makes the run fail |
| DbRelationCleanup.ConsiderOutput | dbRelationCleanup.py:108-160 | one loop iteration does what `ScanStep` says of the output's judgment |
| DbRelationCleanup.CollectConfirmations | dbRelationCleanup.py:100-160 | the loop fails exactly when the scan does, and otherwise `to_delete` is the dict built from the confirmed pairs in order |
| DbRelationCleanup.RowDeletions | dbRelationCleanup.py:186-189 | one deletion per row, in row order, carrying the pair and the row id |
| DbRelationCleanup.RowsToDeletions | dbRelationCleanup.py:186-189 | the inner loop appends one deletion per fetched row, giving `RowDeletions` |
| DbRelationCleanup.PlanSound | dbRelationCleanup.py:173-189 | every planned deletion names a confirmed pair whose root is a word, and a `derived_forms` row under that word's id |
| DbRelationCleanup.PlanComplete | dbRelationCleanup.py:173-189 | every row under a confirmed pair's root word is planned for deletion |
| DbRelationCleanup.PlanForHasRow | dbRelationCleanup.py:175-189 | a row whose lemma id is the root word's id is planned for that pair |
| DbRelationCleanup.PlanForMissingRoot | dbRelationCleanup.py:175-178 | a root with no case-insensitive lemma match adds nothing |
| DbRelationCleanup.RowsOfSameIds | dbRelationCleanup.py:181 | the selection by `lemma_id` depends only on row ids and `lemma_id`s |
| DbRelationCleanup.PlanIgnoresForms | dbRelationCleanup.py:181-189 | the plan does not depend on the stored derived text: rows are matched by `lemma_id` only |
| DbRelationCleanup.Comment | dbRelationCleanup.py:198-199 | the comment after the statement starts with the semicolon |
| DbRelationCleanup.Report | dbRelationCleanup.py:196-199 | exactly one rendered line per planned deletion, in plan order |
| DbRelationCleanup.TextBeforeSemicolon | dbRelationCleanup.py:198-199 | the text before the first semicolon of a line is determined by the line |
| DbRelationCleanup.IntToStringHasNoSemicolon | dbRelationCleanup.py:198-199 | a rendered id contains no semicolon |
| DbRelationCleanup.RenderLineId | dbRelationCleanup.py:198-199 | equal statement lines name the same row id, whatever the terms in their comments |
| DbRelationCleanup.PairDeletions | dbRelationCleanup.py:174-189 | one pair's lookups give `PlanFor` on the current tables |
| DbRelationCleanup.PlanDeletions | dbRelationCleanup.py:173-189 | the loop over `to_delete` in insertion order gives `Plan` on the current tables |
| DbRelationCleanup.RenderReport | dbRelationCleanup.py:196-199 | the writing loop produces `Report` of the plan |
| DbRelationCleanup.Reconcile | dbRelationCleanup.py:98-199 | `main` returns `Run` on the current tables and modifies nothing: a failure, no confirmed deletions, no rows to delete, or the written lines |
| DbRelationCleanup.RunWritten | dbRelationCleanup.py:162-199 | a written report is non-empty, has one line per planned deletion, plans only rows under confirmed roots, and renders different ids as different lines |
| DbRelationCleanup.LastConfirmationWins | dbRelationCleanup.py:159-160 | a derived term confirmed several times is deleted under the root of its last confirmation |

## Where the code and its documentation disagree

The model follows the code in each case.

- The docstring of `dbRelationCleanup.py` says rows are matched where the derived term equals the
  stored form. The code selects every `derived_forms` row of the root word by `lemma_id` and never
  looks at the form (`PlanIgnoresForms`).
- The same docstring says a `to_delete.json` file of the pairs is saved. The code writes only
  `deletions.sql`.
- A JSON null answer is rendered as `None`, which contains "no" after lower-casing. Such an
  output is therefore treated as a "no" answer (`NullAnswerCountsAsNo`).
- `process_chunk` stops at the first entry that raises and returns the terms built so far. A
  malformed entry in the middle of a response therefore leaves a partial dict that is still
  inserted (`ValidateKeepsPrefix`).
- `invokeLLM` accepts `attempts <= 0` and then makes no call (`NoAttemptsNoCall`).

## Left out

- The SQLite engine, connections and DDL (`ensure_db`, relationsBuilder.py:67-91): the two tables
  are in memory. Their constraints (unique lemma, ids increasing in insertion order, every id at
  or below its AUTOINCREMENT counter) are the invariant `TablesValid`. An ignored INSERT OR IGNORE
  is taken to use up an id, as SQLite draws the AUTOINCREMENT rowid before the UNIQUE check.
- AUTOINCREMENT exhaustion: ids are unbounded integers.
- `json.loads` and `read_jsonl`: they are foreign parsing. A response is decoded by the `decode`
  parameter, and the JSONL records arrive as decoded values with `str(custom_id)` and
  `str(answer)` already rendered. Values of `question`/`text` that are not strings are not
  modelled.
- `json.loads` on duplicate keys: a decoded object is a sequence of entries.
  RelationsBuilder.ValidateKeepsPrefix requires distinct keys, as `json.loads` produces.
- File opening, reading and writing, `print` and `input()`: these are I/O. The written file is
  the sequence of lines. The typed replies are a sequence, and running out of them stands for
  the EOFError of `input()`.
- The SDK call, `threading.Semaphore(6)` (MistralInterface.py:23) and the `time.sleep(0.15 *
  retry_counter)` back-off: these are foreign, concurrent and timing code. Calls are an oracle
  indexed by attempt number.
- The model name, temperature and response format passed to the SDK are not modelled.
- Loading the WordNet lexicon at import time (relationsBuilder.py:30-31): the lemmas are an
  input sequence with their `pos` and `_lemma` attributes.
- `PROMPT_TEMPLATE` and its formatting (relationsBuilder.py:34-64): text for the model. The
  model's answer is a function of the chunk.
- The argparse command lines and the file-existence `SystemExit` checks
  (dbRelationCleanup.py:76-92, relationsBuilder.py:209-214): these are CLI handling.
- `find_matches` (dbRelationCleanup.py:65-72): it is never called.
- `str.isdigit` and `str.isalnum` are parameters, because their Unicode tables are not modelled.
- `lower()` and NOCASE fold only ASCII letters. That is exact for NOCASE, but Python's non-ASCII
  case mapping is not modelled.
- A negative `--chunk-size` goes through `range` and Python slicing in the model, but the chunk
  lemmas (`ChunkSizes`, `ChunksConcat`) are proved for a positive size only. A zero size is the
  `range` error.
- ChunkSizes and ChunksConcat also require `start >= 0`. A negative `--start` is modelled (the
  run follows `range` and Python's negative slice bounds), but it is not covered by these lemmas.
  With 10 words, start -3 and size 5 the chunks start at -3, 2 and 7; `word_list[-3:2]` is empty
  yet still costs a model call, and words 0 and 1 are never processed.
- FindLemmaNoCaseFirst (and `Database.SelectWordIdNoCase`, which uses it) assumes `fetchone()` on
  the unordered `COLLATE NOCASE` lookup returns the matching word with the lowest rowid. SQLite
  may answer the query from the index on `lemma` and return a different match when several
  lemmas differ only in case. `FindLemmaNoCaseUnique` shows that the answer does not depend on
  this choice when only one lemma matches.
- The `if not parts` and `len(parts) == 2` checks (relationsBuilder.py:111, dbRelationCleanup.py:140)
  can never fail, so they have no branch in the model.
