/**
 * The reconciliation dry run of `dbRelationCleanup.py`: the batch's inputs are indexed by
 * correlation id, each output's derived and root terms are cut out of the prompt it answered,
 * answers containing "no" are confirmed (by `--yes` or by a reply), and the confirmed pairs are
 * turned into a plan of `DELETE` statements over the store, which is only read.
 *
 * `read_jsonl` is not modelled: the records arrive already decoded, with `str(custom_id)` and
 * `str(answer)` rendered, and None where an access into the record raises. The replies typed
 * at the `input()` prompts are a sequence; running out of them is the EOFError of `input()`.
 */
module DbRelationCleanup {
  import opened Wrappers
  import opened PyText
  import OD = OrderedDict
  import opened RelationStore

  // ===========================================================================
  // Records and the correlation-id index
  // ===========================================================================

  /**
   * One record of the input JSONL: `str(custom_id)` (None when absent or null), the first
   * message's content (None when `["body"]["messages"][0]["content"]` raises), and the
   * `question` / `text` fields ("" when absent).
   */
  datatype InputRecord = InputRecord(customId: Option<string>, content: Option<string>, question: string, text: string)

  /**
   * One record of the output JSONL: `str(custom_id)` (None when absent or null) and
   * `str(answer)` for the answer at `["response"]["body"]["choices"][0]["message"]["content"]`
   * (None when that access raises).
   */
  datatype OutputRecord = OutputRecord(customId: Option<string>, answer: Option<string>)

  /** The index `build_input_map` builds: records with an id, by id, a later record replacing an earlier one. */
  function InputMapOf(records: seq<InputRecord>): (m: OD.Dict<InputRecord>)
    ensures OD.DistinctKeys(m)
  {
    if records == [] then []
    else
      var n := |records| - 1;
      var m := InputMapOf(records[..n]);
      if records[n].customId.None? then m else OD.Put(m, records[n].customId.value, records[n])
  }

  /** An id is indexed exactly when some record carries it. */
  lemma {:induction false} InputMapIndexes(records: seq<InputRecord>, id: string)
    ensures OD.Get(InputMapOf(records), id).None? <==> forall i :: 0 <= i < |records| ==> records[i].customId != Some(id)
    decreases |records|
  {
    if records != [] {
      var n := |records| - 1;
      var init := records[..n];
      InputMapIndexes(init, id);
      var m := InputMapOf(init);
      if records[n].customId == Some(id) {
        assert OD.Get(InputMapOf(records), id) == Some(records[n]);
      } else {
        assert OD.Get(InputMapOf(records), id) == OD.Get(m, id);
        assert forall i :: 0 <= i < n ==> init[i] == records[i];
      }
    }
  }

  /** Last one wins: an id maps to the last record that carries it. */
  lemma {:induction false} InputMapLastWins(records: seq<InputRecord>, i: nat)
    requires i < |records| && records[i].customId.Some?
    requires forall j :: i < j < |records| ==> records[j].customId != records[i].customId
    ensures OD.Get(InputMapOf(records), records[i].customId.value) == Some(records[i])
    decreases |records|
  {
    var n := |records| - 1;
    if i < n {
      var init := records[..n];
      assert init[i] == records[i];
      InputMapLastWins(init, i);
      assert records[n].customId != records[i].customId;
      assert OD.Get(InputMapOf(records), records[i].customId.value) == OD.Get(InputMapOf(init), records[i].customId.value);
    }
  }

  /** `build_input_map`. */
  method BuildInputMap(records: seq<InputRecord>) returns (m: OD.Dict<InputRecord>)
    ensures m == InputMapOf(records)
  {
    m := [];
    for k := 0 to |records|
      invariant m == InputMapOf(records[..k])
    {
      assert records[..k + 1][..k] == records[..k];
      var r := records[k];
      if r.customId.None? {
        continue;
      }
      m := OD.Put(m, r.customId.value, r);
    }
    assert records[..|records|] == records;
  }

  // ===========================================================================
  // prompt_yes_no
  // ===========================================================================

  /** What `prompt_yes_no` returns when the user types `reply`. */
  function YesNo(reply: string, default: bool): bool {
    var resp := Lower(Strip(reply));
    if resp == [] then default else resp[0] == 'y'
  }

  /**
   * A blank reply gives the default; otherwise the answer is yes exactly when the first
   * non-blank character typed is `y` or `Y`.
   */
  lemma YesNoReply(reply: string, default: bool)
    ensures AllSpace(reply) ==> YesNo(reply, default) == default
    ensures !AllSpace(reply) ==>
              exists i :: 0 <= i < |reply| && !IsSpace(reply[i]) && (forall j :: 0 <= j < i ==> IsSpace(reply[j]))
                          && (YesNo(reply, default) <==> reply[i] == 'y' || reply[i] == 'Y')
  {
    StripEmptyIff(reply);
    if !AllSpace(reply) {
      var l := LStrip(reply);
      LStripSuffix(reply);
      RStripPrefix(l);
      var i := |reply| - |l|;
      assert Strip(reply)[0] == l[0] == reply[i];
    }
  }

  // ===========================================================================
  // Extraction of the derived and root terms
  // ===========================================================================

  const DerivedMarker := "La parola '"
  const RootMarker := "con il lemma '"
  const Arrow := "->"

  /**
   * `content[start:end]` where `start` follows the first `marker` and `end` is the next quote
   * after it (-1 when there is none); None when the marker does not occur.
   */
  function QuotedAfter(content: string, marker: string): Option<string> {
    var index := Find(content, marker, 0);
    if index == -1 then None
    else
      var start := index + |marker|;
      var end := Find(content, "'", start);
      Some(Slice(content, start, end))
  }

  predicate NoQuote(s: string) {
    forall i :: 0 <= i < |s| ==> s[i] != '\''
  }

  /** No occurrence of `marker` in `s` starts before `bound`. */
  predicate NoMarkerBefore(s: string, marker: string, bound: nat) {
    forall k: nat :: k < bound ==> !MatchAt(s, marker, k)
  }

  /** In a prompt laid out as `pre marker t ' post`, the quoted text is `t`. */
  lemma QuotedTemplate(pre: string, marker: string, t: string, post: string)
    requires NoQuote(t)
    requires NoMarkerBefore(pre + marker + t + "'" + post, marker, |pre|)
    ensures QuotedAfter(pre + marker + t + "'" + post, marker) == Some(t)
  {
    var content := pre + marker + t + "'" + post;
    var start := |pre| + |marker|;
    assert content[|pre|..start] == marker;
    FindFirstMatch(content, marker, 0, |pre|);
    assert content[start + |t|..start + |t| + 1] == "'";
    forall k: nat | start <= k < start + |t| ensures !MatchAt(content, "'", k) {
      assert content[k] == t[k - start];
    }
    FindFirstMatch(content, "'", start, start + |t|);
    assert content[start..start + |t|] == t;
  }

  /**
   * With no closing quote, `find` gives -1 and the slice ends one character before the end:
   * the last character of the text is lost.
   */
  lemma QuotedUnclosed(pre: string, marker: string, t: string)
    requires NoQuote(t)
    requires NoMarkerBefore(pre + marker + t, marker, |pre|)
    ensures QuotedAfter(pre + marker + t, marker) == Some(if t == [] then [] else t[..|t| - 1])
  {
    var content := pre + marker + t;
    var start := |pre| + |marker|;
    assert content[|pre|..start] == marker;
    FindFirstMatch(content, marker, 0, |pre|);
    forall k: nat | start <= k ensures !MatchAt(content, "'", k) {
      if k < |content| {
        assert content[k..k + 1] == [t[k - start]];
      }
    }
    FindLeast(content, "'", start);
    SliceToMinusOne(content, start);
    if |t| > 1 {
      assert content[start..|content| - 1] == t[..|t| - 1];
    }
  }

  /** `q = question or text or ""`, split once on "->", both halves stripped; None without an arrow. */
  function Fallback(question: string, text: string): Option<(string, string)> {
    var q := if question != [] then question else text;
    if Contains(q, Arrow) then
      var parts := SplitOnce(q, Arrow);
      Some((Strip(parts.0), Strip(parts.1)))
    else None
  }

  /** What the loop gets out of one input record. */
  datatype Extraction =
    | Crash                                 // the content access raised
    | Skip                                  // a marker is missing, or a term is still empty
    | Found(derived: string, root: string)  // both terms, stripped

  /** The extraction and fallback steps for one record. */
  function Extract(rec: InputRecord): Extraction {
    match rec.content
    case None => Crash
    case Some(content) =>
      match QuotedAfter(content, DerivedMarker)
      case None => Skip
      case Some(d0) =>
        match QuotedAfter(content, RootMarker)
        case None => Skip
        case Some(r0) =>
          var terms := if d0 != [] && r0 != [] then (d0, r0)
                       else match Fallback(rec.question, rec.text)
                            case Some(p) => p
                            case None => (d0, r0);
          if terms.0 == [] || terms.1 == [] then Skip else Found(Strip(terms.0), Strip(terms.1))
  }

  /** The fallback is consulted only when a term cut from the prompt is empty. */
  lemma ExtractIgnoresQuestionWhenTermsFound(rec: InputRecord, question: string, text: string)
    requires rec.content.Some?
    requires var d := QuotedAfter(rec.content.value, DerivedMarker);
             var r := QuotedAfter(rec.content.value, RootMarker);
             d.Some? && r.Some? && d.value != [] && r.value != []
    ensures Extract(rec) == Extract(rec.(question := question, text := text))
    ensures Extract(rec) == Found(Strip(QuotedAfter(rec.content.value, DerivedMarker).value),
                                  Strip(QuotedAfter(rec.content.value, RootMarker).value))
  {
  }

  /** Splitting `a -> b` once on the arrow gives `a` and `b` when `a` has no arrow of its own. */
  lemma SplitAtFirstArrow(a: string, b: string)
    requires !Contains(a, Arrow)
    ensures Contains(a + Arrow + b, Arrow) && SplitOnce(a + Arrow + b, Arrow) == (a, b)
  {
    var q := a + Arrow + b;
    FindLeast(a, Arrow, 0);
    assert q[|a|..|a| + 2] == Arrow;
    FindFirstMatch(q, Arrow, 0, |a|) by {
      forall k: nat | k < |a| ensures !MatchAt(q, Arrow, k) {
        if k + 2 <= |a| {
          assert q[k..k + 2] == a[k..k + 2];
          assert !MatchAt(a, Arrow, k);
        } else if k + 2 <= |q| {
          assert q[k..k + 2][1] == q[|a|] == '-';
        }
      }
    }
    assert q[..|a|] == a;
    assert q[|a| + 2..] == b;
  }

  /** With an empty term, `a -> b` in the question (or else the text) supplies both terms. */
  lemma ExtractFallsBack(rec: InputRecord, a: string, b: string)
    requires rec.content.Some?
    requires var d := QuotedAfter(rec.content.value, DerivedMarker);
             var r := QuotedAfter(rec.content.value, RootMarker);
             d.Some? && r.Some? && (d.value == [] || r.value == [])
    requires (if rec.question != [] then rec.question else rec.text) == a + Arrow + b
    requires !Contains(a, Arrow)
    requires Strip(a) != [] && Strip(b) != []
    ensures Extract(rec) == Found(Strip(a), Strip(b))
  {
    SplitAtFirstArrow(a, b);
    assert Fallback(rec.question, rec.text) == Some((Strip(a), Strip(b)));
    StripIdempotent(a);
    StripIdempotent(b);
  }

  // ===========================================================================
  // The "no" judgment
  // ===========================================================================

  /** `str(answer).strip().lower().find("no") != -1`. */
  predicate IsNo(answer: string) {
    Contains(Lower(Strip(answer)), "no")
  }

  /** `n` followed by `o`, in any letter case, at index `i`. */
  predicate NoAt(s: string, i: int) {
    0 <= i < |s| - 1 && LowerChar(s[i]) == 'n' && LowerChar(s[i + 1]) == 'o'
  }

  /** The answer counts as "no" exactly when it contains `n` then `o`, in any letter case. */
  lemma IsNoIff(answer: string)
    ensures IsNo(answer) <==> exists i :: NoAt(answer, i)
  {
    var lo, hi := StripBounds(answer);
    if IsNo(answer) {
      NoAtFromStripped(answer, lo, hi);
    }
    if exists i :: NoAt(answer, i) {
      var i :| NoAt(answer, i);
      NoAtInStripped(answer, i, lo, hi);
    }
  }

  /** A match of "no" in the lowered slice is an `n`, `o` pair of the answer. */
  lemma NoAtFromStripped(answer: string, lo: nat, hi: nat)
    requires lo <= hi <= |answer|
    requires Contains(Lower(answer[lo..hi]), "no")
    ensures exists i :: NoAt(answer, i)
  {
    var s := answer[lo..hi];
    var low := Lower(s);
    ContainsIff(low, "no");
    var k: nat :| MatchAt(low, "no", k);
    assert low[k..k + 2][0] == low[k] && low[k..k + 2][1] == low[k + 1];
    assert s[k] == answer[lo + k] && s[k + 1] == answer[lo + k + 1];
    assert NoAt(answer, lo + k);
  }

  /** An `n`, `o` pair survives stripping, since neither letter is whitespace. */
  lemma NoAtInStripped(answer: string, i: int, lo: nat, hi: nat)
    requires NoAt(answer, i)
    requires lo <= hi <= |answer|
    requires forall j :: 0 <= j < lo ==> IsSpace(answer[j])
    requires forall j :: hi <= j < |answer| ==> IsSpace(answer[j])
    ensures Contains(Lower(answer[lo..hi]), "no")
  {
    assert !IsSpace(answer[i]) && !IsSpace(answer[i + 1]);
    var s := answer[lo..hi];
    var low := Lower(s);
    var k: nat := i - lo;
    assert s[k] == answer[i] && s[k + 1] == answer[i + 1];
    assert low[k..k + 2] == [low[k], low[k + 1]];
    assert MatchAt(low, "no", k);
    ContainsIff(low, "no");
  }

  /** A JSON null answer is rendered "None", which contains "no". */
  lemma NullAnswerCountsAsNo()
    ensures IsNo("None")
  {
    IsNoIff("None");
    assert NoAt("None", 0);
  }

  // ===========================================================================
  // The scan over the outputs
  // ===========================================================================

  /** What one output means for the scan, before any confirmation. */
  datatype Judgment =
    | Fails                                   // an access into a record raises
    | Ignored                                 // skipped, or the answer does not contain "no"
    | Candidate(derived: string, root: string) // a "no" answer to be confirmed

  function Judge(out: OutputRecord, inputMap: OD.Dict<InputRecord>): Judgment {
    match out.customId
    case None => Ignored
    case Some(cid) =>
      match OD.Get(inputMap, cid)
      case None => Ignored
      case Some(rec) =>
        match Extract(rec)
        case Crash => Fails
        case Skip => Ignored
        case Found(derived, root) =>
          match out.answer
          case None => Fails
          case Some(answer) => if IsNo(answer) then Candidate(derived, root) else Ignored
  }

  /**
   * An output becomes a candidate exactly when its id indexes an input record whose terms are
   * found, and its answer contains `n` then `o` in any letter case.
   */
  lemma JudgeCandidateIff(out: OutputRecord, inputMap: OD.Dict<InputRecord>)
    ensures Judge(out, inputMap).Candidate? <==>
              && out.customId.Some? && OD.Get(inputMap, out.customId.value).Some?
              && Extract(OD.Get(inputMap, out.customId.value).value).Found?
              && out.answer.Some? && exists i :: NoAt(out.answer.value, i)
    ensures Judge(out, inputMap).Candidate? ==>
              var e := Extract(OD.Get(inputMap, out.customId.value).value);
              Judge(out, inputMap) == Candidate(e.derived, e.root)
  {
    if out.answer.Some? {
      IsNoIff(out.answer.value);
    }
  }

  /** The pairs confirmed so far, in order, and how many replies have been read. */
  datatype Scan = Scan(confirmed: seq<(string, string)>, repliesRead: nat)

  /** What `prompt_yes_no(..., default=False)` makes of each typed reply. */
  function Decisions(replies: seq<string>): (yes: seq<bool>)
    ensures |yes| == |replies| && forall i :: 0 <= i < |replies| ==> yes[i] == YesNo(replies[i], false)
  {
    seq(|replies|, i requires 0 <= i < |replies| => YesNo(replies[i], false))
  }

  /**
   * One output: a candidate is confirmed by `--yes`, or else by the decision on the next
   * reply; with no reply left `input()` raises. None is a crash.
   */
  function ScanStep(j: Judgment, autoYes: bool, yes: seq<bool>, s: Scan): Option<Scan> {
    match j
    case Fails => None
    case Ignored => Some(s)
    case Candidate(derived, root) =>
      if autoYes then Some(Scan(s.confirmed + [(derived, root)], s.repliesRead))
      else if s.repliesRead >= |yes| then None
      else if yes[s.repliesRead] then Some(Scan(s.confirmed + [(derived, root)], s.repliesRead + 1))
      else Some(Scan(s.confirmed, s.repliesRead + 1))
  }

  /** The judgment of every output, in file order. */
  function Judgments(outputs: seq<OutputRecord>, inputMap: OD.Dict<InputRecord>): (js: seq<Judgment>)
    ensures |js| == |outputs| && forall i :: 0 <= i < |outputs| ==> js[i] == Judge(outputs[i], inputMap)
  {
    seq(|outputs|, i requires 0 <= i < |outputs| => Judge(outputs[i], inputMap))
  }

  /** The loop over the outputs, given their judgments; None once any step crashes. */
  function ScanAll(js: seq<Judgment>, autoYes: bool, yes: seq<bool>): Option<Scan> {
    if js == [] then Some(Scan([], 0))
    else
      var n := |js| - 1;
      match ScanAll(js[..n], autoYes, yes)
      case None => None
      case Some(s) => ScanStep(js[n], autoYes, yes, s)
  }

  /** The candidate pairs, in order, confirmed or not. */
  function Candidates(js: seq<Judgment>): seq<(string, string)> {
    if js == [] then []
    else
      var n := |js| - 1;
      Candidates(js[..n]) + (if js[n].Candidate? then [(js[n].derived, js[n].root)] else [])
  }

  /** No output leads to an access that raises. */
  predicate CrashFree(js: seq<Judgment>) {
    forall i :: 0 <= i < |js| ==> !js[i].Fails?
  }

  /** The candidates whose reply (the one read for them, in order) is yes. */
  function Accepted(candidates: seq<(string, string)>, yes: seq<bool>): seq<(string, string)>
    requires |candidates| <= |yes|
  {
    if candidates == [] then []
    else
      var n := |candidates| - 1;
      Accepted(candidates[..n], yes) + (if yes[n] then [candidates[n]] else [])
  }

  /** With `--yes`, a scan without a raising access confirms every candidate and reads no reply. */
  lemma {:induction false} ScanAutoYes(js: seq<Judgment>, yes: seq<bool>)
    requires CrashFree(js)
    ensures ScanAll(js, true, yes) == Some(Scan(Candidates(js), 0))
    decreases |js|
  {
    if js != [] {
      var n := |js| - 1;
      assert CrashFree(js[..n]) by {
        assert forall i :: 0 <= i < n ==> js[..n][i] == js[i];
      }
      ScanAutoYes(js[..n], yes);
      var c0 := Candidates(js[..n]);
      assert ScanAll(js, true, yes) == ScanStep(js[n], true, yes, Scan(c0, 0));
      assert !js[n].Fails?;
      assert c0 + [] == c0;
    }
  }

  /**
   * Interactively, one reply is read per candidate, and the confirmed pairs are the candidates
   * whose reply is yes; the scan finishes exactly when there are enough replies.
   */
  lemma {:induction false} ScanInteractive(js: seq<Judgment>, yes: seq<bool>)
    requires CrashFree(js)
    ensures var c := Candidates(js);
            && (ScanAll(js, false, yes).Some? <==> |c| <= |yes|)
            && (|c| <= |yes| ==> ScanAll(js, false, yes) == Some(Scan(Accepted(c, yes), |c|)))
    decreases |js|
  {
    if js != [] {
      var n := |js| - 1;
      assert CrashFree(js[..n]) by {
        assert forall i :: 0 <= i < n ==> js[..n][i] == js[i];
      }
      ScanInteractive(js[..n], yes);
      assert !js[n].Fails?;
      var c0 := Candidates(js[..n]);
      var c := Candidates(js);
      assert c0 + [] == c0;
      if js[n].Candidate? && |c| <= |yes| {
        assert c[..|c0|] == c0;
        assert c[|c0|] == (js[n].derived, js[n].root);
        assert Accepted(c0, yes) + [] == Accepted(c0, yes);
      }
    }
  }

  /** Once a step crashes, the whole scan crashes. */
  lemma {:induction false} ScanCrashIsFinal(js: seq<Judgment>, autoYes: bool, yes: seq<bool>, k: nat)
    requires k <= |js|
    requires ScanAll(js[..k], autoYes, yes).None?
    ensures ScanAll(js, autoYes, yes).None?
    decreases |js|
  {
    if k < |js| {
      var n := |js| - 1;
      assert js[..n][..k] == js[..k];
      ScanCrashIsFinal(js[..n], autoYes, yes, k);
    } else {
      assert js[..k] == js;
    }
  }

  /** An output whose access raises makes the whole run crash, whatever came before it. */
  lemma ScanCrashesOnRaisingRecord(js: seq<Judgment>, autoYes: bool, yes: seq<bool>)
    requires !CrashFree(js)
    ensures ScanAll(js, autoYes, yes).None?
  {
    var i :| 0 <= i < |js| && js[i].Fails?;
    assert js[..i + 1][..i] == js[..i];
    assert js[..i + 1][i] == js[i];
    ScanCrashIsFinal(js, autoYes, yes, i + 1);
  }

  /**
   * The body of the loop for one output: the id lookup, the extraction, the answer and, for a
   * "no", the confirmation. `crashed` is the exception that ends the run.
   */
  method ConsiderOutput(out: OutputRecord, inputMap: OD.Dict<InputRecord>, autoYes: bool, replies: seq<string>,
                        ghost confirmed: seq<(string, string)>, read: nat)
    returns (crashed: bool, pair: Option<(string, string)>, repliesRead: nat)
    ensures var r := ScanStep(Judge(out, inputMap), autoYes, Decisions(replies), Scan(confirmed, read));
            && (crashed <==> r.None?)
            && (!crashed ==> r.value == Scan(confirmed + (if pair.Some? then [pair.value] else []), repliesRead))
  {
    crashed, pair, repliesRead := false, None, read;
    assert confirmed + [] == confirmed;
    if out.customId.None? {
      return;
    }
    var inRec := OD.Get(inputMap, out.customId.value);
    if inRec.None? {
      return;
    }
    var extraction := Extract(inRec.value);
    if extraction.Crash? || (extraction.Found? && out.answer.None?) {
      crashed := true;
      return;
    }
    if extraction.Skip? || !IsNo(out.answer.value) {
      return;
    }
    var confirm := autoYes;
    if !confirm {
      if read >= |replies| {
        crashed := true;
        return;
      }
      confirm := YesNo(replies[read], false);
      repliesRead := read + 1;
    }
    if confirm {
      pair := Some((extraction.derived, extraction.root));
    }
  }

  /** The loop of `main` over the outputs. `crashed` is the run ending with an exception. */
  method CollectConfirmations(outputs: seq<OutputRecord>, inputMap: OD.Dict<InputRecord>, autoYes: bool, replies: seq<string>)
    returns (crashed: bool, toDelete: OD.Dict<string>)
    ensures var r := ScanAll(Judgments(outputs, inputMap), autoYes, Decisions(replies));
            (crashed <==> r.None?) && (!crashed ==> toDelete == OD.FromPairs(r.value.confirmed))
  {
    ghost var js := Judgments(outputs, inputMap);
    ghost var yes := Decisions(replies);
    crashed := false;
    toDelete := [];
    ghost var confirmed: seq<(string, string)> := [];
    var repliesRead: nat := 0;
    for k := 0 to |outputs|
      invariant ScanAll(js[..k], autoYes, yes) == Some(Scan(confirmed, repliesRead))
      invariant toDelete == OD.FromPairs(confirmed)
    {
      assert js[..k + 1][..k] == js[..k];
      assert js[..k + 1][k] == js[k] == Judge(outputs[k], inputMap);
      var pair;
      crashed, pair, repliesRead := ConsiderOutput(outputs[k], inputMap, autoYes, replies, confirmed, repliesRead);
      if crashed {
        ScanCrashIsFinal(js, autoYes, yes, k + 1);
        return;
      }
      if pair.Some? {
        assert (confirmed + [pair.value])[..|confirmed|] == confirmed;
        toDelete := OD.Put(toDelete, pair.value.0, pair.value.1);
        confirmed := confirmed + [pair.value];
      } else {
        assert confirmed + [] == confirmed;
      }
    }
    assert js[..|outputs|] == js;
  }

  // ===========================================================================
  // The dry-run plan and the SQL report
  // ===========================================================================

  /** One planned deletion: the confirmed pair and the `derived_forms` row id. */
  datatype Deletion = Deletion(derived: string, root: string, id: int)

  /** A deletion for each row, in order. */
  function RowDeletions(rows: seq<DerivedRow>, derived: string, root: string): (ds: seq<Deletion>)
    ensures |ds| == |rows|
    ensures forall i :: 0 <= i < |rows| ==> ds[i] == Deletion(derived, root, rows[i].id)
  {
    if rows == [] then []
    else RowDeletions(rows[..|rows| - 1], derived, root) + [Deletion(derived, root, rows[|rows| - 1].id)]
  }

  /**
   * The deletions planned for one pair: every row under the first word whose lemma equals
   * `root` ignoring case, whatever its form; none when there is no such word.
   */
  function PlanFor(t: Tables, derived: string, root: string): seq<Deletion> {
    match FindLemmaNoCase(t.words, root)
    case None => []
    case Some(w) => RowDeletions(RowsOf(t.derived, w.id), derived, root)
  }

  /** The deletions for every pair of `to_delete`, in its order. */
  function Plan(t: Tables, toDelete: OD.Dict<string>): seq<Deletion> {
    if toDelete == [] then []
    else
      var n := |toDelete| - 1;
      Plan(t, toDelete[..n]) + PlanFor(t, toDelete[n].0, toDelete[n].1)
  }

  /** Every planned deletion names a confirmed pair and a row under that pair's root word. */
  lemma {:induction false} PlanSound(t: Tables, toDelete: OD.Dict<string>, d: Deletion)
    requires d in Plan(t, toDelete)
    ensures (d.derived, d.root) in toDelete
    ensures FindLemmaNoCase(t.words, d.root).Some?
    ensures exists row :: row in t.derived && row.id == d.id && row.lemmaId == FindLemmaNoCase(t.words, d.root).value.id
    decreases |toDelete|
  {
    var n := |toDelete| - 1;
    var init := toDelete[..n];
    if d in Plan(t, init) {
      PlanSound(t, init, d);
      assert (d.derived, d.root) in toDelete by {
        var i :| 0 <= i < n && init[i] == (d.derived, d.root);
        assert toDelete[i] == init[i];
      }
    } else {
      var ds := PlanFor(t, toDelete[n].0, toDelete[n].1);
      assert d in ds;
      var w := FindLemmaNoCase(t.words, toDelete[n].1).value;
      var rows := RowsOf(t.derived, w.id);
      var i :| 0 <= i < |ds| && ds[i] == d;
      assert rows[i] in rows;
    }
  }

  /** A row under the root word of a pair gets its deletion in that pair's part of the plan. */
  lemma PlanForHasRow(t: Tables, derived: string, root: string, row: DerivedRow)
    requires FindLemmaNoCase(t.words, root).Some?
    requires row in t.derived && row.lemmaId == FindLemmaNoCase(t.words, root).value.id
    ensures Deletion(derived, root, row.id) in PlanFor(t, derived, root)
  {
    var rows := RowsOf(t.derived, row.lemmaId);
    assert row in rows;
    var i :| 0 <= i < |rows| && rows[i] == row;
    assert RowDeletions(rows, derived, root)[i] == Deletion(derived, root, row.id);
  }

  /** The plan for the first pairs is a prefix of the plan for all of them. */
  lemma PlanOfInit(t: Tables, toDelete: OD.Dict<string>, d: Deletion)
    requires toDelete != [] && d in Plan(t, toDelete[..|toDelete| - 1])
    ensures d in Plan(t, toDelete)
  {
  }

  /** The last pair's deletions end the plan. */
  lemma PlanOfLast(t: Tables, toDelete: OD.Dict<string>, d: Deletion)
    requires toDelete != [] && d in PlanFor(t, toDelete[|toDelete| - 1].0, toDelete[|toDelete| - 1].1)
    ensures d in Plan(t, toDelete)
  {
  }

  /** Every row under a confirmed pair's root word is planned for deletion. */
  lemma {:induction false} PlanComplete(t: Tables, toDelete: OD.Dict<string>, j: nat, row: DerivedRow)
    requires j < |toDelete|
    requires FindLemmaNoCase(t.words, toDelete[j].1).Some?
    requires row in t.derived && row.lemmaId == FindLemmaNoCase(t.words, toDelete[j].1).value.id
    ensures Deletion(toDelete[j].0, toDelete[j].1, row.id) in Plan(t, toDelete)
    decreases |toDelete|
  {
    var n := |toDelete| - 1;
    var d := Deletion(toDelete[j].0, toDelete[j].1, row.id);
    if j < n {
      var init := toDelete[..n];
      assert init[j] == toDelete[j];
      PlanComplete(t, init, j, row);
      PlanOfInit(t, toDelete, d);
    } else {
      PlanForHasRow(t, toDelete[n].0, toDelete[n].1, row);
      PlanOfLast(t, toDelete, d);
    }
  }

  /** A pair whose root is not a word gets no deletions. */
  lemma PlanForMissingRoot(t: Tables, derived: string, root: string)
    requires forall i :: 0 <= i < |t.words| ==> !EqualNoCase(t.words[i].lemmaText, root)
    ensures PlanFor(t, derived, root) == []
  {
    FindLemmaNoCaseFirst(t.words, root);
  }

  /** Two tables whose rows agree on ids and `lemma_id`. */
  predicate SameIdsAndLemmas(a: seq<DerivedRow>, b: seq<DerivedRow>) {
    |a| == |b| && forall i :: 0 <= i < |a| ==> a[i].id == b[i].id && a[i].lemmaId == b[i].lemmaId
  }

  lemma {:induction false} RowsOfSameIds(a: seq<DerivedRow>, b: seq<DerivedRow>, lemmaId: int)
    requires SameIdsAndLemmas(a, b)
    ensures SameIdsAndLemmas(RowsOf(a, lemmaId), RowsOf(b, lemmaId))
    decreases |a|
  {
    if a != [] {
      assert SameIdsAndLemmas(a[1..], b[1..]) by {
        assert forall i :: 0 <= i < |a| - 1 ==> a[1..][i] == a[i + 1] && b[1..][i] == b[i + 1];
      }
      RowsOfSameIds(a[1..], b[1..], lemmaId);
    }
  }

  /**
   * The plan looks only at ids and `lemma_id`: the stored forms, parts of speech and relation
   * types of the rows do not change it.
   */
  lemma {:induction false} PlanIgnoresForms(t: Tables, u: Tables, toDelete: OD.Dict<string>)
    requires t.words == u.words && SameIdsAndLemmas(t.derived, u.derived)
    ensures Plan(t, toDelete) == Plan(u, toDelete)
    decreases |toDelete|
  {
    if toDelete != [] {
      var n := |toDelete| - 1;
      PlanIgnoresForms(t, u, toDelete[..n]);
      var root := toDelete[n].1;
      match FindLemmaNoCase(t.words, root)
      case None =>
      case Some(w) =>
        RowsOfSameIds(t.derived, u.derived, w.id);
    }
  }

  const StatementHead := "DELETE FROM derived_forms WHERE id = "

  /** The comment after a statement, naming the confirmed pair. */
  function Comment(d: Deletion): (c: string)
    ensures c != [] && c[0] == ';'
  {
    ";  -- form='" + d.derived + "' expected_root='" + d.root + "'\n"
  }

  /** The line written to `deletions.sql` for one deletion. */
  function RenderLine(d: Deletion): string {
    StatementHead + IntToString(d.id) + Comment(d)
  }

  /** The lines of `deletions.sql`, one per deletion, in plan order. */
  function Report(plan: seq<Deletion>): (lines: seq<string>)
    ensures |lines| == |plan|
    ensures forall i :: 0 <= i < |plan| ==> lines[i] == RenderLine(plan[i])
  {
    if plan == [] then [] else Report(plan[..|plan| - 1]) + [RenderLine(plan[|plan| - 1])]
  }

  /** Two texts without ';' followed by texts starting with ';' are equal when the wholes are. */
  lemma TextBeforeSemicolon(s1: string, r1: string, s2: string, r2: string)
    requires forall i :: 0 <= i < |s1| ==> s1[i] != ';'
    requires forall i :: 0 <= i < |s2| ==> s2[i] != ';'
    requires r1 != [] && r1[0] == ';' && r2 != [] && r2[0] == ';'
    requires s1 + r1 == s2 + r2
    ensures s1 == s2
  {
    var x := s1 + r1;
    assert x[|s1|] == ';';
    assert x[|s2|] == ';' by {
      assert (s2 + r2)[|s2|] == r2[0];
    }
    assert forall i :: 0 <= i < |s1| ==> x[i] == s1[i];
    assert forall i :: 0 <= i < |s2| ==> x[i] == s2[i] by {
      assert forall i :: 0 <= i < |s2| ==> (s2 + r2)[i] == s2[i];
    }
    assert |s1| == |s2|;
    assert s1 == x[..|s1|];
    assert s2 == (s2 + r2)[..|s2|];
  }

  lemma IntToStringHasNoSemicolon(n: int)
    ensures forall i :: 0 <= i < |IntToString(n)| ==> IntToString(n)[i] != ';'
  {
    if n < 0 {
      assert forall i :: 0 < i < |IntToString(n)| ==> IntToString(n)[i] == NatToString(-n)[i - 1];
    }
  }

  /** The row id can be read back from a statement line: lines for different ids differ. */
  lemma RenderLineId(a: Deletion, b: Deletion)
    requires RenderLine(a) == RenderLine(b)
    ensures a.id == b.id
  {
    var sa, sb := IntToString(a.id), IntToString(b.id);
    var la, lb := RenderLine(a), RenderLine(b);
    assert la == StatementHead + (sa + Comment(a));
    assert lb == StatementHead + (sb + Comment(b));
    assert sa + Comment(a) == la[|StatementHead|..];
    assert sb + Comment(b) == lb[|StatementHead|..];
    IntToStringHasNoSemicolon(a.id);
    IntToStringHasNoSemicolon(b.id);
    TextBeforeSemicolon(sa, Comment(a), sb, Comment(b));
    IntToStringInjective(a.id, b.id);
  }

  /** The body of the loop over `to_delete.items()` for one pair: the root lookup, then its rows. */
  method PairDeletions(db: Database, derived: string, root: string) returns (ds: seq<Deletion>)
    ensures ds == PlanFor(db.State(), derived, root)
  {
    ds := [];
    var rootId := db.SelectWordIdNoCase(root);
    if rootId.None? {
      return;
    }
    var rows := db.SelectDerivedRows(rootId.value);
    ds := RowsToDeletions(rows, derived, root);
  }

  /** The inner loop over the rows found for one root. */
  method RowsToDeletions(rows: seq<DerivedRow>, derived: string, root: string) returns (ds: seq<Deletion>)
    ensures ds == RowDeletions(rows, derived, root)
  {
    ds := [];
    for j := 0 to |rows|
      invariant ds == RowDeletions(rows[..j], derived, root)
    {
      assert rows[..j + 1][..j] == rows[..j];
      ds := ds + [Deletion(derived, root, rows[j].id)];
    }
    assert rows[..|rows|] == rows;
  }

  /** The loop over `to_delete.items()`, in insertion order. */
  method PlanDeletions(db: Database, toDelete: OD.Dict<string>) returns (plan: seq<Deletion>)
    ensures plan == Plan(db.State(), toDelete)
  {
    plan := [];
    for k := 0 to |toDelete|
      invariant plan == Plan(db.State(), toDelete[..k])
    {
      assert toDelete[..k + 1][..k] == toDelete[..k];
      var ds := PairDeletions(db, toDelete[k].0, toDelete[k].1);
      plan := plan + ds;
    }
    assert toDelete[..|toDelete|] == toDelete;
  }

  /** The loop writing `deletions.sql`. */
  method RenderReport(plan: seq<Deletion>) returns (lines: seq<string>)
    ensures lines == Report(plan)
  {
    lines := [];
    for k := 0 to |plan|
      invariant lines == Report(plan[..k])
    {
      assert plan[..k + 1][..k] == plan[..k];
      lines := lines + [RenderLine(plan[k])];
    }
    assert plan[..|plan|] == plan;
  }

  // ===========================================================================
  // main
  // ===========================================================================

  /** How a run ends. */
  datatype Outcome =
    | Crashed                                                                  // an exception ends the run
    | NothingConfirmed                                                         // "No confirmed deletions."
    | NothingToDelete(toDelete: OD.Dict<string>)                               // no rows: no file written
    | Written(toDelete: OD.Dict<string>, plan: seq<Deletion>, sql: seq<string>) // `deletions.sql` written

  /** The run of `main` on decoded records, the typed replies and the tables. */
  function Run(t: Tables, inputs: seq<InputRecord>, outputs: seq<OutputRecord>, autoYes: bool, replies: seq<string>): Outcome {
    match ScanAll(Judgments(outputs, InputMapOf(inputs)), autoYes, Decisions(replies))
    case None => Crashed
    case Some(s) =>
      var toDelete := OD.FromPairs(s.confirmed);
      if toDelete == [] then NothingConfirmed
      else
        var plan := Plan(t, toDelete);
        if plan == [] then NothingToDelete(toDelete) else Written(toDelete, plan, Report(plan))
  }

  /** `main` after the argument and file checks; the tables are only read. */
  method Reconcile(db: Database, inputs: seq<InputRecord>, outputs: seq<OutputRecord>, autoYes: bool, replies: seq<string>)
    returns (outcome: Outcome)
    ensures outcome == Run(db.State(), inputs, outputs, autoYes, replies)
  {
    var inputMap := BuildInputMap(inputs);
    var crashed, toDelete := CollectConfirmations(outputs, inputMap, autoYes, replies);
    if crashed {
      return Crashed;
    }
    if toDelete == [] {
      return NothingConfirmed;
    }
    var plan := PlanDeletions(db, toDelete);
    if plan == [] {
      return NothingToDelete(toDelete);
    }
    var lines := RenderReport(plan);
    return Written(toDelete, plan, lines);
  }

  /**
   * A written report has one statement per planned deletion, each for a row under the root
   * word of a confirmed pair, and the pairs are the confirmed ones, the last confirmation of
   * a derived term winning.
   */
  lemma RunWritten(t: Tables, inputs: seq<InputRecord>, outputs: seq<OutputRecord>, autoYes: bool, replies: seq<string>)
    requires Run(t, inputs, outputs, autoYes, replies).Written?
    ensures var o := Run(t, inputs, outputs, autoYes, replies);
            && o.plan != [] && |o.sql| == |o.plan|
            && (forall i :: 0 <= i < |o.plan| ==>
                  (o.plan[i].derived, o.plan[i].root) in o.toDelete
                  && FindLemmaNoCase(t.words, o.plan[i].root).Some?
                  && exists row :: row in t.derived && row.id == o.plan[i].id
                                   && row.lemmaId == FindLemmaNoCase(t.words, o.plan[i].root).value.id)
            && (forall i, j :: 0 <= i < |o.plan| && 0 <= j < |o.plan| && o.plan[i].id != o.plan[j].id ==> o.sql[i] != o.sql[j])
  {
    var o := Run(t, inputs, outputs, autoYes, replies);
    forall i | 0 <= i < |o.plan|
      ensures (o.plan[i].derived, o.plan[i].root) in o.toDelete
      ensures FindLemmaNoCase(t.words, o.plan[i].root).Some?
      ensures exists row :: row in t.derived && row.id == o.plan[i].id
                            && row.lemmaId == FindLemmaNoCase(t.words, o.plan[i].root).value.id
    {
      PlanSound(t, o.toDelete, o.plan[i]);
    }
    forall i, j | 0 <= i < |o.plan| && 0 <= j < |o.plan| && o.plan[i].id != o.plan[j].id
      ensures o.sql[i] != o.sql[j]
    {
      if o.sql[i] == o.sql[j] {
        RenderLineId(o.plan[i], o.plan[j]);
      }
    }
  }

  /** Last confirmation wins: a derived term is deleted under the root of its latest confirmation. */
  lemma LastConfirmationWins(js: seq<Judgment>, autoYes: bool, yes: seq<bool>, i: nat)
    requires ScanAll(js, autoYes, yes).Some?
    requires var c := ScanAll(js, autoYes, yes).value.confirmed;
             i < |c| && forall j :: i < j < |c| ==> c[j].0 != c[i].0
    ensures var c := ScanAll(js, autoYes, yes).value.confirmed;
            OD.Get(OD.FromPairs(c), c[i].0) == Some(c[i].1)
  {
    OD.FromPairsLastWins(ScanAll(js, autoYes, yes).value.confirmed, i);
  }
}
