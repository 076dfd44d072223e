/**
 * The retrying model-call client (`MistralInterface.invokeLLM`). The SDK call itself is an
 * oracle: attempt number `k` (counting from 0) gets the outcome `oracle(k)`. The permit pool
 * and the back-off sleeps are not part of this model.
 */
module MistralInterface {
  import opened PyText
  import opened PyValue
  import opened Wrappers

  /** What one `chat.complete` call does. */
  datatype CallOutcome =
    | Returned(result: Value)   // the call returned an SDK object or a dict
    | RaisedSdkError            // the call raised `SDKError`
    | RaisedOther               // the call raised any other exception

  /**
   * The defensive content extraction: `choices` is read as an attribute, or as a key when the
   * attribute is absent and the result is a dict; then `choices[0]`, its `message` and the
   * message's `content`, each by key for a dict and by attribute otherwise. Anything that would
   * raise inside the guarded block gives None (`content = None`).
   */
  function ExtractContent(result: Value): (content: Value)
    ensures !result.Obj? && !result.Dict? ==> content == NoneV
  {
    var byAttr := GetAttr(result, "choices");
    var choices := if !Truthy(byAttr) && result.Dict? then DictGet(result.entries, "choices") else byAttr;
    if !Truthy(choices) then NoneV
    else match First(choices)
      case None => NoneV
      case Some(first) =>
        var message := if first.Dict? then DictGet(first.entries, "message") else GetAttr(first, "message");
        if !Truthy(message) then NoneV
        else if message.Dict? then DictGet(message.entries, "content") else GetAttr(message, "content")
  }

  /** How one attempt ends the loop or lets it go on. */
  datatype Step =
    | Answered(text: string)   // truthy string content: `content.strip()` and stop
    | Transient                // missing / empty content or `SDKError`: count and retry
    | Unexpected               // any other exception: stop with ("", False)

  /**
   * The fate of one attempt. Truthy content that is not a string makes `content.strip()` raise
   * outside the guarded extraction, which is the "unexpected error" path.
   */
  function Classify(o: CallOutcome): (s: Step)
    ensures o.RaisedSdkError? ==> s == Transient
    ensures o.RaisedOther? ==> s == Unexpected
    ensures s.Answered? <==> o.Returned? && ExtractContent(o.result).Str? && ExtractContent(o.result).s != []
    ensures s.Answered? ==> s.text == Strip(ExtractContent(o.result).s)
    ensures s == Transient <==> o.RaisedSdkError? || (o.Returned? && !Truthy(ExtractContent(o.result)))
  {
    match o
    case RaisedSdkError => Transient
    case RaisedOther => Unexpected
    case Returned(result) =>
      var content := ExtractContent(result);
      if !Truthy(content) then Transient
      else if content.Str? then Answered(Strip(content.s))
      else Unexpected
  }

  /** The returned `(response, success)` pair, with the number of SDK calls made. */
  datatype Invocation = Invocation(response: string, success: bool, calls: nat)

  /** The loop from the point where `retry_counter == retry`. */
  function InvokeFrom(oracle: nat -> CallOutcome, attempts: int, retry: nat): Invocation
    decreases attempts - retry
  {
    if retry >= attempts then Invocation("", false, retry)
    else match Classify(oracle(retry))
      case Answered(t) => Invocation(t, true, retry + 1)
      case Transient => InvokeFrom(oracle, attempts, retry + 1)
      case Unexpected => Invocation("", false, retry + 1)
  }

  /** What `invokeLLM(prompt, attempts=attempts)` returns, given the SDK's behaviour. */
  function Invoke(oracle: nat -> CallOutcome, attempts: int): Invocation {
    InvokeFrom(oracle, attempts, 0)
  }

  /** The retry loop itself. */
  method InvokeLLM(oracle: nat -> CallOutcome, attempts: int)
    returns (response: string, success: bool, calls: nat)
    ensures Invocation(response, success, calls) == Invoke(oracle, attempts)
  {
    response, success := "", false;
    var retryCounter: nat := 0;
    calls := 0;
    while retryCounter < attempts
      invariant calls == retryCounter
      invariant InvokeFrom(oracle, attempts, retryCounter) == Invoke(oracle, attempts)
      invariant response == "" && !success
      decreases attempts - retryCounter
    {
      var outcome := oracle(retryCounter);
      calls := calls + 1;
      match outcome {
        case RaisedSdkError =>
          retryCounter := retryCounter + 1;
        case RaisedOther =>
          break;
        case Returned(result) =>
          var content := ExtractContent(result);
          if Truthy(content) {
            if content.Str? {
              response := Strip(content.s);
              success := true;
            }
            break;
          } else {
            retryCounter := retryCounter + 1;
          }
      }
    }
  }

  // ---------------------------------------------------------------------------
  // Properties of the retry loop
  // ---------------------------------------------------------------------------

  /** No attempts allowed: no call is made and ("", False) is returned. */
  lemma NoAttemptsNoCall(oracle: nat -> CallOutcome, attempts: int)
    requires attempts <= 0
    ensures Invoke(oracle, attempts) == Invocation("", false, 0)
  {
  }

  /** Between `retry` and the last call, every attempt was transient; never more than `attempts` calls. */
  lemma {:induction false} InvokeFromBounds(oracle: nat -> CallOutcome, attempts: int, retry: nat)
    requires retry <= attempts
    ensures retry <= InvokeFrom(oracle, attempts, retry).calls <= attempts
    ensures forall i :: retry <= i < InvokeFrom(oracle, attempts, retry).calls - 1 ==> Classify(oracle(i)) == Transient
    decreases attempts - retry
  {
    if retry < attempts && Classify(oracle(retry)) == Transient {
      InvokeFromBounds(oracle, attempts, retry + 1);
    }
  }

  /** A success is the stripped text of the last call's answer; a failure always returns "". */
  lemma {:induction false} SuccessMeansLastAnswered(oracle: nat -> CallOutcome, attempts: int, retry: nat)
    requires retry <= attempts
    ensures var r := InvokeFrom(oracle, attempts, retry);
            r.success ==> r.calls > retry && Classify(oracle(r.calls - 1)) == Answered(r.response)
    ensures !InvokeFrom(oracle, attempts, retry).success ==> InvokeFrom(oracle, attempts, retry).response == ""
    decreases attempts - retry
  {
    if retry < attempts && Classify(oracle(retry)) == Transient {
      SuccessMeansLastAnswered(oracle, attempts, retry + 1);
    }
  }

  /** The SDK is called at most `attempts` times (and never when `attempts <= 0`). */
  lemma AtMostAttemptsCalls(oracle: nat -> CallOutcome, attempts: int)
    ensures Invoke(oracle, attempts).calls <= if attempts < 0 then 0 else attempts
  {
    if attempts >= 0 {
      InvokeFromBounds(oracle, attempts, 0);
    }
  }

  /** `k` transient attempts followed by an answer: success after exactly `k + 1` calls. */
  lemma {:induction false} AnswerAfterTransients(oracle: nat -> CallOutcome, attempts: int, k: nat, retry: nat)
    requires retry <= k < attempts
    requires forall i :: retry <= i < k ==> Classify(oracle(i)) == Transient
    requires Classify(oracle(k)).Answered?
    ensures InvokeFrom(oracle, attempts, retry) == Invocation(Classify(oracle(k)).text, true, k + 1)
    decreases k - retry
  {
    if retry < k {
      AnswerAfterTransients(oracle, attempts, k, retry + 1);
    }
  }

  /** `k` transient attempts followed by an unexpected error: ("", False) after `k + 1` calls. */
  lemma {:induction false} UnexpectedAfterTransients(oracle: nat -> CallOutcome, attempts: int, k: nat, retry: nat)
    requires retry <= k < attempts
    requires forall i :: retry <= i < k ==> Classify(oracle(i)) == Transient
    requires oracle(k).RaisedOther?
    ensures InvokeFrom(oracle, attempts, retry) == Invocation("", false, k + 1)
    decreases k - retry
  {
    if retry < k {
      UnexpectedAfterTransients(oracle, attempts, k, retry + 1);
    }
  }

  /** Every attempt transient: ("", False) after exactly `attempts` calls. */
  lemma {:induction false} AllTransient(oracle: nat -> CallOutcome, attempts: int, retry: nat)
    requires retry <= attempts
    requires forall i :: retry <= i < attempts ==> Classify(oracle(i)) == Transient
    ensures InvokeFrom(oracle, attempts, retry) == Invocation("", false, attempts)
    decreases attempts - retry
  {
    if retry < attempts {
      AllTransient(oracle, attempts, retry + 1);
    }
  }

  /** The first answering attempt wins: nothing after it is called, whatever it would do. */
  lemma {:induction false} LaterOutcomesIrrelevant(o1: nat -> CallOutcome, o2: nat -> CallOutcome, attempts: int, retry: nat)
    requires retry <= attempts
    requires forall i :: retry <= i < InvokeFrom(o1, attempts, retry).calls ==> o1(i) == o2(i)
    ensures InvokeFrom(o1, attempts, retry) == InvokeFrom(o2, attempts, retry)
    decreases attempts - retry
  {
    if retry < attempts && Classify(o1(retry)) == Transient {
      InvokeFromBounds(o1, attempts, retry + 1);
      LaterOutcomesIrrelevant(o1, o2, attempts, retry + 1);
    }
  }

  // ---------------------------------------------------------------------------
  // Properties of the content extraction
  // ---------------------------------------------------------------------------

  /** Whether a container in the response is an SDK object or a plain dict. */
  datatype Shape = ObjectShape | DictShape

  /** A one-field container of the given shape. */
  function Holder(shape: Shape, key: string, v: Value): Value {
    match shape
    case ObjectShape => Obj(map[key := v])
    case DictShape => Dict([(key, v)])
  }

  /** The standard response `result.choices[0].message.content`, each level in either shape. */
  function Response(top: Shape, choice: Shape, msg: Shape, content: Value): Value {
    Holder(top, "choices", List([Holder(choice, "message", Holder(msg, "content", content))]))
  }

  /** Content is found identically whichever of the three levels are objects or dicts. */
  lemma ContentFoundInEveryShape(top: Shape, choice: Shape, msg: Shape, content: Value)
    ensures ExtractContent(Response(top, choice, msg, content)) == content
  {
  }

  /** Whitespace-only content is truthy, so it succeeds, but with the empty string. */
  lemma WhitespaceContentSucceedsEmpty(top: Shape, choice: Shape, msg: Shape, text: string)
    requires text != [] && AllSpace(text)
    ensures Classify(Returned(Response(top, choice, msg, Str(text)))) == Answered("")
  {
    ContentFoundInEveryShape(top, choice, msg, Str(text));
    StripEmptyIff(text);
  }

  /** Missing or empty content is retried exactly like an `SDKError`. */
  lemma EmptyContentIsRetried(top: Shape, choice: Shape, msg: Shape, content: Value)
    requires content == NoneV || content == Str("")
    ensures Classify(Returned(Response(top, choice, msg, content))) == Classify(RaisedSdkError)
  {
    ContentFoundInEveryShape(top, choice, msg, content);
  }

  /** A response whose `choices` is not a non-empty list counts as missing content. */
  lemma NoChoicesIsRetried(result: Value)
    requires var choices := if result.Obj? then GetAttr(result, "choices")
                            else if result.Dict? then DictGet(result.entries, "choices")
                            else NoneV;
             !(choices.List? && choices.items != [])
    ensures Classify(Returned(result)) == Transient
  {
  }
}
