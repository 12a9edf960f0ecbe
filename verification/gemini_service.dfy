/**
  `generateAgentCode` of services/geminiService.ts: reject a blank task,
  build the user prompt, ask the generation backend, extract the code from
  its reply, and reshape every failure inside the request into one of two
  messages.

  The backend call is a parameter: `backend(prompt)` is what the call made
  with that user prompt settles to. The model name, the system instruction
  and the sampling parameters are the same on every call, so they are part
  of what `backend` stands for.
 */
module GeminiService {
  import opened Text
  import opened Outcomes
  import opened FencePatterns
  import opened Extraction

  // The longer messages are written in pieces so that the verifier can look
  // at their individual characters.
  const EmptyTaskMessage: string := "Task description cannot be empty."
  const InvalidKeyMessage: string := "Invalid API Key. Please check " + "your Gemini API key configuration."
  const CommsPrefix: string := "An error occurred while " + "communicating with the AI: "
  const KeyInvalidMarker: string := "API_KEY_INVALID"

  const PromptOpen: string := "User's Task: \""
  const PromptClose: string := "\""

  /** A value thrown inside the `try`: an `Error` with its message, or any
      other value, given by what `String(value)` makes of it. */
  datatype Thrown = ErrorValue(message: string) | OtherValue(text: string)

  /** How the backend call settles: with the reply text, or by throwing. */
  datatype BackendOutcome = Replied(text: string) | Threw(thrown: Thrown)

  // ---------------------------------------------------------------------------
  // Input guard and prompt
  // ---------------------------------------------------------------------------

  /** `if (!taskDescription.trim()) throw ...`: an empty trimmed string is
      falsy, so exactly the all-whitespace tasks are refused. */
  function CheckTask(task: string): (r: Result<string>)
    ensures r.Failure? <==> AllWs(task)
    ensures r.Failure? ==> r.message == EmptyTaskMessage
    ensures r.Success? ==> r.value == task
  {
    if Trim(task) == [] then Failure(EmptyTaskMessage) else Success(task)
  }

  /** The user message: the task, unmodified and unescaped, between
      `User's Task: "` and `"`. */
  function UserPrompt(task: string): (p: string)
    ensures |p| == |PromptOpen| + |task| + |PromptClose|
    ensures HasPrefix(p, PromptOpen) && HasSuffix(p, PromptClose)
    ensures p[|PromptOpen|..|p| - |PromptClose|] == task
  {
    var p := PromptOpen + task + PromptClose;
    assert p[|PromptOpen|..|p| - |PromptClose|] == task;
    p
  }

  /** The task a user prompt was built from, if it is one. */
  function TaskOfPrompt(p: string): (task: Option<string>)
  {
    if |p| >= |PromptOpen| + |PromptClose| && HasPrefix(p, PromptOpen) && HasSuffix(p, PromptClose)
    then Some(p[|PromptOpen|..|p| - |PromptClose|])
    else None
  }

  /** The prompt determines the task: building a prompt and reading the task
      back out gives the task, and every prompt read back that way is the one
      built from what was read. */
  lemma {:induction false} PromptRoundTrip(task: string, p: string)
    ensures TaskOfPrompt(UserPrompt(task)) == Some(task)
    ensures TaskOfPrompt(p) == Some(task) ==> UserPrompt(task) == p
  {
    if TaskOfPrompt(p) == Some(task) {
      assert p == p[..|PromptOpen|] + p[|PromptOpen|..|p| - |PromptClose|] + p[|p| - |PromptClose|..];
    }
  }

  // ---------------------------------------------------------------------------
  // Error translation (the `catch` block)
  // ---------------------------------------------------------------------------

  /** `error instanceof Error ? error.message : String(error)`. */
  function Describe(e: Thrown): string {
    match e
    case ErrorValue(m) => m
    case OtherValue(s) => s
  }

  /** The catch block: an `Error` whose message mentions `API_KEY_INVALID`
      becomes the fixed invalid-key message; everything else is prefixed. */
  function TranslateError(e: Thrown): (m: string)
    ensures m == InvalidKeyMessage <==> e.ErrorValue? && Contains(e.message, KeyInvalidMarker)
    ensures m != InvalidKeyMessage ==> HasPrefix(m, CommsPrefix) && m[|CommsPrefix|..] == Describe(e)
  {
    if e.ErrorValue? && Contains(e.message, KeyInvalidMarker) then
      InvalidKeyMessage
    else
      var m := CommsPrefix + Describe(e);
      assert m[0] != InvalidKeyMessage[0];
      assert m[|CommsPrefix|..] == Describe(e);
      m
  }

  /** A string that lacks one of sub's characters does not contain sub. */
  lemma MissingCharNotContained(s: string, sub: string, k: int)
    requires 0 <= k < |sub| && sub[k] !in s
    ensures !Contains(s, sub)
  {
    forall i | 0 <= i <= |s| - |sub| ensures !OccursAt(s, sub, i) {
      assert s[i + k] in s;
      assert s[i..i + |sub|][k] == s[i + k];
    }
  }

  // ---------------------------------------------------------------------------
  // The whole request
  // ---------------------------------------------------------------------------

  /** Everything after the backend call settles: extraction, and the catch
      block applied to whatever was thrown inside the `try` — including the
      empty-extraction error. */
  function Settle(outcome: BackendOutcome): (r: Result<string>)
    ensures r.Success? <==> outcome.Replied? && !AllWs(outcome.text)
    ensures r.Success? ==> r.value != [] && IsTrimmed(r.value)
    ensures r.Failure? ==> r.message == InvalidKeyMessage || HasPrefix(r.message, CommsPrefix)
  {
    match outcome
    case Threw(e) => Failure(TranslateError(e))
    case Replied(text) =>
      match ExtractCode(text)
      case Success(code) => Success(code)
      case Failure(message) => Failure(TranslateError(ErrorValue(message)))
  }

  /** `generateAgentCode(taskDescription)`. */
  function GenerateAgentCode(task: string, backend: string -> BackendOutcome): (r: Result<string>)
    ensures r == Failure(EmptyTaskMessage) <==> AllWs(task)
    ensures r.Success? ==> r.value != [] && IsTrimmed(r.value)
    ensures r.Failure? ==>
      r.message == EmptyTaskMessage || r.message == InvalidKeyMessage || HasPrefix(r.message, CommsPrefix)
  {
    match CheckTask(task)
    case Failure(message) => Failure(message)
    case Success(_) =>
      var r := Settle(backend(UserPrompt(task)));
      assert r.Failure? && r.message != InvalidKeyMessage ==> r.message[0] != EmptyTaskMessage[0];
      r
  }

  // ---------------------------------------------------------------------------
  // Properties of the whole request
  // ---------------------------------------------------------------------------

  /** A blank task fails before the backend is involved: the outcome is the
      same whatever the backend would do, and the message is not prefixed
      since it is thrown outside the `try`. */
  lemma BlankTaskSkipsBackend(task: string, b1: string -> BackendOutcome, b2: string -> BackendOutcome)
    requires AllWs(task)
    ensures GenerateAgentCode(task, b1) == GenerateAgentCode(task, b2) == Failure(EmptyTaskMessage)
    ensures !HasPrefix(EmptyTaskMessage, CommsPrefix)
  {
    assert EmptyTaskMessage[0] != CommsPrefix[0];
  }

  /** For any other task, the backend is consulted on exactly the user
      prompt: two backends that agree on it give the same outcome. */
  lemma BackendSeesOnlyPrompt(task: string, b1: string -> BackendOutcome, b2: string -> BackendOutcome)
    requires !AllWs(task)
    requires b1(UserPrompt(task)) == b2(UserPrompt(task))
    ensures GenerateAgentCode(task, b1) == GenerateAgentCode(task, b2)
  {
  }

  /** A reply is handed to extraction unchanged, and its code is the result. */
  lemma ReplyIsExtracted(task: string, backend: string -> BackendOutcome, code: string)
    requires !AllWs(task)
    requires backend(UserPrompt(task)).Replied?
    requires ExtractCode(backend(UserPrompt(task)).text) == Success(code)
    ensures GenerateAgentCode(task, backend) == Success(code)
  {
  }

  /** A blank reply surfaces as the prefixed empty-extraction message: the
      error thrown at line 89 passes through the same catch block. */
  lemma BlankReplyReported(task: string, backend: string -> BackendOutcome)
    requires !AllWs(task)
    requires backend(UserPrompt(task)).Replied? && AllWs(backend(UserPrompt(task)).text)
    ensures GenerateAgentCode(task, backend) == Failure(CommsPrefix + EmptyReplyMessage)
  {
    assert KeyInvalidMarker[3] == '_';
    assert '_' !in EmptyReplyMessage;
    MissingCharNotContained(EmptyReplyMessage, KeyInvalidMarker, 3);
  }

  /** A backend failure whose `Error` mentions `API_KEY_INVALID` is reported
      as the fixed invalid-key message; any other thrown value is reported
      with the prefix followed by its description. */
  lemma BackendFailureReported(task: string, backend: string -> BackendOutcome)
    requires !AllWs(task)
    requires backend(UserPrompt(task)).Threw?
    ensures var e := backend(UserPrompt(task)).thrown;
      GenerateAgentCode(task, backend) ==
        if e.ErrorValue? && Contains(e.message, KeyInvalidMarker) then Failure(InvalidKeyMessage)
        else Failure(CommsPrefix + Describe(e))
  {
    var e := backend(UserPrompt(task)).thrown;
    var m := TranslateError(e);
    if m != InvalidKeyMessage {
      assert m == m[..|CommsPrefix|] + m[|CommsPrefix|..];
    }
  }
}
