# AI agent code generator: request and reply handling, in Dafny

The application turns a natural-language task description into starter
JavaScript for an "AI agent" by asking a large-language-model backend
(Gemini). Its only logic is `generateAgentCode` in
`services/geminiService.ts`, and that function is what this project models:

- **input guard**: a task that is empty after `trim()` is refused with
  "Task description cannot be empty." before any backend call;
- **user prompt**: `User's Task: "<task>"`, with the task unmodified and unescaped;
- **code extraction** from the reply:
  1. trim the reply;
  2. take the non-empty capture of `` /^```javascript\s*([\s\S]*?)\s*```$/s ``;
  3. otherwise, for a reply that starts and ends with a fence, take the
     non-empty capture of `` /^```(?:\w*\s*)?\n?([\s\S]*?)\n?\s*```$/s ``;
  4. otherwise keep the trimmed reply;
  5. refuse an empty outcome;
- **error translation** in the `catch` block. An `Error` whose message contains
  `API_KEY_INVALID` becomes "Invalid API Key. Please check your Gemini API key
  configuration.". Every other thrown value becomes "An error occurred while
  communicating with the AI: " followed by its message. This includes the
  empty-extraction error raised inside the `try`.

The backend call is a parameter, `backend: string -> BackendOutcome`. It maps
the user prompt to the settled call: `Replied(text)`, or `Threw(value)` where
the value is an `Error` with a message or some other value. Because the model
name, system instruction and sampling settings are the same on every call,
they are part of what `backend` stands for. "No call is made for a blank task"
is stated as "the outcome does not depend on `backend`".

The two regular expressions are not run by an engine. Each becomes a predicate
over positions of the trimmed reply (`StrictAt`, `GenericAt`): where every
sub-pattern stops and where the capture lies. A second predicate (`StrictBest`,
`GenericBest`) picks the split that a backtracking engine reports first.
Greedy `\s*` and `\w*` try longer runs first; the lazy capture tries shorter
captures first. Neither pattern has the `m` flag, so `$` matches only at the
end of the text. The matchers `StrictMatch` and `GenericMatch` are proved to
return exactly that split, or to return none when no split exists. From this
the model derives two facts:

- The strict capture is the trimmed text between `` ```javascript `` and the
  closing fence.
- The generic capture is the trimmed text between the longest run of word
  characters after the opening fence and the closing fence.

`\s` and `trim()` share one whitespace set (`Text.IsWs`), and `\w` is
`[A-Za-z0-9_]`.

The model follows the code where it differs from the intended design:

- An empty fence (`` ```javascript\n``` ``, `` ```\n``` ``, `` ```abc``` ``)
  is returned verbatim, fences included, and is not refused. This happens
  because the code tests the capture for truthiness and otherwise keeps the
  trimmed reply.
- Any leading run of word characters in the generic tier is dropped as a "tag".
- Because the strict pattern's `\s*` may match nothing, a tag that merely
  begins with `javascript` (e.g. `javascriptreact`) hits the strict tier.
  The rest of that tag then becomes the first line of the code.
- Backend failures are reshaped into only the two messages above. There are
  no separate authentication and transport error kinds.

Files: `outcomes.dfy` (Option, Result), `text.dfy` (whitespace, `trim`, runs,
`includes`), `fences.dfy` (the two patterns), `extraction.dfy` (the tiers and
their properties), `gemini_service.dfy` (guard, prompt, catch block, whole
request), `extraction_cases.dfy` (concrete inputs).

## Model

| member | source | states |
|---|---|---|
| Text.Trim | services/geminiService.ts:68 | the result is trimmed, sits in the input with only whitespace on either side, and is empty exactly when the input is all whitespace |
| Text.TrimUnique | services/geminiService.ts:68 | any trimmed string that sits in s between whitespace is `Trim(s)`: trimming has one possible outcome |
| Text.TrimPadded | services/geminiService.ts:75 | whitespace around a trimmed string is removed and nothing else: `trim(pre + x + post) == x` |
| Text.TrimIdempotent | services/geminiService.ts:75 | trimming twice is trimming once, so `match[1].trim()` of an already trimmed capture changes nothing |
| Text.SkipWs | services/geminiService.ts:71 | the index returned is where a greedy `\s*` started at i stops: everything before it is whitespace and the character at it is not |
| Text.SkipWord | services/geminiService.ts:78 | the index returned is where a greedy `\w*` started at i stops |
| Text.SkipWsBack | services/geminiService.ts:71 | the index returned is the start of the longest whitespace run ending at hi, which is where the lazy capture before a trailing `\s*` ends |
| FencePatterns.StrictMatch | services/geminiService.ts:71-72 | the returned span is the match a backtracking engine reports for the strict pattern (longest leading `\s*`, then shortest capture); no span means no way to match at all |
| FencePatterns.StrictBestUnique | services/geminiService.ts:71 | the strict pattern reports at most one match |
| FencePatterns.StrictCaptureIsTrimmedBody | services/geminiService.ts:71-75 | the reported strict capture is trimmed and equals the trimmed text between `` ```javascript `` and the closing fence |
| FencePatterns.StrictMatchesFenced | services/geminiService.ts:71-72 | the strict pattern matches exactly the texts of at least 16 characters that start with `` ```javascript `` and end with a fence |
| FencePatterns.NotJsFenced | services/geminiService.ts:71 | a fenced text whose tag stops before spelling `javascript`, or spells something else, does not start with `` ```javascript `` |
| FencePatterns.GenericMatch | services/geminiService.ts:78-79 | the returned span is the capture of the match a backtracking engine reports for the generic pattern (longest tag, longest `\s*`, optional newline taken, shortest capture), trimmed; no span means no way to match |
| FencePatterns.GenericMatchesAfterTag | services/geminiService.ts:78-79 | every fenced text of at least six characters matches the generic pattern, and the capture is the trimmed text after the longest word run |
| FencePatterns.GenericBestUnique | services/geminiService.ts:78 | the generic pattern reports at most one match |
| FencePatterns.GenericCaptureIsTrimmedBody | services/geminiService.ts:78-81 | the reported generic match takes the longest word run after the opening fence as the tag, and its capture is trimmed and equals the trimmed rest up to the closing fence |
| Extraction.NonEmptyCapture | services/geminiService.ts:74 | a capture is used only when the match exists and the captured string is non-empty (truthy) |
| Extraction.Tiers | services/geminiService.ts:70-84 | the content kept by the three tiers is trimmed and is empty only when the trimmed reply is empty |
| Extraction.ExtractCode | services/geminiService.ts:68-92 | extraction fails exactly when the reply is all whitespace, with the line-89 message; otherwise the code is non-empty and trimmed |
| Extraction.StrictTier | services/geminiService.ts:71-75 | a non-empty strict capture of the trimmed reply is the result |
| Extraction.GenericTier | services/geminiService.ts:76-82 | when the strict pattern yields nothing, a non-empty generic capture is the result |
| Extraction.GenericTierComputed | services/geminiService.ts:76-82 | with no non-empty strict capture and a fenced reply, the kept content is the generic matcher's capture |
| Extraction.FencedVerbatimTier | services/geminiService.ts:74-84 | a fenced reply from which neither pattern yields code comes back as its trimmed self, fences included |
| Extraction.UnfencedVerbatimTier | services/geminiService.ts:76-84 | a non-blank reply that does not both start and end with a fence comes back as its trimmed self |
| Extraction.ExtractIdempotent | services/geminiService.ts:68-92 | extracting a result that is not itself fenced at both ends gives the same result back |
| Extraction.TrimFenced | services/geminiService.ts:68 | whitespace around a fenced reply is trimmed away and the fenced text is kept whole |
| Extraction.StrictFencedReply | services/geminiService.ts:68-75 | a `javascript`-fenced reply whose body trims to non-empty text extracts to that trimmed body |
| Extraction.StrictRoundTrip | services/geminiService.ts:68-75 | `` ```javascript `` + whitespace + b + whitespace + `` ``` ``, with any whitespace around it, extracts to exactly b when b is non-empty and trimmed |
| Extraction.StrictTierKeepsTagRest | services/geminiService.ts:71-75 | a tag `javascript` + more word characters matches the strict pattern, and the rest of the tag stays in the code |
| Extraction.GenericFencedReply | services/geminiService.ts:76-82 | a fenced reply without the `javascript` tag extracts to the trimmed text after its tag when that is non-empty |
| Extraction.GenericRoundTrip | services/geminiService.ts:76-82 | `` ``` `` + tag + whitespace + b + whitespace + `` ``` `` extracts to exactly b for any word-character tag other than one starting with `javascript` |
| Extraction.EmptyFencedReply | services/geminiService.ts:74-84 | a fenced reply in which both captures are empty is returned verbatim |
| Extraction.EmptyFenceStrict | services/geminiService.ts:71-74 | in `` ``` `` + tag + whitespace + `` ``` `` the strict pattern captures nothing |
| Extraction.EmptyFenceVerbatim | services/geminiService.ts:74-84 | `` ``` `` + tag + whitespace + `` ``` `` (tag exactly `javascript` or not starting with it) extracts to the fenced text itself, not to an error |
| GeminiService.CheckTask | services/geminiService.ts:14-16 | a task is refused, with the fixed message, exactly when it is all whitespace; otherwise it is passed on unchanged |
| GeminiService.UserPrompt | services/geminiService.ts:54 | the prompt is `User's Task: "`, then the task unmodified, then `"` |
| GeminiService.PromptRoundTrip | services/geminiService.ts:54 | the task can be read back from its prompt, and a prompt read back is the one built from that task |
| GeminiService.TranslateError | services/geminiService.ts:94-100 | the invalid-key message is produced exactly for an `Error` whose message contains `API_KEY_INVALID`; any other result is the prefix followed by the original message or `String(value)` |
| GeminiService.MissingCharNotContained | services/geminiService.ts:96 | `includes` fails when the text lacks one of the searched characters |
| GeminiService.Settle | services/geminiService.ts:68-100 | after the call, success means a non-blank reply and gives non-empty trimmed code; every failure is the invalid-key message or prefixed |
| GeminiService.GenerateAgentCode | services/geminiService.ts:13-101 | the unprefixed empty-task failure happens exactly for blank tasks; success gives non-empty trimmed code; every failure is one of the three message forms |
| GeminiService.BlankTaskSkipsBackend | services/geminiService.ts:14-16 | for a blank task the outcome is the same for every backend, and its message is not prefixed |
| GeminiService.BackendSeesOnlyPrompt | services/geminiService.ts:54-59 | for any other task, two backends that agree on the user prompt give the same outcome |
| GeminiService.ReplyIsExtracted | services/geminiService.ts:68-92 | the code extracted from the backend's reply is the result |
| GeminiService.BlankReplyReported | services/geminiService.ts:86-99 | a blank reply surfaces as the prefix followed by the empty-extraction message |
| GeminiService.BackendFailureReported | services/geminiService.ts:94-100 | a thrown backend failure becomes the invalid-key message or the prefixed description, by whether it is an `Error` mentioning `API_KEY_INVALID` |
| ExtractionCases.PlainTextCase | services/geminiService.ts:84 | `just plain text` extracts to itself |
| ExtractionCases.BlankReplyCases | services/geminiService.ts:86-90 | an empty and a whitespace-only reply are refused |
| ExtractionCases.QuotedTaskCase | services/geminiService.ts:54 | quotes in a task appear in the prompt unescaped and are read back unchanged |

## Left out

- Reading `API_KEY` from the environment at module load, and constructing the
  SDK client (services/geminiService.ts:5-11). These are process configuration
  and a third-party library.
- The `generateContent` network call (services/geminiService.ts:57-66). It is
  the `backend` parameter, so the model name, system instruction text
  (lines 19-52) and sampling values (lines 62-64) are not represented. The
  sampling values are floating-point settings with no behaviour here.
- A reply whose `text` is undefined. Calling `.trim()` on it throws a
  `TypeError` whose message comes from the JavaScript engine; the model's
  reply is always a string.
- The `console.warn` and `console.error` logging (lines 88 and 95).
- JavaScript strings are UTF-16 code units, while the model's strings are
  sequences of Unicode scalar values. Every character the code inspects is in
  the Basic Multilingual Plane, so the two agree on it.
- App.tsx, components/TaskInput.tsx, components/CodeDisplay.tsx,
  components/Button.tsx, components/Header.tsx and types.ts. They hold React
  state, rendering, the clipboard, a timer and CSS; the blank check at
  App.tsx:19 repeats the service's guard.
- Independence of concurrent requests. Every operation here is a pure
  function with no shared state, so there is nothing further to state.
- Fenced replies written out as string literals (the `javascript`-fenced
  `function f(){return 1;}`, the untagged `const x = 1;`, the three empty
  fences, `javascriptreact`). These are instances of StrictRoundTrip,
  GenericRoundTrip, EmptyFenceVerbatim and StrictTierKeepsTagRest. As literals
  they make the verifier evaluate the whole extraction, which exceeds its
  resource bound.
