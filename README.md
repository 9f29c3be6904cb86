# TestTiki: a Dafny model of the reply formatter, the generation route and the form

TestTiki is a Next.js application. The user uploads screenshots of a piece
of software and describes it. A route hands both to a vision model, and the
page renders the test cases that come back as HTML. This project models the
three parts of that flow that are plain logic:

- `js_text.dfy` (module `JsText`): the JavaScript string built-ins the code
  relies on. These are the regular-expression classes `\d` and `\s`, the
  line terminators `^` looks behind for under the `m` flag,
  `String.prototype.trim`, `split` on one character, `Array.prototype.join`,
  template-literal interpolation, and the decimal form of a status code.
- `formatter.dfy` (module `Formatter`): `formatResponse`, the chain of six
  `replace` calls that turns the model's reply into HTML. A generic global
  replace (`ReplaceAll`) runs a sticky matcher per expression (`HitAt`). Each
  matcher is shown sound and complete against a declarative description of
  the text its expression matches. `FormatResponse` is the composition of
  the passes in source order.
- `route.dfy` (module `GenerateRoute`): the `POST` handler of
  `/api/generateContent`. It covers input checks, building the one user
  turn, joining the candidates, and mapping to status and body. The model
  call is a function parameter. A body that `req.json()` could not parse is
  given as an error.
- `page.dfy` (module `HomePage`): the page's form state as a class `Home`,
  whose methods step `context`, `screenshots`, `error`, `result` and
  `isLoading` the way the handlers do. The class `LoadingText` holds the
  rotating loading message. Pure rules (validation, the disabled predicate,
  how an outcome settles, removal by index, base64 extraction) are functions
  with lemmas relating them.

## Model

| member | source | states |
|---|---|---|
| JsText.TrimEnd | app/page.js:79 | the result is a prefix of the input, everything cut is whitespace, and the result does not end in whitespace |
| JsText.TrimStart | app/page.js:79 | the result is a suffix of the input, everything cut is whitespace, and the result does not start with whitespace |
| JsText.Trim | app/page.js:79 | `trim()` gives a stretch of the text with only whitespace around it, neither starting nor ending in whitespace; it is empty exactly when the text is all whitespace |
| JsText.IndexOf | app/page.js:50 | the index found holds the character and no earlier index does; the length when the character is absent |
| JsText.Split | app/page.js:50 | `split` gives at least one piece and no piece contains the separator |
| JsText.JoinSplit | app/page.js:50 | joining the pieces of a split with the separator restores the text |
| JsText.SplitJoin | app/api/generateContent/route.js:91 | splitting a join of separator-free pieces gives the pieces back |
| JsText.SecondField | app/page.js:50 | `split(',')[1]` is undefined exactly when there is no comma; otherwise it is the comma-free text after the first comma, up to the next comma or the end |
| JsText.NatToDecimal | app/page.js:98 | the decimal form of a status is a non-empty digit string without a leading zero |
| JsText.DecimalRoundTrip | app/page.js:98 | reading the decimal form back gives the number |
| Formatter.Run | app/components/AIResponseText.js:9-11 | a greedy repetition of a class takes every character of the class up to the first one outside it |
| Formatter.HeadingHit | app/components/AIResponseText.js:8 | a match of the heading expression is a `**Test Case <digits>:**` label, replaced by the label inside the `<h5>` tags |
| Formatter.HeadingHitComplete | app/components/AIResponseText.js:8 | wherever a label starts the text, the heading expression matches exactly that label |
| Formatter.BoldHit | app/components/AIResponseText.js:9 | a match of the bold expression is `**`, non-`*` text, `**`, replaced by the inner text inside `<strong>` |
| Formatter.BoldHitComplete | app/components/AIResponseText.js:9 | wherever a bold pair starts the text, the lazy bold expression matches exactly that pair |
| Formatter.NumberedHit | app/components/AIResponseText.js:10 | a numbered-item match happens only at a line start, is digits, `.` and whitespace taken greedily, and is wrapped in the indented span |
| Formatter.NumberedHitComplete | app/components/AIResponseText.js:10 | at a line start, a numbered marker followed by a non-space is matched whole |
| Formatter.BulletHit | app/components/AIResponseText.js:11 | a bullet-item match happens only at a line start, is one of `-*+` and whitespace taken greedily, and is wrapped in the indented span |
| Formatter.BulletHitComplete | app/components/AIResponseText.js:11 | at a line start, a bullet marker followed by a non-space is matched whole |
| Formatter.NewlineHit | app/components/AIResponseText.js:12 | the newline expression matches exactly one `\n`, replaced by `<br/>` |
| Formatter.HitAt | app/components/AIResponseText.js:8-12 | every match is non-empty, lies inside the text and is replaced by something longer |
| Formatter.ReplaceAll | app/components/AIResponseText.js:8-12 | a global replace never makes the text shorter |
| Formatter.Apply | app/components/AIResponseText.js:8-12 | one `replace` call of the chain either returns its input or a strictly longer text |
| Formatter.ReplaceAllCopies | app/components/AIResponseText.js:8-12 | a stretch where no attempt matches is copied unchanged |
| Formatter.ReplaceAllGrows | app/components/AIResponseText.js:8-12 | a pass never shortens the text and lengthens it whenever anything matches |
| Formatter.QuietStep | app/components/AIResponseText.js:8-12 | past a position where nothing matches, whether anything matches is decided by the rest |
| Formatter.ReplaceAllUnchangedIff | app/components/AIResponseText.js:8-12 | a pass returns its input exactly when no attempt in it matches |
| Formatter.LineStartIgnored | app/components/AIResponseText.js:8-12 | the heading, bold and newline passes do not depend on where lines start |
| Formatter.NoStarPrefixCopied | app/components/AIResponseText.js:8-9 | the heading and bold passes copy a `*`-free prefix and treat the rest as if it stood alone |
| Formatter.StripTrailingBreak | app/components/AIResponseText.js:13 | the last pass only ever cuts off a suffix |
| Formatter.StripTrailingBreakFromEnd | app/components/AIResponseText.js:13 | reading from the right, the text is kept or cut before a `<br/>` followed by nothing but whitespace |
| Formatter.BreakTailUnique | app/components/AIResponseText.js:13 | a text has at most one `<br/>` followed only by whitespace up to the end |
| Formatter.StripAtBreakTail | app/components/AIResponseText.js:13 | with such a break, the last pass cuts the text right before it |
| Formatter.StripWithoutBreakTail | app/components/AIResponseText.js:13 | without such a break, the last pass leaves the text alone |
| Formatter.StripMatchesFromEnd | app/components/AIResponseText.js:13 | the leftmost-match reading of the last pass equals trimming the end and dropping one final `<br/>` |
| Formatter.FormatResponseEmpty | app/components/AIResponseText.js:6-14 | the empty reply formats to the empty string |
| Formatter.BreaksHaveNoNewline | app/components/AIResponseText.js:12 | the newline pass leaves no `\n` |
| Formatter.FormatResponse | app/components/AIResponseText.js:6-14 | formatted output never contains `\n`, including newlines the list passes carried inside their spans |
| Formatter.StrippedHasNoNewline | app/components/AIResponseText.js:13 | cutting off the trailing break adds no `\n` |
| Formatter.ListPassQuietInLine | app/components/AIResponseText.js:10-11 | in a single line with no marker at its start, the list passes change nothing |
| Formatter.FormatResponseUnchanged | app/components/AIResponseText.js:8-13 | a reply with no `*`, no line terminator, no list marker at its start and no trailing break is shown as it is, markup unescaped |
| Formatter.BoldPairReplaced | app/components/AIResponseText.js:9 | each `**X**` with non-empty `*`-free `X`, newlines allowed, becomes `<strong>X</strong>` and the scan goes on behind it |
| Formatter.LabelWrapped | app/components/AIResponseText.js:8 | the heading pass wraps a label, asterisks kept, in the `<h5>` tags and goes on behind it |
| Formatter.TestCaseLabelBecomesHeading | app/components/AIResponseText.js:8-9 | after the first two passes, `**Test Case n:**` is `<h5 …><strong>Test Case n:</strong></h5>` |
| Formatter.ListMarkerWrapped | app/components/AIResponseText.js:10-11 | at a line start, a list marker not followed by more whitespace is wrapped whole in `<br/><span class="ml-4">…</span>` |
| Formatter.RestOfLineKept | app/components/AIResponseText.js:10-11 | away from a line start the list passes copy the rest of the line |
| Formatter.ListHitNeedsMarkerChar | app/components/AIResponseText.js:10-11 | the list expressions match only at a line start, on a digit or bullet character |
| Formatter.TrailingNewlines | app/components/AIResponseText.js:12-13 | a plain line followed by one newline formats to itself, and followed by two it keeps one `<br/>` |
| Formatter.TrailingNewlinesGo | app/components/AIResponseText.js:7-13 | on a plain line plus newlines, passes one to four change nothing and the fifth turns only the newlines into breaks |
| Formatter.DisplayedMarkup | app/components/AIResponseText.js:23 | the display renders something exactly when the result is non-empty, and then it renders `formatResponse` of the result, which holds no `\n` |
| GenerateRoute.ImageParts | app/api/generateContent/route.js:73-75 | one inline part per screenshot, in order, with that screenshot as data and `image/jpeg` as type |
| GenerateRoute.ImagePartsRoundTrip | app/api/generateContent/route.js:73-75 | the screenshots can be read back from the image parts |
| GenerateRoute.PromptText | app/api/generateContent/route.js:79 | the text part is the system prompt, then `\n\nContext: `, then the context as interpolated (`undefined` when absent), and nothing else |
| GenerateRoute.PromptKeepsContext | app/api/generateContent/route.js:79 | the context (or `undefined` when absent) can be read back from the text part |
| GenerateRoute.BuildRequest | app/api/generateContent/route.js:77-84 | one content entry, role `user`, whose parts are the text part followed by one `image/jpeg` part per screenshot |
| GenerateRoute.RequestCarriesScreenshots | app/api/generateContent/route.js:77-84 | the inline data of the request is the screenshots, in order |
| GenerateRoute.Prepare | app/api/generateContent/route.js:63-84 | the request is built exactly when the body parsed and has a non-empty screenshot list; otherwise the error is the parse error or `No screenshots provided` |
| GenerateRoute.FirstText | app/api/generateContent/route.js:91 | `candidate.content.parts[0].text` is read exactly when content, parts and a first part exist, a missing text counting as empty; otherwise the TypeError names the property read from `undefined` |
| GenerateRoute.CandidateTexts | app/api/generateContent/route.js:91 | the first-part texts of all candidates in order exactly when every candidate has a first part; otherwise the TypeError of the first candidate that has none |
| GenerateRoute.FailureShifts | app/api/generateContent/route.js:91 | a failure behind a readable first candidate is the first failure of the whole list |
| GenerateRoute.Extract | app/api/generateContent/route.js:87-91 | a thrown model error is passed on; no `candidates` throws reading `map`; a message results exactly when every candidate has a first part, and it is their texts joined by `\n`; otherwise the error is the first candidate's TypeError |
| GenerateRoute.Post | app/api/generateContent/route.js:60-114 | the status is 200 or 500; 200 exactly with a success body, and exactly when the request was built and a message extracted; the success body carries that message, a failure body the message of the error thrown first |
| GenerateRoute.NoScreenshotsRejected | app/api/generateContent/route.js:68-70 | missing or empty screenshots give 500 `{error: "No screenshots provided"}` whatever the model would do |
| GenerateRoute.OnlyTheBuiltRequestMatters | app/api/generateContent/route.js:77-91 | the response depends on the model only through its answer to the built request |
| GenerateRoute.AnsweredIsSuccess | app/api/generateContent/route.js:91-103 | when every candidate has a first part, the answer is 200 with their texts joined by `\n` |
| GenerateRoute.MissingPartIsFailure | app/api/generateContent/route.js:91-113 | the first candidate whose first part cannot be read decides the 500 and its error message |
| GenerateRoute.FirstFailureUnique | app/api/generateContent/route.js:91 | there is only one first candidate without a first part |
| GenerateRoute.NoCandidatesIsFailure | app/api/generateContent/route.js:91-113 | a response without `candidates` gives 500 with the TypeError of reading `map` |
| GenerateRoute.ThrownIsFailure | app/api/generateContent/route.js:104-113 | an error thrown by the model call gives 500 with its message and no success field |
| GenerateRoute.UnparsedIsFailure | app/api/generateContent/route.js:60-113 | a body that fails to parse gives 500 with the parse error's message |
| GenerateRoute.FewCandidates | app/api/generateContent/route.js:91 | no candidates give the empty message, one gives exactly its text |
| GenerateRoute.MessageLinesAreCandidates | app/api/generateContent/route.js:91 | when no candidate text has a newline, the message splits back into the candidate texts |
| HomePage.ToScreenshot | app/page.js:47-51 | the base64 of an added file is undefined exactly when its data URL has no comma, else the text between the first and any second comma |
| HomePage.Loaded | app/page.js:42-55 | a batch of files becomes one screenshot per file, in order |
| HomePage.WithoutIndex | app/page.js:58-60 | removing index `i` in range gives `s[..i] + s[i+1..]`; an index out of range leaves the list as it is |
| HomePage.Base64s | app/page.js:93 | the posted list holds each screenshot's base64, in order |
| HomePage.ValidationError | app/page.js:74-82 | no screenshots gives the upload error; with screenshots, an all-whitespace context gives the context error; otherwise nothing |
| HomePage.SubmitDisabled | app/page.js:206 | the button is disabled exactly while loading, with no screenshots, or with an all-whitespace context |
| HomePage.DisabledIffInvalid | app/page.js:206 | the button is disabled exactly when loading or when a submit would fail its checks |
| HomePage.CaughtError | app/page.js:109 | `Error: ` followed by the message, or by `Unexpected error` when the message is empty |
| HomePage.HttpError | app/page.js:98 | the error for a status that is not ok is `HTTP error! status: ` followed by digits that read back as the status |
| HomePage.Settle | app/page.js:97-109 | a result is shown exactly when the response is ok, its body parsed and it reports success, and it is the reply's message; a rejected fetch, a status that is not ok and an unparsable body each give `Error: ` and their message; a reply without success gives `Error generating content: ` and its message, `undefined` when absent |
| HomePage.HttpErrorNamesStatus | app/page.js:97-99 | a response that is not ok ends in an error from which its status can be read back |
| HomePage.UnsuccessfulReply | app/page.js:103-107 | an ok response without success shows `Error generating content: ` and its message |
| HomePage.SuccessfulReply | app/page.js:103-104 | an ok response with success shows its message as the result |
| HomePage.FailureIsVisible | app/page.js:97-109 | every failed request leaves a non-empty error |
| HomePage.Home.constructor | app/page.js:28-33 | the form starts with empty context, screenshots, result and error, and not loading |
| HomePage.Home.ChangeContext | app/page.js:35-37 | the context is replaced and nothing else changes |
| HomePage.Home.AddScreenshots | app/page.js:39-56 | each file's screenshot is appended in turn behind the existing ones; nothing else changes |
| HomePage.Home.RemoveScreenshot | app/page.js:58-60 | the screenshots lose the entry at the index, if in range; nothing else changes |
| HomePage.Home.BeginSubmit | app/page.js:70-95 | the error is cleared; a failed check sets its error and posts nothing; otherwise loading starts and the context and base64 list are posted |
| HomePage.Home.FinishSubmit | app/page.js:96-112 | loading stops whatever happened; a success sets the result, a failure the error |
| HomePage.Home.Disabled | app/page.js:206 | in the current state the button is disabled exactly while loading or when a submit would be refused |
| HomePage.Home.Submit | app/page.js:70-113 | a whole submit: checks first, and a request made leaves loading off with the result shown and no error, or the error set and the old result kept |
| HomePage.NextMessage | app/page.js:12 | the next index stays below the message count, moves up by one, and wraps from the last to the first |
| HomePage.AfterTicks | app/page.js:12 | any number of ticks from an index in range stays in range; at least one tick lands in range from anywhere |
| HomePage.TicksCompose | app/page.js:10-13 | ticking `a` then `b` times is ticking `a + b` times |
| HomePage.TicksForward | app/page.js:12 | before the end of the list each tick moves to the next message |
| HomePage.TicksPeriod | app/page.js:12 | `count` ticks return to the message they started from |
| HomePage.EveryMessageShown | app/page.js:12 | every message comes round within `count` ticks |
| HomePage.LoadingText.constructor | app/page.js:7-8 | the rotation starts at the first message |
| HomePage.LoadingText.Shown | app/page.js:21 | the message on screen is one of the messages, the first until the first tick |
| HomePage.LoadingText.Tick | app/page.js:10-13 | one interval tick moves the index as `(prev + 1) % length` and keeps it in range |

## Left out

- The Vertex AI client, its streaming call, safety settings and token limit
  (app/api/generateContent/route.js:1-8, 54-58, 87-88) are a foreign network
  library. The model call is a parameter `GenerateRequest -> Upstream`.
- `GenerateRoute.SystemPrompt` is declared without a value. The handler
  never looks inside it.
- `req.json()`, `JSON.stringify`, the `Response` constructor, headers and
  the console are serialisation and I/O. The model keeps the status and the
  body's fields.
- A `screenshots` field that is present but not an array is not modelled
  (a non-empty string would reach `.map` and throw). Neither is a `context`
  of another type than string. Screenshots and context are strings or
  absent.
- A `candidates`, `content`, `parts` or `text` field that is present but
  `null` or of another type is not modelled. Each is present with its
  expected type or absent; `null` would throw the same TypeErrors with
  `null` in place of `undefined`.
- `FileReader`, `URL.createObjectURL` (the `preview` field), `fetch`, and
  `setInterval`/`clearInterval` are browser I/O and timers. Each read file
  is appended as one sequential step in the order the files were picked.
  The reads actually finish in any order, and that order is not modelled.
- React's batching of state updates and the stale closure `handleSubmit`
  reads are not modelled. Each method sees the state left by the one
  before.
- HomePage.Settle: a successful reply without a `message` field stores the
  empty string, where the page stores `undefined`. Both render nothing.
- HomePage.Home.BeginSubmit: `e.preventDefault()` and the expanded-image
  modal are UI, and are left out.
- JSX rendering, CSS classes, `next/image` and `html-react-parser` are UI
  and a foreign library. `Formatter.DisplayedMarkup` stops at the markup
  string handed to the parser.
- Formatter.FormatResponseUnchanged: requires that the reply has no line
  terminator at all, not only no `\n`. Under the `m` flag, `^` also holds
  after `\r`, U+2028 and U+2029, so a list marker after one of those is
  wrapped.
- The code has no HTML escaping of the model's reply, and a bold pair's
  inner text may span newlines. The model follows the code in both.
- The code raises no error for zero candidates: the message is empty with
  status 200. An absent context is interpolated as `undefined` into the
  prompt. The model follows the code in both.
- `GenerateRoute.NoCandidatesMessage`, `NoContentMessage`, `NoPartsMessage`
  and `MissingPartMessage` are V8's wording of the TypeErrors for reading a
  property of `undefined`. Other engines word them differently.
- JavaScript strings are sequences of UTF-16 code units; Dafny's `char` is
  a Unicode scalar value. Text outside the Basic Multilingual Plane has a
  different length here, and lone surrogates cannot be written. No rule of
  the model depends on lengths of such text.
