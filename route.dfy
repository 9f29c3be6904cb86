/** The `POST` handler of `/api/generateContent`: it checks the uploaded
    screenshots, shapes one user turn for the vision model out of the system
    prompt, the user's context and one inline JPEG part per screenshot, joins
    the texts of the model's candidates into one message, and maps success
    and every thrown error to a status and a JSON body.

    The model call is a parameter of the handler; parsing the request body
    is summarised by its outcome. */
module GenerateRoute {
  import opened JsText

  /** The fixed instructions sent ahead of the context. Their wording does
      not matter to the handler, so the constant is left unspecified. */
  const SystemPrompt: string

  const ContextSeparator := "\n\nContext: "

  const JpegMime := "image/jpeg"

  const UserRole := "user"

  const NoScreenshotsMessage := "No screenshots provided"

  /** What V8 says when a property is read from `undefined`: the response
      has no `candidates`, a candidate no `content`, a content no `parts`,
      or `parts[0]` is missing. */
  const NoCandidatesMessage := "Cannot read properties of undefined (reading 'map')"

  const NoContentMessage := "Cannot read properties of undefined (reading 'parts')"

  const NoPartsMessage := "Cannot read properties of undefined (reading '0')"

  const MissingPartMessage := "Cannot read properties of undefined (reading 'text')"

  // --------------------------------------------------------------- shapes

  /** A part of a user turn: a text, or inline data with its MIME type. */
  datatype Part = Text(text: string) | InlineData(data: string, mimeType: string)

  datatype Content = Content(role: string, parts: seq<Part>)

  datatype GenerateRequest = GenerateRequest(contents: seq<Content>)

  /** The fields the handler reads from the JSON body; `None` stands for an
      absent field (`undefined`). */
  datatype RequestBody = RequestBody(context: Option<string>, screenshots: Option<seq<string>>)

  /** A part of a candidate's content; `text` is `None` when the part has no
      text field. */
  datatype CandidatePart = CandidatePart(text: Option<string>)

  /** A candidate's `content`; `parts` is `None` when the field is absent. */
  datatype CandidateContent = CandidateContent(parts: Option<seq<CandidatePart>>)

  /** A candidate; `content` is `None` when the field is absent. */
  datatype Candidate = Candidate(content: Option<CandidateContent>)

  /** What the model call gives back: the response with its `candidates`
      (`None` when the field is absent), or the message of the error it
      throws. */
  datatype Upstream = Answered(candidates: Option<seq<Candidate>>) | Threw(message: string)

  /** `{success: true, message}` or `{error}`. */
  datatype ResponseBody = Success(message: string) | Failure(error: string)

  datatype Response = Response(status: nat, body: ResponseBody)

  // ------------------------------------------------------------- request

  /** One inline JPEG part per screenshot, in order (the `imageParts` map). */
  function ImageParts(screenshots: seq<string>): (parts: seq<Part>)
    ensures |parts| == |screenshots|
    ensures forall i :: 0 <= i < |parts| ==> parts[i] == InlineData(screenshots[i], JpegMime)
  {
    if screenshots == [] then []
    else [InlineData(screenshots[0], JpegMime)] + ImageParts(screenshots[1..])
  }

  /** The data carried by inline parts, in order: the inverse of
      `ImageParts`. */
  function InlineDataOf(parts: seq<Part>): seq<string> {
    if parts == [] then []
    else (if parts[0].InlineData? then [parts[0].data] else []) + InlineDataOf(parts[1..])
  }

  /** The screenshots can be read back from the image parts. */
  lemma {:induction false} ImagePartsRoundTrip(screenshots: seq<string>)
    ensures InlineDataOf(ImageParts(screenshots)) == screenshots
  {
    if screenshots != [] {
      ImagePartsRoundTrip(screenshots[1..]);
      assert ImageParts(screenshots)[1..] == ImageParts(screenshots[1..]);
    }
  }

  /** The text part of the user turn. */
  function PromptText(context: Option<string>): (r: string)
    ensures |r| == |SystemPrompt| + |ContextSeparator| + |Interpolate(context)|
    ensures r[..|SystemPrompt|] == SystemPrompt
    ensures r[|SystemPrompt|..|SystemPrompt| + |ContextSeparator|] == ContextSeparator
    ensures r[|SystemPrompt| + |ContextSeparator|..] == Interpolate(context)
  {
    SystemPrompt + ContextSeparator + Interpolate(context)
  }

  /** The context as it was interpolated, read back from a prompt text. */
  function ContextOf(prompt: string): string {
    var n := |SystemPrompt| + |ContextSeparator|;
    if |prompt| < n then "" else prompt[n..]
  }

  /** The prompt keeps the context whole, behind the system prompt and the
      separator. */
  lemma PromptKeepsContext(context: Option<string>)
    ensures ContextOf(PromptText(context)) == Interpolate(context)
  {
    var n := |SystemPrompt| + |ContextSeparator|;
    assert PromptText(context)[n..] == Interpolate(context);
  }

  /** The request sent to the model: one user turn whose parts are the text
      part and then the image parts. */
  function BuildRequest(context: Option<string>, screenshots: seq<string>): (r: GenerateRequest)
    ensures |r.contents| == 1
    ensures r.contents[0].role == UserRole
    ensures |r.contents[0].parts| == 1 + |screenshots|
    ensures r.contents[0].parts[0] == Text(PromptText(context))
    ensures forall i :: 0 <= i < |screenshots| ==> r.contents[0].parts[i + 1] == InlineData(screenshots[i], JpegMime)
  {
    GenerateRequest([Content(UserRole, [Text(PromptText(context))] + ImageParts(screenshots))])
  }

  /** The image parts of the request are the screenshots, in order. */
  lemma RequestCarriesScreenshots(context: Option<string>, screenshots: seq<string>)
    ensures InlineDataOf(BuildRequest(context, screenshots).contents[0].parts) == screenshots
  {
    var parts := BuildRequest(context, screenshots).contents[0].parts;
    assert parts[1..] == ImageParts(screenshots);
    ImagePartsRoundTrip(screenshots);
  }

  /** Everything before the model call: the parsed body is checked and the
      request built, or the error thrown so far is returned. A failed
      `req.json()` is given as `Err` with its message. */
  function Prepare(parsed: Result<RequestBody>): (r: Result<GenerateRequest>)
    ensures r.Err? <==> parsed.Err? || parsed.value.screenshots.None? || parsed.value.screenshots.value == []
    ensures parsed.Ok? && r.Err? ==> r.message == NoScreenshotsMessage
    ensures parsed.Err? ==> r == Err(parsed.message)
    ensures r.Ok? ==> r.value == BuildRequest(parsed.value.context, parsed.value.screenshots.value)
  {
    match parsed
    case Err(m) => Err(m)
    case Ok(body) =>
      if body.screenshots.None? || body.screenshots.value == [] then Err(NoScreenshotsMessage)
      else Ok(BuildRequest(body.context, body.screenshots.value))
  }

  // ------------------------------------------------------------- response

  /** Whether `candidate.content.parts[0]` exists. */
  predicate HasFirstPart(c: Candidate) {
    c.content.Some? && c.content.value.parts.Some? && c.content.value.parts.value != []
  }

  /** What `candidate.content.parts[0].text` contributes to the join, or the
      error reading it throws: `join` writes a missing text as the empty
      string. */
  function FirstText(c: Candidate): (r: Result<string>)
    ensures r.Ok? <==> HasFirstPart(c)
    ensures r.Ok? ==> r.value == (if c.content.value.parts.value[0].text.Some? then c.content.value.parts.value[0].text.value else "")
    ensures c.content.None? ==> r == Err(NoContentMessage)
    ensures c.content.Some? && c.content.value.parts.None? ==> r == Err(NoPartsMessage)
    ensures c.content.Some? && c.content.value.parts == Some([]) ==> r == Err(MissingPartMessage)
  {
    match c.content
    case None => Err(NoContentMessage)
    case Some(content) =>
      match content.parts
      case None => Err(NoPartsMessage)
      case Some(parts) =>
        if parts == [] then Err(MissingPartMessage)
        else Ok(match parts[0].text case Some(t) => t case None => "")
  }

  /** The candidates' first texts in order, or the error thrown by the
      first candidate whose first part cannot be read. */
  function CandidateTexts(cs: seq<Candidate>): (r: Result<seq<string>>)
    ensures r.Ok? <==> forall i :: 0 <= i < |cs| ==> HasFirstPart(cs[i])
    ensures r.Ok? ==> |r.value| == |cs| && forall i :: 0 <= i < |cs| ==> r.value[i] == FirstText(cs[i]).value
    ensures r.Err? ==> exists j :: FirstFailure(cs, j) && r.message == FirstText(cs[j]).message
  {
    if cs == [] then Ok([])
    else if !HasFirstPart(cs[0]) then
      assert FirstFailure(cs, 0);
      Err(FirstText(cs[0]).message)
    else
      match CandidateTexts(cs[1..])
      case Ok(rest) => Ok([FirstText(cs[0]).value] + rest)
      case Err(m) =>
        FailureShifts(cs, m);
        Err(m)
  }

  /** The first failure behind a good first candidate is the first failure
      of the whole sequence. */
  lemma FailureShifts(cs: seq<Candidate>, m: string)
    requires cs != [] && HasFirstPart(cs[0])
    requires exists j :: FirstFailure(cs[1..], j) && m == FirstText(cs[1..][j]).message
    ensures exists j :: FirstFailure(cs, j) && m == FirstText(cs[j]).message
  {
    var j :| FirstFailure(cs[1..], j) && m == FirstText(cs[1..][j]).message;
    assert FirstFailure(cs, j + 1);
  }

  /** `cs[j]` is the first candidate without a first part. */
  ghost predicate FirstFailure(cs: seq<Candidate>, j: int) {
    0 <= j < |cs| && !HasFirstPart(cs[j]) && forall i :: 0 <= i < j ==> HasFirstPart(cs[i])
  }

  /** The reply message from what the model returned, or the message of the
      error that ends the `try` block. */
  function Extract(up: Upstream): (r: Result<string>)
    ensures up.Threw? ==> r == Err(up.message)
    ensures up.Answered? && up.candidates.None? ==> r == Err(NoCandidatesMessage)
    ensures r.Ok? <==> up.Answered? && up.candidates.Some? && CandidateTexts(up.candidates.value).Ok?
    ensures r.Ok? ==> r.value == Join(CandidateTexts(up.candidates.value).value, "\n")
    ensures up.Answered? && up.candidates.Some? && r.Err? ==> r.message == CandidateTexts(up.candidates.value).message
  {
    match up
    case Threw(m) => Err(m)
    case Answered(None) => Err(NoCandidatesMessage)
    case Answered(Some(cs)) =>
      match CandidateTexts(cs)
      case Ok(texts) => Ok(Join(texts, "\n"))
      case Err(m) => Err(m)
  }

  /** The handler: the body as `req.json()` parsed it and the model call in,
      the response out. Every error thrown inside `try` is caught and becomes
      a 500 carrying its message. */
  function Post(parsed: Result<RequestBody>, call: GenerateRequest -> Upstream): (resp: Response)
    ensures resp.status == 200 || resp.status == 500
    ensures resp.status == 200 <==> resp.body.Success?
    ensures resp.status == 200 <==> Prepare(parsed).Ok? && Extract(call(Prepare(parsed).value)).Ok?
    ensures resp.body.Success? ==> resp.body.message == Extract(call(Prepare(parsed).value)).value
    ensures resp.body.Failure? && Prepare(parsed).Err? ==> resp.body.error == Prepare(parsed).message
    ensures resp.body.Failure? && Prepare(parsed).Ok? ==> resp.body.error == Extract(call(Prepare(parsed).value)).message
  {
    match Prepare(parsed)
    case Err(m) => Response(500, Failure(m))
    case Ok(request) =>
      match Extract(call(request))
      case Ok(message) => Response(200, Success(message))
      case Err(m) => Response(500, Failure(m))
  }

  // ------------------------------------------------------------ properties

  /** Missing or empty screenshots give a 500 with that message, whatever
      the model would have answered: the model is not called. */
  lemma NoScreenshotsRejected(body: RequestBody, call: GenerateRequest -> Upstream, other: GenerateRequest -> Upstream)
    requires body.screenshots.None? || body.screenshots == Some([])
    ensures Post(Ok(body), call) == Response(500, Failure(NoScreenshotsMessage))
    ensures Post(Ok(body), call) == Post(Ok(body), other)
  {
  }

  /** The model is called at most once, on the built request: two model
      calls that agree on it give the same response. */
  lemma OnlyTheBuiltRequestMatters(parsed: Result<RequestBody>, call: GenerateRequest -> Upstream, other: GenerateRequest -> Upstream)
    requires parsed.Ok? && parsed.value.screenshots.Some?
    requires call(BuildRequest(parsed.value.context, parsed.value.screenshots.value))
          == other(BuildRequest(parsed.value.context, parsed.value.screenshots.value))
    ensures Post(parsed, call) == Post(parsed, other)
  {
  }

  /** When every candidate has a first part, the handler answers 200 with
      their texts joined by newlines. */
  lemma AnsweredIsSuccess(body: RequestBody, call: GenerateRequest -> Upstream, cs: seq<Candidate>)
    requires body.screenshots.Some? && body.screenshots.value != []
    requires call(BuildRequest(body.context, body.screenshots.value)) == Answered(Some(cs))
    requires forall i :: 0 <= i < |cs| ==> HasFirstPart(cs[i])
    ensures exists texts :: |texts| == |cs|
                            && (forall i :: 0 <= i < |cs| ==> texts[i] == FirstText(cs[i]).value)
                            && Post(Ok(body), call) == Response(200, Success(Join(texts, "\n")))
  {
    var texts := CandidateTexts(cs).value;
    assert Post(Ok(body), call) == Response(200, Success(Join(texts, "\n")));
  }

  /** The first candidate whose first part cannot be read decides the
      error: a 500 carrying the message of reading it. */
  lemma MissingPartIsFailure(body: RequestBody, call: GenerateRequest -> Upstream, cs: seq<Candidate>, j: nat)
    requires body.screenshots.Some? && body.screenshots.value != []
    requires call(BuildRequest(body.context, body.screenshots.value)) == Answered(Some(cs))
    requires j < |cs| && !HasFirstPart(cs[j])
    requires forall i :: 0 <= i < j ==> HasFirstPart(cs[i])
    ensures Post(Ok(body), call) == Response(500, Failure(FirstText(cs[j]).message))
  {
    assert FirstFailure(cs, j);
    var r := CandidateTexts(cs);
    var k :| FirstFailure(cs, k) && r.message == FirstText(cs[k]).message;
    FirstFailureUnique(cs, j, k);
  }

  lemma FirstFailureUnique(cs: seq<Candidate>, j: int, k: int)
    requires FirstFailure(cs, j) && FirstFailure(cs, k)
    ensures j == k
  {
  }

  /** A response without candidates becomes a 500 carrying the error of
      mapping over `undefined`. */
  lemma NoCandidatesIsFailure(body: RequestBody, call: GenerateRequest -> Upstream)
    requires body.screenshots.Some? && body.screenshots.value != []
    requires call(BuildRequest(body.context, body.screenshots.value)) == Answered(None)
    ensures Post(Ok(body), call) == Response(500, Failure(NoCandidatesMessage))
  {
  }

  /** An error thrown by the model call becomes a 500 carrying its message,
      with no success field. */
  lemma ThrownIsFailure(body: RequestBody, call: GenerateRequest -> Upstream, message: string)
    requires body.screenshots.Some? && body.screenshots.value != []
    requires call(BuildRequest(body.context, body.screenshots.value)) == Threw(message)
    ensures Post(Ok(body), call) == Response(500, Failure(message))
  {
  }

  /** A body `req.json()` could not parse becomes a 500 carrying the parse
      error's message. */
  lemma UnparsedIsFailure(message: string, call: GenerateRequest -> Upstream)
    ensures Post(Err(message), call) == Response(500, Failure(message))
  {
  }

  /** One candidate gives exactly its text; none give the empty message,
      still with status 200. */
  lemma FewCandidates(cs: seq<Candidate>)
    requires |cs| <= 1
    requires forall i :: 0 <= i < |cs| ==> HasFirstPart(cs[i])
    ensures cs == [] ==> Extract(Answered(Some(cs))) == Ok("")
    ensures |cs| == 1 ==> Extract(Answered(Some(cs))) == Ok(FirstText(cs[0]).value)
  {
    JoinSmall(CandidateTexts(cs).value, "\n");
  }

  /** When no candidate text holds a newline, the message splits back into
      the candidates' texts, one per line. */
  lemma MessageLinesAreCandidates(cs: seq<Candidate>)
    requires cs != []
    requires forall i :: 0 <= i < |cs| ==> OneLine(cs[i])
    ensures exists message :: Extract(Answered(Some(cs))) == Ok(message) && Split(message, '\n') == CandidateTexts(cs).value
  {
    var texts := TextsHaveNoNewline(cs);
    ExtractSplits(cs, texts);
  }

  lemma ExtractSplits(cs: seq<Candidate>, texts: seq<string>)
    requires CandidateTexts(cs) == Ok(texts)
    requires |texts| >= 1 && forall k :: 0 <= k < |texts| ==> '\n' !in texts[k]
    ensures Extract(Answered(Some(cs))) == Ok(Join(texts, ['\n']))
    ensures Split(Join(texts, ['\n']), '\n') == texts
  {
    SplitJoin(texts, '\n');
  }

  /** The candidate has a first part, and its text is a single line. */
  predicate OneLine(c: Candidate) {
    HasFirstPart(c) && '\n' !in FirstText(c).value
  }

  lemma TextsHaveNoNewline(cs: seq<Candidate>) returns (texts: seq<string>)
    requires cs != []
    requires forall i :: 0 <= i < |cs| ==> OneLine(cs[i])
    ensures CandidateTexts(cs) == Ok(texts)
    ensures |texts| >= 1 && forall k :: 0 <= k < |texts| ==> '\n' !in texts[k]
  {
    texts := CandidateTexts(cs).value;
  }
}
