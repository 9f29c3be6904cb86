/** The home page's form: the screenshots the user has added, the context
    they typed, and the `error`, `result` and `isLoading` state stepped by a
    submit; plus the rotating loading message shown while a request is out.

    The browser's file reader, `fetch` and timers are not modelled: a read
    file arrives as its data URL, a finished request as its outcome, and a
    timer tick as a call to `Tick`. */
module HomePage {
  import opened JsText

  const NoScreenshotError := "Please upload at least one screenshot."

  const NoContextError := "Please provide some context for the test."

  const GenerationErrorPrefix := "Error generating content: "

  const CaughtErrorPrefix := "Error: "

  const HttpErrorPrefix := "HTTP error! status: "

  const UnexpectedError := "Unexpected error"

  const LoadingMessages := ["Brewing test cases...", "Summoning the QA spirits...", "Decoding the matrix of bugs..."]

  /** A file the user picked, with the data URL the file reader produced
      for it. */
  datatype SelectedFile = SelectedFile(name: string, dataUrl: string)

  /** An added screenshot: its file and the base64 text taken from its data
      URL (`None` for `undefined`, when the URL holds no comma). */
  datatype Screenshot = Screenshot(file: SelectedFile, base64: Option<string>)

  /** The JSON body a submit posts. */
  datatype Payload = Payload(context: string, screenshots: seq<Option<string>>)

  /** The parsed reply: its `success` flag and its `message` field, if any. */
  datatype Reply = Reply(success: bool, message: Option<string>)

  /** How the request ended: `fetch` or reading the body threw with a
      message, or a response arrived with its status and its body, parsed
      or the message of the parse error. */
  datatype FetchOutcome = Rejected(message: string) | Received(status: nat, body: Result<Reply>)

  /** What a settled request leaves on screen: a result, or an error. */
  datatype Settlement = Shown(result: string) | Failed(error: string)

  // ------------------------------------------------------------ screenshots

  /** The screenshot an added file becomes: its base64 is the second
      comma-separated field of the data URL. */
  function ToScreenshot(file: SelectedFile): (s: Screenshot)
    ensures s.file == file
    ensures s.base64.None? <==> ',' !in file.dataUrl
    ensures s.base64.Some? ==> ',' !in s.base64.value && exists i :: FieldAfter(file.dataUrl, ',', i, s.base64.value)
  {
    Screenshot(file, SecondField(file.dataUrl, ','))
  }

  /** The screenshots a batch of files becomes, in order. */
  function Loaded(files: seq<SelectedFile>): (r: seq<Screenshot>)
    ensures |r| == |files|
    ensures forall i :: 0 <= i < |files| ==> r[i] == ToScreenshot(files[i])
  {
    if files == [] then [] else Loaded(files[..|files| - 1]) + [ToScreenshot(files[|files| - 1])]
  }

  /** The screenshots that `removeScreenshot` keeps: every one except the
      one at `index`; an index outside the list removes nothing. */
  function WithoutIndex(s: seq<Screenshot>, index: int): (r: seq<Screenshot>)
    ensures 0 <= index < |s| ==> r == s[..index] + s[index + 1..]
    ensures !(0 <= index < |s|) ==> r == s
  {
    if s == [] then []
    else (if index == 0 then [] else [s[0]]) + WithoutIndex(s[1..], index - 1)
  }

  /** The base64 texts a submit posts, in the order of the screenshots. */
  function Base64s(s: seq<Screenshot>): (r: seq<Option<string>>)
    ensures |r| == |s|
    ensures forall i :: 0 <= i < |s| ==> r[i] == s[i].base64
  {
    if s == [] then [] else [s[0].base64] + Base64s(s[1..])
  }

  // ------------------------------------------------------------- submitting

  /** The checks a submit makes before sending anything, screenshots first. */
  function ValidationError(screenshots: seq<Screenshot>, context: string): (r: Option<string>)
    ensures r == Some(NoScreenshotError) <==> screenshots == []
    ensures r == Some(NoContextError) <==> screenshots != [] && AllSpace(context)
    ensures r.None? <==> screenshots != [] && !AllSpace(context)
  {
    if |screenshots| == 0 then Some(NoScreenshotError)
    else if Trim(context) == "" then Some(NoContextError)
    else None
  }

  /** The submit button's `disabled` attribute. */
  function SubmitDisabled(isLoading: bool, screenshots: seq<Screenshot>, context: string): (r: bool)
    ensures r <==> isLoading || screenshots == [] || AllSpace(context)
  {
    isLoading || |screenshots| == 0 || Trim(context) == ""
  }

  /** The button is enabled exactly when no request is out and a submit
      would pass its checks. */
  lemma DisabledIffInvalid(isLoading: bool, screenshots: seq<Screenshot>, context: string)
    ensures SubmitDisabled(isLoading, screenshots, context) <==> isLoading || ValidationError(screenshots, context).Some?
  {
  }

  /** `response.ok`. */
  predicate IsOkStatus(status: nat) {
    200 <= status <= 299
  }

  /** The error shown for an error caught around the request. */
  function CaughtError(message: string): (r: string)
    ensures |r| > |CaughtErrorPrefix|
    ensures r[..|CaughtErrorPrefix|] == CaughtErrorPrefix
    ensures message != "" ==> r[|CaughtErrorPrefix|..] == message
    ensures message == "" ==> r[|CaughtErrorPrefix|..] == UnexpectedError
  {
    CaughtErrorPrefix + (if message == "" then UnexpectedError else message)
  }

  /** The message of the error thrown for a response that is not ok. */
  function HttpError(status: nat): (r: string)
    ensures |r| > |HttpErrorPrefix| && r[..|HttpErrorPrefix|] == HttpErrorPrefix
    ensures AllDigits(r[|HttpErrorPrefix|..]) && DecimalValue(r[|HttpErrorPrefix|..]) == status
  {
    var digits := NatToDecimal(status);
    DecimalRoundTrip(status);
    assert (HttpErrorPrefix + digits)[|HttpErrorPrefix|..] == digits;
    HttpErrorPrefix + digits
  }

  /** How a request that was sent ends up on screen. */
  function Settle(outcome: FetchOutcome): (r: Settlement)
    ensures r.Shown? <==> outcome.Received? && IsOkStatus(outcome.status) && outcome.body.Ok? && outcome.body.value.success
    ensures outcome.Rejected? ==> r == Failed(CaughtError(outcome.message))
    ensures outcome.Received? && !IsOkStatus(outcome.status) ==> r == Failed(CaughtError(HttpError(outcome.status)))
    ensures outcome.Received? && IsOkStatus(outcome.status) && outcome.body.Err?
            ==> r == Failed(CaughtError(outcome.body.message))
    ensures outcome.Received? && IsOkStatus(outcome.status) && outcome.body.Ok? && !outcome.body.value.success
            ==> r == Failed(GenerationErrorPrefix + Interpolate(outcome.body.value.message))
    ensures r.Shown? && outcome.body.value.message.Some? ==> r.result == outcome.body.value.message.value
    ensures r.Shown? && outcome.body.value.message.None? ==> r.result == ""
  {
    match outcome
    case Rejected(m) => Failed(CaughtError(m))
    case Received(status, body) =>
      if !IsOkStatus(status) then Failed(CaughtError(HttpError(status)))
      else
        match body
        case Err(m) => Failed(CaughtError(m))
        case Ok(reply) =>
          if reply.success then Shown(if reply.message.Some? then reply.message.value else "")
          else Failed(GenerationErrorPrefix + Interpolate(reply.message))
  }

  /** The status, read back from the error a failed response leaves. */
  function StatusOf(error: string): Option<nat> {
    var n := |CaughtErrorPrefix| + |HttpErrorPrefix|;
    if |error| >= n && error[..n] == CaughtErrorPrefix + HttpErrorPrefix && AllDigits(error[n..])
    then Some(DecimalValue(error[n..]))
    else None
  }

  /** A response that is not ok leaves an error naming its status. */
  lemma HttpErrorNamesStatus(status: nat, body: Result<Reply>)
    requires !IsOkStatus(status)
    ensures Settle(Received(status, body)).Failed?
    ensures StatusOf(Settle(Received(status, body)).error) == Some(status)
  {
    var e := Settle(Received(status, body)).error;
    var n := |CaughtErrorPrefix| + |HttpErrorPrefix|;
    assert e == CaughtErrorPrefix + HttpErrorPrefix + NatToDecimal(status);
    assert e[..n] == CaughtErrorPrefix + HttpErrorPrefix;
    assert e[n..] == NatToDecimal(status);
    DecimalRoundTrip(status);
  }

  /** A reply without success leaves the generation error with its message. */
  lemma UnsuccessfulReply(status: nat, message: string)
    requires IsOkStatus(status)
    ensures Settle(Received(status, Ok(Reply(false, Some(message))))) == Failed(GenerationErrorPrefix + message)
  {
  }

  /** A successful reply shows its message. */
  lemma SuccessfulReply(status: nat, message: string)
    requires IsOkStatus(status)
    ensures Settle(Received(status, Ok(Reply(true, Some(message))))) == Shown(message)
  {
  }

  /** Every failure leaves a non-empty error, so the error box shows. */
  lemma FailureIsVisible(outcome: FetchOutcome)
    ensures Settle(outcome).Failed? ==> Settle(outcome).error != ""
  {
  }

  /** The page's form state. */
  class Home {
    var context: string
    var screenshots: seq<Screenshot>
    var result: string
    var isLoading: bool
    var error: string

    constructor ()
      ensures context == "" && screenshots == [] && result == "" && !isLoading && error == ""
    {
      context := "";
      screenshots := [];
      result := "";
      isLoading := false;
      error := "";
    }

    /** `handleContextChange`. */
    method ChangeContext(value: string)
      modifies this
      ensures context == value
      ensures screenshots == old(screenshots) && result == old(result)
      ensures isLoading == old(isLoading) && error == old(error)
    {
      context := value;
    }

    /** `handleScreenshotsChange`: each picked file, once read, is appended
        behind the screenshots already there. */
    method AddScreenshots(files: seq<SelectedFile>)
      modifies this
      ensures screenshots == old(screenshots) + Loaded(files)
      ensures context == old(context) && result == old(result)
      ensures isLoading == old(isLoading) && error == old(error)
    {
      var i := 0;
      while i < |files|
        invariant 0 <= i <= |files|
        invariant screenshots == old(screenshots) + Loaded(files[..i])
        invariant context == old(context) && result == old(result)
        invariant isLoading == old(isLoading) && error == old(error)
      {
        screenshots := screenshots + [ToScreenshot(files[i])];
        assert files[..i + 1][..i] == files[..i];
        i := i + 1;
      }
      assert files[..i] == files;
    }

    /** `removeScreenshot`. */
    method RemoveScreenshot(index: int)
      modifies this
      ensures screenshots == WithoutIndex(old(screenshots), index)
      ensures context == old(context) && result == old(result)
      ensures isLoading == old(isLoading) && error == old(error)
    {
      screenshots := WithoutIndex(screenshots, index);
    }

    /** The part of `handleSubmit` before the request: the error is cleared,
        the checks run, and when they pass loading starts and the payload to
        post is returned. */
    method BeginSubmit() returns (payload: Option<Payload>)
      modifies this
      ensures payload.None? <==> ValidationError(old(screenshots), old(context)).Some?
      ensures payload.None? ==> error == ValidationError(old(screenshots), old(context)).value && isLoading == old(isLoading)
      ensures payload.Some? ==> error == "" && isLoading
      ensures payload.Some? ==> payload.value == Payload(context, Base64s(screenshots))
      ensures context == old(context) && screenshots == old(screenshots) && result == old(result)
    {
      error := "";
      if |screenshots| == 0 {
        error := NoScreenshotError;
        return None;
      }
      if Trim(context) == "" {
        error := NoContextError;
        return None;
      }
      isLoading := true;
      payload := Some(Payload(context, Base64s(screenshots)));
    }

    /** The part of `handleSubmit` after the request: the outcome is shown and
        loading stops, whatever happened. */
    method FinishSubmit(outcome: FetchOutcome)
      modifies this
      ensures !isLoading
      ensures Settle(outcome).Shown? ==> result == Settle(outcome).result && error == old(error)
      ensures Settle(outcome).Failed? ==> error == Settle(outcome).error && result == old(result)
      ensures context == old(context) && screenshots == old(screenshots)
    {
      match Settle(outcome) {
        case Shown(r) => result := r;
        case Failed(e) => error := e;
      }
      isLoading := false;
    }

    /** A whole submit, with the request ending as `outcome` if one is
        made. */
    method Submit(outcome: FetchOutcome) returns (payload: Option<Payload>)
      modifies this
      ensures payload.None? <==> ValidationError(old(screenshots), old(context)).Some?
      ensures payload.None? ==> error == ValidationError(old(screenshots), old(context)).value
                                && isLoading == old(isLoading) && result == old(result)
      ensures payload.Some? ==> !isLoading
      ensures payload.Some? && Settle(outcome).Shown? ==> result == Settle(outcome).result && error == ""
      ensures payload.Some? && Settle(outcome).Failed? ==> error == Settle(outcome).error && result == old(result)
      ensures context == old(context) && screenshots == old(screenshots)
    {
      payload := BeginSubmit();
      if payload.Some? {
        FinishSubmit(outcome);
      }
    }

    /** Whether the submit button is disabled now: exactly while a request
        is out or a submit would be refused. */
    function Disabled(): (d: bool)
      reads this
      ensures d <==> isLoading || ValidationError(screenshots, context).Some?
    {
      DisabledIffInvalid(isLoading, screenshots, context);
      SubmitDisabled(isLoading, screenshots, context)
    }
  }

  // ------------------------------------------------------- loading message

  /** The index the interval moves to from `prev`. */
  function NextMessage(prev: nat, count: nat): (r: nat)
    requires count > 0
    ensures r < count
    ensures prev < count - 1 ==> r == prev + 1
    ensures prev == count - 1 ==> r == 0
  {
    (prev + 1) % count
  }

  /** The index after `k` ticks from `start`. */
  function AfterTicks(start: nat, k: nat, count: nat): (r: nat)
    requires count > 0
    ensures start < count || k > 0 ==> r < count
    ensures k == 0 ==> r == start
  {
    if k == 0 then start else NextMessage(AfterTicks(start, k - 1, count), count)
  }

  /** Ticking `a` times and then `b` times is ticking `a + b` times. */
  lemma {:induction false} TicksCompose(start: nat, a: nat, b: nat, count: nat)
    requires count > 0
    ensures AfterTicks(start, a + b, count) == AfterTicks(AfterTicks(start, a, count), b, count)
  {
    if b > 0 {
      TicksCompose(start, a, b - 1, count);
    }
  }

  /** Before the end of the list, each tick moves to the next message. */
  lemma {:induction false} TicksForward(start: nat, k: nat, count: nat)
    requires start + k < count
    ensures AfterTicks(start, k, count) == start + k
  {
    if k > 0 {
      TicksForward(start, k - 1, count);
    }
  }

  /** From the last message the next tick goes back to the first, so
      `count` ticks come back to where they started. */
  lemma TicksPeriod(start: nat, count: nat)
    requires start < count
    ensures AfterTicks(start, count - start, count) == 0
    ensures AfterTicks(start, count, count) == start
  {
    TicksForward(start, count - start - 1, count);
    assert AfterTicks(start, count - start, count) == NextMessage(count - 1, count);
    TicksCompose(start, count - start, start, count);
    TicksForward(0, start, count);
  }

  /** Every message comes round within `count` ticks. */
  lemma EveryMessageShown(start: nat, target: nat, count: nat)
    requires start < count && target < count
    ensures exists k :: 0 <= k < count && AfterTicks(start, k, count) == target
  {
    if start <= target {
      TicksForward(start, target - start, count);
      assert AfterTicks(start, target - start, count) == target;
    } else {
      TicksPeriod(start, count);
      TicksCompose(start, count - start, target, count);
      TicksForward(0, target, count);
      assert AfterTicks(start, count - start + target, count) == target;
    }
  }

  /** `GradientLoadingText`: the messages and the index of the one shown. */
  class LoadingText {
    const messages: seq<string>
    var current: nat

    ghost predicate Valid()
      reads this
    {
      current < |messages|
    }

    constructor (messages: seq<string>)
      requires messages != []
      ensures this.messages == messages && current == 0 && Valid()
    {
      this.messages := messages;
      current := 0;
    }

    /** The message on screen: one of the messages, the first one until
        the first tick. */
    function Shown(): (m: string)
      reads this
      requires Valid()
      ensures m in messages
      ensures current == 0 ==> m == messages[0]
    {
      messages[current]
    }

    /** One interval tick. */
    method Tick()
      requires Valid()
      modifies this
      ensures Valid()
      ensures current == NextMessage(old(current), |messages|)
    {
      current := (current + 1) % |messages|;
    }
  }
}
