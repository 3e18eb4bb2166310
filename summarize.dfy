/** Reading the answer out of a chat-completion reply, and choosing the message of the error that
    a failed AI request is reported with. The HTTP call itself is a parameter: its outcome is
    either the reply's body or an error. */
module Summarize {
  import opened Wrappers
  import opened Seqs
  import opened Strings

  /** The marker that closes the model's reasoning part. */
  const ThinkEnd := "</think>\n\n"
  const InvalidStructure := "Invalid API response structure"
  const DefaultFailure := "Failed to process request"
  /** Stands for the `TypeError` the runtime throws when `message.content` is missing or is not a
      string; its exact text belongs to the runtime, not to the bot. */
  const ContentTypeError := "TypeError"

  /** An element of `choices`: a falsy value, a truthy value without a string `message.content`
      (no `message`, a `null` content, an array content), or a choice whose content is a string. */
  datatype Choice = Falsy | Malformed | Entry(content: string)

  /** The reply body; `choices` is `None` when it is absent (or any other falsy value). */
  datatype ResponseData = ResponseData(choices: Option<seq<Choice>>)

  /** What an error raised during a request carries: `response.data.error.message`, when the
      server sent one. */
  datatype ApiError = ApiError(responseMessage: Option<string>)

  /** The outcome of posting the request. */
  datatype HttpOutcome = Responded(data: ResponseData) | RequestFailed(error: ApiError)

  /** The answer inside the full content: the piece after the first `ThinkEnd`, unless there is no
      such piece or it is empty, in which case the full content. Either way the answer is the
      full content or a non-empty text free of the marker. */
  function Answer(full: string): (r: string)
    ensures r == full || (r != "" && !Contains(r, ThinkEnd))
  {
    var pieces := Split(full, ThinkEnd);
    SplitPiecesFree(full, ThinkEnd);
    if |pieces| >= 2 && pieces[1] != "" then pieces[1] else full
  }

  /** Content without the marker is returned unchanged. */
  lemma AnswerWithoutMarker(full: string)
    requires !Contains(full, ThinkEnd)
    ensures Answer(full) == full
  {
    SplitWhole(full, ThinkEnd);
  }

  /** With the marker first at `i`, the answer is the text from just after it up to the next
      marker at `j`, or the full content when that text is empty. */
  lemma {:induction false} AnswerBetweenMarkers(full: string, i: nat, j: nat)
    requires FirstFrom(full, ThinkEnd, 0, i)
    requires FirstFrom(full, ThinkEnd, i + |ThinkEnd|, j)
    ensures Answer(full) == if j == i + |ThinkEnd| then full else full[i + |ThinkEnd|..j]
  {
    var start := i + |ThinkEnd|;
    IndexFromFirst(full, ThinkEnd, 0, i);
    IndexInSuffix(full, ThinkEnd, start, j);
    SplitPieceBetween(full, ThinkEnd, i, j - start);
    SliceOfSuffix(full, start, j);
  }

  /** With the marker only once, at `i`, the answer is the rest of the content after it, or the full
      content when the marker ends it. */
  lemma {:induction false} AnswerAfterLastMarker(full: string, i: nat)
    requires FirstFrom(full, ThinkEnd, 0, i)
    requires NoneFrom(full, ThinkEnd, i + |ThinkEnd|)
    ensures Answer(full) == if i + |ThinkEnd| == |full| then full else full[i + |ThinkEnd|..]
  {
    IndexFromFirst(full, ThinkEnd, 0, i);
    NoneInSuffix(full, ThinkEnd, i + |ThinkEnd|);
    SplitPieceAfter(full, ThinkEnd, i);
  }

  /** `processResponse`: the answer of the first choice; the error thrown for a reply without a
      first choice; or the `TypeError` of reading or splitting a content that is not a string. */
  function ProcessResponse(data: ResponseData): (r: Result<string, string>)
    ensures r.Success? <==> data.choices.Some? && |data.choices.value| > 0 && data.choices.value[0].Entry?
    ensures data.choices.None? || |data.choices.value| == 0 || data.choices.value[0].Falsy? ==>
      r == Failure(InvalidStructure)
    ensures data.choices.Some? && |data.choices.value| > 0 && data.choices.value[0].Malformed? ==>
      r == Failure(ContentTypeError)
    ensures r.Success? ==> r.value == Answer(data.choices.value[0].content)
  {
    if data.choices.None? || |data.choices.value| == 0 || data.choices.value[0].Falsy? then
      Failure(InvalidStructure)
    else
      match data.choices.value[0]
      case Malformed => Failure(ContentTypeError)
      case Entry(content) => Success(Answer(content))
  }

  /** `handleApiError`: the message of the error it throws, the server's own message when it sent a
      non-empty one and the generic one otherwise. */
  function HandleApiError(error: ApiError): (r: string)
    ensures r != ""
    ensures error.responseMessage.Some? && error.responseMessage.value != "" ==> r == error.responseMessage.value
    ensures error.responseMessage.None? || error.responseMessage.value == "" ==> r == DefaultFailure
  {
    match error.responseMessage
    case Some(message) => if message != "" then message else DefaultFailure
    case None => DefaultFailure
  }

  /** The reply handling of `processRequest` (and of `processImage`): the answer, or the message of
      the error `handleApiError` throws from the catch block. An error thrown by `processResponse`
      carries no server response, so it reaches the caller as the generic message. */
  function ProcessRequest(outcome: HttpOutcome): (r: Result<string, string>)
    ensures r.Success? <==> outcome.Responded? && ProcessResponse(outcome.data).Success?
    ensures r.Success? ==> r.value == ProcessResponse(outcome.data).value
    ensures outcome.Responded? && r.Failure? ==> r.error == DefaultFailure
    ensures outcome.RequestFailed? ==> r == Failure(HandleApiError(outcome.error))
  {
    match outcome
    case Responded(data) =>
      (match ProcessResponse(data)
       case Success(answer) => Success(answer)
       case Failure(_) => Failure(HandleApiError(ApiError(None))))
    case RequestFailed(error) => Failure(HandleApiError(error))
  }

  /** The message "Invalid API response structure" never reaches the caller of `processRequest`
      unless the server itself sent that text. */
  lemma InvalidStructureIsMasked(outcome: HttpOutcome)
    requires ProcessRequest(outcome).Failure?
    ensures ProcessRequest(outcome).error == InvalidStructure ==>
      outcome.RequestFailed? && outcome.error.responseMessage == Some(InvalidStructure)
  {
  }
}
