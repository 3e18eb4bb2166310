# news-bot core, modelled in Dafny

news-bot is a Telegram bot that collects news about Ukraine from RSS sources. The Subscribe
handler reads the list of sources and fetches every feed. It keeps the items that mention a
keyword from `NEWS_KEYWORDS`, were published today and have not been sent before. It then
walks the collected items up to a limit and translates each title through a rate-limited
translation queue. Each item becomes a Markdown block, the blocks are cut into messages of
`messagesPerChunk` blocks, and every delivered title is recorded in the `sentNews` store. A
separate helper extracts the answer from an AI chat-completion reply and chooses the message of
the error a failed request reports.

The project has these modules:

- `Translation` (translate_queue.dfy): the translation queue. It is a class whose `queue` and
  `isRunning` fields change in place. The drain loop is a `while` loop over single steps.
  Tickets stand for the promises that `enqueue` hands out. A ghost log of submitted titles ties
  every settled and pending job to the order in which it was enqueued.
- `Feeds` (feeds.dfy): the per-feed logic. This covers keyword relevance, the same-day check,
  the fail-open "already sent" lookup, the filter chain of `getNews` and the concatenation over
  all sources. The source loop is a method proved against the concatenation.
- `Subscribe` (subscribe.dfy): `translateWithDelay` as a method on the queue, and the chunking
  loop as a method with a `break`, proved against a specification.
  - The specification is the accepted items: the first `newsLimit` items that have a title.
  - Each accepted item has a rendered block, cut into messages.
  - The titles are recorded where the store write succeeds.
  - Lemmas prove the message count, the bounds of each message and that the messages
    concatenate to the header followed by every block.
- `Summarize` (summarize.dfy): reading the answer out of a reply, and choosing the error
  message. Both are functions, with lemmas that characterise the answer by the positions of the
  `</think>\n\n` marker.
- `Seqs`, `Strings`, `Wrappers`: array `filter`/`map`/`slice`, `toLowerCase`, `indexOf`,
  `split`/`join` and `Option`/`Result`.

Modelling choices:

- The environment becomes parameters:
  - the outcome of each fetch is a `Feed`;
  - the translation service is a function `service: string -> ServiceReply`;
  - the `sentNews` store is a `SentStore` of recorded titles with a reachability predicate;
  - whether each store write succeeds is `writeOk`;
  - the current day is `today`;
  - `NEWS_KEYWORDS` is `keywordsEnv`;
  - the configuration values `newsLimit`, `messagesPerChunk` and `translationEnabled` are
    parameters.
- A failed translation is `null`, which the block renders as the text "null".
- Zero accepted items still produce one message that holds only the header.
- With `messagesPerChunk == 0`, JavaScript's `newsCount % 0` is `NaN`, so the running text is
  never sealed. The model produces one message in that case.

## Model

| member | source | states |
|---|---|---|
| Translation.TranslateQueue.constructor | src/translateQueue.js:5-10 | a new queue is empty and idle, and its interval is 1000 / maxRequestsPerSecond milliseconds |
| Translation.TranslateQueue.Enqueue | src/translateQueue.js:12-19 | appends exactly one job, with the next ticket, at the tail; settles nothing; starts a drain exactly when none was running |
| Translation.TranslateQueue.StartDrain | src/translateQueue.js:21-23 | entering `processQueue` while a drain runs changes nothing, so at most one drain exists; otherwise it marks the queue running |
| Translation.TranslateQueue.Step | src/translateQueue.js:25-36 | one loop turn: shifts the oldest job, settles it with its translation and counts one wait; with no jobs it leaves the loop idle; keeps `Valid` (FIFO tickets, `!isRunning` implies an empty queue) |
| Translation.TranslateQueue.Drain | src/translateQueue.js:21-37 | a drain settles every pending job once, in enqueue order, performs one wait per job and ends idle with an empty queue |
| Translation.TicketsInOrder | src/translateQueue.js:14-26 | settled tickets strictly increase and each precedes every pending ticket, so promises resolve in enqueue order, each exactly once |
| Translation.TranslateToUkrainian | src/translateQueue.js:39-50 | never throws; yields `null` exactly when the service fails, and the service's translation otherwise |
| Translation.Settle | src/translateQueue.js:26-32 | a settled job keeps its ticket and title and is always fulfilled, so the `reject` branch is unreachable from translation errors |
| Translation.SettleAll | src/translateQueue.js:25-34 | a drain yields one resolution per job, in the jobs' order, each with its job's ticket and title and fulfilled with the translation of that title (or `null`) |
| Subscribe.DisplayTitle | src/index.js:41-56 | disabled translation gives the title itself; enabled translation gives `null` exactly when the service fails, and the translation otherwise |
| Subscribe.Awaited | src/index.js:48-55 | a rejected promise gives back the original title; only a fulfilled promise can give `null` |
| Subscribe.AwaitedSettled | src/index.js:48-55 | awaiting what the drain settled gives exactly the title's translation, or `null` when the service failed, so the `catch` is never reached |
| Subscribe.TranslateWithDelay | src/index.js:41-56 | returns `DisplayTitle`; when disabled it leaves the queue untouched; when enabled it submits the title once and returns after the drain has settled every job ahead of it and then this one, leaving the queue idle and empty at the model's step size (see Left out) |
| Feeds.IsToday | src/index.js:234-238 | a missing date counts as today, an unparseable one never does, and a parsed one does exactly when it falls on today's day |
| Feeds.AnyKeywordOccurs | src/index.js:259-262 | true exactly when some keyword, lower-cased, occurs in the text |
| Feeds.IsUkraineNews | src/index.js:255-263 | true exactly when some comma-separated piece of `NEWS_KEYWORDS` occurs, ignoring case, in `title + ' ' + description` |
| Feeds.EmptyKeywordMatchesAll | src/index.js:256-262 | an empty keyword entry makes every item relevant |
| Feeds.UnsetKeywordsMatchAll | src/index.js:256 | with `NEWS_KEYWORDS` unset every item is relevant |
| Feeds.TrailingCommaMatchesAll | src/index.js:257 | a trailing comma in `NEWS_KEYWORDS` makes every item relevant |
| Feeds.IsNewsAlreadySent | src/index.js:241-252 | true exactly when the lookup reaches the store and a record has exactly this title; an unreachable store gives false (fails open) |
| Feeds.Description | src/index.js:276 | the description is the content when non-empty, else the summary; it is empty only when both are |
| Feeds.KeepUnsent | src/index.js:286-288 | keeps at most the items given, keeps every item whose check at the same index is false, and keeps nothing else |
| Feeds.KeepUnsentIsFilter | src/index.js:280-288 | dropping the items whose index-aligned sent-check is true is filtering by "not already sent" |
| Feeds.GetNews | src/index.js:266-299 | a failed fetch gives no items; a parsed feed gives the projections of exactly the relevant, same-day, unsent items, in feed order |
| Feeds.GetNewsSelects | src/index.js:274-294 | every item returned comes from an eligible feed item; every eligible item is returned; the result is a subsequence of the projected feed |
| Feeds.FailOpen | src/index.js:248-251 | with the store unreachable, no item is dropped as already sent |
| Feeds.CollectNews | src/index.js:106-116 | the source loop builds the concatenation of the per-source results, in source order |
| Feeds.ConcatNewsMember | src/index.js:325-335 | an item is collected exactly when some source's `getNews` returns it |
| Feeds.FailedSourceSkipped | src/index.js:108-116 | wherever a source that cannot be fetched sits in the list, it contributes nothing (its `getNews` catches and returns `[]`, src/index.js:296-299) and the sources before and after it are collected as usual |
| Feeds.OneSourceFails | src/index.js:108-116 | an instance: a source with one eligible item followed by a failing one yields exactly that item |
| Feeds.GetNewsAfterRecording | src/index.js:280-288 | once every returned title is recorded and the store is reachable, the same feed yields nothing |
| Feeds.SecondRunFindsNothing | src/index.js:327-339 | a second run after recording every collected title finds no news, so an item is not sent twice |
| Subscribe.Shown | src/index.js:139 | a `null` title prints as "null", so it reads exactly like a title that is the text "null"; any other title prints as itself |
| Subscribe.DateText | src/index.js:135-137 | an item without a date shows no date; an item with one shows moment's formatted text |
| Subscribe.Block | src/index.js:139-141 | the block of an item is non-empty and starts on a new line |
| Subscribe.Accepted | src/index.js:127-131 | at most `newsLimit` items are accepted, each one from `allNews` and with a title |
| Subscribe.AcceptedStep | src/index.js:128-131 | below the limit, the next item is accepted exactly when it has a title |
| Subscribe.AcceptedSaturated | src/index.js:128 | once the limit is reached, later items change nothing that is accepted |
| Subscribe.Blocks | src/index.js:133-141 | one non-empty block per accepted item |
| Subscribe.WalkAccepts | src/index.js:346-377 | the item-by-item walk leaves exactly the accepted items' blocks chunked, their titles recorded where the write succeeded, and their number counted |
| Subscribe.ChunkedSoFar | src/index.js:358-367 | appending the blocks one at a time and sealing at every multiple of the chunk size builds the plan's messages so far |
| Subscribe.PlanSoFarStep | src/index.js:139-148 | one more block either extends the open message or seals it, in step with the plan |
| Subscribe.PlanSoFarDone | src/index.js:160-163 | pushing the non-empty rest after the loop completes the plan |
| Subscribe.ChunkLoop | src/index.js:126-158 | the loop stops at the end of the items or once the count reaches the limit; its messages, open text, recorded titles and count are then those of the walk over the items it visited, and exactly the handled titles were submitted for translation; earlier resolutions stay, and once a title was translated the queue is idle and empty (at the model's step size, see Left out) |
| Subscribe.VisitItem | src/index.js:128-157 | one turn below the limit skips an item without a title and handles any other one, so the loop state follows the walk by one item; earlier resolutions stay and the queue stays idle and empty once a title was translated (at the model's step size) |
| Subscribe.WalkDone | src/index.js:127-163 | where the loop stops, the walk has accepted exactly the accepted items, and sealing the non-empty rest gives their plan |
| Subscribe.AppendItem | src/index.js:130-157 | one titled item: its block is appended, the count grows by one, the text is sealed at a multiple of the chunk size, and the original title is recorded when the write succeeds, without undoing the block; earlier resolutions stay and, with translation on, the queue is left idle and empty (at the model's step size) |
| Subscribe.BuildMessages | src/index.js:122-163 | the messages are the plan of the accepted items' blocks; the recorded titles are the accepted titles whose write succeeded; only accepted titles are translated; earlier resolutions stay, and with translation on and some item accepted the queue ends idle and empty (at the model's step size) |
| Subscribe.HandleSubscribe | src/index.js:316-389 | an unreadable source list, no sources, or no collected news each give their reply and translate and record nothing; otherwise the reply is the plan of the accepted items, the queue keeps earlier resolutions and, after translating, ends idle and empty at the model's step size (the 'Subscribe' button at src/index.js:95-170 has the same body) |
| Subscribe.PlanCount | src/index.js:145-148 | n >= 1 blocks give ceil(n / c) messages; none gives a single header-only message |
| Subscribe.CountBounds | src/index.js:143-148 | the last message starts before the last block and reaches it |
| Subscribe.PlanSizes | src/index.js:145-148 | every message but the last holds exactly `c` blocks, and the last holds between 1 and `c` |
| Subscribe.PlanPrefixFlatten | src/index.js:139-148 | the first m messages concatenate to the header followed by the blocks they cover |
| Subscribe.PlanFlatten | src/index.js:122-163 | all messages concatenate to the header followed by every block, in order |
| Subscribe.PlanNoEmptyMessage | src/index.js:161-163 | no message sent is empty |
| Subscribe.MessageExtend | src/index.js:139-148 | appending a block leaves the earlier messages alone, extends the current one, and opens an empty one at a multiple of `c` |
| Subscribe.LastMessageEmpty | src/index.js:161 | the rest left after the loop is empty exactly when the blocks fill whole messages |
| Summarize.Answer | src/summarize.js:72-73 | the answer is the full content, or a non-empty text without the marker |
| Summarize.AnswerWithoutMarker | src/summarize.js:72-73 | content without `</think>\n\n` is returned unchanged |
| Summarize.AnswerBetweenMarkers | src/summarize.js:73 | with a second marker, the answer is the text between the first two markers, or the full content when that text is empty |
| Summarize.AnswerAfterLastMarker | src/summarize.js:73 | with one marker, the answer is the text after it, or the full content when the marker ends it |
| Summarize.ProcessResponse | src/summarize.js:67-74 | succeeds exactly when the first choice has a string content, with that content's answer; a missing or empty `choices` or a falsy first choice fails with "Invalid API response structure"; a truthy first choice without a string `message.content` fails with the runtime's `TypeError` |
| Summarize.HandleApiError | src/summarize.js:77-82 | the thrown message is the server's non-empty message, else "Failed to process request"; it is never empty |
| Summarize.ProcessRequest | src/summarize.js:17-35 | succeeds exactly when the reply is processed; a reply that fails processing surfaces as "Failed to process request"; a failed request surfaces as `handleApiError`'s message |
| Summarize.InvalidStructureIsMasked | src/summarize.js:30-35 | "Invalid API response structure" reaches the caller only when the server itself sent that text |
| Strings.SplitJoin | src/index.js:257 | the pieces of a split, joined again with the separator, give back the string |
| Strings.SplitPiecesFree | src/index.js:257 | no piece of a split contains the separator |
| Strings.SplitTrailingComma | src/index.js:257 | a string ending in a comma splits into pieces whose last one is empty |
| Strings.Test | src/index.js:262 | a literal pattern test is true exactly when the pattern occurs in the text |

## Left out

- Telegram wiring is not modelled: commands, keyboards, sessions, reactions, the 'Add source'
  flow and the "Searching for news" reply. These are event plumbing.
- `sendLargeMessage` is not modelled. It is transport with a 100 ms pause. The model ends with
  the list of messages it would send.
- Firestore is not modelled. The store is a `SentStore` value and each write's outcome is
  `writeOk`. Writes made during a run are not read back during the same run. Both whether a
  lookup reaches the store (`SentStore.reachable`) and whether a write succeeds (`writeOk`)
  depend on the title only, so two lookups or two writes of the same title in one run (the same
  story from two feeds) always share their outcome; a transient store failure that hits only
  one of them is not modelled. In the source they
  are also not read back, because all lookups finish before the loop.
- Network calls are not modelled. This covers RSS fetching and parsing, `bing-translate-api` and
  the AI HTTP call. Their outcomes are parameters: `Feed`, `service` and `HttpOutcome`.
  `processImage` differs from `processRequest` only in the request it sends.
- `src/utils/validationRss.js` is not part of this model. It is network I/O. Its callers pass no
  `config`, so as written it always reports an invalid feed.
- config/config.js is not part of this model. As written it reads `process.NEWS_LIMIT` and
  `process.MESSAGES_PER_CHUNK` instead of `process.env`, so the effective values are always 40
  and 8. The model takes both as parameters.
- Date parsing, formatting and the local time zone are not modelled. A date is the day it parses
  to plus its formatted text, and `today` is one value for the whole run.
- Regular-expression semantics are not modelled. Keywords are literal substrings, and
  lower-casing covers ASCII letters only. A keyword with metacharacters or an invalid pattern
  is out of scope. In the source an invalid pattern throws inside `getNews`, which gives `[]`.
- `Promise.all` parallelism is not modelled. Lookups are sequential with index-aligned results.
- Wall-clock timing is not modelled: waits are counted, not timed. `interval` is a real number,
  not a floating-point value.
- Translation.TranslateQueue.constructor: requires `maxRequestsPerSecond > 0`. With 0,
  JavaScript would give an `Infinity` interval.
- Translation.TranslateQueue.Drain: the translation service is a total function of the title.
  A call that never settles is not modelled. `translateToUkrainian` has no timeout, so in the
  source such a call stalls the drain and every later `enqueue` forever. `Drain` settles every
  job only because the modelled service always answers.
- Translation.TranslateQueue.Step: two calls on the same title always get the same reply, so a
  transient failure followed by a success on a retry of the same title is not modelled.
- Translation.TranslateQueue.Step: treated as atomic. The job a drain is translating is not
  modelled separately while the drain is suspended, so an `enqueue` can only arrive between two
  turns of the loop.
- Subscribe.TranslateWithDelay: when translation is enabled, the model's caller resumes only
  after the whole drain, that is after its own job's trailing wait and after the loop has
  cleared `isRunning`. In the source the caller resumes right after its own `resolve`
  (src/translateQueue.js:29), while `processQueue` is still suspended in that job's wait
  (src/translateQueue.js:33) with `isRunning` still true; a title the handler enqueues within
  `interval` then joins the running drain instead of starting a new one. The settled values and
  their order are the same either way.
- Subscribe.AppendItem, Subscribe.VisitItem, Subscribe.ChunkLoop, Subscribe.BuildMessages,
  Subscribe.HandleSubscribe: the clauses saying the queue is idle and empty after a translation
  hold at the model's step size only. In the source, when the handler resumes, the queue is
  empty but its drain is still running until the last job's wait has passed.
- The `catch` of `translateWithDelay` is modelled by `Awaited`, but it cannot be reached: jobs are
  always fulfilled (`AwaitedSettled`).
- A title that is `undefined` and a title that is `''` are both represented as `""`. Both are
  falsy in the source.
- The catch around each item in the chunking loop is modelled only for a failed store write.
  Nothing else inside that `try` throws in the model.
- The outer catch of the Subscribe handler covers failures after the source list was read. In
  the model such failures can only come from reading the source list, which gives
  `RetrieveFailed`.
- Logging through `src/utils/logger.js` is not modelled.
