/** The delivery side of src/index.js: `translateWithDelay`, and the Subscribe handler, which
    gathers `allNews` from every source, walks it with a limit, renders one block per titled item,
    cuts the running text into messages of `messagesPerChunk` blocks and records each delivered
    title. The handler appears twice in the source (the 'Subscribe' button and the `/subscribe`
    command) with the same body; it is modelled once. */
module Subscribe {
  import opened Wrappers
  import opened Seqs
  import opened Strings
  import opened Feeds
  import opened Translation

  /** The text every run of messages starts with. */
  const Header: string := "📰 Latest news about Ukraine:\n"

  /** What the handler answers: the source list could not be read, there are no sources, no news
      survived the filters, or the messages to send. */
  datatype Reply = RetrieveFailed | NoSources | NoNews | Deliver(messages: seq<string>)

  /** Awaiting a settled job inside `translateWithDelay`: a fulfilled promise gives its value, a
      rejected one is caught and gives the original title. Only a fulfilled promise can give
      `null`. */
  function Awaited(settlement: Settlement, title: string): (r: Option<string>)
    ensures settlement.Rejected? ==> r == Some(title)
    ensures r.None? ==> settlement == Fulfilled(None)
    ensures settlement.Fulfilled? ==> r == settlement.value
  {
    match settlement
    case Fulfilled(v) => v
    case Rejected => Some(title)
  }

  /** The title `translateWithDelay` produces: the title itself when translation is disabled,
      otherwise the queue's resolved value, which is `null` when the service failed. */
  function DisplayTitle(enabled: bool, service: string -> ServiceReply, title: string): (r: Option<string>)
    ensures !enabled ==> r == Some(title)
    ensures enabled ==> (r.None? <==> service(title).ServiceError?)
    ensures enabled && service(title).Translated? ==> r == Some(service(title).text)
  {
    if enabled then TranslateToUkrainian(service(title)).value else Some(title)
  }

  /** Awaiting the resolution the drain produced for a title gives exactly the title's translation,
      or `null` when the service failed: the `catch` of a rejected promise is never reached. */
  lemma AwaitedSettled(job: Job, reply: ServiceReply)
    ensures Awaited(Settle(job, reply).settlement, job.title) == TranslateToUkrainian(reply).value
    ensures Awaited(Settle(job, reply).settlement, job.title).None? <==> reply.ServiceError?
  {
  }

  /** `translateWithDelay(title)`. With translation disabled it answers the title and leaves the
      queue alone. Otherwise it enqueues the title and awaits its promise, during which the active
      drain settles every job ahead of it and then this one. The model returns once the drain is
      over, idle and empty; the source's caller resumes right after its own job is resolved,
      while the drain still waits out that job's interval. */
  method TranslateWithDelay(enabled: bool, q: TranslateQueue, service: string -> ServiceReply, title: string)
    returns (r: Option<string>)
    requires q.Valid()
    modifies q
    ensures q.Valid()
    ensures r == DisplayTitle(enabled, service, title)
    ensures !enabled ==> unchanged(q)
    ensures enabled ==>
      && q.submitted == old(q.submitted) + [title]
      && q.resolutions == old(q.resolutions) + SettleAll(old(q.queue) + [Job(old(q.nextTicket), title)], service)
      && !q.isRunning && q.queue == []
  {
    if !enabled {
      return Some(title);
    }
    var ticket, _ := q.Enqueue(title);
    q.Drain(service);
    r := Awaited(q.resolutions[ticket].settlement, title);
  }

  /** How a value is spliced into a template literal: `null` prints as "null", so a failed
      translation cannot be told apart from the text "null". */
  function Shown(t: Option<string>): (r: string)
    ensures r == "null" <==> t.None? || t.value == "null"
    ensures t.Some? ==> r == t.value
  {
    match t
    case None => "null"
    case Some(s) => s
  }

  /** The date shown for an item: its formatted publication date when it has one, else nothing. */
  function DateText(p: PubDate): (r: string)
    ensures p.Missing? || p.raw == "" ==> r == ""
    ensures p.Given? && p.raw != "" ==> r == p.formatted
  {
    match p
    case Missing => ""
    case Given(raw, _, formatted) => if raw != "" then formatted else ""
  }

  /** The block appended for one item. */
  function Block(title: Option<string>, link: string, date: string): (r: string)
    ensures r != "" && r[0] == '\n'
  {
    "\n🔗 *" + Shown(title) + "*\n" + link + "\n" + (if date != "" then "Published on: " + date else "") + "\n"
  }

  function HasTitle(item: NewsItem): bool
  {
    item.title != ""
  }

  function TitleOf(item: NewsItem): string
  {
    item.title
  }

  function Titles(items: seq<NewsItem>): seq<string>
  {
    Map(TitleOf, items)
  }

  /** The items the loop accepts before it stops at the limit: the first `limit` items that
      have a title, in order. */
  function Accepted(news: seq<NewsItem>, limit: nat): (r: seq<NewsItem>)
    ensures |r| <= limit
    ensures forall x :: x in r ==> x in news && x.title != ""
  {
    Take(Filter(HasTitle, news), limit)
  }

  /** While the limit is not reached, one more item extends the accepted items by that item
      exactly when it has a title. */
  lemma AcceptedStep(news: seq<NewsItem>, i: nat, limit: nat)
    requires i < |news|
    requires |Accepted(news[..i], limit)| < limit
    ensures Accepted(news[..i + 1], limit) == Accepted(news[..i], limit) + (if HasTitle(news[i]) then [news[i]] else [])
  {
    assert news[..i + 1] == news[..i] + [news[i]];
    FilterAppend(HasTitle, news[..i], [news[i]]);
  }

  /** Once the limit is reached, later items change nothing. */
  lemma AcceptedSaturated(news: seq<NewsItem>, i: nat, limit: nat)
    requires i <= |news|
    requires |Accepted(news[..i], limit)| >= limit
    ensures Accepted(news, limit) == Accepted(news[..i], limit)
  {
    assert news == news[..i] + news[i..];
    FilterAppend(HasTitle, news[..i], news[i..]);
  }

  /** The blocks rendered for the accepted items, in order. */
  function Blocks(items: seq<NewsItem>, enabled: bool, service: string -> ServiceReply): (r: seq<string>)
    ensures |r| == |items|
    ensures forall k :: 0 <= k < |r| ==> r[k] != ""
  {
    seq(|items|, i requires 0 <= i < |items| =>
      Block(DisplayTitle(enabled, service, items[i].title), items[i].link, DateText(items[i].pubDate)))
  }

  function Min(a: int, b: int): int
  {
    if a <= b then a else b
  }

  /** Message `i` of a plan with `c` blocks per message: blocks `i*c` up to (not including)
      `(i+1)*c`, clipped to the blocks there are; the first message starts with the header. */
  function Message(blocks: seq<string>, i: nat, c: nat): string
    requires c > 0
  {
    var lo := Min(i * c, |blocks|);
    var hi := Min(i * c + c, |blocks|);
    (if i == 0 then Header else "") + Concat(blocks[lo..hi])
  }

  /** How many messages the loop sends for `n` blocks: one per full chunk, plus the remainder,
      or the header alone when there are no blocks. */
  function MessageCount(n: nat, c: nat): nat
    requires c > 0
  {
    if n > 0 && n % c == 0 then n / c else n / c + 1
  }

  /** The first `m` messages of a plan over `blocks`. */
  function Messages(blocks: seq<string>, c: nat, m: nat): (r: seq<string>)
    requires c > 0
    ensures |r| == m && forall i :: 0 <= i < m ==> r[i] == Message(blocks, i, c)
  {
    seq(m, i requires 0 <= i => Message(blocks, i, c))
  }

  /** The messages for `blocks` with `c` blocks per message. With `c == 0` the source's test
      `newsCount % 0 === 0` is never true, so everything goes into one message. */
  function Plan(blocks: seq<string>, c: nat): seq<string>
  {
    if c == 0 then [Header + Concat(blocks)]
    else Messages(blocks, c, MessageCount(|blocks|, c))
  }

  lemma DivModBasics(n: nat, c: nat)
    requires c > 0
    ensures n == (n / c) * c + n % c && 0 <= n % c < c
  {
  }

  lemma MulMono(a: nat, b: nat, c: nat)
    requires a <= b
    ensures a * c <= b * c
  {
  }

  lemma MulSucc(a: int, c: int)
    ensures (a + 1) * c == a * c + c
  {
  }

  lemma {:induction false} MulPos(a: int, c: int)
    requires a >= 1 && c > 0
    ensures a * c >= c
    decreases a
  {
    if a > 1 {
      MulPos(a - 1, c);
      MulSucc(a - 1, c);
    }
  }

  /** Euclidean division is determined by any quotient and remainder in range. */
  lemma DivUnique(n: int, c: int, q: int, r: int)
    requires c > 0 && 0 <= r < c && n == q * c + r
    ensures n / c == q && n % c == r
  {
    var q0, r0 := n / c, n % c;
    assert n == q0 * c + r0;
    if q0 > q {
      MulPos(q0 - q, c);
      assert false;
    } else if q0 < q {
      MulPos(q - q0, c);
      assert false;
    }
  }

  /** The quotient and remainder of `k` and `k + 1` by `c`. */
  lemma DivStep(k: nat, c: nat)
    requires c > 0
    ensures (k / c) * c <= k < (k / c) * c + c
    ensures (k + 1) % c == 0 ==> (k + 1) / c == k / c + 1 && (k / c) * c + c == k + 1
    ensures (k + 1) % c != 0 ==> (k + 1) / c == k / c && k + 1 < (k / c) * c + c
  {
    var q, r := k / c, k % c;
    DivModBasics(k, c);
    if r + 1 == c {
      MulSucc(q, c);
      DivUnique(k + 1, c, q + 1, 0);
    } else {
      DivUnique(k + 1, c, q, r + 1);
    }
  }

  /** Appending a block leaves a message that ends within the old blocks unchanged. */
  lemma MessageKeep(blocks: seq<string>, block: string, c: nat, j: nat)
    requires c > 0 && j * c + c <= |blocks|
    ensures Message(blocks + [block], j, c) == Message(blocks, j, c)
  {
    var b := blocks + [block];
    assert b[j * c..j * c + c] == blocks[j * c..j * c + c];
  }

  /** Appending a block to the blocks of a message that reaches the end extends it by the block. */
  lemma MessageGrow(blocks: seq<string>, block: string, c: nat, i: nat)
    requires c > 0 && i * c <= |blocks| < i * c + c
    ensures Message(blocks + [block], i, c) == Message(blocks, i, c) + block
  {
    var k, b := |blocks|, blocks + [block];
    var lo := i * c;
    assert Min(lo + c, k + 1) == k + 1;
    assert b[lo..k + 1] == blocks[lo..k] + [block];
    ConcatAppend(blocks[lo..k], [block]);
    assert Concat([block]) == block by {
      assert [block][..0] == [];
    }
  }

  /** A message that starts after every block is empty, unless it is the first. */
  lemma MessageBeyond(blocks: seq<string>, c: nat, i: nat)
    requires c > 0 && i > 0 && i * c >= |blocks|
    ensures Message(blocks, i, c) == ""
  {
    assert blocks[|blocks|..|blocks|] == [];
  }

  /** Appending a block leaves every message before the current one unchanged. */
  lemma MessagesBeforeKept(blocks: seq<string>, block: string, c: nat)
    requires c > 0
    ensures forall j :: 0 <= j < |blocks| / c ==> Message(blocks + [block], j, c) == Message(blocks, j, c)
  {
    var q := |blocks| / c;
    DivModBasics(|blocks|, c);
    forall j | 0 <= j < q
      ensures Message(blocks + [block], j, c) == Message(blocks, j, c)
    {
      MulMono(j + 1, q, c);
      MulSucc(j, c);
      MessageKeep(blocks, block, c, j);
    }
  }

  /** Appending one block to a plan's blocks leaves the earlier messages alone, extends the
      current one by the block, and (when the count hits a multiple of `c`) opens an empty one. */
  lemma MessageExtend(blocks: seq<string>, block: string, c: nat, q: nat)
    requires c > 0 && q == |blocks| / c
    ensures forall j :: 0 <= j < q ==> Message(blocks + [block], j, c) == Message(blocks, j, c)
    ensures Message(blocks + [block], q, c) == Message(blocks, q, c) + block
    ensures (|blocks| + 1) % c == 0 ==> (|blocks| + 1) / c == q + 1 && Message(blocks + [block], q + 1, c) == ""
    ensures (|blocks| + 1) % c != 0 ==> (|blocks| + 1) / c == q
  {
    var k := |blocks|;
    MessagesBeforeKept(blocks, block, c);
    DivStep(k, c);
    MessageGrow(blocks, block, c, q);
    if (k + 1) % c == 0 {
      MulSucc(q, c);
      MessageBeyond(blocks + [block], c, q + 1);
    }
  }

  /** A message that covers at least one non-empty block is not empty. */
  lemma MessageCovers(blocks: seq<string>, c: nat, i: nat)
    requires c > 0 && i * c < |blocks|
    requires forall k :: 0 <= k < |blocks| ==> blocks[k] != ""
    ensures Message(blocks, i, c) != ""
  {
    var part := blocks[i * c..Min(i * c + c, |blocks|)];
    assert part[0] == blocks[i * c];
    ConcatNonEmpty(part);
  }

  /** The text left in `response` after the loop is empty exactly when the blocks filled whole
      messages. */
  lemma LastMessageEmpty(blocks: seq<string>, c: nat)
    requires c > 0
    requires forall k :: 0 <= k < |blocks| ==> blocks[k] != ""
    ensures Message(blocks, |blocks| / c, c) == "" <==> (|blocks| > 0 && |blocks| % c == 0)
  {
    var n := |blocks|;
    var q := n / c;
    DivModBasics(n, c);
    if n == 0 {
      DivUnique(0, c, 0, 0);
    } else if n % c == 0 {
      MessageBeyond(blocks, c, q);
    } else {
      MessageCovers(blocks, c, q);
    }
  }

  /** What the loop has built after rendering `blocks`: the sealed `messages` and the open
      `response` are the plan's messages so far. */
  ghost predicate PlanSoFar(messages: seq<string>, response: string, blocks: seq<string>, c: nat)
  {
    && (c == 0 ==> messages == [] && response == Header + Concat(blocks))
    && (c > 0 ==>
          && |messages| == |blocks| / c
          && (forall j :: 0 <= j < |messages| ==> messages[j] == Message(blocks, j, c))
          && response == Message(blocks, |blocks| / c, c))
  }

  /** Appending a block to `response`, and sealing it when the count reaches a multiple of `c`,
      keeps the messages in step with the plan. */
  lemma PlanSoFarStep(messages: seq<string>, response: string, blocks: seq<string>, block: string, c: nat)
    requires PlanSoFar(messages, response, blocks, c)
    ensures c > 0 && (|blocks| + 1) % c == 0 ==> PlanSoFar(messages + [response + block], "", blocks + [block], c)
    ensures !(c > 0 && (|blocks| + 1) % c == 0) ==> PlanSoFar(messages, response + block, blocks + [block], c)
  {
    if c > 0 {
      MessageExtend(blocks, block, c, |blocks| / c);
    } else {
      ConcatAppend(blocks, [block]);
      assert [block][..0] == [];
    }
  }

  /** Sealing the non-empty rest after the loop yields the plan. */
  lemma PlanSoFarDone(messages: seq<string>, response: string, blocks: seq<string>, c: nat)
    requires PlanSoFar(messages, response, blocks, c)
    requires forall k :: 0 <= k < |blocks| ==> blocks[k] != ""
    ensures (if response != "" then messages + [response] else messages) == Plan(blocks, c)
  {
    if c > 0 {
      var n := |blocks|;
      var q := n / c;
      LastMessageEmpty(blocks, c);
      var all := Messages(blocks, c, MessageCount(n, c));
      if response != "" {
        assert MessageCount(n, c) == q + 1;
        assert messages + [response] == all;
      } else {
        assert MessageCount(n, c) == q;
        assert messages == all;
      }
    }
  }

  /** The sealed messages and the open text after the chunking loop has handled `blocks` one at
      a time: each block is appended to the open text, which is sealed when the number of blocks
      handled reaches a multiple of `c`. */
  ghost function Chunked(blocks: seq<string>, c: nat): (seq<string>, string)
    decreases |blocks|
  {
    if blocks == [] then ([], Header)
    else
      var prev := Chunked(blocks[..|blocks| - 1], c);
      var open := prev.1 + blocks[|blocks| - 1];
      if c > 0 && |blocks| % c == 0 then (prev.0 + [open], "") else (prev.0, open)
  }

  /** One more block extends the open text, and seals it when the number of blocks reaches a
      multiple of `c`. */
  lemma ChunkedSnoc(blocks: seq<string>, block: string, c: nat)
    ensures c > 0 && (|blocks| + 1) % c == 0 ==>
      Chunked(blocks + [block], c) == (Chunked(blocks, c).0 + [Chunked(blocks, c).1 + block], "")
    ensures !(c > 0 && (|blocks| + 1) % c == 0) ==>
      Chunked(blocks + [block], c) == (Chunked(blocks, c).0, Chunked(blocks, c).1 + block)
  {
    assert (blocks + [block])[..|blocks|] == blocks;
  }

  /** Handling the blocks one at a time builds the plan's messages so far. */
  lemma {:induction false} ChunkedSoFar(blocks: seq<string>, c: nat)
    ensures PlanSoFar(Chunked(blocks, c).0, Chunked(blocks, c).1, blocks, c)
    decreases |blocks|
  {
    if blocks == [] {
      if c > 0 {
        DivUnique(0, c, 0, 0);
      }
    } else {
      var init, last := blocks[..|blocks| - 1], blocks[|blocks| - 1];
      assert init + [last] == blocks;
      ChunkedSoFar(init, c);
      PlanSoFarStep(Chunked(init, c).0, Chunked(init, c).1, init, last, c);
    }
  }

  /** Accepting one more item extends the titles by its title. */
  lemma TitlesSnoc(accepted: seq<NewsItem>, item: NewsItem)
    ensures Titles(accepted + [item]) == Titles(accepted) + [item.title]
  {
    assert Titles(accepted + [item]) == Titles(accepted) + [item.title];
  }

  /** Accepting one more item extends the blocks by its block. */
  lemma BlocksSnoc(accepted: seq<NewsItem>, item: NewsItem, enabled: bool, service: string -> ServiceReply)
    ensures Blocks(accepted + [item], enabled, service) ==
      Blocks(accepted, enabled, service) + [Block(DisplayTitle(enabled, service, item.title), item.link, DateText(item.pubDate))]
  {
    var b, b' := Blocks(accepted, enabled, service), Blocks(accepted + [item], enabled, service);
    assert forall k :: 0 <= k < |b| ==> b'[k] == b[k];
  }

  /** Accepting one more item extends the titles, the blocks and the recorded titles by its own. */
  lemma AcceptOne(accepted: seq<NewsItem>, item: NewsItem, enabled: bool, service: string -> ServiceReply, writeOk: string -> bool)
    ensures Titles(accepted + [item]) == Titles(accepted) + [item.title]
    ensures Blocks(accepted + [item], enabled, service) ==
      Blocks(accepted, enabled, service) + [Block(DisplayTitle(enabled, service, item.title), item.link, DateText(item.pubDate))]
    ensures Filter(writeOk, Titles(accepted + [item])) ==
      Filter(writeOk, Titles(accepted)) + (if writeOk(item.title) then [item.title] else [])
  {
    TitlesSnoc(accepted, item);
    BlocksSnoc(accepted, item, enabled, service);
    FilterAppend(writeOk, Titles(accepted), [item.title]);
  }


  /** What the chunking loop holds between items: the sealed messages, the open `response`,
      the titles recorded as sent, the number of accepted items and their titles. */
  datatype Progress = Progress(messages: seq<string>, response: string, recorded: seq<string>,
                               count: nat, titles: seq<string>)

  /** Handling one accepted item: its block is appended to the open text, which is sealed when
      the count reaches a multiple of `c`, and its title is recorded when the write succeeds. */
  ghost function Visit(p: Progress, item: NewsItem, c: nat, enabled: bool,
                       service: string -> ServiceReply, writeOk: string -> bool): Progress
  {
    var open := p.response + Block(DisplayTitle(enabled, service, item.title), item.link, DateText(item.pubDate));
    var sealed := c > 0 && (p.count + 1) % c == 0;
    Progress(if sealed then p.messages + [open] else p.messages,
             if sealed then "" else open,
             p.recorded + (if writeOk(item.title) then [item.title] else []),
             p.count + 1,
             p.titles + [item.title])
  }

  /** The loop's progress after walking the items of `news` in order, skipping items without a
      title and every item once `limit` items are accepted. */
  ghost function Walk(news: seq<NewsItem>, limit: nat, c: nat, enabled: bool,
                      service: string -> ServiceReply, writeOk: string -> bool): Progress
    decreases |news|
  {
    if news == [] then Progress([], Header, [], 0, [])
    else
      var p := Walk(news[..|news| - 1], limit, c, enabled, service, writeOk);
      var item := news[|news| - 1];
      if p.count >= limit || item.title == "" then p else Visit(p, item, c, enabled, service, writeOk)
  }

  /** Walking one more item below the limit visits it exactly when it has a title. */
  lemma WalkStep(news: seq<NewsItem>, i: nat, limit: nat, c: nat, enabled: bool,
                 service: string -> ServiceReply, writeOk: string -> bool, p: Progress, p': Progress)
    requires i < |news|
    requires Walk(news[..i], limit, c, enabled, service, writeOk) == p && p.count < limit
    requires p' == if news[i].title == "" then p else Visit(p, news[i], c, enabled, service, writeOk)
    ensures Walk(news[..i + 1], limit, c, enabled, service, writeOk) == p'
  {
    assert news[..i + 1][..i] == news[..i];
  }

  /** The progress the loop should have made once it has accepted `accepted`. */
  ghost function Expected(accepted: seq<NewsItem>, c: nat, enabled: bool,
                          service: string -> ServiceReply, writeOk: string -> bool): Progress
  {
    var chunked := Chunked(Blocks(accepted, enabled, service), c);
    Progress(chunked.0, chunked.1, Filter(writeOk, Titles(accepted)), |accepted|, Titles(accepted))
  }

  /** Visiting one more accepted item moves the expected progress on by that item. */
  lemma VisitExpected(accepted: seq<NewsItem>, item: NewsItem, c: nat, enabled: bool,
                      service: string -> ServiceReply, writeOk: string -> bool)
    ensures Visit(Expected(accepted, c, enabled, service, writeOk), item, c, enabled, service, writeOk) ==
      Expected(accepted + [item], c, enabled, service, writeOk)
  {
    AcceptOne(accepted, item, enabled, service, writeOk);
    ChunkedSnoc(Blocks(accepted, enabled, service),
                Block(DisplayTitle(enabled, service, item.title), item.link, DateText(item.pubDate)), c);
  }

  /** Walking the items leaves the accepted items' blocks chunked, their titles recorded where the
      write succeeded, and their number counted. */
  lemma {:induction false} WalkAccepts(news: seq<NewsItem>, limit: nat, c: nat, enabled: bool,
                                      service: string -> ServiceReply, writeOk: string -> bool)
    ensures Walk(news, limit, c, enabled, service, writeOk) ==
      Expected(Accepted(news, limit), c, enabled, service, writeOk)
    decreases |news|
  {
    if news == [] {
      assert Filter(HasTitle, news) == [];
      assert Titles([]) == [];
    } else {
      var n := |news| - 1;
      var init, item := news[..n], news[n];
      assert news[..n + 1] == news;
      WalkAccepts(init, limit, c, enabled, service, writeOk);
      var accepted := Accepted(init, limit);
      if |accepted| >= limit {
        AcceptedSaturated(news, n, limit);
      } else {
        AcceptedStep(news, n, limit);
        if item.title != "" {
          VisitExpected(accepted, item, c, enabled, service, writeOk);
        }
      }
    }
  }


  /** Where the loop stops, at the end of `allNews` or at the limit, the walk has accepted every
      item it will, and sealing the non-empty rest completes the plan. */
  lemma WalkDone(allNews: seq<NewsItem>, i: nat, limit: nat, c: nat, enabled: bool,
                 service: string -> ServiceReply, writeOk: string -> bool)
    requires i <= |allNews|
    requires i == |allNews| || Walk(allNews[..i], limit, c, enabled, service, writeOk).count >= limit
    ensures var p, accepted := Walk(allNews[..i], limit, c, enabled, service, writeOk), Accepted(allNews, limit);
      && (if p.response != "" then p.messages + [p.response] else p.messages) == Plan(Blocks(accepted, enabled, service), c)
      && p.recorded == Filter(writeOk, Titles(accepted))
      && p.titles == Titles(accepted)
  {
    WalkAccepts(allNews[..i], limit, c, enabled, service, writeOk);
    if i == |allNews| {
      assert allNews[..i] == allNews;
    } else {
      AcceptedSaturated(allNews, i, limit);
    }
    var blocks := Blocks(Accepted(allNews, limit), enabled, service);
    ChunkedSoFar(blocks, c);
    var p := Walk(allNews[..i], limit, c, enabled, service, writeOk);
    PlanSoFarDone(p.messages, p.response, blocks, c);
  }

  /** The body of the chunking loop for one item that has a title: translate the title through
      `translateWithDelay`, append the item's block to `response`, count it, seal `response` when
      the count reaches a multiple of `messagesPerChunk`, and record the original title, a failed
      record write (`writeOk` false) being caught without undoing the block. */
  method AppendItem(item: NewsItem, messages: seq<string>, response: string, newsCount: nat, recorded: seq<string>,
                    messagesPerChunk: nat, enabled: bool, q: TranslateQueue, service: string -> ServiceReply,
                    writeOk: string -> bool, ghost titles: seq<string>)
    returns (messages': seq<string>, response': string, newsCount': nat, recorded': seq<string>)
    requires q.Valid()
    modifies q
    ensures q.Valid()
    ensures Progress(messages', response', recorded', newsCount', titles + [item.title]) ==
      Visit(Progress(messages, response, recorded, newsCount, titles), item, messagesPerChunk, enabled, service, writeOk)
    ensures q.submitted == old(q.submitted) + (if enabled then [item.title] else [])
    ensures old(q.resolutions) <= q.resolutions
    ensures enabled ==> !q.isRunning && q.queue == []
    ensures !enabled ==> unchanged(q)
  {
    var translatedTitle := TranslateWithDelay(enabled, q, service, item.title);
    var block := Block(translatedTitle, item.link, DateText(item.pubDate));
    messages', response' := messages, response + block;
    newsCount' := newsCount + 1;
    if messagesPerChunk > 0 && newsCount' % messagesPerChunk == 0 {
      messages' := messages' + [response'];
      response' := "";
    }
    recorded' := recorded;
    if writeOk(item.title) {
      recorded' := recorded' + [item.title];
    }
  }

  /** One turn of the chunking loop below the limit: an item without a title is skipped, any other
      is handled by `AppendItem`; either way the walk advances by one item. */
  method VisitItem(allNews: seq<NewsItem>, i: nat, newsLimit: nat, messages: seq<string>, response: string,
                   newsCount: nat, recorded: seq<string>, messagesPerChunk: nat, enabled: bool,
                   q: TranslateQueue, service: string -> ServiceReply, writeOk: string -> bool,
                   ghost titles: seq<string>, ghost base: seq<string>)
    returns (messages': seq<string>, response': string, newsCount': nat, recorded': seq<string>,
             ghost titles': seq<string>)
    requires i < |allNews| && newsCount < newsLimit
    requires Walk(allNews[..i], newsLimit, messagesPerChunk, enabled, service, writeOk) ==
      Progress(messages, response, recorded, newsCount, titles)
    requires q.Valid()
    requires q.submitted == base + (if enabled then titles else [])
    requires enabled && titles != [] ==> !q.isRunning && q.queue == []
    modifies q
    ensures Walk(allNews[..i + 1], newsLimit, messagesPerChunk, enabled, service, writeOk) ==
      Progress(messages', response', recorded', newsCount', titles')
    ensures q.Valid()
    ensures q.submitted == base + (if enabled then titles' else [])
    ensures old(q.resolutions) <= q.resolutions
    ensures enabled && titles' != [] ==> !q.isRunning && q.queue == []
    ensures !enabled ==> unchanged(q)
  {
    var item := allNews[i];
    messages', response', newsCount', recorded', titles' := messages, response, newsCount, recorded, titles;
    if item.title != "" {
      messages', response', newsCount', recorded' :=
        AppendItem(item, messages, response, newsCount, recorded, messagesPerChunk, enabled, q, service, writeOk, titles);
      titles' := titles + [item.title];
    }
    WalkStep(allNews, i, newsLimit, messagesPerChunk, enabled, service, writeOk,
             Progress(messages, response, recorded, newsCount, titles),
             Progress(messages', response', recorded', newsCount', titles'));
  }

  /** The chunking loop of the Subscribe handler: walk `allNews` until `newsLimit` titled items
      are accepted, skipping items without a title, and handle each accepted item as
      `AppendItem` does. It stops after `stop` items, at the end or at the limit. */
  method ChunkLoop(allNews: seq<NewsItem>, newsLimit: nat, messagesPerChunk: nat, enabled: bool,
                   q: TranslateQueue, service: string -> ServiceReply, writeOk: string -> bool)
    returns (messages: seq<string>, response: string, recorded: seq<string>, ghost stop: nat, ghost titles: seq<string>)
    requires q.Valid()
    modifies q
    ensures q.Valid()
    ensures stop <= |allNews|
    ensures var p := Walk(allNews[..stop], newsLimit, messagesPerChunk, enabled, service, writeOk);
      && (stop == |allNews| || p.count >= newsLimit)
      && p.messages == messages && p.response == response && p.recorded == recorded && p.titles == titles
    ensures q.submitted == old(q.submitted) + (if enabled then titles else [])
    ensures old(q.resolutions) <= q.resolutions
    ensures enabled && titles != [] ==> !q.isRunning && q.queue == []
    ensures !enabled ==> unchanged(q)
  {
    response := Header;
    var newsCount: nat := 0;
    messages := [];
    recorded := [];
    titles := [];
    ghost var base, settled := q.submitted, q.resolutions;
    var i := 0;
    while i < |allNews|
      invariant 0 <= i <= |allNews|
      invariant Walk(allNews[..i], newsLimit, messagesPerChunk, enabled, service, writeOk) ==
        Progress(messages, response, recorded, newsCount, titles)
      invariant q.Valid()
      invariant q.submitted == base + (if enabled then titles else [])
      invariant settled <= q.resolutions
      invariant enabled && titles != [] ==> !q.isRunning && q.queue == []
      invariant !enabled ==> unchanged(q)
    {
      if newsCount >= newsLimit {
        break;
      }
      messages, response, newsCount, recorded, titles :=
        VisitItem(allNews, i, newsLimit, messages, response, newsCount, recorded, messagesPerChunk, enabled,
                  q, service, writeOk, titles, base);
      i := i + 1;
    }
    stop := i;
  }

  /** The chunking loop followed by sealing the non-empty rest: the messages are the plan of the
      accepted items' blocks, and only accepted titles are translated and recorded. */
  method BuildMessages(allNews: seq<NewsItem>, newsLimit: nat, messagesPerChunk: nat, enabled: bool,
                       q: TranslateQueue, service: string -> ServiceReply, writeOk: string -> bool)
    returns (messages: seq<string>, recorded: seq<string>)
    requires q.Valid()
    modifies q
    ensures q.Valid()
    ensures var accepted := Accepted(allNews, newsLimit);
      && messages == Plan(Blocks(accepted, enabled, service), messagesPerChunk)
      && recorded == Filter(writeOk, Titles(accepted))
      && q.submitted == old(q.submitted) + (if enabled then Titles(accepted) else [])
    ensures old(q.resolutions) <= q.resolutions
    ensures enabled && Accepted(allNews, newsLimit) != [] ==> !q.isRunning && q.queue == []
    ensures !enabled ==> unchanged(q)
  {
    var response;
    ghost var stop, titles;
    messages, response, recorded, stop, titles := ChunkLoop(allNews, newsLimit, messagesPerChunk, enabled, q, service, writeOk);
    WalkDone(allNews, stop, newsLimit, messagesPerChunk, enabled, service, writeOk);
    if response != "" {
      messages := messages + [response];
    }
  }

  /** The Subscribe handler (both copies). `sources` is the `rssFeeds` collection read, each
      source given by the result of fetching it; `None` when reading the collection fails. */
  method HandleSubscribe(sources: Option<seq<Feed>>, today: int, keywordsEnv: string, store: SentStore,
                         newsLimit: nat, messagesPerChunk: nat, enabled: bool,
                         q: TranslateQueue, service: string -> ServiceReply, writeOk: string -> bool)
    returns (reply: Reply, recorded: seq<string>)
    requires q.Valid()
    modifies q
    ensures q.Valid()
    ensures sources.None? ==> reply == RetrieveFailed && recorded == [] && unchanged(q)
    ensures sources == Some([]) ==> reply == NoSources && recorded == [] && unchanged(q)
    ensures sources.Some? && sources.value != [] ==>
      var allNews := ConcatNews(sources.value, today, keywordsEnv, store);
      var accepted := Accepted(allNews, newsLimit);
      && (allNews == [] ==> reply == NoNews && recorded == [] && unchanged(q))
      && (allNews != [] ==>
            && reply == Deliver(Plan(Blocks(accepted, enabled, service), messagesPerChunk))
            && recorded == Filter(writeOk, Titles(accepted))
            && q.submitted == old(q.submitted) + (if enabled then Titles(accepted) else [])
            && (enabled && accepted != [] ==> !q.isRunning && q.queue == []))
    ensures old(q.resolutions) <= q.resolutions
    ensures !enabled ==> unchanged(q)
  {
    recorded := [];
    if sources.None? {
      return RetrieveFailed, [];
    }
    if sources.value == [] {
      return NoSources, [];
    }
    var allNews := CollectNews(sources.value, today, keywordsEnv, store);
    if allNews == [] {
      return NoNews, [];
    }
    var messages;
    messages, recorded := BuildMessages(allNews, newsLimit, messagesPerChunk, enabled, q, service, writeOk);
    reply := Deliver(messages);
  }

  /** The plan sends ceil(n / c) messages for n >= 1 blocks, and the header alone for none. */
  lemma PlanCount(blocks: seq<string>, c: nat)
    requires c > 0
    ensures |blocks| == 0 ==> Plan(blocks, c) == [Header]
    ensures |blocks| >= 1 ==> |Plan(blocks, c)| == (|blocks| + c - 1) / c
  {
    var n := |blocks|;
    if n == 0 {
      DivUnique(0, c, 0, 0);
      assert MessageCount(0, c) == 1;
      assert blocks[0..0] == [];
      assert Message(blocks, 0, c) == Header;
    } else {
      var q, r := (n - 1) / c, (n - 1) % c;
      DivModBasics(n - 1, c);
      DivStep(n - 1, c);
      assert MessageCount(n, c) == q + 1;
      MulSucc(q, c);
      DivUnique(n + c - 1, c, q + 1, r);
    }
  }

  /** For n >= 1 blocks, the last of the plan's messages starts before the end and reaches it. */
  lemma CountBounds(n: nat, c: nat)
    requires c > 0 && n >= 1
    ensures var m := MessageCount(n, c);
      && m >= 1
      && (m - 1) * c < n <= (m - 1) * c + c
      && n <= m * c
  {
    var m, q, r := MessageCount(n, c), n / c, n % c;
    DivModBasics(n, c);
    MulSucc(m - 1, c);
    if r == 0 {
      assert m == q;
    } else {
      assert m - 1 == q;
    }
  }

  /** Every message but the last holds exactly `c` blocks; the last holds between 1 and `c`. */
  lemma PlanSizes(blocks: seq<string>, c: nat)
    requires c > 0 && |blocks| >= 1
    ensures var n, m := |blocks|, MessageCount(|blocks|, c);
      && m >= 1
      && (forall j :: 0 <= j < m - 1 ==> j * c + c <= n)
      && (m - 1) * c < n <= (m - 1) * c + c
  {
    var n, m := |blocks|, MessageCount(|blocks|, c);
    CountBounds(n, c);
    forall j | 0 <= j < m - 1
      ensures j * c + c <= n
    {
      MulSucc(j, c);
      MulMono(j + 1, m - 1, c);
    }
  }

  /** The first message alone is the header followed by the blocks it covers. */
  lemma FirstMessageFlatten(blocks: seq<string>, c: nat)
    requires c > 0
    ensures Concat(Messages(blocks, c, 1)) == Header + Concat(blocks[..Min(c, |blocks|)])
  {
    var ms := Messages(blocks, c, 1);
    assert ms == [Message(blocks, 0, c)];
    assert ms[..0] == [];
    assert blocks[0..Min(c, |blocks|)] == blocks[..Min(c, |blocks|)];
  }

  /** One more message adds the blocks it covers, which start where the earlier ones end. */
  lemma NextMessageFlatten(blocks: seq<string>, c: nat, m: nat)
    requires c > 0 && m >= 2
    ensures var lo, hi := Min((m - 1) * c, |blocks|), Min(m * c, |blocks|);
      && 0 <= lo <= hi <= |blocks|
      && Concat(Messages(blocks, c, m)) == Concat(Messages(blocks, c, m - 1)) + Concat(blocks[lo..hi])
  {
    var ms := Messages(blocks, c, m);
    MulSucc(m - 1, c);
    MulMono(m - 1, m, c);
    MulMono(0, m - 1, c);
    assert ms[..m - 1] == Messages(blocks, c, m - 1);
  }

  /** The first `m` messages together are the header followed by the blocks they cover. */
  lemma {:induction false} PlanPrefixFlatten(blocks: seq<string>, c: nat, m: nat)
    requires c > 0 && m >= 1
    ensures Concat(Messages(blocks, c, m)) == Header + Concat(blocks[..Min(m * c, |blocks|)])
    decreases m
  {
    if m == 1 {
      FirstMessageFlatten(blocks, c);
    } else {
      PlanPrefixFlatten(blocks, c, m - 1);
      var lo, hi := Min((m - 1) * c, |blocks|), Min(m * c, |blocks|);
      NextMessageFlatten(blocks, c, m);
      FlattenSplit(blocks, lo, hi);
    }
  }

  lemma FlattenSplit(blocks: seq<string>, lo: nat, hi: nat)
    requires lo <= hi <= |blocks|
    ensures Concat(blocks[..hi]) == Concat(blocks[..lo]) + Concat(blocks[lo..hi])
  {
    assert blocks[..hi] == blocks[..lo] + blocks[lo..hi];
    ConcatAppend(blocks[..lo], blocks[lo..hi]);
  }

  /** The messages together are exactly the header followed by every block, in order. */
  lemma PlanFlatten(blocks: seq<string>, c: nat)
    ensures Concat(Plan(blocks, c)) == Header + Concat(blocks)
  {
    if c == 0 {
      assert Plan(blocks, c)[..0] == [];
    } else {
      var n, m := |blocks|, MessageCount(|blocks|, c);
      assert Plan(blocks, c) == Messages(blocks, c, m);
      PlanPrefixFlatten(blocks, c, m);
      if n == 0 {
        DivUnique(0, c, 0, 0);
      } else {
        CountBounds(n, c);
      }
      assert blocks[..n] == blocks;
    }
  }

  /** No message of a plan is empty. */
  lemma PlanNoEmptyMessage(blocks: seq<string>, c: nat)
    requires forall k :: 0 <= k < |blocks| ==> blocks[k] != ""
    ensures forall j :: 0 <= j < |Plan(blocks, c)| ==> Plan(blocks, c)[j] != ""
  {
    if c > 0 {
      var n, m := |blocks|, MessageCount(|blocks|, c);
      forall j | 0 <= j < m
        ensures Message(blocks, j, c) != ""
      {
        if j > 0 {
          PlanSizes(blocks, c);
          MulMono(j, m - 1, c);
          var part := blocks[Min(j * c, n)..Min(j * c + c, n)];
          ConcatNonEmpty(part);
          assert part[0] == blocks[j * c];
        }
      }
    }
  }
}
