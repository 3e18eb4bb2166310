/** The per-feed part of src/index.js: keyword relevance, the same-day check, the fail-open
    "already sent" lookup, the filter chain of `getNews` and the concatenation over all sources. */
module Feeds {
  import opened Wrappers
  import opened Seqs
  import opened Strings

  /** An item's `pubDate`. `Missing` is `undefined`; `Given` carries the raw text, the local
      calendar day it parses to (`None` when moment cannot parse it) and moment's
      `format('YYYY-MM-DD HH:mm')` of it. */
  datatype PubDate = Missing | Given(raw: string, day: Option<int>, formatted: string)

  /** One parsed feed item; an absent `title`, `content` or `summary` is the empty string. */
  datatype FeedEntry = FeedEntry(title: string, link: string, content: string, summary: string, pubDate: PubDate)

  /** The projection `{title, link, pubDate}` that `getNews` returns. */
  datatype NewsItem = NewsItem(title: string, link: string, pubDate: PubDate)

  /** The outcome of `parser.parseURL(rssUrl)`; a feed without `items` is `Parsed([])`. */
  datatype Feed = FetchFailed | Parsed(items: seq<FeedEntry>)

  /** The `sentNews` collection: the recorded titles, and whether a lookup of a given title
      reaches the store (an unreachable lookup throws). */
  datatype SentStore = SentStore(records: seq<string>, reachable: string -> bool)

  /** `isToday(pubDate)`: `moment(undefined)` is the current moment, so a missing date is today;
      a given date is today when it parses to today's calendar day. */
  function IsToday(pubDate: PubDate, today: int): (r: bool)
    ensures pubDate.Missing? ==> r
    ensures pubDate.Given? && pubDate.day.None? ==> !r
    ensures pubDate.Given? && pubDate.day.Some? ==> (r <==> pubDate.day.value == today)
  {
    match pubDate
    case Missing => true
    case Given(_, day, _) => day == Some(today)
  }

  /** Some keyword, lower-cased, occurs in `text`: the keyword patterns are tried case-insensitively. */
  function AnyKeywordOccurs(keywords: seq<string>, text: string): (r: bool)
    ensures r <==> exists k :: k in keywords && Contains(text, Lower(k))
  {
    if keywords == [] then false
    else Test(Lower(keywords[0]), text) || AnyKeywordOccurs(keywords[1..], text)
  }

  /** `isUkraineNews(title, description)` with `NEWS_KEYWORDS` given as `keywordsEnv` (the empty
      string when unset). */
  function IsUkraineNews(title: string, description: string, keywordsEnv: string): (r: bool)
    ensures r <==> exists k :: k in Split(keywordsEnv, ",") && Contains(Lower(title + " " + description), Lower(k))
  {
    AnyKeywordOccurs(Split(keywordsEnv, ","), Lower(title + " " + description))
  }

  /** An empty keyword entry matches every item. */
  lemma EmptyKeywordMatchesAll(title: string, description: string, keywordsEnv: string)
    requires "" in Split(keywordsEnv, ",")
    ensures IsUkraineNews(title, description, keywordsEnv)
  {
    assert OccursAt(Lower(title + " " + description), Lower(""), 0);
  }

  /** With `NEWS_KEYWORDS` unset every item matches. */
  lemma UnsetKeywordsMatchAll(title: string, description: string)
    ensures IsUkraineNews(title, description, "")
  {
    assert !OccursAt("", ",", 0);
    SplitWhole("", ",");
    EmptyKeywordMatchesAll(title, description, "");
  }

  /** A trailing comma in `NEWS_KEYWORDS` makes every item match. */
  lemma TrailingCommaMatchesAll(title: string, description: string, keywordsEnv: string)
    requires |keywordsEnv| > 0 && keywordsEnv[|keywordsEnv| - 1] == ','
    ensures IsUkraineNews(title, description, keywordsEnv)
  {
    SplitTrailingComma(keywordsEnv);
    var parts := Split(keywordsEnv, ",");
    assert parts[|parts| - 1] in parts;
    EmptyKeywordMatchesAll(title, description, keywordsEnv);
  }

  /** `isNewsAlreadySent(title)`: true exactly when the lookup succeeds and finds a record with
      this exact title; a failed lookup answers false (fail open). */
  function IsNewsAlreadySent(title: string, store: SentStore): (r: bool)
    ensures r <==> store.reachable(title) && title in store.records
  {
    if !store.reachable(title) then false
    else
      var snapshot := Filter((record: string) => record == title, store.records);
      assert title in store.records ==> title in snapshot;
      assert |snapshot| > 0 ==> snapshot[0] in snapshot;
      |snapshot| > 0
  }

  /** The description: the content when non-empty, else the summary, else the empty string. */
  function Description(e: FeedEntry): (r: string)
    ensures r == "" <==> e.content == "" && e.summary == ""
    ensures e.content != "" ==> r == e.content
    ensures e.content == "" ==> r == e.summary
  {
    if e.content != "" then e.content else if e.summary != "" then e.summary else ""
  }

  /** The first filter of `getNews`: keyword relevance and same-day publication. A part of
      `GetNews`, whose contract and lemmas state what it selects. */
  function RelevantOn(today: int, keywordsEnv: string): FeedEntry -> bool
  {
    (e: FeedEntry) => IsUkraineNews(e.title, Description(e), keywordsEnv) && IsToday(e.pubDate, today)
  }

  /** The second filter of `getNews`: not reported as sent. */
  function Unsent(store: SentStore): FeedEntry -> bool
  {
    (e: FeedEntry) => !IsNewsAlreadySent(e.title, store)
  }

  /** Items `getNews` keeps: relevant, today's and not reported as sent. */
  function Eligible(today: int, keywordsEnv: string, store: SentStore): FeedEntry -> bool
  {
    Both(RelevantOn(today, keywordsEnv), Unsent(store))
  }

  /** The projection `map` at the end of `getNews`: title, link and date. A part of `GetNews`,
      whose contract and lemmas state what it returns. */
  function Project(e: FeedEntry): NewsItem
  {
    NewsItem(e.title, e.link, e.pubDate)
  }

  /** Keeps the items whose sent-check at the same index came back false. */
  function KeepUnsent(items: seq<FeedEntry>, sent: seq<bool>): (r: seq<FeedEntry>)
    requires |sent| == |items|
    ensures |r| <= |items|
    ensures forall i :: 0 <= i < |items| && !sent[i] ==> items[i] in r
    ensures forall x :: x in r ==> exists i :: 0 <= i < |items| && !sent[i] && items[i] == x
    decreases |items|
  {
    if items == [] then []
    else (if sent[0] then [] else [items[0]]) + KeepUnsent(items[1..], sent[1..])
  }

  /** Filtering by the index-aligned results of the lookups is filtering by the lookup itself. */
  lemma {:induction false} KeepUnsentIsFilter(items: seq<FeedEntry>, sent: seq<bool>, store: SentStore)
    requires |sent| == |items|
    requires forall i :: 0 <= i < |items| ==> sent[i] == IsNewsAlreadySent(items[i].title, store)
    ensures KeepUnsent(items, sent) == Filter(Unsent(store), items)
    decreases |items|
  {
    if items != [] {
      KeepUnsentIsFilter(items[1..], sent[1..], store);
    }
  }

  /** `getNews(rssUrl)` applied to the result of fetching the feed. */
  function GetNews(feed: Feed, today: int, keywordsEnv: string, store: SentStore): (r: seq<NewsItem>)
    ensures feed.FetchFailed? ==> r == []
    ensures feed.Parsed? ==> r == Map(Project, Filter(Eligible(today, keywordsEnv, store), feed.items))
  {
    match feed
    case FetchFailed => []
    case Parsed(items) =>
      if |items| == 0 then []
      else
        var filtered := Filter(RelevantOn(today, keywordsEnv), items);
        var sentChecks := seq(|filtered|, i requires 0 <= i < |filtered| => IsNewsAlreadySent(filtered[i].title, store));
        KeepUnsentIsFilter(filtered, sentChecks, store);
        FilterFilter(RelevantOn(today, keywordsEnv), Unsent(store), items);
        Map(Project, KeepUnsent(filtered, sentChecks))
  }

  /** What `getNews` returns: the projections of exactly the eligible items, in feed order. */
  lemma GetNewsSelects(items: seq<FeedEntry>, today: int, keywordsEnv: string, store: SentStore)
    ensures var r := GetNews(Parsed(items), today, keywordsEnv, store);
      && (forall x :: x in r ==> exists e :: e in items && Eligible(today, keywordsEnv, store)(e) && x == Project(e))
      && (forall e :: e in items && Eligible(today, keywordsEnv, store)(e) ==> Project(e) in r)
      && IsSubsequence(r, Map(Project, items))
  {
    var kept := Filter(Eligible(today, keywordsEnv, store), items);
    var r := GetNews(Parsed(items), today, keywordsEnv, store);
    forall x | x in r
      ensures exists e :: e in items && Eligible(today, keywordsEnv, store)(e) && x == Project(e)
    {
      var i :| 0 <= i < |r| && r[i] == x;
      assert kept[i] in kept;
    }
    forall e | e in items && Eligible(today, keywordsEnv, store)(e)
      ensures Project(e) in r
    {
      var i :| 0 <= i < |kept| && kept[i] == e;
      assert r[i] == Project(e);
    }
    MapSubsequence(Project, kept, items);
  }

  /** Fail open: when no lookup reaches the store, `getNews` keeps every relevant item. */
  lemma FailOpen(items: seq<FeedEntry>, today: int, keywordsEnv: string, store: SentStore)
    requires forall t :: !store.reachable(t)
    ensures GetNews(Parsed(items), today, keywordsEnv, store) == Map(Project, Filter(RelevantOn(today, keywordsEnv), items))
  {
    FilterAgree(Eligible(today, keywordsEnv, store), RelevantOn(today, keywordsEnv), items);
  }

  /** `getNews` on a source, as a function of the source. */
  function NewsOf(today: int, keywordsEnv: string, store: SentStore): Feed -> seq<NewsItem>
  {
    (feed: Feed) => GetNews(feed, today, keywordsEnv, store)
  }

  /** `allNews`: the `getNews` results of every source, concatenated in source order. */
  function ConcatNews(feeds: seq<Feed>, today: int, keywordsEnv: string, store: SentStore): seq<NewsItem>
  {
    Concat(Map(NewsOf(today, keywordsEnv, store), feeds))
  }

  /** The source loop of the Subscribe handlers: `allNews.push(...news)` for every source in turn.
      `getNews` never throws, so the loop's `catch` is never reached. */
  method CollectNews(feeds: seq<Feed>, today: int, keywordsEnv: string, store: SentStore) returns (allNews: seq<NewsItem>)
    ensures allNews == ConcatNews(feeds, today, keywordsEnv, store)
  {
    allNews := [];
    for i := 0 to |feeds|
      invariant allNews == ConcatNews(feeds[..i], today, keywordsEnv, store)
    {
      var news := GetNews(feeds[i], today, keywordsEnv, store);
      ghost var parts := Map(NewsOf(today, keywordsEnv, store), feeds[..i + 1]);
      assert parts[..i] == Map(NewsOf(today, keywordsEnv, store), feeds[..i]);
      allNews := allNews + news;
    }
    assert feeds[..|feeds|] == feeds;
  }

  /** An item is in `allNews` exactly when some source's `getNews` returned it. */
  lemma ConcatNewsMember(feeds: seq<Feed>, today: int, keywordsEnv: string, store: SentStore, x: NewsItem)
    ensures x in ConcatNews(feeds, today, keywordsEnv, store) <==>
      exists k :: 0 <= k < |feeds| && x in GetNews(feeds[k], today, keywordsEnv, store)
  {
    var parts := Map(NewsOf(today, keywordsEnv, store), feeds);
    ConcatMember(parts, x);
    assert forall k :: 0 <= k < |feeds| ==> parts[k] == GetNews(feeds[k], today, keywordsEnv, store);
  }

  /** A source that cannot be fetched contributes nothing and does not stop the others: the news
      around it is the news of the sources before it followed by that of the sources after it. */
  lemma FailedSourceSkipped(before: seq<Feed>, after: seq<Feed>, today: int, keywordsEnv: string, store: SentStore)
    ensures ConcatNews(before + [FetchFailed] + after, today, keywordsEnv, store) ==
      ConcatNews(before, today, keywordsEnv, store) + ConcatNews(after, today, keywordsEnv, store)
  {
    var f := NewsOf(today, keywordsEnv, store);
    MapAppend(f, before + [FetchFailed], after);
    MapAppend(f, before, [FetchFailed]);
    assert Map(f, [FetchFailed]) == [[]] by {
      assert f(FetchFailed) == [];
    }
    ConcatSkipsEmpty(Map(f, before), Map(f, after));
  }

  /** One source whose one relevant, unsent item is kept, followed by a source that cannot be
      fetched, yields exactly that item. */
  lemma OneSourceFails(e: FeedEntry, today: int, keywordsEnv: string, store: SentStore)
    requires Eligible(today, keywordsEnv, store)(e)
    ensures ConcatNews([Parsed([e]), FetchFailed], today, keywordsEnv, store) == [Project(e)]
  {
    FailedSourceSkipped([Parsed([e])], [], today, keywordsEnv, store);
    assert [Parsed([e])] + [FetchFailed] + [] == [Parsed([e]), FetchFailed];
    assert Filter(Eligible(today, keywordsEnv, store), [e]) == [e] by {
      assert Filter(Eligible(today, keywordsEnv, store), [e]) == [e] + Filter(Eligible(today, keywordsEnv, store), []);
    }
    var f := NewsOf(today, keywordsEnv, store);
    assert f(Parsed([e])) == [Project(e)];
    assert Map(f, [Parsed([e])]) == [[Project(e)]];
    assert Concat([[Project(e)]]) == [Project(e)] by {
      assert [[Project(e)]][..0] == [];
    }
  }

  /** Every eligible item is reported. */
  lemma EligibleReported(items: seq<FeedEntry>, today: int, keywordsEnv: string, store: SentStore, e: FeedEntry)
    requires e in items && Eligible(today, keywordsEnv, store)(e)
    ensures Project(e) in GetNews(Parsed(items), today, keywordsEnv, store)
  {
    GetNewsSelects(items, today, keywordsEnv, store);
  }

  /** Once the titles `getNews` returned are recorded (and nothing is lost from the store),
      the same feed yields nothing on a run whose lookups all succeed. */
  lemma GetNewsAfterRecording(feed: Feed, today: int, keywordsEnv: string, store: SentStore, later: SentStore)
    requires forall t :: t in store.records ==> t in later.records
    requires forall x :: x in GetNews(feed, today, keywordsEnv, store) ==> x.title in later.records
    requires forall t :: later.reachable(t)
    ensures GetNews(feed, today, keywordsEnv, later) == []
  {
    if feed.Parsed? {
      var items := feed.items;
      forall e | e in items
        ensures !Eligible(today, keywordsEnv, later)(e)
      {
        if Eligible(today, keywordsEnv, store)(e) {
          EligibleReported(items, today, keywordsEnv, store, e);
        }
      }
      var r := GetNews(feed, today, keywordsEnv, later);
      if r != [] {
        GetNewsSelects(items, today, keywordsEnv, later);
      }
    }
  }

  /** Dedup is idempotent: with the titles of a first run recorded, a second run over the same
      sources whose lookups all succeed finds nothing. */
  lemma SecondRunFindsNothing(feeds: seq<Feed>, today: int, keywordsEnv: string, store: SentStore, later: SentStore)
    requires forall t :: t in store.records ==> t in later.records
    requires forall x :: x in ConcatNews(feeds, today, keywordsEnv, store) ==> x.title in later.records
    requires forall t :: later.reachable(t)
    ensures ConcatNews(feeds, today, keywordsEnv, later) == []
  {
    forall k | 0 <= k < |feeds|
      ensures GetNews(feeds[k], today, keywordsEnv, later) == []
    {
      forall x | x in GetNews(feeds[k], today, keywordsEnv, store)
        ensures x.title in later.records
      {
        ConcatNewsMember(feeds, today, keywordsEnv, store, x);
      }
      GetNewsAfterRecording(feeds[k], today, keywordsEnv, store, later);
    }
    var second := ConcatNews(feeds, today, keywordsEnv, later);
    if second != [] {
      ConcatNewsMember(feeds, today, keywordsEnv, later, second[0]);
    }
  }
}
