/**
 * Properties of one request: the retry loop of `_request`, the redirect
 * duplicate check, `_checkRequestCount`, `_followLinks` and
 * `_startRequest` (lib/hccrawler.ts).
 */
module RequestProps {
  import opened Wrappers
  import opened CrawlModel
  import opened CrawlProps

  // ---------------------------------------------------------------- retries

  /** The events of `n` failed attempts that are each retried. */
  function RetryEvents(o: RequestOptions, n: nat): (r: seq<Event>)
    ensures |r| == 2 * n
    ensures forall i :: 0 <= i < |r| ==> r[i] == if i % 2 == 0 then RequestStarted(o) else RequestRetried(o)
  {
    if n == 0 then [] else [RequestStarted(o), RequestRetried(o)] + RetryEvents(o, n - 1)
  }

  /** The attempts `_request` may make from attempt `k` on. */
  function LastAttempt(o: RequestOptions, k: nat): nat {
    if o.retryCount > k then o.retryCount else k
  }

  /** When every attempt fails, attempt `k` and the retryCount - k retries
      after it each start, all but the last are retried, the last one fails
      with the entry's context, nothing is followed and nothing else
      changes. */
  lemma {:induction false} RequestAllFail(env: Platform, s: CrawlState, o: RequestOptions, ctx: ErrorContext,
                                          attempt: nat -> Attempt, k: nat)
    requires forall j: nat :: k <= j ==> attempt(j).AttemptFailed?
    ensures var r := Request(env, s, o, ctx, attempt, k);
      && r.1 == []
      && r.0 == s.(events := s.events + RetryEvents(o, LastAttempt(o, k) - k)
                                      + [RequestStarted(o), RequestFailed(ctx)])
    decreases if k <= o.retryCount then o.retryCount - k else 0
  {
    var started := Emit(s, RequestStarted(o));
    if k < o.retryCount {
      var s1 := Emit(started, RequestRetried(o));
      RequestAllFail(env, s1, o, ctx, attempt, k + 1);
      var n := LastAttempt(o, k) - k;
      assert LastAttempt(o, k + 1) - (k + 1) == n - 1;
      assert RetryEvents(o, n) == [RequestStarted(o), RequestRetried(o)] + RetryEvents(o, n - 1);
      assert s.events + [RequestStarted(o)] + [RequestRetried(o)] == s.events + [RequestStarted(o), RequestRetried(o)];
    } else {
      assert RetryEvents(o, 0) == [];
    }
  }

  /** `_request` tries at most retryCount + 1 times: attempts after the
      last allowed one never influence the result. */
  lemma {:induction false} RequestAttemptsBounded(env: Platform, s: CrawlState, o: RequestOptions, ctx: ErrorContext,
                                                  a1: nat -> Attempt, a2: nat -> Attempt, k: nat)
    requires forall j: nat :: k <= j <= LastAttempt(o, k) ==> a1(j) == a2(j)
    ensures Request(env, s, o, ctx, a1, k) == Request(env, s, o, ctx, a2, k)
    decreases if k <= o.retryCount then o.retryCount - k else 0
  {
    assert a1(k) == a2(k);
    if a1(k).AttemptFailed? && k < o.retryCount {
      RequestAttemptsBounded(env, Emit(Emit(s, RequestStarted(o)), RequestRetried(o)), o, ctx, a1, a2, k + 1);
    }
  }

  /** A request never touches the queue, the counter, the pause flag or
      maxRequest; it appends events, delivers at most one result and only
      adds marks to the cache. */
  lemma {:induction false} RequestFrame(env: Platform, s: CrawlState, o: RequestOptions, ctx: ErrorContext,
                                        attempt: nat -> Attempt, k: nat)
    ensures var r := Request(env, s, o, ctx, attempt, k).0;
      && Uncounted(s, r) && r.queue == s.queue
      && |r.delivered| <= |s.delivered| + 1
    decreases if k <= o.retryCount then o.retryCount - k else 0
  {
    var started := Emit(s, RequestStarted(o));
    match attempt(k)
    case AttemptFailed =>
      if k < o.retryCount {
        var s1 := Emit(started, RequestRetried(o));
        RequestFrame(env, s1, o, ctx, attempt, k + 1);
        assert Uncounted(s, s1);
        UncountedTransitive(s, s1, Request(env, s, o, ctx, attempt, k).0);
      }
    case AttemptSucceeded(res) =>
      var marked := MarkRequested(env, s.cache, o);
      MarkRedirectsGrows(env, marked, o, res.redirectChain, res.responseUrl);
  }

  lemma MarkRedirectsGrows(env: Platform, cache: map<string, string>, o: RequestOptions,
                           redirectChain: seq<string>, responseUrl: string)
    ensures CacheGrows(cache, MarkRequestedRedirects(env, cache, o, redirectChain, responseUrl))
  {
    if o.skipRequestedRedirect {
      MarkUrlsMarksEach(env, cache, o, redirectChain);
    }
  }

  /** A successful attempt: the page is finished, and the result is
      delivered and its links followed exactly when the response url was
      not already requested before this request. */
  lemma RequestSucceeds(env: Platform, s: CrawlState, o: RequestOptions, ctx: ErrorContext,
                        attempt: nat -> Attempt, k: nat)
    requires attempt(k).AttemptSucceeded?
    ensures var res := attempt(k).result;
      var r := Request(env, s, o, ctx, attempt, k);
      var duplicate := CheckRequestedRedirect(env, s.cache, o, res.responseUrl);
      && r.0.events == s.events + [RequestStarted(o), RequestFinished(o)]
      && (duplicate ==> r.1 == [] && r.0.delivered == s.delivered)
      && (!duplicate ==> r.1 == res.links && r.0.delivered == s.delivered + [res])
  {
  }

  /** After a successful attempt the page's fingerprint is marked and, with
      skipRequestedRedirect, so is every url of the redirect chain and the
      response url. */
  lemma RequestMarksRedirects(env: Platform, s: CrawlState, o: RequestOptions, ctx: ErrorContext,
                              attempt: nat -> Attempt, k: nat)
    requires attempt(k).AttemptSucceeded? && o.skipDuplicates
    ensures var res := attempt(k).result;
      var c := Request(env, s, o, ctx, attempt, k).0.cache;
      && CheckRequested(env, c, o)
      && (o.skipRequestedRedirect ==>
            && CheckRequested(env, c, o.(url := res.responseUrl))
            && forall i :: 0 <= i < |res.redirectChain| ==> CheckRequested(env, c, o.(url := res.redirectChain[i])))
  {
    var res := attempt(k).result;
    var marked := MarkRequested(env, s.cache, o);
    var c := Request(env, s, o, ctx, attempt, k).0.cache;
    assert c == MarkRequestedRedirects(env, marked, o, res.redirectChain, res.responseUrl);
    MarkRedirectsGrows(env, marked, o, res.redirectChain, res.responseUrl);
    assert Cached(marked, Key(env, o));
    if o.skipRequestedRedirect {
      RedirectsMarked(env, marked, o, res.redirectChain, res.responseUrl);
    }
  }

  /** With both flags on, every url of the chain and the response url end up marked. */
  lemma RedirectsMarked(env: Platform, cache: map<string, string>, o: RequestOptions,
                        redirectChain: seq<string>, responseUrl: string)
    requires o.skipDuplicates && o.skipRequestedRedirect
    ensures var c := MarkRequestedRedirects(env, cache, o, redirectChain, responseUrl);
      && CheckRequested(env, c, o.(url := responseUrl))
      && forall i :: 0 <= i < |redirectChain| ==> CheckRequested(env, c, o.(url := redirectChain[i]))
  {
    var chained := MarkUrls(env, cache, o, redirectChain);
    var c := MarkRequested(env, chained, o.(url := responseUrl));
    MarkUrlsMarksEach(env, cache, o, redirectChain);
    forall i | 0 <= i < |redirectChain|
      ensures CheckRequested(env, c, o.(url := redirectChain[i]))
    {
      assert Cached(chained, Key(env, o.(url := redirectChain[i])));
    }
  }

  /** A page that redirects to its own, not yet requested, url is not a
      duplicate: the duplicate check reads the cache before the page's own
      mark is stored. */
  lemma SelfRedirectNotDuplicate(env: Platform, s: CrawlState, o: RequestOptions, ctx: ErrorContext,
                                 attempt: nat -> Attempt, k: nat)
    requires attempt(k).AttemptSucceeded? && attempt(k).result.responseUrl == o.url
    requires !CheckRequested(env, s.cache, o)
    ensures Request(env, s, o, ctx, attempt, k).0.delivered == s.delivered + [attempt(k).result]
    ensures Request(env, s, o, ctx, attempt, k).1 == attempt(k).result.links
  {
    assert o.(url := o.url) == o;
  }

  // ------------------------------------------------------------ count, pause

  /** `_checkRequestCount` counts one request and pauses, announcing it,
      exactly when a truthy maxRequest has been reached. */
  lemma CheckRequestCountPauses(s: CrawlState)
    ensures var r := CheckRequestCount(s);
      var reached := s.maxRequest != 0 && s.requestedCount + 1 >= s.maxRequest;
      && r.requestedCount == s.requestedCount + 1
      && r.paused == (s.paused || reached)
      && r.events == s.events + (if reached then [MaxRequestReached] else [])
      && r.queue == s.queue && r.cache == s.cache && r.delivered == s.delivered
      && r.maxRequest == s.maxRequest
  {
  }

  /** With maxRequest 0 (the default) the crawler never pauses itself. */
  lemma ZeroMaxRequestNeverPauses(s: CrawlState)
    requires s.maxRequest == 0 && !s.paused
    ensures !CheckRequestCount(s).paused
    ensures MaxRequestReached !in CheckRequestCount(s).events[|s.events|..]
  {
    assert CheckRequestCount(s).events[|s.events|..] == [];
  }

  // ------------------------------------------------------------------ links

  /** The entries pushed for `links` are exactly the links that are not
      skipped, each at depth + 1 and coming from the page's url. */
  lemma {:induction false} LinkEntriesMeaning(env: Platform, cache: map<string, string>, links: seq<string>,
                                              o: RequestOptions, depth: int, x: Entry)
    ensures x in LinkEntries(env, cache, links, o, depth) <==>
      exists i :: 0 <= i < |links| && !SkipRequest(env, cache, o.(url := links[i]))
                  && x == MakeEntry(o.(url := links[i]), depth + 1, Some(o.url))
    decreases |links|
  {
    if links != [] {
      LinkEntriesMeaning(env, cache, links[1..], o, depth, x);
      var r := LinkEntries(env, cache, links, o, depth);
      var head := if SkipRequest(env, cache, o.(url := links[0])) then []
                  else [MakeEntry(o.(url := links[0]), depth + 1, Some(o.url))];
      assert r == head + LinkEntries(env, cache, links[1..], o, depth);
      if x in r && x !in head {
        var i :| 0 <= i < |links[1..]| && !SkipRequest(env, cache, o.(url := links[1..][i]))
                 && x == MakeEntry(o.(url := links[1..][i]), depth + 1, Some(o.url));
        assert links[1..][i] == links[i + 1];
      }
      if exists i :: 0 <= i < |links| && !SkipRequest(env, cache, o.(url := links[i]))
                     && x == MakeEntry(o.(url := links[i]), depth + 1, Some(o.url)) {
        var i :| 0 <= i < |links| && !SkipRequest(env, cache, o.(url := links[i]))
                 && x == MakeEntry(o.(url := links[i]), depth + 1, Some(o.url));
        if i > 0 {
          assert links[1..][i - 1] == links[i];
        }
      }
    }
  }

  /** `_followLinks` at or past maxDepth only announces it; below maxDepth
      it appends the link entries and emits nothing. */
  lemma FollowLinksDepthGate(env: Platform, s: CrawlState, links: seq<string>, o: RequestOptions, depth: int)
    ensures var r := FollowLinks(env, s, links, o, depth);
      && (depth >= o.maxDepth ==> r.queue == s.queue && r.events == s.events + [MaxDepthReached])
      && (depth < o.maxDepth ==>
            && r.events == s.events && s.queue <= r.queue
            && forall i :: |s.queue| <= i < |r.queue| ==> r.queue[i].depth == depth + 1)
      && r.(queue := s.queue, events := s.events) == s
  {
    var r := FollowLinks(env, s, links, o, depth);
    if depth < o.maxDepth {
      var es := LinkEntries(env, s.cache, links, o, depth);
      forall i | |s.queue| <= i < |r.queue| ensures r.queue[i].depth == depth + 1 {
        var x := r.queue[i];
        assert x == es[i - |s.queue|];
        assert x in es;
        LinkEntriesMeaning(env, s.cache, links, o, depth, x);
      }
    }
  }

  // ---------------------------------------------------------- start request

  /** `_startRequest`: an entry is skipped exactly when `_skipRequest` says
      so and is then marked; a skipped or disallowed entry is not counted
      and neither pushes nor delivers anything; only a fetched entry is
      counted, and then exactly once. */
  lemma StartRequestOutcome(env: Platform, s: CrawlState, e: Entry, fetch: string -> Option<string>,
                            attempt: nat -> Attempt)
    ensures var (r, outcome) := StartRequest(env, s, e, fetch, attempt);
      && (outcome == Skipped <==> SkipRequest(env, s.cache, e.options))
      && r.requestedCount == s.requestedCount + (if outcome == Fetched then 1 else 0)
      && (outcome != Fetched ==>
            && r.queue == s.queue && r.delivered == s.delivered && r.paused == s.paused
            && (e.options.skipDuplicates ==> CheckRequested(env, r.cache, e.options)))
  {
    var o := e.options;
    var ctx := ErrorContext(o, e.depth, e.previousUrl);
    if SkipRequest(env, s.cache, o) {
      MarkThenCheck(env, s.cache, o);
    } else {
      var (s1, allowed) := CheckAllowedRobots(env, s, o, ctx, fetch);
      CheckAllowedRobotsUncounted(env, s, o, ctx, fetch);
      if !allowed {
        MarkThenCheck(env, s1.cache, o);
      } else {
        var s2 := FollowSitemap(env, s1, o, ctx, fetch);
        FollowSitemapPushes(env, s1, o, ctx, fetch);
        var (s3, links) := Request(env, s2, o, ctx, attempt, 0);
        RequestFrame(env, s2, o, ctx, attempt, 0);
        FollowLinksDepthGate(env, CheckRequestCount(s3), links, o, e.depth);
      }
    }
  }

  /** `_startRequest` only adds: the queue and the events are extended, no
      cache mark is lost, delivered results stay, and a paused crawler
      stays paused. */
  lemma StartRequestMonotone(env: Platform, s: CrawlState, e: Entry, fetch: string -> Option<string>,
                             attempt: nat -> Attempt)
    ensures var r := StartRequest(env, s, e, fetch, attempt).0;
      && s.queue <= r.queue && s.events <= r.events && s.delivered <= r.delivered
      && CacheGrows(s.cache, r.cache)
      && (s.paused ==> r.paused)
      && r.maxRequest == s.maxRequest
  {
    var o := e.options;
    var ctx := ErrorContext(o, e.depth, e.previousUrl);
    if SkipRequest(env, s.cache, o) {
    } else {
      var (s1, allowed) := CheckAllowedRobots(env, s, o, ctx, fetch);
      CheckAllowedRobotsUncounted(env, s, o, ctx, fetch);
      if allowed {
        FetchedMonotone(env, s1, o, ctx, e.depth, fetch, attempt);
      }
    }
  }

  /** The fetching half of `_startRequest`, from the robots check on. */
  lemma FetchedMonotone(env: Platform, s1: CrawlState, o: RequestOptions, ctx: ErrorContext, depth: int,
                        fetch: string -> Option<string>, attempt: nat -> Attempt)
    ensures var s2 := FollowSitemap(env, s1, o, ctx, fetch);
            var (s3, links) := Request(env, s2, o, ctx, attempt, 0);
            var r := FollowLinks(env, CheckRequestCount(s3), links, o, depth);
      && s1.queue <= r.queue && s1.events <= r.events && s1.delivered <= r.delivered
      && CacheGrows(s1.cache, r.cache)
      && (s1.paused ==> r.paused)
      && r.maxRequest == s1.maxRequest
  {
    var s2 := FollowSitemap(env, s1, o, ctx, fetch);
    FollowSitemapPushes(env, s1, o, ctx, fetch);
    var (s3, links) := Request(env, s2, o, ctx, attempt, 0);
    RequestFrame(env, s2, o, ctx, attempt, 0);
    UncountedTransitive(s1, s2, s3);
    FollowLinksDepthGate(env, CheckRequestCount(s3), links, o, depth);
  }

  /** Every entry lies between depth 1 and its own maxDepth (or 1 when that
      is lower). */
  ghost predicate DepthBounded(q: seq<Entry>) {
    forall i :: 0 <= i < |q| ==> 1 <= q[i].depth && (q[i].depth <= 1 || q[i].depth <= q[i].options.maxDepth)
  }

  /** Pulling a depth-bounded entry keeps a depth-bounded queue
      depth-bounded: sitemap urls are pushed at the entry's depth and links
      one level deeper only below maxDepth, both with the entry's maxDepth. */
  lemma StartRequestKeepsDepthBound(env: Platform, s: CrawlState, e: Entry, fetch: string -> Option<string>,
                                    attempt: nat -> Attempt)
    requires DepthBounded(s.queue) && DepthBounded([e])
    ensures DepthBounded(StartRequest(env, s, e, fetch, attempt).0.queue)
  {
    var o := e.options;
    var ctx := ErrorContext(o, e.depth, e.previousUrl);
    assert [e][0] == e;
    if !SkipRequest(env, s.cache, o) {
      var (s1, allowed) := CheckAllowedRobots(env, s, o, ctx, fetch);
      CheckAllowedRobotsUncounted(env, s, o, ctx, fetch);
      if allowed {
        SitemapsKeepDepthBound(env, s1, e, fetch);
        var s2 := FollowSitemap(env, s1, o, ctx, fetch);
        var (s3, links) := Request(env, s2, o, ctx, attempt, 0);
        RequestFrame(env, s2, o, ctx, attempt, 0);
        LinksKeepDepthBound(env, CheckRequestCount(s3), links, e);
      }
    }
  }

  /** Sitemap urls are pushed at the entry's own depth. */
  lemma SitemapsKeepDepthBound(env: Platform, s1: CrawlState, e: Entry, fetch: string -> Option<string>)
    requires DepthBounded(s1.queue) && DepthBounded([e])
    ensures DepthBounded(FollowSitemap(env, s1, e.options, ErrorContext(e.options, e.depth, e.previousUrl), fetch).queue)
  {
    var o := e.options;
    var ctx := ErrorContext(o, e.depth, e.previousUrl);
    assert [e][0] == e;
    var s2 := FollowSitemap(env, s1, o, ctx, fetch);
    FollowSitemapPushes(env, s1, o, ctx, fetch);
    forall i | 0 <= i < |s2.queue|
      ensures 1 <= s2.queue[i].depth && (s2.queue[i].depth <= 1 || s2.queue[i].depth <= s2.queue[i].options.maxDepth)
    {
      if i >= |s1.queue| {
        assert s2.queue[i] == s2.queue[|s1.queue|..][i - |s1.queue|];
      }
    }
  }

  /** Links are pushed one level deeper, and only below maxDepth. */
  lemma LinksKeepDepthBound(env: Platform, c: CrawlState, links: seq<string>, e: Entry)
    requires DepthBounded(c.queue) && DepthBounded([e])
    ensures DepthBounded(FollowLinks(env, c, links, e.options, e.depth).queue)
  {
    var o := e.options;
    assert [e][0] == e;
    var r := FollowLinks(env, c, links, o, e.depth);
    FollowLinksDepthGate(env, c, links, o, e.depth);
    forall i | 0 <= i < |r.queue|
      ensures 1 <= r.queue[i].depth && (r.queue[i].depth <= 1 || r.queue[i].depth <= r.queue[i].options.maxDepth)
    {
      if i >= |c.queue| {
        var x := r.queue[i];
        var es := LinkEntries(env, c.cache, links, o, e.depth);
        assert x == es[i - |c.queue|];
        LinkEntriesMeaning(env, c.cache, links, o, e.depth, x);
      }
    }
  }
}
