/**
 * The HCCrawler class of lib/hccrawler.ts with its state updated in place.
 * Each method is proved to leave the crawler in the state the matching
 * function of CrawlModel computes from the state before the call; what
 * those functions guarantee is proved in CrawlProps and RequestProps.
 */
module Crawler {
  import opened Wrappers
  import Helper
  import opened CrawlModel
  import CrawlProps
  import RequestProps

  class HCCrawler {
    /** The url parser, fingerprint hash, robots.txt parser, device table,
        browser and preRequest hook the crawler was built with. */
    const env: Platform
    /** `_options`: defaultOptions overlaid with the constructor's options. */
    const defaults: RequestOptions
    const maxConcurrency: int

    var maxRequest: int
    var cache: map<string, string>
    var queue: seq<Entry>
    var paused: bool
    var requestedCount: nat
    var events: seq<Event>
    var delivered: seq<PageResult>

    function State(): CrawlState
      reads this
    {
      CrawlState(cache, queue, paused, requestedCount, maxRequest, events, delivered)
    }

    /** `new HCCrawler(browser, options)`: the options overlay the defaults;
        the cache is the one given or a fresh session cache. */
    constructor(env: Platform, options: Overrides, maxRequest: Option<int>, cache: Option<map<string, string>>)
      ensures this.env == env
      ensures defaults == Overlay(DefaultOptions(), options)
      ensures maxConcurrency == Or(options.maxConcurrency, DEFAULT_MAX_CONCURRENCY)
      ensures State() == CrawlState(Or(cache, map[]), [], false, 0, Or(maxRequest, DEFAULT_MAX_REQUEST), [], [])
    {
      this.env := env;
      defaults := Overlay(DefaultOptions(), options);
      maxConcurrency := if options.maxConcurrency.Some? then options.maxConcurrency.value else DEFAULT_MAX_CONCURRENCY;
      this.maxRequest := if maxRequest.Some? then maxRequest.value else DEFAULT_MAX_REQUEST;
      this.cache := if cache.Some? then cache.value else map[];
      queue := [];
      paused := false;
      requestedCount := 0;
      events := [];
      delivered := [];
    }

    // ------------------------------------------------------------- public

    /** `queue(options)`: validates every item and pushes the valid ones at
        depth 1; returns the first item's error, if any. */
    method Queue(items: seq<QueueItem>) returns (err: Option<QueueError>)
      modifies this
      ensures (State(), err) == CrawlModel.Queue(env, old(State()), defaults, maxConcurrency, items)
    {
      ghost var goal := CrawlModel.Queue(env, State(), defaults, maxConcurrency, items);
      err := None;
      var i := 0;
      while i < |items|
        invariant 0 <= i <= |items|
        invariant var rest := CrawlModel.Queue(env, State(), defaults, maxConcurrency, items[i..]);
          rest.0 == goal.0 && (if err.Some? then err else rest.1) == goal.1
      {
        assert items[i..][0] == items[i] && items[i..][1..] == items[i + 1..];
        var v := Validate(env, defaults, maxConcurrency, items[i]);
        match v {
          case Success(o) =>
            Push(o, 1, None);
          case Failure(e) =>
            if err.None? {
              err := Some(e);
            }
        }
        i := i + 1;
      }
    }

    method SetMaxRequest(n: int)
      modifies this
      ensures State() == old(State()).(maxRequest := n)
    {
      maxRequest := n;
    }

    method Pause()
      modifies this
      ensures State() == old(State()).(paused := true)
    {
      paused := true;
    }

    method Resume()
      modifies this
      ensures State() == old(State()).(paused := false)
    {
      paused := false;
    }

    method IsPaused() returns (p: bool)
      ensures p == State().paused
    {
      p := paused;
    }

    method RequestedCount() returns (n: nat)
      ensures n == State().requestedCount
    {
      n := requestedCount;
    }

    /** `clearCache()`: forgets every stored value, so nothing counts as
        requested any more. */
    method ClearCache()
      modifies this
      ensures State() == old(State()).(cache := map[])
      ensures forall o :: !CrawlModel.CheckRequested(env, cache, o)
    {
      cache := map[];
    }

    // ------------------------------------------------------------ private

    /** `_push`: a falsy priority defers to the depth under depthPriority. */
    method Push(o: RequestOptions, depth: int, previousUrl: Option<string>)
      modifies this
      ensures State() == CrawlModel.Push(old(State()), o, depth, previousUrl)
      ensures queue[|queue| - 1].priority == (if o.priority == 0 && o.depthPriority then depth else o.priority)
    {
      var priority := o.priority;
      if priority == 0 && o.depthPriority {
        priority := depth;
      }
      queue := queue + [Entry(o, depth, previousUrl, priority)];
    }

    /** `_startRequest` for an entry the queue hands out. A depth-bounded
        queue stays depth-bounded. */
    method StartRequest(e: Entry, fetch: string -> Option<string>, attempt: nat -> Attempt)
      returns (outcome: Outcome)
      modifies this
      ensures (State(), outcome) == CrawlModel.StartRequest(env, old(State()), e, fetch, attempt)
      ensures RequestProps.DepthBounded(old(queue)) && RequestProps.DepthBounded([e]) ==>
                RequestProps.DepthBounded(queue)
    {
      ghost var s0 := State();
      var o := e.options;
      var ctx := ErrorContext(o, e.depth, e.previousUrl);
      var skip := SkipRequest(o);
      if skip {
        events := events + [RequestSkipped(o)];
        MarkRequested(o);
        outcome := Skipped;
      } else {
        var allowed := CheckAllowedRobots(o, ctx, fetch);
        if !allowed {
          events := events + [RequestDisallowed(o)];
          MarkRequested(o);
          outcome := Disallowed;
        } else {
          FollowSitemap(o, ctx, fetch);
          var links := Request(o, ctx, attempt, 0);
          CheckRequestCount();
          FollowLinks(links, o, e.depth);
          outcome := Fetched;
        }
      }
      if RequestProps.DepthBounded(s0.queue) && RequestProps.DepthBounded([e]) {
        RequestProps.StartRequestKeepsDepthBound(env, s0, e, fetch, attempt);
      }
    }

    /** `_skipRequest`: domains first, then duplicates, then the hook. */
    method SkipRequest(o: RequestOptions) returns (skip: bool)
      ensures skip == CrawlModel.SkipRequest(env, cache, o)
    {
      if !CheckAllowedDomains(env, o) {
        return true;
      }
      var requested := CheckRequested(o);
      if requested {
        return true;
      }
      skip := !ShouldRequest(env, o);
    }

    /** `_request`: one attempt, then a retry after each failure until
        retryCount retries have been made. */
    method Request(o: RequestOptions, ctx: ErrorContext, attempt: nat -> Attempt, retryCount: nat)
      returns (links: seq<string>)
      modifies this
      ensures (State(), links) == CrawlModel.Request(env, old(State()), o, ctx, attempt, retryCount)
      decreases if retryCount <= o.retryCount then o.retryCount - retryCount else 0
    {
      ghost var s0 := State();
      events := events + [RequestStarted(o)];
      match attempt(retryCount)
      case AttemptSucceeded(res) =>
        events := events + [RequestFinished(o)];
        var requested := CheckRequestedRedirect(o, res.responseUrl);
        MarkRequested(o);
        MarkRequestedRedirects(o, res.redirectChain, res.responseUrl);
        if requested {
          links := [];
        } else {
          delivered := delivered + [res];
          links := res.links;
        }
      case AttemptFailed =>
        if retryCount >= o.retryCount {
          events := events + [RequestFailed(ctx)];
          links := [];
        } else {
          events := events + [RequestRetried(o)];
          links := Request(o, ctx, attempt, retryCount + 1);
        }
    }

    /** `_checkAllowedRobots`. */
    method CheckAllowedRobots(o: RequestOptions, ctx: ErrorContext, fetch: string -> Option<string>)
      returns (allowed: bool)
      modifies this
      ensures (State(), allowed) == CrawlModel.CheckAllowedRobots(env, old(State()), o, ctx, fetch)
    {
      if !o.obeyRobotsTxt {
        return true;
      }
      var txt := GetRobot(o, ctx, fetch);
      allowed := env.isAllowed(env.robotsUrl(o.url), txt, o.url, UserAgent(env, o));
    }

    /** `_followSitemap`: every url of every sitemap robots.txt lists is
        pushed at the entry's depth. */
    method FollowSitemap(o: RequestOptions, ctx: ErrorContext, fetch: string -> Option<string>)
      modifies this
      ensures State() == CrawlModel.FollowSitemap(env, old(State()), o, ctx, fetch)
    {
      if !o.followSitemapXml {
        return;
      }
      var txt := GetRobot(o, ctx, fetch);
      var sitemapUrls := env.sitemaps(env.robotsUrl(o.url), txt);
      ghost var goal := FollowSitemaps(State(), sitemapUrls, o, ctx, fetch);
      var i := 0;
      while i < |sitemapUrls|
        invariant 0 <= i <= |sitemapUrls|
        invariant FollowSitemaps(State(), sitemapUrls[i..], o, ctx, fetch) == goal
      {
        assert sitemapUrls[i..][0] == sitemapUrls[i] && sitemapUrls[i..][1..] == sitemapUrls[i + 1..];
        var xml := GetSitemapXml(sitemapUrls[i], ctx, fetch);
        var urls := Helper.GetSitemapUrls(xml);
        ghost var pushed := PushUrls(State(), urls, o, ctx.depth);
        var j := 0;
        while j < |urls|
          invariant 0 <= j <= |urls|
          invariant PushUrls(State(), urls[j..], o, ctx.depth) == pushed
        {
          assert urls[j..][0] == urls[j] && urls[j..][1..] == urls[j + 1..];
          Push(o.(url := urls[j]), ctx.depth, Some(o.url));
          j := j + 1;
        }
        i := i + 1;
      }
    }

    /** `_getSitemapXml`: a truthy cached value, or the fetched sitemap ("" on
        failure) with "1" stored under its url. */
    method GetSitemapXml(sitemapUrl: string, ctx: ErrorContext, fetch: string -> Option<string>)
      returns (xml: string)
      modifies this
      ensures (State(), xml) == CrawlModel.GetSitemapXml(old(State()), sitemapUrl, ctx, fetch)
    {
      if sitemapUrl in cache && cache[sitemapUrl] != "" {
        return cache[sitemapUrl];
      }
      match fetch(sitemapUrl) {
        case Some(body) =>
          xml := body;
        case None =>
          events := events + [SitemapXmlRequestFailed(ctx)];
          xml := "";
      }
      cache := cache[sitemapUrl := "1"];
    }

    /** `_getRobot`: a truthy cached robots.txt, or the fetched one ("" on
        failure), which is then stored. */
    method GetRobot(o: RequestOptions, ctx: ErrorContext, fetch: string -> Option<string>)
      returns (txt: string)
      modifies this
      ensures (State(), txt) == CrawlModel.GetRobot(env, old(State()), o, ctx, fetch)
    {
      var robotsUrl := env.robotsUrl(o.url);
      if robotsUrl in cache && cache[robotsUrl] != "" {
        return cache[robotsUrl];
      }
      match fetch(robotsUrl) {
        case Some(body) =>
          txt := body;
        case None =>
          events := events + [RobotsTxtRequestFailed(ctx)];
          txt := "";
      }
      cache := cache[robotsUrl := txt];
    }

    /** `_checkRequested`: only with skipDuplicates, a truthy value under
        the fingerprint. */
    method CheckRequested(o: RequestOptions) returns (requested: bool)
      ensures requested == CrawlModel.CheckRequested(env, cache, o)
      ensures requested ==> o.skipDuplicates && Key(env, o) in cache
    {
      if !o.skipDuplicates {
        return false;
      }
      var key := Key(env, o);
      requested := key in cache && cache[key] != "";
    }

    /** `_checkRequestedRedirect`: the response url's fingerprint. */
    method CheckRequestedRedirect(o: RequestOptions, responseUrl: string) returns (requested: bool)
      ensures requested == CrawlModel.CheckRequestedRedirect(env, cache, o, responseUrl)
    {
      if !o.skipRequestedRedirect {
        return false;
      }
      requested := CheckRequested(o.(url := responseUrl));
    }

    /** `_markRequested`: afterwards the options count as requested exactly
        when skipDuplicates is on. */
    method MarkRequested(o: RequestOptions)
      modifies this
      ensures State() == old(State()).(cache := CrawlModel.MarkRequested(env, old(cache), o))
      ensures CrawlModel.CheckRequested(env, cache, o) <==> o.skipDuplicates
    {
      if !o.skipDuplicates {
        return;
      }
      var key := Key(env, o);
      cache := cache[key := "1"];
    }

    /** `_markRequestedRedirects`: each url of the redirect chain, then the
        response url. */
    method MarkRequestedRedirects(o: RequestOptions, redirectChain: seq<string>, responseUrl: string)
      modifies this
      ensures State() == old(State()).(cache := CrawlModel.MarkRequestedRedirects(env, old(cache), o, redirectChain, responseUrl))
    {
      if !o.skipRequestedRedirect {
        return;
      }
      MarkEach(o, redirectChain);
      MarkRequested(o.(url := responseUrl));
    }

    /** Marks a copy of `o` for each url, in order. */
    method MarkEach(o: RequestOptions, urls: seq<string>)
      modifies this
      ensures State() == old(State()).(cache := MarkUrls(env, old(cache), o, urls))
      decreases |urls|
    {
      if urls != [] {
        MarkRequested(o.(url := urls[0]));
        MarkEach(o, urls[1..]);
      }
    }

    /** `_checkRequestCount`: counts the request and pauses once a truthy
        maxRequest is reached. */
    method CheckRequestCount()
      modifies this
      ensures State() == CrawlModel.CheckRequestCount(old(State()))
      ensures paused <==> old(paused) || (maxRequest != 0 && requestedCount >= maxRequest)
    {
      requestedCount := requestedCount + 1;
      if maxRequest != 0 && requestedCount >= maxRequest {
        events := events + [MaxRequestReached];
        Pause();
      }
    }

    /** `_followLinks`: below maxDepth, every link that is not skipped is
        pushed one level deeper. */
    method FollowLinks(links: seq<string>, o: RequestOptions, depth: int)
      modifies this
      ensures State() == CrawlModel.FollowLinks(env, old(State()), links, o, depth)
    {
      if depth >= o.maxDepth {
        events := events + [MaxDepthReached];
        return;
      }
      PushLinks(links, o, depth);
    }

    /** Pushes, one level deeper, every link that is not skipped. */
    method PushLinks(links: seq<string>, o: RequestOptions, depth: int)
      modifies this
      ensures State() == old(State()).(queue := old(queue) + LinkEntries(env, old(cache), links, o, depth))
      decreases |links|
    {
      if links != [] {
        ghost var cache0 := cache;
        PushLink(links[0], o, depth);
        PushLinks(links[1..], o, depth);
        assert LinkEntries(env, cache0, links, o, depth)
            == (if CrawlModel.SkipRequest(env, cache0, o.(url := links[0])) then []
                else [MakeEntry(o.(url := links[0]), depth + 1, Some(o.url))])
               + LinkEntries(env, cache0, links[1..], o, depth);
      }
    }

    /** One link of `_followLinks`: pushed one level deeper unless skipped. */
    method PushLink(link: string, o: RequestOptions, depth: int)
      modifies this
      ensures State() == old(State()).(queue := old(queue) +
        (if CrawlModel.SkipRequest(env, old(cache), o.(url := link)) then []
         else [MakeEntry(o.(url := link), depth + 1, Some(o.url))]))
    {
      var child := o.(url := link);
      var skip := SkipRequest(child);
      if !skip {
        Push(child, depth + 1, Some(o.url));
      }
    }
  }

  /** One link of `_followLinks`: its entry, if it is not skipped, comes
      before those of the links after it. */
  lemma LinkEntriesStep(env: Platform, cache: map<string, string>, links: seq<string>, i: nat,
                        o: RequestOptions, depth: int)
    requires i < |links|
    ensures LinkEntries(env, cache, links[i..], o, depth)
         == (if SkipRequest(env, cache, o.(url := links[i])) then []
             else [MakeEntry(o.(url := links[i]), depth + 1, Some(o.url))])
            + LinkEntries(env, cache, links[i + 1..], o, depth)
  {
    assert links[i..][0] == links[i] && links[i..][1..] == links[i + 1..];
  }
}
