/**
 * What HCCrawler's request life cycle promises, proved about the functions
 * of CrawlModel: queue validation, duplicate marking, skipping, caching of
 * robots.txt and sitemaps, the retry loop, redirect deduplication, link
 * expansion and the request counter.
 */
module CrawlProps {
  import opened Wrappers
  import Helper
  import Fingerprint
  import opened CrawlModel

  // ----------------------------------------------------------------- queue

  /** `queue` changes nothing but the queue, which it only appends to. */
  lemma {:induction false} QueueOnlyAppends(env: Platform, s: CrawlState, base: RequestOptions,
                                            maxConcurrency: int, items: seq<QueueItem>)
    ensures var r := Queue(env, s, base, maxConcurrency, items);
      r.0.(queue := s.queue) == s && s.queue <= r.0.queue
    decreases |items|
  {
    if items != [] {
      var v := Validate(env, base, maxConcurrency, items[0]);
      var s1 := if v.Success? then Push(s, v.value, 1, None) else s;
      QueueOnlyAppends(env, s1, base, maxConcurrency, items[1..]);
    }
  }

  /** Every entry `queue` appends comes from a valid item: its validated
      options, depth 1, no previous url. */
  lemma {:induction false} QueueSeedsValid(env: Platform, s: CrawlState, base: RequestOptions,
                                           maxConcurrency: int, items: seq<QueueItem>)
    ensures var q := Queue(env, s, base, maxConcurrency, items).0.queue;
      forall k :: |s.queue| <= k < |q| ==>
        && q[k] == MakeEntry(q[k].options, 1, None)
        && exists i :: 0 <= i < |items| && Validate(env, base, maxConcurrency, items[i]) == Success(q[k].options)
    decreases |items|
  {
    if items != [] {
      var v := Validate(env, base, maxConcurrency, items[0]);
      var s1 := if v.Success? then Push(s, v.value, 1, None) else s;
      QueueSeedsValid(env, s1, base, maxConcurrency, items[1..]);
      QueueOnlyAppends(env, s1, base, maxConcurrency, items[1..]);
      var q := Queue(env, s, base, maxConcurrency, items).0.queue;
      forall k | |s.queue| <= k < |q|
        ensures q[k] == MakeEntry(q[k].options, 1, None)
        ensures exists i :: 0 <= i < |items| && Validate(env, base, maxConcurrency, items[i]) == Success(q[k].options)
      {
        if k < |s1.queue| {
          assert q[k] == s1.queue[k];
        } else {
          var i :| 0 <= i < |items[1..]| && Validate(env, base, maxConcurrency, items[1..][i]) == Success(q[k].options);
          assert items[1..][i] == items[i + 1];
        }
      }
    }
  }

  /** `e` sits in `q` at or after position `from`. */
  predicate PushedAfter(q: seq<Entry>, from: int, e: Entry) {
    exists k :: 0 <= from <= k < |q| && q[k] == e
  }

  /** Every valid item is pushed. */
  lemma {:induction false} QueuePushesEveryValid(env: Platform, s: CrawlState, base: RequestOptions,
                                                 maxConcurrency: int, items: seq<QueueItem>)
    ensures forall i :: 0 <= i < |items| && Validate(env, base, maxConcurrency, items[i]).Success? ==>
      PushedAfter(Queue(env, s, base, maxConcurrency, items).0.queue, |s.queue|,
                  MakeEntry(Validate(env, base, maxConcurrency, items[i]).value, 1, None))
    decreases |items|
  {
    if items != [] {
      var v := Validate(env, base, maxConcurrency, items[0]);
      var s1 := if v.Success? then Push(s, v.value, 1, None) else s;
      QueuePushesEveryValid(env, s1, base, maxConcurrency, items[1..]);
      QueueOnlyAppends(env, s1, base, maxConcurrency, items[1..]);
      var q := Queue(env, s, base, maxConcurrency, items).0.queue;
      forall i | 0 <= i < |items| && Validate(env, base, maxConcurrency, items[i]).Success?
        ensures PushedAfter(q, |s.queue|, MakeEntry(Validate(env, base, maxConcurrency, items[i]).value, 1, None))
      {
        var x := MakeEntry(Validate(env, base, maxConcurrency, items[i]).value, 1, None);
        assert q == Queue(env, s1, base, maxConcurrency, items[1..]).0.queue;
        if i == 0 {
          assert q[|s.queue|] == s1.queue[|s.queue|] == x;
        } else {
          assert items[1..][i - 1] == items[i];
          var k :| |s1.queue| <= k < |q| && q[k] == x;
          assert |s.queue| <= k;
        }
      }
    }
  }

  /** Item `i` is the first one refused, with error `e`. */
  predicate FirstRefused(env: Platform, base: RequestOptions, maxConcurrency: int, items: seq<QueueItem>,
                         i: int, e: QueueError) {
    && 0 <= i < |items|
    && Validate(env, base, maxConcurrency, items[i]) == Failure(e)
    && forall j :: 0 <= j < i ==> Validate(env, base, maxConcurrency, items[j]).Success?
  }

  /** `queue` reports an error exactly when some item is refused. */
  lemma {:induction false} QueueErrorIffRefused(env: Platform, s: CrawlState, base: RequestOptions,
                                                maxConcurrency: int, items: seq<QueueItem>)
    ensures Queue(env, s, base, maxConcurrency, items).1.None? <==>
      forall i :: 0 <= i < |items| ==> Validate(env, base, maxConcurrency, items[i]).Success?
    decreases |items|
  {
    if items != [] {
      var v := Validate(env, base, maxConcurrency, items[0]);
      var s1 := if v.Success? then Push(s, v.value, 1, None) else s;
      QueueErrorIffRefused(env, s1, base, maxConcurrency, items[1..]);
      forall i | 1 <= i < |items|
        ensures Validate(env, base, maxConcurrency, items[i]) == Validate(env, base, maxConcurrency, items[1..][i - 1])
      {
      }
    }
  }

  /** The error `queue` reports is the first refused item's. */
  lemma {:induction false} QueueReportsFirstError(env: Platform, s: CrawlState, base: RequestOptions,
                                                  maxConcurrency: int, items: seq<QueueItem>)
    ensures var err := Queue(env, s, base, maxConcurrency, items).1;
      err.Some? ==> exists i :: FirstRefused(env, base, maxConcurrency, items, i, err.value)
    decreases |items|
  {
    if items != [] {
      var v := Validate(env, base, maxConcurrency, items[0]);
      var s1 := if v.Success? then Push(s, v.value, 1, None) else s;
      var err := Queue(env, s, base, maxConcurrency, items).1;
      if v.Failure? {
        assert FirstRefused(env, base, maxConcurrency, items, 0, v.error);
      } else {
        QueueReportsFirstError(env, s1, base, maxConcurrency, items[1..]);
        assert err == Queue(env, s1, base, maxConcurrency, items[1..]).1;
        if err.Some? {
          var i :| FirstRefused(env, base, maxConcurrency, items[1..], i, err.value);
          forall j | 0 <= j < i + 1 ensures Validate(env, base, maxConcurrency, items[j]).Success? {
            if j > 0 {
              assert items[j] == items[1..][j - 1];
            }
          }
          assert items[i + 1] == items[1..][i];
          assert FirstRefused(env, base, maxConcurrency, items, i + 1, err.value);
        }
      }
    }
  }

  /** One item passes validation exactly when it sets no constructor-only
      option, the merged url is non-empty, the device is known and a delay
      comes with a concurrency of 1; it is then pushed with the merged
      options and the url normalised. */
  lemma ValidateAccepts(env: Platform, base: RequestOptions, maxConcurrency: int, item: QueueItem)
    ensures var q := ItemOverrides(item);
            var merged := Overlay(base, q);
      (Validate(env, base, maxConcurrency, item).Success? <==>
         && (forall i :: 0 <= i < |CONSTRUCTOR_OPTIONS| ==> CONSTRUCTOR_OPTIONS[i] !in TruthyKeys(q))
         && merged.url != ""
         && DeviceKnown(env, merged.device)
         && !(merged.delay > 0 && Or(q.maxConcurrency, maxConcurrency) != 1))
      && (Validate(env, base, maxConcurrency, item).Success? ==>
            Validate(env, base, maxConcurrency, item).value == merged.(url := env.href(merged.url)))
  {
  }

  /** A truthy constructor-only option is refused before anything else is
      looked at, even when the url is missing too. */
  lemma ReservedOptionRefusedFirst(env: Platform, base: RequestOptions, maxConcurrency: int, q: Overrides)
    requires "exporter" in q.otherKeys
    requires forall i :: 0 <= i < 19 ==> CONSTRUCTOR_OPTIONS[i] !in TruthyKeys(q)
    ensures Validate(env, base, maxConcurrency, QueueObject(q)) == Failure(OverridingNotAllowed("exporter"))
  {
    assert CONSTRUCTOR_OPTIONS[19] == "exporter";
    FirstInPrefixAbsent(CONSTRUCTOR_OPTIONS, TruthyKeys(q), 19);
  }

  lemma {:induction false} FirstInPrefixAbsent(names: seq<string>, keys: set<string>, n: nat)
    requires n < |names| && names[n] in keys
    requires forall i :: 0 <= i < n ==> names[i] !in keys
    ensures FirstIn(names, keys) == Some(names[n])
  {
    if n > 0 {
      FirstInPrefixAbsent(names[1..], keys, n - 1);
    }
  }

  /** A zero maxConcurrency in the queued options is falsy, so it is not
      refused as an override, yet it replaces the crawler's concurrency in
      the delay check. */
  lemma ZeroConcurrencyOverridesDelayCheck(env: Platform, base: RequestOptions, u: string)
    requires u != "" && DeviceKnown(env, base.device)
    ensures var q := NoOverrides().(url := Some(u), delay := Some(5), maxConcurrency := Some(0));
      Validate(env, base, 1, QueueObject(q)) == Failure(MaxConcurrencyMustBeOne)
  {
    var q := NoOverrides().(url := Some(u), delay := Some(5), maxConcurrency := Some(0));
    assert TruthyKeys(q) == {};
    OverlayTakesSet(base, q);
    OverlayKeepsUnset(base, q);
  }

  /** A property named like none of CONSTRUCTOR_OPTIONS, such as the
      "customCrawl" hook, is not refused as an override. */
  lemma CustomCrawlNotRefused(env: Platform, base: RequestOptions, u: string)
    requires u != "" && DeviceKnown(env, base.device) && base.delay <= 0
    ensures Validate(env, base, 10, QueueObject(NoOverrides().(url := Some(u), otherKeys := {"customCrawl"}))).Success?
  {
    forall i | 0 <= i < |CONSTRUCTOR_OPTIONS|
      ensures CONSTRUCTOR_OPTIONS[i] != "customCrawl"
    {
      if |CONSTRUCTOR_OPTIONS[i]| == 11 {
        assert CONSTRUCTOR_OPTIONS[i] == "userDataDir";
        assert CONSTRUCTOR_OPTIONS[i][0] == 'u';
      }
    }
    var q := NoOverrides().(url := Some(u), otherKeys := {"customCrawl"});
    assert TruthyKeys(q) == {"customCrawl"};
    OverlayTakesSet(base, q);
    OverlayKeepsUnset(base, q);
  }

  /** The name CONSTRUCTOR_OPTIONS gives the custom-crawl hook,
      "customizeCrawl", is refused as an override. */
  lemma CustomizeCrawlRefused(env: Platform, base: RequestOptions, u: string)
    ensures Validate(env, base, 10, QueueObject(NoOverrides().(url := Some(u), otherKeys := {"customizeCrawl"})))
         == Failure(OverridingNotAllowed("customizeCrawl"))
  {
    var q2 := NoOverrides().(url := Some(u), otherKeys := {"customizeCrawl"});
    assert TruthyKeys(q2) == {"customizeCrawl"};
    forall i | 0 <= i < 24
      ensures CONSTRUCTOR_OPTIONS[i] != "customizeCrawl"
    {
      if |CONSTRUCTOR_OPTIONS[i]| == 14 {
        assert CONSTRUCTOR_OPTIONS[i] == "executablePath" || CONSTRUCTOR_OPTIONS[i] == "maxConcurrency";
        assert CONSTRUCTOR_OPTIONS[i][0] != 'c';
      }
    }
    FirstInPrefixAbsent(CONSTRUCTOR_OPTIONS, TruthyKeys(q2), 24);
  }

  /** `_push`: the priority is kept unless it is falsy and depthPriority is
      on, in which case the entry's depth takes its place. */
  lemma PushPriorityRule(o: RequestOptions, depth: int)
    ensures o.priority != 0 ==> PushPriority(o, depth) == o.priority
    ensures o.priority == 0 && o.depthPriority ==> PushPriority(o, depth) == depth
    ensures o.priority == 0 && !o.depthPriority ==> PushPriority(o, depth) == 0
  {
  }

  // ------------------------------------------------------------ duplicates

  /** After `_markRequested(o)`, `_checkRequested(o)` holds exactly when
      skipDuplicates is on; marking twice is marking once; with
      skipDuplicates off neither reads nor writes the cache. */
  lemma MarkThenCheck(env: Platform, cache: map<string, string>, o: RequestOptions)
    ensures CheckRequested(env, MarkRequested(env, cache, o), o) <==> o.skipDuplicates
    ensures MarkRequested(env, MarkRequested(env, cache, o), o) == MarkRequested(env, cache, o)
    ensures !o.skipDuplicates ==> !CheckRequested(env, cache, o) && MarkRequested(env, cache, o) == cache
  {
  }

  /** Marking never makes a truthy cache entry falsy. */
  ghost predicate CacheGrows(a: map<string, string>, b: map<string, string>) {
    forall k :: Cached(a, k) ==> Cached(b, k)
  }

  /** Marking a list of urls marks each of them and keeps all earlier marks. */
  lemma {:induction false} MarkUrlsMarksEach(env: Platform, cache: map<string, string>, o: RequestOptions,
                                             urls: seq<string>)
    ensures CacheGrows(cache, MarkUrls(env, cache, o, urls))
    ensures o.skipDuplicates ==>
      forall i :: 0 <= i < |urls| ==> CheckRequested(env, MarkUrls(env, cache, o, urls), o.(url := urls[i]))
    decreases |urls|
  {
    if urls != [] {
      var c1 := MarkRequested(env, cache, o.(url := urls[0]));
      var c := MarkUrls(env, c1, o, urls[1..]);
      assert MarkUrls(env, cache, o, urls) == c;
      MarkUrlsMarksEach(env, c1, o, urls[1..]);
      if o.skipDuplicates {
        assert Cached(c1, Key(env, o.(url := urls[0])));
        forall i | 0 <= i < |urls| ensures Cached(c, Key(env, o.(url := urls[i]))) {
          if i > 0 {
            assert urls[1..][i - 1] == urls[i];
          }
        }
      }
    }
  }

  /** The fingerprint reads url, device, userAgent and extraHeaders only:
      options that agree on those share a key, however the other options
      differ. */
  lemma KeyDependsOnlyOnIdentity(env: Platform, a: RequestOptions, b: RequestOptions)
    requires a.url == b.url && a.device == b.device && a.userAgent == b.userAgent
    requires a.extraHeaders == b.extraHeaders
    ensures Key(env, a) == Key(env, b)
  {
    var ja, jb := OptionsJson(a), OptionsJson(b);
    forall f | f in Fingerprint.PICKED_OPTION_FIELDS
      ensures Fingerprint.SameField(Fingerprint.Get(ja, f), Fingerprint.Get(jb, f))
    {
      GetFromOptions(a, f);
      GetFromOptions(b, f);
      assert FieldJson(a, f) == FieldJson(b, f);
      SameFieldReflexive(FieldJson(a, f));
    }
    Fingerprint.GenerateKeyDependsOnlyOnPickedFields(ja, jb, env.hash);
  }

  lemma SameFieldReflexive(x: Option<Fingerprint.Json>)
    ensures Fingerprint.SameField(x, x)
  {
  }

  predicate DistinctNames(hs: seq<Header>) {
    forall i, j :: 0 <= i < j < |hs| ==> hs[i].name != hs[j].name
  }

  /** Headers given in another order, with no name repeated, leave the key
      unchanged. */
  lemma KeyIgnoresHeaderOrder(env: Platform, a: RequestOptions, hs: seq<Header>)
    requires a.extraHeaders.Some?
    requires DistinctNames(a.extraHeaders.value) && DistinctNames(hs)
    requires forall h :: h in hs <==> h in a.extraHeaders.value
    ensures Key(env, a) == Key(env, a.(extraHeaders := Some(hs)))
  {
    var b := a.(extraHeaders := Some(hs));
    var ma, mb := HeaderMembers(a.extraHeaders.value), HeaderMembers(hs);
    SameHeaderMembers(a.extraHeaders.value, hs);
    Fingerprint.CanonicalIgnoresKeyOrder(ma, mb);
    HeadersOnlyDiffer(a, b);
    Fingerprint.GenerateKeyDependsOnlyOnPickedFields(OptionsJson(a), OptionsJson(b), env.hash);
  }

  /** Options that differ only in headers with the same canonical form agree
      on every picked field. */
  lemma HeadersOnlyDiffer(a: RequestOptions, b: RequestOptions)
    requires a.url == b.url && a.device == b.device && a.userAgent == b.userAgent
    requires a.extraHeaders.Some? && b.extraHeaders.Some?
    requires Fingerprint.Canonical(Fingerprint.JObject(HeaderMembers(a.extraHeaders.value)))
          == Fingerprint.Canonical(Fingerprint.JObject(HeaderMembers(b.extraHeaders.value)))
    ensures forall f :: f in Fingerprint.PICKED_OPTION_FIELDS ==>
      Fingerprint.SameField(Fingerprint.Get(OptionsJson(a), f), Fingerprint.Get(OptionsJson(b), f))
  {
    forall f | f in Fingerprint.PICKED_OPTION_FIELDS
      ensures Fingerprint.SameField(Fingerprint.Get(OptionsJson(a), f), Fingerprint.Get(OptionsJson(b), f))
    {
      if f == "extraHeaders" {
        GetFromOptions(a, f);
        GetFromOptions(b, f);
      } else {
        IdentityFieldSame(a, b, f);
      }
    }
  }

  /** Options with the same url, device and user agent agree on those three
      picked fields. */
  lemma IdentityFieldSame(a: RequestOptions, b: RequestOptions, f: string)
    requires a.url == b.url && a.device == b.device && a.userAgent == b.userAgent
    requires f in Fingerprint.PICKED_OPTION_FIELDS && f != "extraHeaders"
    ensures Fingerprint.SameField(Fingerprint.Get(OptionsJson(a), f), Fingerprint.Get(OptionsJson(b), f))
  {
    GetFromOptions(a, f);
    GetFromOptions(b, f);
    assert FieldJson(a, f) == FieldJson(b, f);
    SameFieldReflexive(FieldJson(a, f));
  }

  lemma SameHeaderMembers(ha: seq<Header>, hb: seq<Header>)
    requires DistinctNames(ha) && DistinctNames(hb)
    requires forall h :: h in hb <==> h in ha
    ensures Fingerprint.SameMembers(HeaderMembers(ha), HeaderMembers(hb))
  {
    var ma, mb := HeaderMembers(ha), HeaderMembers(hb);
    forall x ensures x in ma <==> x in mb {
      if x in ma {
        var i :| 0 <= i < |ma| && ma[i] == x;
        assert ha[i] in hb;
        var j :| 0 <= j < |hb| && hb[j] == ha[i];
        assert mb[j] == x;
      }
      if x in mb {
        var i :| 0 <= i < |mb| && mb[i] == x;
        assert hb[i] in ha;
        var j :| 0 <= j < |ha| && ha[j] == hb[i];
        assert ma[j] == x;
      }
    }
  }

  /** The value generateKey's `pick` finds for one of its four fields. */
  function FieldJson(o: RequestOptions, f: string): Option<Fingerprint.Json> {
    if f == "url" then Some(Fingerprint.JString(o.url))
    else if f == "device" then StringJson(o.device)
    else if f == "userAgent" then StringJson(o.userAgent)
    else HeadersJson(o.extraHeaders)
  }

  lemma GetFromOptions(o: RequestOptions, f: string)
    requires f in Fingerprint.PICKED_OPTION_FIELDS
    ensures Fingerprint.Get(OptionsJson(o), f) == FieldJson(o, f)
  {
    var u := Present("url", Some(Fingerprint.JString(o.url)));
    var d := Present("device", StringJson(o.device));
    var a := Present("userAgent", StringJson(o.userAgent));
    var h := Present("extraHeaders", HeadersJson(o.extraHeaders));
    PolicyHasNoIdentityKey(o, f);
    GetConcat(u + d + a + h, PolicyJson(o), f);
    GetConcat(u + d + a, h, f);
    GetConcat(u + d, a, f);
    GetConcat(u, d, f);
    GetPresent("url", Some(Fingerprint.JString(o.url)), f);
    GetPresent("device", StringJson(o.device), f);
    GetPresent("userAgent", StringJson(o.userAgent), f);
    GetPresent("extraHeaders", HeadersJson(o.extraHeaders), f);
  }

  lemma GetPresent(key: string, value: Option<Fingerprint.Json>, k: string)
    ensures Fingerprint.Get(Present(key, value), k) == if key == k then value else None
  {
  }

  lemma PolicyHasNoIdentityKey(o: RequestOptions, f: string)
    requires f in Fingerprint.PICKED_OPTION_FIELDS
    ensures Fingerprint.Get(PolicyJson(o), f) == None
  {
    assert |f| in {3, 6, 9, 12};
    var p := PolicyJson(o);
    forall i | 0 <= i < |p| ensures |p[i].key| !in {3, 6, 9, 12} {
    }
  }

  lemma {:induction false} GetConcat(a: seq<Fingerprint.Member>, b: seq<Fingerprint.Member>, k: string)
    ensures Fingerprint.Get(a + b, k)
         == if Fingerprint.Get(a, k).Some? then Fingerprint.Get(a, k) else Fingerprint.Get(b, k)
  {
    if a == [] {
      assert a + b == b;
    } else {
      assert (a + b)[0] == a[0] && (a + b)[1..] == a[1..] + b;
      GetConcat(a[1..], b, k);
    }
  }

  // -------------------------------------------------------------- skipping

  /** `_checkAllowedDomains` in terms of list membership: the host must not
      be denied, and must be allowed when an allow-list is given (an empty
      one allows nothing). */
  lemma AllowedDomainsMeaning(env: Platform, o: RequestOptions)
    ensures var host := env.hostname(o.url);
      CheckAllowedDomains(env, o) <==>
        && !(o.deniedDomains.Some? && host.Some? &&
             exists i :: 0 <= i < |o.deniedDomains.value| && o.deniedDomains.value[i] == host.value)
        && (o.allowedDomains.Some? ==>
              (host.Some? && exists i :: 0 <= i < |o.allowedDomains.value| && o.allowedDomains.value[i] == host.value))
    ensures o.allowedDomains == Some([]) ==> !CheckAllowedDomains(env, o)
  {
  }

  /** `_skipRequest` skips exactly when one of its three checks says so, and
      the preRequest hook is not consulted once the domain or duplicate
      check has decided: any hook gives the same answer. */
  lemma SkipRequestMeaning(env: Platform, cache: map<string, string>, o: RequestOptions,
                           hook: Option<RequestOptions -> bool>)
    ensures SkipRequest(env, cache, o) <==>
      !CheckAllowedDomains(env, o) || CheckRequested(env, cache, o) || !ShouldRequest(env, o)
    ensures !CheckAllowedDomains(env, o) || CheckRequested(env, cache, o) ==>
      SkipRequest(env.(preRequest := hook), cache, o)
  {
    assert Key(env.(preRequest := hook), o) == Key(env, o);
  }

  // ----------------------------------------------------- robots and sitemaps

  /** `_getRobot` caches: on a miss the text (or "" after a failed fetch) is
      stored under the robots.txt url and handed to the parser; a truthy
      cached text is used without fetching, so a second call, whatever the
      network then answers, changes nothing and yields the same text. */
  lemma RobotsTxtCached(env: Platform, s: CrawlState, o: RequestOptions, ctx: ErrorContext,
                        fetch: string -> Option<string>, later: string -> Option<string>)
    ensures var r := GetRobot(env, s, o, ctx, fetch);
            var robotsUrl := env.robotsUrl(o.url);
      && robotsUrl in r.0.cache && r.0.cache[robotsUrl] == r.1
      && (!Cached(s.cache, robotsUrl) ==> r.1 == (if fetch(robotsUrl).Some? then fetch(robotsUrl).value else ""))
      && (r.1 != "" ==> GetRobot(env, r.0, o, ctx, later) == (r.0, r.1))
  {
  }

  /** A robots.txt stored as "" (empty, or a failed fetch) is falsy, so the
      next call fetches it again. */
  lemma EmptyRobotsTxtRefetched(env: Platform, s: CrawlState, o: RequestOptions, ctx: ErrorContext,
                                later: string -> Option<string>)
    requires s.cache[env.robotsUrl(o.url) := ""] == s.cache
    ensures GetRobot(env, s, o, ctx, later).1
         == if later(env.robotsUrl(o.url)).Some? then later(env.robotsUrl(o.url)).value else ""
  {
    assert env.robotsUrl(o.url) in s.cache && s.cache[env.robotsUrl(o.url)] == "";
  }

  /** `_getSitemapXml` stores the marker "1" after the first visit, fetch
      or not, so revisiting that sitemap fetches nothing and pushes no url. */
  lemma SitemapVisitedOnce(s: CrawlState, sitemapUrl: string, o: RequestOptions, ctx: ErrorContext,
                           fetch: string -> Option<string>, later: string -> Option<string>)
    ensures var r := GetSitemapXml(s, sitemapUrl, ctx, fetch);
      && Cached(r.0.cache, sitemapUrl)
      && (!Cached(s.cache, sitemapUrl) ==> r.0.cache[sitemapUrl] == "1")
      && (!Cached(s.cache, sitemapUrl) ==> FollowSitemaps(r.0, [sitemapUrl], o, ctx, later) == r.0)
  {
    var r := GetSitemapXml(s, sitemapUrl, ctx, fetch);
    if !Cached(s.cache, sitemapUrl) {
      Helper.EmptyAndMarkerYieldNoUrls();
      assert GetSitemapXml(r.0, sitemapUrl, ctx, later) == (r.0, "1");
    }
  }

  /** The entries a copy-per-url push adds: all at `depth`, all from
      `o.url`, each `o` with another url. */
  predicate EntriesFrom(q: seq<Entry>, o: RequestOptions, depth: int, previousUrl: Option<string>) {
    forall i :: 0 <= i < |q| ==>
      q[i] == MakeEntry(o.(url := q[i].options.url), depth, previousUrl)
  }

  lemma {:induction false} PushUrlsAppends(s: CrawlState, urls: seq<string>, o: RequestOptions, depth: int)
    ensures var r := PushUrls(s, urls, o, depth);
      && s.queue <= r.queue && |r.queue| == |s.queue| + |urls|
      && forall i :: 0 <= i < |urls| ==> r.queue[|s.queue| + i] == MakeEntry(o.(url := urls[i]), depth, Some(o.url))
    decreases |urls|
  {
    if urls != [] {
      var s1 := Push(s, o.(url := urls[0]), depth, Some(o.url));
      PushUrlsAppends(s1, urls[1..], o, depth);
      var r := PushUrls(s, urls, o, depth);
      forall i | 0 <= i < |urls|
        ensures r.queue[|s.queue| + i] == MakeEntry(o.(url := urls[i]), depth, Some(o.url))
      {
        if i > 0 {
          assert urls[1..][i - 1] == urls[i];
          assert r.queue[|s1.queue| + (i - 1)] == MakeEntry(o.(url := urls[i]), depth, Some(o.url));
        }
      }
    }
  }

  /** Fetching a sitemap only records it in the cache and may report a
      failure. */
  lemma GetSitemapXmlUncounted(s: CrawlState, sitemapUrl: string, ctx: ErrorContext,
                               fetch: string -> Option<string>)
    ensures var r := GetSitemapXml(s, sitemapUrl, ctx, fetch).0;
      Uncounted(s, r) && r.queue == s.queue
  {
  }

  /** Following the sitemaps touches neither the counter nor the pause flag
      nor the delivered results. */
  lemma {:induction false} FollowSitemapsUncounted(s: CrawlState, sitemapUrls: seq<string>, o: RequestOptions,
                                                   ctx: ErrorContext, fetch: string -> Option<string>)
    ensures Uncounted(s, FollowSitemaps(s, sitemapUrls, o, ctx, fetch))
    decreases |sitemapUrls|
  {
    if sitemapUrls != [] {
      var (s1, xml) := GetSitemapXml(s, sitemapUrls[0], ctx, fetch);
      var s2 := PushUrls(s1, Helper.SitemapLocs(xml, 0), o, ctx.depth);
      GetSitemapXmlUncounted(s, sitemapUrls[0], ctx, fetch);
      PushUrlsAppends(s1, Helper.SitemapLocs(xml, 0), o, ctx.depth);
      assert Uncounted(s1, s2);
      UncountedTransitive(s, s1, s2);
      FollowSitemapsUncounted(s2, sitemapUrls[1..], o, ctx, fetch);
      UncountedTransitive(s, s2, FollowSitemaps(s, sitemapUrls, o, ctx, fetch));
    }
  }

  /** Entries from `o` appended in two steps are entries from `o`. */
  lemma EntriesFromSteps(a: seq<Entry>, b: seq<Entry>, c: seq<Entry>, o: RequestOptions, depth: int,
                         previousUrl: Option<string>)
    requires a <= b <= c
    requires EntriesFrom(b[|a|..], o, depth, previousUrl) && EntriesFrom(c[|b|..], o, depth, previousUrl)
    ensures EntriesFrom(c[|a|..], o, depth, previousUrl)
  {
    forall i | 0 <= i < |c| - |a|
      ensures c[|a|..][i] == MakeEntry(o.(url := c[|a|..][i].options.url), depth, previousUrl)
    {
      if |a| + i < |b| {
        assert c[|a|..][i] == b[|a|..][i];
      } else {
        assert c[|a|..][i] == c[|b|..][|a| + i - |b|];
      }
    }
  }

  /** Sitemap urls are pushed at the entry's own depth, coming from its url. */
  lemma {:induction false} FollowSitemapsPushes(s: CrawlState, sitemapUrls: seq<string>, o: RequestOptions,
                                                ctx: ErrorContext, fetch: string -> Option<string>)
    ensures var r := FollowSitemaps(s, sitemapUrls, o, ctx, fetch);
      && s.queue <= r.queue
      && EntriesFrom(r.queue[|s.queue|..], o, ctx.depth, Some(o.url))
    decreases |sitemapUrls|
  {
    if sitemapUrls == [] {
      assert s.queue[|s.queue|..] == [];
    } else {
      var (s1, xml) := GetSitemapXml(s, sitemapUrls[0], ctx, fetch);
      var urls := Helper.SitemapLocs(xml, 0);
      var s2 := PushUrls(s1, urls, o, ctx.depth);
      GetSitemapXmlUncounted(s, sitemapUrls[0], ctx, fetch);
      PushUrlsAppends(s1, urls, o, ctx.depth);
      assert EntriesFrom(s2.queue[|s.queue|..], o, ctx.depth, Some(o.url)) by {
        forall i | 0 <= i < |s2.queue| - |s.queue|
          ensures s2.queue[|s.queue|..][i] == MakeEntry(o.(url := s2.queue[|s.queue|..][i].options.url), ctx.depth, Some(o.url))
        {
          assert s1.queue == s.queue;
          assert s2.queue[|s.queue|..][i] == s2.queue[|s1.queue| + i];
          assert s2.queue[|s1.queue| + i] == MakeEntry(o.(url := urls[i]), ctx.depth, Some(o.url));
          assert s2.queue[|s1.queue| + i].options.url == urls[i];
        }
      }
      FollowSitemapsPushes(s2, sitemapUrls[1..], o, ctx, fetch);
      var r := FollowSitemaps(s, sitemapUrls, o, ctx, fetch);
      assert r == FollowSitemaps(s2, sitemapUrls[1..], o, ctx, fetch);
      EntriesFromSteps(s.queue, s2.queue, r.queue, o, ctx.depth, Some(o.url));
    }
  }

  /** `_followSitemap` does nothing unless followSitemapXml is on, and then
      only pushes copies of the entry at its depth. */
  lemma FollowSitemapPushes(env: Platform, s: CrawlState, o: RequestOptions, ctx: ErrorContext,
                            fetch: string -> Option<string>)
    ensures var r := FollowSitemap(env, s, o, ctx, fetch);
      && Uncounted(s, r)
      && EntriesFrom(r.queue[|s.queue|..], o, ctx.depth, Some(o.url))
      && (!o.followSitemapXml ==> r == s)
  {
    if o.followSitemapXml {
      var (s1, txt) := GetRobot(env, s, o, ctx, fetch);
      GetRobotUncounted(env, s, o, ctx, fetch);
      FollowSitemapsUncounted(s1, env.sitemaps(env.robotsUrl(o.url), txt), o, ctx, fetch);
      FollowSitemapsPushes(s1, env.sitemaps(env.robotsUrl(o.url), txt), o, ctx, fetch);
      UncountedTransitive(s, s1, FollowSitemap(env, s, o, ctx, fetch));
    } else {
      assert s.queue[|s.queue|..] == [];
    }
  }

  // ----------------------------------------------------------------- frames

  /** `b` is `a` after steps that only add: entries, events and results are
      appended, truthy cache entries stay truthy, and the counter, the pause
      flag and maxRequest are as they were. */
  ghost predicate Uncounted(a: CrawlState, b: CrawlState) {
    && a.queue <= b.queue
    && a.events <= b.events
    && a.delivered <= b.delivered
    && CacheGrows(a.cache, b.cache)
    && b.requestedCount == a.requestedCount
    && b.paused == a.paused
    && b.maxRequest == a.maxRequest
  }

  lemma UncountedTransitive(a: CrawlState, b: CrawlState, c: CrawlState)
    requires Uncounted(a, b) && Uncounted(b, c)
    ensures Uncounted(a, c)
  {
  }

  lemma GetRobotUncounted(env: Platform, s: CrawlState, o: RequestOptions, ctx: ErrorContext,
                          fetch: string -> Option<string>)
    ensures var r := GetRobot(env, s, o, ctx, fetch);
      Uncounted(s, r.0) && r.0.queue == s.queue && r.0.delivered == s.delivered
  {
  }

  lemma CheckAllowedRobotsUncounted(env: Platform, s: CrawlState, o: RequestOptions, ctx: ErrorContext,
                                    fetch: string -> Option<string>)
    ensures var r := CheckAllowedRobots(env, s, o, ctx, fetch);
      Uncounted(s, r.0) && r.0.queue == s.queue && r.0.delivered == s.delivered
  {
    if o.obeyRobotsTxt {
      GetRobotUncounted(env, s, o, ctx, fetch);
    }
  }
}
