/**
 * The request life cycle of HCCrawler (lib/hccrawler.ts) as pure functions
 * from one crawler state to the next. The class in hccrawler.dfy performs
 * the same steps in place and is proved to agree with these functions;
 * crawl_props.dfy proves what the steps promise.
 *
 * Everything the crawler consults but does not own is a parameter: the
 * `Platform` (URL parsing, the hash, the device table, the robots.txt
 * parser, the preRequest hook), a `fetch` function standing for the HTTP
 * requests of one entry, and an `attempt` function standing for the browser
 * crawl of each attempt.
 */
module CrawlModel {
  import opened Wrappers
  import Helper
  import Fingerprint

  // ------------------------------------------------------------- options

  datatype Header = Header(name: string, value: string)

  /** The options one request is made with, after merging. A JS value that
      may be absent is an Option; `Some("")` is present but falsy. */
  datatype RequestOptions = RequestOptions(
    url: string,
    device: Option<string>,
    userAgent: Option<string>,
    extraHeaders: Option<seq<Header>>,
    maxDepth: int,
    priority: int,
    depthPriority: bool,
    skipDuplicates: bool,
    skipRequestedRedirect: bool,
    obeyRobotsTxt: bool,
    followSitemapXml: bool,
    allowedDomains: Option<seq<string>>,
    deniedDomains: Option<seq<string>>,
    delay: int,
    retryCount: int,
    retryDelay: int,
    timeout: int)

  /** The request-level part of `defaultOptions`; url is absent (""). */
  function DefaultOptions(): (o: RequestOptions)
    ensures o.maxDepth == 1 && o.priority == 0 && o.delay == 0
    ensures o.retryCount == 3 && o.retryDelay == 10000 && o.timeout == 30000
    ensures o.skipDuplicates && o.depthPriority && o.obeyRobotsTxt
    ensures !o.followSitemapXml && !o.skipRequestedRedirect
  {
    RequestOptions("", None, None, None, 1, 0, true, true, false, true, false,
                   None, None, 0, 3, 10000, 30000)
  }

  const DEFAULT_MAX_CONCURRENCY: int := 10
  const DEFAULT_MAX_REQUEST: int := 0

  /** The properties an options object passed to `queue` (or to the
      constructor) sets. `otherKeys` names every further property given a
      truthy value, such as "exporter" or "preRequest". */
  datatype Overrides = Overrides(
    url: Option<string>,
    device: Option<string>,
    userAgent: Option<string>,
    extraHeaders: Option<seq<Header>>,
    maxDepth: Option<int>,
    priority: Option<int>,
    depthPriority: Option<bool>,
    skipDuplicates: Option<bool>,
    skipRequestedRedirect: Option<bool>,
    obeyRobotsTxt: Option<bool>,
    followSitemapXml: Option<bool>,
    allowedDomains: Option<seq<string>>,
    deniedDomains: Option<seq<string>>,
    delay: Option<int>,
    retryCount: Option<int>,
    retryDelay: Option<int>,
    timeout: Option<int>,
    maxConcurrency: Option<int>,
    otherKeys: set<string>)

  function NoOverrides(): Overrides {
    Overrides(None, None, None, None, None, None, None, None, None, None, None,
              None, None, None, None, None, None, None, {})
  }

  function Or<T>(x: Option<T>, dflt: T): T {
    if x.Some? then x.value else dflt
  }

  /** lodash `extend(base, q)` restricted to the request options: every
      property `q` sets replaces the one in `base`. */
  function Overlay(base: RequestOptions, q: Overrides): (o: RequestOptions)
    ensures q == NoOverrides() ==> o == base
    ensures q.url.Some? ==> o.url == q.url.value
    ensures q.url.None? ==> o.url == base.url
  {
    RequestOptions(
      Or(q.url, base.url),
      if q.device.Some? then q.device else base.device,
      if q.userAgent.Some? then q.userAgent else base.userAgent,
      if q.extraHeaders.Some? then q.extraHeaders else base.extraHeaders,
      Or(q.maxDepth, base.maxDepth),
      Or(q.priority, base.priority),
      Or(q.depthPriority, base.depthPriority),
      Or(q.skipDuplicates, base.skipDuplicates),
      Or(q.skipRequestedRedirect, base.skipRequestedRedirect),
      Or(q.obeyRobotsTxt, base.obeyRobotsTxt),
      Or(q.followSitemapXml, base.followSitemapXml),
      if q.allowedDomains.Some? then q.allowedDomains else base.allowedDomains,
      if q.deniedDomains.Some? then q.deniedDomains else base.deniedDomains,
      Or(q.delay, base.delay),
      Or(q.retryCount, base.retryCount),
      Or(q.retryDelay, base.retryDelay),
      Or(q.timeout, base.timeout))
  }

  /** Every property the queued object sets is taken from it. */
  lemma OverlayTakesSet(base: RequestOptions, q: Overrides)
    ensures q.url.Some? ==> Overlay(base, q).url == q.url.value
    ensures q.device.Some? ==> Overlay(base, q).device == q.device
    ensures q.userAgent.Some? ==> Overlay(base, q).userAgent == q.userAgent
    ensures q.extraHeaders.Some? ==> Overlay(base, q).extraHeaders == q.extraHeaders
    ensures q.maxDepth.Some? ==> Overlay(base, q).maxDepth == q.maxDepth.value
    ensures q.priority.Some? ==> Overlay(base, q).priority == q.priority.value
    ensures q.depthPriority.Some? ==> Overlay(base, q).depthPriority == q.depthPriority.value
    ensures q.skipDuplicates.Some? ==> Overlay(base, q).skipDuplicates == q.skipDuplicates.value
    ensures q.skipRequestedRedirect.Some? ==> Overlay(base, q).skipRequestedRedirect == q.skipRequestedRedirect.value
    ensures q.obeyRobotsTxt.Some? ==> Overlay(base, q).obeyRobotsTxt == q.obeyRobotsTxt.value
    ensures q.followSitemapXml.Some? ==> Overlay(base, q).followSitemapXml == q.followSitemapXml.value
    ensures q.allowedDomains.Some? ==> Overlay(base, q).allowedDomains == q.allowedDomains
    ensures q.deniedDomains.Some? ==> Overlay(base, q).deniedDomains == q.deniedDomains
    ensures q.delay.Some? ==> Overlay(base, q).delay == q.delay.value
    ensures q.retryCount.Some? ==> Overlay(base, q).retryCount == q.retryCount.value
    ensures q.retryDelay.Some? ==> Overlay(base, q).retryDelay == q.retryDelay.value
    ensures q.timeout.Some? ==> Overlay(base, q).timeout == q.timeout.value
  {
  }

  /** Every property the queued object leaves unset keeps the base value. */
  lemma OverlayKeepsUnset(base: RequestOptions, q: Overrides)
    ensures q.url.None? ==> Overlay(base, q).url == base.url
    ensures q.device.None? ==> Overlay(base, q).device == base.device
    ensures q.userAgent.None? ==> Overlay(base, q).userAgent == base.userAgent
    ensures q.extraHeaders.None? ==> Overlay(base, q).extraHeaders == base.extraHeaders
    ensures q.maxDepth.None? ==> Overlay(base, q).maxDepth == base.maxDepth
    ensures q.priority.None? ==> Overlay(base, q).priority == base.priority
    ensures q.depthPriority.None? ==> Overlay(base, q).depthPriority == base.depthPriority
    ensures q.skipDuplicates.None? ==> Overlay(base, q).skipDuplicates == base.skipDuplicates
    ensures q.skipRequestedRedirect.None? ==> Overlay(base, q).skipRequestedRedirect == base.skipRequestedRedirect
    ensures q.obeyRobotsTxt.None? ==> Overlay(base, q).obeyRobotsTxt == base.obeyRobotsTxt
    ensures q.followSitemapXml.None? ==> Overlay(base, q).followSitemapXml == base.followSitemapXml
    ensures q.allowedDomains.None? ==> Overlay(base, q).allowedDomains == base.allowedDomains
    ensures q.deniedDomains.None? ==> Overlay(base, q).deniedDomains == base.deniedDomains
    ensures q.delay.None? ==> Overlay(base, q).delay == base.delay
    ensures q.retryCount.None? ==> Overlay(base, q).retryCount == base.retryCount
    ensures q.retryDelay.None? ==> Overlay(base, q).retryDelay == base.retryDelay
    ensures q.timeout.None? ==> Overlay(base, q).timeout == base.timeout
  {
  }

  /** CONSTRUCTOR_OPTIONS in source order: the connect options, the launch
      options, then the crawler's own. "ignoreHTTPSErrors" and "slowMo"
      appear twice, and the custom-crawl hook is listed as "customizeCrawl". */
  const CONSTRUCTOR_OPTIONS: seq<string> := [
    "browserWSEndpoint", "ignoreHTTPSErrors", "slowMo",
    "ignoreHTTPSErrors", "headless", "executablePath", "slowMo", "args",
    "ignoreDefaultArgs", "handleSIGINT", "handleSIGTERM", "handleSIGHUP",
    "dumpio", "userDataDir", "env", "devtools",
    "maxConcurrency", "maxRequest", "cache", "exporter", "persistCache",
    "preRequest", "onSuccess", "onError", "customizeCrawl"]

  /** The properties of `q` with a truthy value. */
  function TruthyKeys(q: Overrides): set<string> {
    q.otherKeys + (if q.maxConcurrency.Some? && q.maxConcurrency.value != 0 then {"maxConcurrency"} else {})
  }

  /** The first name of `names` that `keys` holds. */
  function FirstIn(names: seq<string>, keys: set<string>): (r: Option<string>)
    ensures r.Some? ==> r.value in keys && r.value in names
    ensures r.None? <==> forall i :: 0 <= i < |names| ==> names[i] !in keys
  {
    if names == [] then None
    else if names[0] in keys then Some(names[0])
    else FirstIn(names[1..], keys)
  }

  // ------------------------------------------------------------- platform

  /** Foreign code the crawler calls, as functions. */
  datatype Platform = Platform(
    hostname: string -> Option<string>,   // url.parse(u).hostname
    href: string -> string,               // url.parse(u).href
    robotsUrl: string -> string,          // getRobotsUrl(u)
    hash: string -> string,               // the MD5 hex digest
    devices: map<string, string>,         // device name to its user agent
    browserUserAgent: string,             // the browser's own user agent
    isAllowed: (string, string, string, string) -> bool,
                                          // robotsParser(robotsUrl, txt).isAllowed(url, ua)
    sitemaps: (string, string) -> seq<string>,
                                          // robotsParser(robotsUrl, txt).getSitemaps()
    preRequest: Option<RequestOptions -> bool>)

  // ----------------------------------------------------------------- queue

  datatype QueueItem = QueueUrl(url: string) | QueueObject(q: Overrides) | QueueNull

  datatype QueueError =
    | OverridingNotAllowed(option: string)
    | UrlMustBeDefined
    | DeviceNotSupported
    | MaxConcurrencyMustBeOne

  /** A string is shorthand for `{ url }`; null sets nothing. */
  function ItemOverrides(item: QueueItem): Overrides {
    match item
    case QueueUrl(u) => NoOverrides().(url := Some(u))
    case QueueObject(q) => q
    case QueueNull => NoOverrides()
  }

  predicate DeviceKnown(env: Platform, device: Option<string>) {
    device.None? || device.value == "" || device.value in env.devices
  }

  /** The checks `queue` makes on one item, in source order, and the
      options it pushes: the merge of the crawler's options and the item,
      with the url normalised by url.parse. */
  function Validate(env: Platform, base: RequestOptions, maxConcurrency: int, item: QueueItem)
    : (r: Result<RequestOptions, QueueError>)
    ensures r.Failure? && r.error.OverridingNotAllowed? ==>
      r.error.option in CONSTRUCTOR_OPTIONS && r.error.option in TruthyKeys(ItemOverrides(item))
    ensures r.Success? ==>
      forall i :: 0 <= i < |CONSTRUCTOR_OPTIONS| ==> CONSTRUCTOR_OPTIONS[i] !in TruthyKeys(ItemOverrides(item))
    ensures r.Success? ==> Overlay(base, ItemOverrides(item)).url != "" && DeviceKnown(env, r.value.device)
    ensures r.Success? ==> r.value.delay <= 0 || Or(ItemOverrides(item).maxConcurrency, maxConcurrency) == 1
    ensures r.Success? ==>
      r.value == Overlay(base, ItemOverrides(item)).(url := env.href(Overlay(base, ItemOverrides(item)).url))
  {
    var q := ItemOverrides(item);
    var reserved := FirstIn(CONSTRUCTOR_OPTIONS, TruthyKeys(q));
    var merged := Overlay(base, q);
    var concurrency := Or(q.maxConcurrency, maxConcurrency);
    if reserved.Some? then Failure(OverridingNotAllowed(reserved.value))
    else if merged.url == "" then Failure(UrlMustBeDefined)
    else if !DeviceKnown(env, merged.device) then Failure(DeviceNotSupported)
    else if merged.delay > 0 && concurrency != 1 then Failure(MaxConcurrencyMustBeOne)
    else Success(merged.(url := env.href(merged.url)))
  }

  // ----------------------------------------------------------------- state

  datatype Entry = Entry(options: RequestOptions, depth: int, previousUrl: Option<string>, priority: int)

  /** What the source attaches to an error before emitting it. */
  datatype ErrorContext = ErrorContext(options: RequestOptions, depth: int, previousUrl: Option<string>)

  datatype Event =
    | RequestStarted(options: RequestOptions)
    | RequestSkipped(options: RequestOptions)
    | RequestDisallowed(options: RequestOptions)
    | RequestFinished(options: RequestOptions)
    | RequestRetried(options: RequestOptions)
    | RequestFailed(context: ErrorContext)
    | RobotsTxtRequestFailed(context: ErrorContext)
    | SitemapXmlRequestFailed(context: ErrorContext)
    | MaxDepthReached
    | MaxRequestReached

  /** What one successful crawl of a page yields. */
  datatype PageResult = PageResult(links: seq<string>, responseUrl: string, redirectChain: seq<string>)

  datatype Attempt = AttemptFailed | AttemptSucceeded(result: PageResult)

  /**
   * The crawler's mutable state: the cache's key/value store, the entries
   * pushed onto the priority queue in push order, the queue's paused flag,
   * the request counter, `_options.maxRequest`, the events emitted, and the
   * results handed to the exporter and onSuccess.
   */
  datatype CrawlState = CrawlState(
    cache: map<string, string>,
    queue: seq<Entry>,
    paused: bool,
    requestedCount: nat,
    maxRequest: int,
    events: seq<Event>,
    delivered: seq<PageResult>)

  function Emit(s: CrawlState, e: Event): CrawlState {
    s.(events := s.events + [e])
  }

  // ------------------------------------------------------------------ push

  /** `_push`: a falsy priority defers to the depth when depthPriority is on. */
  function PushPriority(o: RequestOptions, depth: int): (p: int)
    ensures o.priority != 0 ==> p == o.priority
    ensures o.priority == 0 && o.depthPriority ==> p == depth
    ensures o.priority == 0 && !o.depthPriority ==> p == 0
  {
    if o.priority == 0 && o.depthPriority then depth else o.priority
  }

  function MakeEntry(o: RequestOptions, depth: int, previousUrl: Option<string>): Entry {
    Entry(o, depth, previousUrl, PushPriority(o, depth))
  }

  function Push(s: CrawlState, o: RequestOptions, depth: int, previousUrl: Option<string>): (r: CrawlState)
    ensures r.queue == s.queue + [MakeEntry(o, depth, previousUrl)]
    ensures r.(queue := s.queue) == s
  {
    s.(queue := s.queue + [MakeEntry(o, depth, previousUrl)])
  }

  /** `queue(items)`: each item is validated; every valid one is pushed at
      depth 1 with no previous url, and the first failure is reported. */
  function Queue(env: Platform, s: CrawlState, base: RequestOptions, maxConcurrency: int,
                 items: seq<QueueItem>): (r: (CrawlState, Option<QueueError>))
    ensures |r.0.queue| <= |s.queue| + |items|
    ensures r.1.Some? ==> exists i :: 0 <= i < |items| && Validate(env, base, maxConcurrency, items[i]) == Failure(r.1.value)
    decreases |items|
  {
    if items == [] then (s, None)
    else
      var v := Validate(env, base, maxConcurrency, items[0]);
      var s1 := if v.Success? then Push(s, v.value, 1, None) else s;
      var rest := Queue(env, s1, base, maxConcurrency, items[1..]);
      assert rest.1.Some? ==> exists i :: 0 <= i < |items| && Validate(env, base, maxConcurrency, items[i]) == Failure(rest.1.value) by {
        if rest.1.Some? {
          var i :| 0 <= i < |items[1..]| && Validate(env, base, maxConcurrency, items[1..][i]) == Failure(rest.1.value);
          assert items[1..][i] == items[i + 1];
        }
      }
      (rest.0, if v.Failure? then Some(v.error) else rest.1)
  }

  // ------------------------------------------------------------ duplicates

  /** The options as the object generateKey receives. */
  function OptionsJson(o: RequestOptions): seq<Fingerprint.Member> {
    IdentityJson(o) + PolicyJson(o)
  }

  function HeaderMembers(hs: seq<Header>): (r: seq<Fingerprint.Member>)
    ensures |r| == |hs|
    ensures forall i :: 0 <= i < |hs| ==> r[i] == Fingerprint.Member(hs[i].name, Fingerprint.JString(hs[i].value))
  {
    if hs == [] then []
    else [Fingerprint.Member(hs[0].name, Fingerprint.JString(hs[0].value))] + HeaderMembers(hs[1..])
  }

  function StringList(xs: seq<string>): (r: seq<Fingerprint.Json>)
    ensures |r| == |xs|
    ensures forall i :: 0 <= i < |xs| ==> r[i] == Fingerprint.JString(xs[i])
  {
    if xs == [] then [] else [Fingerprint.JString(xs[0])] + StringList(xs[1..])
  }

  /** A property that is there only when its value is. */
  function Present(key: string, value: Option<Fingerprint.Json>): seq<Fingerprint.Member> {
    if value.Some? then [Fingerprint.Member(key, value.value)] else []
  }

  function StringJson(s: Option<string>): Option<Fingerprint.Json> {
    if s.Some? then Some(Fingerprint.JString(s.value)) else None
  }

  function HeadersJson(hs: Option<seq<Header>>): Option<Fingerprint.Json> {
    if hs.Some? then Some(Fingerprint.JObject(HeaderMembers(hs.value))) else None
  }

  /** The four properties the fingerprint reads. */
  function IdentityJson(o: RequestOptions): seq<Fingerprint.Member> {
    Present("url", Some(Fingerprint.JString(o.url)))
    + Present("device", StringJson(o.device))
    + Present("userAgent", StringJson(o.userAgent))
    + Present("extraHeaders", HeadersJson(o.extraHeaders))
  }

  /** Everything else the options carry. */
  function PolicyJson(o: RequestOptions): seq<Fingerprint.Member> {
    [ Fingerprint.Member("maxDepth", Fingerprint.JNumber(o.maxDepth)),
      Fingerprint.Member("priority", Fingerprint.JNumber(o.priority)),
      Fingerprint.Member("depthPriority", Fingerprint.JBool(o.depthPriority)),
      Fingerprint.Member("skipDuplicates", Fingerprint.JBool(o.skipDuplicates)),
      Fingerprint.Member("skipRequestedRedirect", Fingerprint.JBool(o.skipRequestedRedirect)),
      Fingerprint.Member("obeyRobotsTxt", Fingerprint.JBool(o.obeyRobotsTxt)),
      Fingerprint.Member("followSitemapXml", Fingerprint.JBool(o.followSitemapXml)),
      Fingerprint.Member("delay", Fingerprint.JNumber(o.delay)),
      Fingerprint.Member("retryCount", Fingerprint.JNumber(o.retryCount)),
      Fingerprint.Member("retryDelay", Fingerprint.JNumber(o.retryDelay)),
      Fingerprint.Member("timeout", Fingerprint.JNumber(o.timeout)) ]
    + (if o.allowedDomains.Some?
       then [Fingerprint.Member("allowedDomains", Fingerprint.JArray(StringList(o.allowedDomains.value)))]
       else [])
    + (if o.deniedDomains.Some?
       then [Fingerprint.Member("deniedDomains", Fingerprint.JArray(StringList(o.deniedDomains.value)))]
       else [])
  }

  /** `generateKey(options)`. */
  function Key(env: Platform, o: RequestOptions): (k: string)
    ensures |k| <= Fingerprint.MAX_KEY_LENGTH
  {
    Fingerprint.GenerateKey(OptionsJson(o), env.hash)
  }

  /** `!!(await cache.get(key))`: a missing key and an empty value are both falsy. */
  predicate Cached(cache: map<string, string>, key: string) {
    key in cache && cache[key] != ""
  }

  /** `_checkRequested`. */
  predicate CheckRequested(env: Platform, cache: map<string, string>, o: RequestOptions)
    ensures !o.skipDuplicates ==> !CheckRequested(env, cache, o)
    ensures CheckRequested(env, cache, o) ==> Key(env, o) in cache && cache[Key(env, o)] != ""
  {
    o.skipDuplicates && Cached(cache, Key(env, o))
  }

  /** `_markRequested`: stores "1" under the fingerprint. */
  function MarkRequested(env: Platform, cache: map<string, string>, o: RequestOptions)
    : (c: map<string, string>)
    ensures o.skipDuplicates ==> c == cache[Key(env, o) := "1"]
    ensures !o.skipDuplicates ==> c == cache
  {
    if o.skipDuplicates then cache[Key(env, o) := "1"] else cache
  }

  // -------------------------------------------------------------- skipping

  /** String entries of a domain list against a hostname that url.parse may
      not find; a missing hostname equals no string. */
  predicate DomainMatch(domains: seq<string>, hostname: Option<string>) {
    hostname.Some? && Helper.CheckDomainMatch(domains, hostname.value)
  }

  /** `_checkAllowedDomains`. A present list is truthy even when empty. */
  predicate CheckAllowedDomains(env: Platform, o: RequestOptions)
    ensures CheckAllowedDomains(env, o) && o.allowedDomains.Some? ==>
      DomainMatch(o.allowedDomains.value, env.hostname(o.url))
    ensures CheckAllowedDomains(env, o) && o.deniedDomains.Some? ==>
      !DomainMatch(o.deniedDomains.value, env.hostname(o.url))
    ensures o.allowedDomains.None? && o.deniedDomains.None? ==> CheckAllowedDomains(env, o)
  {
    var host := env.hostname(o.url);
    if o.deniedDomains.Some? && DomainMatch(o.deniedDomains.value, host) then false
    else if o.allowedDomains.Some? && !DomainMatch(o.allowedDomains.value, host) then false
    else true
  }

  /** `_shouldRequest`. */
  predicate ShouldRequest(env: Platform, o: RequestOptions)
    ensures env.preRequest.None? ==> ShouldRequest(env, o)
    ensures !ShouldRequest(env, o) ==> env.preRequest.Some? && !env.preRequest.value(o)
  {
    env.preRequest.None? || env.preRequest.value(o)
  }

  /** `_skipRequest`: the domain check, then the duplicate check, then the
      preRequest hook, stopping at the first that says skip. */
  predicate SkipRequest(env: Platform, cache: map<string, string>, o: RequestOptions)
    ensures SkipRequest(env, cache, o) <==>
      !CheckAllowedDomains(env, o) || CheckRequested(env, cache, o) || !ShouldRequest(env, o)
  {
    if !CheckAllowedDomains(env, o) then true
    else if CheckRequested(env, cache, o) then true
    else !ShouldRequest(env, o)
  }

  // ---------------------------------------------------------------- robots

  /** `_getUserAgent`. */
  function UserAgent(env: Platform, o: RequestOptions): (ua: string)
    ensures o.userAgent.Some? && o.userAgent.value != "" ==> ua == o.userAgent.value
    ensures ua == env.browserUserAgent || ua in env.devices.Values || (o.userAgent.Some? && ua == o.userAgent.value)
  {
    if o.userAgent.Some? && o.userAgent.value != "" then o.userAgent.value
    else if o.device.Some? && o.device.value in env.devices then env.devices[o.device.value]
    else env.browserUserAgent
  }

  /** `_getRobot`: the cached robots.txt when the cache holds a truthy one;
      otherwise it is fetched and stored, or "" is stored when the fetch
      fails. Returns the text the parser is built on. */
  function GetRobot(env: Platform, s: CrawlState, o: RequestOptions, ctx: ErrorContext,
                    fetch: string -> Option<string>): (r: (CrawlState, string))
    ensures r.0.(cache := s.cache, events := s.events) == s && s.events <= r.0.events
    ensures env.robotsUrl(o.url) in r.0.cache && r.0.cache[env.robotsUrl(o.url)] == r.1
    ensures forall k :: k in s.cache && k != env.robotsUrl(o.url) ==> k in r.0.cache && r.0.cache[k] == s.cache[k]
    ensures Cached(s.cache, env.robotsUrl(o.url)) ==> r == (s, s.cache[env.robotsUrl(o.url)])
  {
    var robotsUrl := env.robotsUrl(o.url);
    if Cached(s.cache, robotsUrl) then (s, s.cache[robotsUrl])
    else match fetch(robotsUrl)
      case Some(txt) => (s.(cache := s.cache[robotsUrl := txt]), txt)
      case None => (Emit(s, RobotsTxtRequestFailed(ctx)).(cache := s.cache[robotsUrl := ""]), "")
  }

  /** `_checkAllowedRobots`. */
  function CheckAllowedRobots(env: Platform, s: CrawlState, o: RequestOptions, ctx: ErrorContext,
                              fetch: string -> Option<string>): (r: (CrawlState, bool))
    ensures !o.obeyRobotsTxt ==> r == (s, true)
  {
    if !o.obeyRobotsTxt then (s, true)
    else
      var (s1, txt) := GetRobot(env, s, o, ctx, fetch);
      (s1, env.isAllowed(env.robotsUrl(o.url), txt, o.url, UserAgent(env, o)))
  }

  // -------------------------------------------------------------- sitemaps

  /** `_getSitemapXml`: a truthy cached value is returned as it is (after a
      first visit that is the marker "1"); otherwise the sitemap is fetched,
      "" standing in when the fetch fails, and "1" is stored either way. */
  function GetSitemapXml(s: CrawlState, sitemapUrl: string, ctx: ErrorContext,
                         fetch: string -> Option<string>): (r: (CrawlState, string))
    ensures r.0.(cache := s.cache, events := s.events) == s && s.events <= r.0.events
    ensures Cached(r.0.cache, sitemapUrl)
    ensures forall k :: k in s.cache && k != sitemapUrl ==> k in r.0.cache && r.0.cache[k] == s.cache[k]
    ensures Cached(s.cache, sitemapUrl) ==> r == (s, s.cache[sitemapUrl])
  {
    if Cached(s.cache, sitemapUrl) then (s, s.cache[sitemapUrl])
    else match fetch(sitemapUrl)
      case Some(xml) => (s.(cache := s.cache[sitemapUrl := "1"]), xml)
      case None => (Emit(s, SitemapXmlRequestFailed(ctx)).(cache := s.cache[sitemapUrl := "1"]), "")
  }

  /** Pushes a copy of `o` for each url, at `depth`, coming from `o.url`. */
  function PushUrls(s: CrawlState, urls: seq<string>, o: RequestOptions, depth: int): (r: CrawlState)
    ensures r.(queue := s.queue) == s
    decreases |urls|
  {
    if urls == [] then s
    else PushUrls(Push(s, o.(url := urls[0]), depth, Some(o.url)), urls[1..], o, depth)
  }

  /** The sitemaps listed in robots.txt, one after the other. */
  function FollowSitemaps(s: CrawlState, sitemapUrls: seq<string>, o: RequestOptions, ctx: ErrorContext,
                          fetch: string -> Option<string>): (r: CrawlState)
    ensures r.requestedCount == s.requestedCount && r.paused == s.paused && r.delivered == s.delivered
    ensures forall k :: Cached(s.cache, k) ==> Cached(r.cache, k)
    ensures forall i :: 0 <= i < |sitemapUrls| ==> Cached(r.cache, sitemapUrls[i])
    decreases |sitemapUrls|
  {
    if sitemapUrls == [] then s
    else
      var (s1, xml) := GetSitemapXml(s, sitemapUrls[0], ctx, fetch);
      var s2 := PushUrls(s1, Helper.SitemapLocs(xml, 0), o, ctx.depth);
      var r := FollowSitemaps(s2, sitemapUrls[1..], o, ctx, fetch);
      assert forall i :: 1 <= i < |sitemapUrls| ==> sitemapUrls[i] == sitemapUrls[1..][i - 1];
      r
  }

  /** `_followSitemap`. */
  function FollowSitemap(env: Platform, s: CrawlState, o: RequestOptions, ctx: ErrorContext,
                         fetch: string -> Option<string>): (r: CrawlState)
    ensures !o.followSitemapXml ==> r == s
  {
    if !o.followSitemapXml then s
    else
      var (s1, txt) := GetRobot(env, s, o, ctx, fetch);
      FollowSitemaps(s1, env.sitemaps(env.robotsUrl(o.url), txt), o, ctx, fetch)
  }

  // --------------------------------------------------------------- request

  /** `_checkRequestedRedirect`. */
  predicate CheckRequestedRedirect(env: Platform, cache: map<string, string>, o: RequestOptions,
                                   responseUrl: string)
    ensures !o.skipRequestedRedirect || !o.skipDuplicates ==> !CheckRequestedRedirect(env, cache, o, responseUrl)
    ensures CheckRequestedRedirect(env, cache, o, responseUrl) ==> Cached(cache, Key(env, o.(url := responseUrl)))
  {
    o.skipRequestedRedirect && CheckRequested(env, cache, o.(url := responseUrl))
  }

  /** Marks a copy of `o` for each url, in order. */
  function MarkUrls(env: Platform, cache: map<string, string>, o: RequestOptions, urls: seq<string>)
    : (c: map<string, string>)
    ensures forall k :: Cached(cache, k) ==> Cached(c, k)
    ensures !o.skipDuplicates ==> c == cache
    decreases |urls|
  {
    if urls == [] then cache
    else MarkUrls(env, MarkRequested(env, cache, o.(url := urls[0])), o, urls[1..])
  }

  /** `_markRequestedRedirects`: every url of the redirect chain, then the
      response url. */
  function MarkRequestedRedirects(env: Platform, cache: map<string, string>, o: RequestOptions,
                                  redirectChain: seq<string>, responseUrl: string): (c: map<string, string>)
    ensures !o.skipRequestedRedirect ==> c == cache
  {
    if !o.skipRequestedRedirect then cache
    else MarkRequested(env, MarkUrls(env, cache, o, redirectChain), o.(url := responseUrl))
  }

  /** Attempt `k` of `_request` and the retries after it: returns the links
      to follow. */
  function Request(env: Platform, s: CrawlState, o: RequestOptions, ctx: ErrorContext,
                   attempt: nat -> Attempt, k: nat): (r: (CrawlState, seq<string>))
    ensures r.0.queue == s.queue && r.0.requestedCount == s.requestedCount && r.0.paused == s.paused
    ensures s.events <= r.0.events && s.delivered <= r.0.delivered && |r.0.delivered| <= |s.delivered| + 1
    ensures r.1 != [] ==> |r.0.delivered| == |s.delivered| + 1 && r.0.delivered[|s.delivered|].links == r.1
    decreases if k <= o.retryCount then o.retryCount - k else 0
  {
    var started := Emit(s, RequestStarted(o));
    match attempt(k)
    case AttemptFailed =>
      if k >= o.retryCount then (Emit(started, RequestFailed(ctx)), [])
      else Request(env, Emit(started, RequestRetried(o)), o, ctx, attempt, k + 1)
    case AttemptSucceeded(res) =>
      var finished := Emit(started, RequestFinished(o));
      var requested := CheckRequestedRedirect(env, s.cache, o, res.responseUrl);
      var cache := MarkRequestedRedirects(env, MarkRequested(env, s.cache, o), o,
                                          res.redirectChain, res.responseUrl);
      if requested then (finished.(cache := cache), [])
      else (finished.(cache := cache, delivered := s.delivered + [res]), res.links)
  }

  /** `_checkRequestCount`. */
  function CheckRequestCount(s: CrawlState): (r: CrawlState)
    ensures r.requestedCount == s.requestedCount + 1
  {
    var counted := s.(requestedCount := s.requestedCount + 1);
    if s.maxRequest != 0 && counted.requestedCount >= s.maxRequest
    then Emit(counted, MaxRequestReached).(paused := true)
    else counted
  }

  // ----------------------------------------------------------------- links

  /** The entries `_followLinks` pushes for `links` below `depth`. */
  function LinkEntries(env: Platform, cache: map<string, string>, links: seq<string>,
                       o: RequestOptions, depth: int): (r: seq<Entry>)
    ensures |r| <= |links|
    ensures forall i :: 0 <= i < |r| ==> r[i].depth == depth + 1 && r[i].previousUrl == Some(o.url)
  {
    if links == [] then []
    else
      var child := o.(url := links[0]);
      (if SkipRequest(env, cache, child) then [] else [MakeEntry(child, depth + 1, Some(o.url))])
      + LinkEntries(env, cache, links[1..], o, depth)
  }

  /** `_followLinks`. */
  function FollowLinks(env: Platform, s: CrawlState, links: seq<string>, o: RequestOptions, depth: int)
    : (r: CrawlState)
    ensures depth >= o.maxDepth ==> r.queue == s.queue && r.events == s.events + [MaxDepthReached]
    ensures depth < o.maxDepth ==> r.events == s.events && s.queue <= r.queue && |r.queue| <= |s.queue| + |links|
    ensures forall i :: |s.queue| <= i < |r.queue| ==> r.queue[i].depth == depth + 1 && r.queue[i].previousUrl == Some(o.url)
    ensures r.(queue := s.queue, events := s.events) == s
  {
    if depth >= o.maxDepth then Emit(s, MaxDepthReached)
    else s.(queue := s.queue + LinkEntries(env, s.cache, links, o, depth))
  }

  // --------------------------------------------------------- start request

  datatype Outcome = Skipped | Disallowed | Fetched

  /** `_startRequest` for an entry pulled from the queue. */
  function StartRequest(env: Platform, s: CrawlState, e: Entry, fetch: string -> Option<string>,
                        attempt: nat -> Attempt): (r: (CrawlState, Outcome))
    ensures r.1 == Skipped <==> SkipRequest(env, s.cache, e.options)
    ensures r.1 == Disallowed ==> e.options.obeyRobotsTxt
    ensures r.1 != Fetched ==> r.0.queue == s.queue && r.0.delivered == s.delivered && r.0.requestedCount == s.requestedCount
  {
    var o := e.options;
    var ctx := ErrorContext(o, e.depth, e.previousUrl);
    if SkipRequest(env, s.cache, o) then
      (Emit(s, RequestSkipped(o)).(cache := MarkRequested(env, s.cache, o)), Skipped)
    else
      var (s1, allowed) := CheckAllowedRobots(env, s, o, ctx, fetch);
      if !allowed then
        (Emit(s1, RequestDisallowed(o)).(cache := MarkRequested(env, s1.cache, o)), Disallowed)
      else
        var s2 := FollowSitemap(env, s1, o, ctx, fetch);
        var (s3, links) := Request(env, s2, o, ctx, attempt, 0);
        (FollowLinks(env, CheckRequestCount(s3), links, o, e.depth), Fetched)
  }
}
