# headless-chrome-crawler core in Dafny

This project models two parts of the crawler.

The first is the helper algorithms of `lib/helper.ts`:
- the `lowerBound` binary search;
- domain matching;
- sitemap `<loc>` extraction with XML entity unescaping;
- CSV quoting;
- link resolution;
- the request fingerprint (`jsonStableReplacer` and `generateKey`).

The second is the per-entry state machine of the `HCCrawler` class in `lib/hccrawler.ts`:
- queue validation and priority defaulting;
- the skip checks;
- robots.txt and sitemap handling;
- the retrying request;
- redirect deduplication;
- link expansion;
- request counting.

Files and modules:

- `wrappers.dfy` (`Wrappers`): `Option` and `Result`.
- `helper.dfy` (`Helper`): the helpers.
  - `lowerBound` and `getSitemapUrls` are methods with loops, as in the source.
  - The rest are functions.
- `fingerprint.dfy` (`Fingerprint`): the fingerprint.
  - A JSON value type.
  - Key sorting, which is what `jsonStableReplacer` does.
  - The order in which JSON.stringify writes an object's keys: keys that are array indices first, in ascending numeric order, then the others in insertion order.
  - `pick`, `JSON.stringify` and `generateKey`.
  - The MD5 digest is a parameter.
- `crawl_model.dfy` (`CrawlModel`): each crawler operation as a function on a `CrawlState` value, which holds:
  - the cache's key/value map;
  - the entries pushed onto the priority queue, in push order;
  - the paused flag;
  - the request counter;
  - `maxRequest`;
  - the emitted events;
  - the delivered results (handed to the exporter and `onSuccess`).
- `crawl_props.dfy` (`CrawlProps`) and `request_props.dfy` (`RequestProps`): what those functions guarantee.
- `hccrawler.dfy` (`Crawler`): the class `HCCrawler`. Its fields are updated in place. Each method is proved to leave `State()` equal to the matching `CrawlModel` function applied to the state before the call.

Foreign code is a `Platform` value of functions:
- `url.parse` (`hostname`, `href`);
- `getRobotsUrl`;
- the MD5 hash;
- the device table;
- the browser's user agent;
- robots-parser (`isAllowed`, `getSitemaps`);
- the `preRequest` hook.

The network and the browser are inputs:
- `fetch` answers the HTTP requests of one entry (robots.txt and sitemaps), `None` meaning the request threw;
- `attempt(k)` is the outcome of the k-th crawl attempt of `_request`.

JavaScript truthiness is written out:
- a cache value counts only when present and non-empty;
- a zero priority or `maxRequest` is falsy;
- an empty `allowedDomains` list is still a present list.

## Model

| member | source | states |
|---|---|---|
| Helper.LowerBound | lib/helper.ts:79-94 | The result lies in [0, length]. On an array partitioned around the probe, everything before it compares <= 0 and everything from it on compares > 0. Every element equal to the probe lies before it, so a new element goes after equal ones. |
| Helper.SortedIsPartitioned | lib/helper.ts:79-94 | An array sorted by a total-preorder comparator is partitioned around any probe, so LowerBound's guarantee applies to sorted input. |
| Helper.InsertAtBoundKeepsSorted | lib/helper.ts:79-94 | Inserting the probe at the index LowerBound characterises keeps a sorted array sorted. |
| Helper.CheckDomainMatch | lib/helper.ts:101-106 | True exactly when some (string) entry equals the hostname; an empty list never matches. |
| Helper.NextLt | lib/helper.ts:108-116 | The `[^<]+` scan: the first `<` at or after i, or the end, with no `<` in between. |
| Helper.LocMatchAt | lib/helper.ts:110 | A match found at p has a non-empty text and ends with room for `</loc>` inside the document. |
| Helper.LocMatchAtMeaning | lib/helper.ts:110 | A `<loc>X</loc>` match starting at p, with X non-empty and free of `<`, is found exactly when one exists, together with its end. |
| Helper.LocEndUnique | lib/helper.ts:108-116 | An opened `<loc>` has at most one closing position, the first `<` after it. |
| Helper.UnescapeAll | lib/helper.ts:110-114 | One url per captured text, in the same order, each the text unescaped. |
| Helper.GetSitemapUrls | lib/helper.ts:108-116 | The loop returns SitemapLocs of the document: the unescaped contents of its `<loc>` elements, all of them and in document order (SitemapLocsSound, SitemapLocsComplete, SitemapLocsInOrder). |
| Helper.ScanPastMatch | lib/helper.ts:110 | The loop invariant survives a match: the texts found so far, this match's text and the texts after its `</loc>` are all the document's texts. |
| Helper.ScanPastNoMatch | lib/helper.ts:110 | The invariant survives a position where no match starts: the scan moves on by one character. |
| Helper.NoLocNoUrls | lib/helper.ts:108-116 | A document with no `<loc>` opening from p on yields no urls. |
| Helper.EmptyAndMarkerYieldNoUrls | lib/helper.ts:108-116 | `''` and the cache marker `'1'` yield no urls. |
| Helper.SitemapLocsSound | lib/helper.ts:108-116 | Every url returned is the unescaped content of some `<loc>` element in the document. |
| Helper.LocTextsSound | lib/helper.ts:110 | Every captured text is the content of some `<loc>` element at or after the scan position. |
| Helper.NoMatchStep | lib/helper.ts:110 | Where no match starts the global scan retries one character later. |
| Helper.LocTextStep | lib/helper.ts:110 | A match contributes its text, and the global scan resumes behind its `</loc>`. |
| Helper.NoOverlap | lib/helper.ts:110 | Two matches never overlap: a later one starts after the earlier one's `</loc>`. |
| Helper.NoLocInside | lib/helper.ts:110 | No `<loc>` opens inside a match, so the scan skips none by jumping past it. |
| Helper.SkipMatch | lib/helper.ts:110 | A match found before a later element ends before that element starts, and the scan continues from its end. |
| Helper.LocTextsComplete | lib/helper.ts:110 | The text of every `<loc>` element at or after the scan position is captured. |
| Helper.SitemapLocsComplete | lib/helper.ts:108-116 | The unescaped content of every `<loc>` element of the document is returned. |
| Helper.FirstOfTwoTexts | lib/helper.ts:110 | Scanning from an element, its text comes before the text of any later element. |
| Helper.LocTextsInOrder | lib/helper.ts:110 | Texts of two elements are captured in document order. |
| Helper.SitemapLocsInOrder | lib/helper.ts:108-116 | Urls of two elements are returned in document order. |
| Helper.LocStep | lib/helper.ts:108-116 | A match contributes its unescaped text, and the global scan resumes behind its `</loc>`. |
| Helper.TwoLocsInOrder | lib/helper.ts:108-116 | Two elements come out in document order, entities decoded. |
| Helper.ReplaceAll | lib/helper.ts:118-125 | A global replacement leaves text without the pattern's first character unchanged and never lengthens it when the replacement is shorter. |
| Helper.Unescape | lib/helper.ts:118-125 | Text without `&` is unchanged; decoding never lengthens. |
| Helper.AmpersandDecodedFirst | lib/helper.ts:118-125 | `&amp;` is replaced first, so `&amp;lt;` decodes to `<`. |
| Helper.AmpersandInText | lib/helper.ts:118-125 | `b&amp;c` decodes to `b&c`. |
| Helper.DoubleQuotes | lib/helper.ts:66-71 | A value with no `"` is unchanged by quote doubling. |
| Helper.EscapeQuotes | lib/helper.ts:66-71 | The evidently intended escapeQuotes. null gives `''`. A value with a `"`, the separator, CR or LF is wrapped in quotes with inner quotes doubled. Any other value is returned as it is. |
| Helper.UndoubleDoubleQuotes | lib/helper.ts:66-71 | Undoubling inverts quote doubling. |
| Helper.EscapeQuotesRoundTrip | lib/helper.ts:66-71 | Parsing an escaped field as in RFC 4180, section 2, gives back the original value. |
| Helper.EscapeQuotesInjective | lib/helper.ts:66-71 | Distinct values escape to distinct fields. |
| Helper.QuotePatternTest | lib/helper.ts:68-69 | The pattern built from the separator fails to compile exactly for `-`. For any separator other than `\`, `]` and `-` it matches exactly the values holding a quote, the separator, CR or LF. |
| Helper.EscapeQuotesAsWritten | lib/helper.ts:66-71 | escapeQuotes as written: null gives `''`, and a non-null value throws exactly when the separator is `-`. |
| Helper.AsWrittenAgreesForPlainSeparator | lib/helper.ts:66-71 | For every separator other than `\`, `]` and `-` the code as written returns what EscapeQuotes does. |
| Helper.BracketSeparatorBreaksRoundTrip | lib/helper.ts:68-69 | With separator `]` the value `"a"` is returned unquoted and reads back as `a`, while EscapeQuotes quotes it. |
| Helper.BackslashSeparatorMissesCarriageReturn | lib/helper.ts:68-69 | With separator `\` a value holding CR is returned unquoted, while EscapeQuotes quotes it. |
| Helper.BackslashSeparatorQuotesLetterR | lib/helper.ts:68-69 | With separator `\` the value `bar` is quoted, because the class holds the letter `r`, while EscapeQuotes returns it as it is. |
| Helper.TrimStart | lib/helper.ts:54 | Drops exactly the leading whitespace. |
| Helper.TrimEnd | lib/helper.ts:54 | Drops exactly the trailing whitespace. |
| Helper.Trim | lib/helper.ts:54 | The result is a slice of the input with only whitespace cut off at either end, and it neither starts nor ends with whitespace. |
| Helper.BeforeHash | lib/helper.ts:58-61 | `split('#')[0]`: the longest prefix without `#`, stopped at the first `#`. |
| Helper.ResolveUrl | lib/helper.ts:53-64 | Blank and `#`-prefixed links give null. A non-null result contains no `#`. An absolute link gives its own prefix up to the fragment. |
| Fingerprint.StrLessIrreflexive | lib/helper.ts:47 | The code-unit order `sort()` uses is irreflexive. |
| Fingerprint.StrLessTransitive | lib/helper.ts:47 | That order is transitive. |
| Fingerprint.StrLessTotal | lib/helper.ts:47 | That order is total on distinct keys. |
| Fingerprint.StrLessAsymmetric | lib/helper.ts:47 | That order is asymmetric. |
| Fingerprint.KeyLessIrreflexive | lib/helper.ts:47 | Both key orders (`sort()` and array-index order) are irreflexive. |
| Fingerprint.KeyLessTransitive | lib/helper.ts:47 | Both key orders are transitive. |
| Fingerprint.KeyLessTotal | lib/helper.ts:47 | Both key orders are total on distinct keys. |
| Fingerprint.KeyLessAsymmetric | lib/helper.ts:47 | Both key orders are asymmetric. |
| Fingerprint.StrictHeadLeast | lib/helper.ts:47 | In a strictly sorted object the first key is below every other. |
| Fingerprint.StrictPairs | lib/helper.ts:47 | In a strictly sorted object every earlier key is below every later one. |
| Fingerprint.Insert | lib/helper.ts:47 | Insertion, under either key order, keeps exactly the old members plus the new one and keeps a strictly sorted object strictly sorted. |
| Fingerprint.SortMembers | lib/helper.ts:47-50 | `Object.keys(val).sort()` rebuilt: same members, strictly sorted by the given key order when keys are distinct. |
| Fingerprint.StrictlySortedUnique | lib/helper.ts:47-50 | Two strictly sorted objects with the same members are equal, so the sorted form does not depend on the input order. |
| Fingerprint.NumeralValue | lib/helper.ts:41 | The value of a digit string is below 10 to its length, and at least 10 to its length minus one without a leading zero. |
| Fingerprint.SameLengthNumerals | lib/helper.ts:41 | Digit strings of one length compare by code unit exactly as their values compare. |
| Fingerprint.IndexOrderIsNumeric | lib/helper.ts:41 | On array-index keys the index order is the order of their numeric values, both ways. |
| Fingerprint.IndexMembers | lib/helper.ts:41 | Exactly the members whose key is an array index; distinct keys stay distinct. |
| Fingerprint.NamedMembers | lib/helper.ts:41 | Exactly the members whose key is not an array index. |
| Fingerprint.NamedMembersConcat | lib/helper.ts:41 | Filtering out index keys distributes over concatenation. |
| Fingerprint.OwnKeysOrder | lib/helper.ts:41 | The property order JSON.stringify writes: the same members, the other keys in insertion order, and with distinct keys every array index before them in ascending order. |
| Fingerprint.OwnKeysOrderWithoutIndices | lib/helper.ts:41 | Without array-index keys the property order is insertion order. |
| Fingerprint.NamedMembersSorted | lib/helper.ts:47-50 | Dropping the index keys keeps a sorted object sorted. |
| Fingerprint.SortedDistinct | lib/helper.ts:47-50 | A strictly sorted object has distinct keys. |
| Fingerprint.SortedObjectOrdered | lib/helper.ts:41-50 | The sorted object rebuilt by the replacer is written in serialisation order: array indices ascending, then the other keys sorted. |
| Fingerprint.Canonical | lib/helper.ts:45-51 | The replacer leaves scalars unchanged, keeps arrays arrays of the same length and objects objects. |
| Fingerprint.CanonicalOrdered | lib/helper.ts:41-51 | A canonical object holds exactly the canonical members and is in serialisation order. |
| Fingerprint.CanonicalItems | lib/helper.ts:45-51 | Arrays are replaced element by element. |
| Fingerprint.CanonicalMembers | lib/helper.ts:45-51 | Every object member keeps its key and has its value replaced. |
| Fingerprint.CanonicalIgnoresKeyOrder | lib/helper.ts:45-51 | Objects with the same members in any order have the same canonical form. |
| Fingerprint.SortMembersOfSorted | lib/helper.ts:47-50 | Sorting an already sorted object changes nothing. |
| Fingerprint.IndexKeysSerialiseNumerically | lib/helper.ts:41-50 | `sort()` puts `"10"` before `"9"`, yet the canonical object lists `"9"` first, as JSON.stringify writes it. |
| Fingerprint.IndicesFirstExample | lib/helper.ts:41 | Property order lists index `9` before `10` whatever the insertion order. |
| Fingerprint.Get | lib/helper.ts:41 | A property lookup finds a value exactly when the key is present, and that member is in the object. |
| Fingerprint.GetDistinct | lib/helper.ts:41 | With distinct keys the lookup returns the member's value. |
| Fingerprint.Pick | lib/helper.ts:18-23 | `pick` keeps only listed fields, each with the value the options hold. |
| Fingerprint.EscapeBodyPlain | lib/helper.ts:41 | JSON string escaping leaves text without quotes, backslashes or control characters unchanged. |
| Fingerprint.Stringify | lib/helper.ts:41 | A string is written between quotes, an array between brackets and an object between braces. |
| Fingerprint.GenerateKey | lib/helper.ts:40-43 | The key is a prefix of the digest of the stable JSON, at most 10 characters, and exactly 10 when the digest is that long. |
| Fingerprint.PickAgrees | lib/helper.ts:41 | Options that agree on the picked fields pick the same canonical members. |
| Fingerprint.GenerateKeyDependsOnlyOnPickedFields | lib/helper.ts:18-43 | The key depends only on url, device, userAgent and extraHeaders. |
| Fingerprint.GenerateKeyIgnoresKeyOrder | lib/helper.ts:40-51 | Reordering the options' keys leaves the key unchanged. |
| Fingerprint.KeySourceSortsKeys | lib/helper.ts:40-51 | For `{url, maxDepth, device}` the hashed text is the object `{device, url}`: other fields dropped, keys sorted. |
| Fingerprint.PickExample | lib/helper.ts:41 | pick drops maxDepth and keeps url and device. |
| Fingerprint.SortExample | lib/helper.ts:45-51 | The canonical form of `{url, device}` is `{device, url}`. |
| Fingerprint.SortPickedObject | lib/helper.ts:45-51 | The replacer rebuilds `{url, device}` as `{device, url}`; neither key is an array index. |
| Fingerprint.SortPickedExample | lib/helper.ts:47 | `sort()` puts `device` before `url`. |
| CrawlModel.DefaultOptions | lib/hccrawler.ts:69-89 | The request-level defaults: maxDepth 1, priority 0, delay 0, retryCount 3, retryDelay 10000, timeout 30000, skipDuplicates, depthPriority and obeyRobotsTxt on, followSitemapXml and skipRequestedRedirect off. |
| CrawlModel.Overlay | lib/hccrawler.ts:186 | `extend`: with nothing set the crawler's options come back unchanged; the url is the queued one when set and the crawler's otherwise. |
| CrawlModel.OverlayTakesSet | lib/hccrawler.ts:186 | Every property the queued object sets is taken from it. |
| CrawlModel.OverlayKeepsUnset | lib/hccrawler.ts:186 | Every property the queued object leaves unset keeps the crawler's value. |
| CrawlModel.Validate | lib/hccrawler.ts:179-189 | A constructor-only option is reported only when the item sets it truthily. Acceptance needs no such option, a non-empty merged url, a known device, and concurrency 1 with a positive delay. The accepted options are the merged ones with the url normalised. |
| CrawlModel.FirstIn | lib/hccrawler.ts:181-183 | The first CONSTRUCTOR_OPTIONS name the object sets truthily, or none exactly when it sets none. |
| CrawlModel.PushPriority | lib/hccrawler.ts:300-301 | A truthy priority is kept; a zero one becomes the depth under depthPriority and stays 0 otherwise. |
| CrawlModel.Push | lib/hccrawler.ts:299-303 | `_push` appends one entry with the computed priority and changes nothing else. |
| CrawlModel.Queue | lib/hccrawler.ts:177-191 | At most one entry is pushed per item, and a reported error is some item's refusal. |
| CrawlModel.HeaderMembers | lib/helper.ts:41 | Headers become object members pointwise, name as key. |
| CrawlModel.StringList | lib/helper.ts:41 | Each string becomes a JSON string, pointwise. |
| CrawlModel.Key | lib/helper.ts:40-43 | The fingerprint of request options has at most 10 characters. |
| CrawlModel.MarkRequested | lib/hccrawler.ts:516-520 | With skipDuplicates `'1'` is stored under the fingerprint; without it the cache is untouched. |
| CrawlModel.CheckRequested | lib/hccrawler.ts:492-497 | Never true without skipDuplicates; true only when a non-empty value is stored under the fingerprint. |
| CrawlModel.CheckAllowedDomains | lib/hccrawler.ts:480-485 | A passing url's host is on the allow-list when there is one and not on the deny-list when there is one; with neither list every url passes. |
| CrawlModel.ShouldRequest | lib/hccrawler.ts:542-545 | Without a preRequest hook every request goes ahead; a request is refused only when the hook answers no. |
| CrawlModel.SkipRequest | lib/hccrawler.ts:337-345 | Skipped iff the domain check fails, the options were requested before or preRequest refuses. |
| CrawlModel.UserAgent | lib/hccrawler.ts:469-473 | A set user agent wins; any result is that option, a device's user agent or the browser's. |
| CrawlModel.GetRobot | lib/hccrawler.ts:447-462 | Only the cache and events change, events only by appending. The robots url then holds the returned text, no other key changes, and a cached text is returned untouched. |
| CrawlModel.GetSitemapXml | lib/hccrawler.ts:424-438 | Only the cache and events change. Afterwards the sitemap url is marked, no other key changes, and a marked url leaves the state untouched. |
| CrawlModel.FollowSitemaps | lib/hccrawler.ts:408-414 | Counter, pause flag and results are unchanged, cache marks are kept, and every listed sitemap ends up marked. |
| CrawlModel.CheckAllowedRobots | lib/hccrawler.ts:390-395 | With obeyRobotsTxt off every url is allowed and nothing is fetched. |
| CrawlModel.PushUrls | lib/hccrawler.ts:411-413 | Pushing the sitemap urls changes nothing but the queue. |
| CrawlModel.FollowSitemap | lib/hccrawler.ts:404-405 | With followSitemapXml off nothing happens. |
| CrawlModel.MarkRequestedRedirects | lib/hccrawler.ts:529-530 | With skipRequestedRedirect off the cache is untouched. |
| CrawlModel.CheckRequestedRedirect | lib/hccrawler.ts:505-509 | False unless both skipRequestedRedirect and skipDuplicates are on; true only when the response url's fingerprint is marked. |
| CrawlModel.MarkUrls | lib/hccrawler.ts:531-533 | Marks are never lost, and without skipDuplicates the cache is unchanged. |
| CrawlModel.Request | lib/hccrawler.ts:355-381 | Queue, counter and pause flag are unchanged; events and results only grow, by at most one result; returned links come with exactly one new result holding them. |
| CrawlModel.FollowLinks | lib/hccrawler.ts:596-607 | At or past maxDepth only MaxDepthReached is emitted. Below it no event is emitted and at most one entry per link is appended, each at depth + 1 from the page's url. Nothing else changes. |
| CrawlModel.StartRequest | lib/hccrawler.ts:312-330 | Skipped iff `_skipRequest` says so; disallowed only under obeyRobotsTxt; an entry not fetched leaves queue, results and counter unchanged. |
| CrawlModel.CheckRequestCount | lib/hccrawler.ts:612-618 | Each call counts exactly one request. |
| CrawlModel.LinkEntries | lib/hccrawler.ts:600-605 | At most one entry per link, each at depth + 1 with the page's url as previous url. |
| CrawlProps.QueueOnlyAppends | lib/hccrawler.ts:177-191 | `queue` changes nothing but the queue, which it only appends to. |
| CrawlProps.QueueSeedsValid | lib/hccrawler.ts:177-191 | Every appended entry has depth 1, no previous url, the defaulted priority and the options some item validated to. |
| CrawlProps.QueuePushesEveryValid | lib/hccrawler.ts:177-191 | Every item that validates is pushed, even when another item is refused. |
| CrawlProps.QueueErrorIffRefused | lib/hccrawler.ts:177-191 | An error is reported exactly when some item is refused. |
| CrawlProps.QueueReportsFirstError | lib/hccrawler.ts:177-191 | The reported error is the first refused item's: every item before it is accepted. |
| CrawlProps.ValidateAccepts | lib/hccrawler.ts:179-189 | An item is accepted iff it sets no constructor-only option, the merged url is non-empty, the device is known and a positive delay comes with concurrency 1. It is then the merged options with the url normalised. |
| CrawlProps.ReservedOptionRefusedFirst | lib/hccrawler.ts:180-183 | A constructor-only option is refused before the other checks, even with the url missing. |
| CrawlProps.FirstInPrefixAbsent | lib/hccrawler.ts:180-183 | The reported option is the first listed name the object sets. |
| CrawlProps.ZeroConcurrencyOverridesDelayCheck | lib/hccrawler.ts:181-188 | A queued maxConcurrency of 0 is falsy, so it is not refused, yet it still fails the delay check. |
| CrawlProps.CustomCrawlNotRefused | lib/hccrawler.ts:54-64 | A queued `customCrawl` hook is not refused: the list names `customizeCrawl`. |
| CrawlProps.CustomizeCrawlRefused | lib/hccrawler.ts:54-64 | A queued `customizeCrawl` is refused. |
| CrawlProps.PushPriorityRule | lib/hccrawler.ts:299-303 | A truthy priority is kept; a zero one becomes the depth under depthPriority and stays 0 otherwise. |
| CrawlProps.MarkThenCheck | lib/hccrawler.ts:492-520 | After marking, the options count as requested iff skipDuplicates is on. Marking is idempotent. Without skipDuplicates both are no-ops. |
| CrawlProps.MarkUrlsMarksEach | lib/hccrawler.ts:529-533 | Marking a redirect chain marks every url of it and keeps earlier marks. |
| CrawlProps.KeyDependsOnlyOnIdentity | lib/helper.ts:40-43 | Request options that agree on url, device, userAgent and extraHeaders share a fingerprint. |
| CrawlProps.KeyIgnoresHeaderOrder | lib/helper.ts:40-51 | Reordering distinct extra headers leaves the fingerprint unchanged. |
| CrawlProps.HeadersOnlyDiffer | lib/helper.ts:41 | Options that differ only in headers with the same canonical form agree on every picked field. |
| CrawlProps.IdentityFieldSame | lib/helper.ts:41 | Options with the same url, device and user agent agree on those picked fields. |
| CrawlProps.SameHeaderMembers | lib/helper.ts:41 | Header lists with the same distinctly named entries give objects with the same members. |
| CrawlProps.GetFromOptions | lib/helper.ts:41 | Each picked field of the options object is exactly that option's value, absent when it is. |
| CrawlProps.PolicyHasNoIdentityKey | lib/helper.ts:18-23 | None of the other options is named like a picked field. |
| CrawlProps.GetConcat | lib/helper.ts:41 | A lookup in concatenated members finds the first part's member first. |
| CrawlProps.AllowedDomainsMeaning | lib/hccrawler.ts:480-485 | A url passes iff its host is not denied and, when an allow-list is given, is on it. An empty allow-list passes nothing. |
| CrawlProps.SkipRequestMeaning | lib/hccrawler.ts:337-345 | `_skipRequest` is true iff the domain check fails, the fingerprint is cached or preRequest vetoes. The hook is not consulted once an earlier check decides. |
| CrawlProps.RobotsTxtCached | lib/hccrawler.ts:447-462 | On a miss the fetched text, or `''`, is stored under the robots url. A non-empty stored text is reused without fetching. |
| CrawlProps.EmptyRobotsTxtRefetched | lib/hccrawler.ts:449-450 | A stored `''` is falsy, so the next call fetches again. |
| CrawlProps.SitemapVisitedOnce | lib/hccrawler.ts:424-438 | After the first visit the sitemap url holds `'1'`, so a revisit fetches nothing and pushes nothing. |
| CrawlProps.PushUrlsAppends | lib/hccrawler.ts:411-413 | One entry per url, in order, at the given depth, coming from the entry's url. |
| CrawlProps.GetSitemapXmlUncounted | lib/hccrawler.ts:424-438 | Fetching a sitemap only marks it in the cache and may emit a failure. |
| CrawlProps.FollowSitemapsUncounted | lib/hccrawler.ts:406-414 | Following sitemaps leaves the counter, the pause flag and the delivered results alone. |
| CrawlProps.FollowSitemapsPushes | lib/hccrawler.ts:406-414 | Sitemap urls are pushed at the entry's own depth with previousUrl the entry's url. |
| CrawlProps.FollowSitemapPushes | lib/hccrawler.ts:404-415 | `_followSitemap` pushes only such entries, and nothing unless followSitemapXml is on. |
| CrawlProps.UncountedTransitive | lib/hccrawler.ts:312-330 | Steps that only add compose. |
| CrawlProps.GetRobotUncounted | lib/hccrawler.ts:447-462 | `_getRobot` touches neither queue nor counter nor results. |
| CrawlProps.CheckAllowedRobotsUncounted | lib/hccrawler.ts:390-395 | Neither does `_checkAllowedRobots`. |
| RequestProps.RetryEvents | lib/hccrawler.ts:356-377 | n retried attempts emit alternately RequestStarted and RequestRetried, 2n events. |
| RequestProps.RequestAllFail | lib/hccrawler.ts:355-381 | When every attempt fails: max(retryCount, 0) started-and-retried pairs, then one RequestStarted and one RequestFailed with the entry's context. No links, and nothing else changes. |
| RequestProps.RequestAttemptsBounded | lib/hccrawler.ts:372-379 | At most retryCount + 1 attempts are made: later outcomes never matter. |
| RequestProps.RequestFrame | lib/hccrawler.ts:355-381 | A request leaves queue, counter and pause flag alone, only appends events, keeps cache marks and delivers at most one result. |
| RequestProps.MarkRedirectsGrows | lib/hccrawler.ts:529-535 | Marking redirects never loses a mark. |
| RequestProps.RedirectsMarked | lib/hccrawler.ts:529-535 | With skipDuplicates and skipRequestedRedirect, the response url and every url of the redirect chain count as requested afterwards. |
| RequestProps.RequestSucceeds | lib/hccrawler.ts:356-368 | A success emits Started then Finished. The result is delivered and its links returned iff the response url was not requested before; otherwise `[]` and no delivery. |
| RequestProps.RequestMarksRedirects | lib/hccrawler.ts:365-366 | After a success the page is marked and, with skipRequestedRedirect, so is every redirect-chain url and the response url. |
| RequestProps.SelfRedirectNotDuplicate | lib/hccrawler.ts:364-365 | The duplicate check precedes marking, so a page answering at its own unrequested url is delivered. |
| RequestProps.CheckRequestCountPauses | lib/hccrawler.ts:612-618 | The count rises by one. The crawler pauses and emits MaxRequestReached iff maxRequest is nonzero and reached. Nothing else changes. |
| RequestProps.ZeroMaxRequestNeverPauses | lib/hccrawler.ts:614 | With maxRequest 0 it never pauses. |
| RequestProps.LinkEntriesMeaning | lib/hccrawler.ts:600-605 | An entry is pushed for the links iff it is some non-skipped link's copy of the options at depth + 1 from the page's url. |
| RequestProps.FollowLinksDepthGate | lib/hccrawler.ts:596-607 | At or past maxDepth: only MaxDepthReached. Below it: no event, and only entries at depth + 1 are appended. |
| RequestProps.StartRequestOutcome | lib/hccrawler.ts:312-330 | Skipped iff `_skipRequest` says so. Only fetched entries are counted, once. Skipped and disallowed entries are marked and push, deliver and pause nothing. |
| RequestProps.StartRequestMonotone | lib/hccrawler.ts:312-330 | The queue, events and results only grow, cache marks stay, and a paused crawler stays paused. |
| RequestProps.StartRequestKeepsDepthBound | lib/hccrawler.ts:312-330 | Entries between depth 1 and their maxDepth (or 1) stay so: sitemaps push at the same depth, links one deeper only below maxDepth. |
| RequestProps.FetchedMonotone | lib/hccrawler.ts:325-328 | For a fetched entry, following sitemaps, requesting, counting and following links only grow the queue, events and results, keep cache marks and keep a paused crawler paused. |
| RequestProps.SitemapsKeepDepthBound | lib/hccrawler.ts:404-415 | Following sitemaps keeps a depth-bounded queue depth-bounded. |
| RequestProps.LinksKeepDepthBound | lib/hccrawler.ts:596-607 | Following links keeps a depth-bounded queue depth-bounded. |
| Crawler.HCCrawler.constructor | lib/hccrawler.ts:145-162 | Options overlay the defaults; the cache is the given one or empty; nothing queued, counted or paused. |
| Crawler.HCCrawler.Queue | lib/hccrawler.ts:177-191 | The loop leaves the state and error CrawlModel.Queue gives. |
| Crawler.HCCrawler.SetMaxRequest | lib/hccrawler.ts:246-248 | Only maxRequest changes. |
| Crawler.HCCrawler.Pause | lib/hccrawler.ts:250-252 | Only the paused flag is set. |
| Crawler.HCCrawler.Resume | lib/hccrawler.ts:254-256 | Only the paused flag is cleared. |
| Crawler.HCCrawler.IsPaused | lib/hccrawler.ts:268-270 | Reports the paused flag. |
| Crawler.HCCrawler.RequestedCount | lib/hccrawler.ts:289-291 | Reports the counter. |
| Crawler.HCCrawler.ClearCache | lib/hccrawler.ts:261-263 | Empties the cache, after which nothing counts as requested. |
| Crawler.HCCrawler.Push | lib/hccrawler.ts:299-303 | Appends one entry whose priority is the depth when the given one is falsy under depthPriority. |
| Crawler.HCCrawler.StartRequest | lib/hccrawler.ts:312-330 | Reaches CrawlModel.StartRequest's state and outcome, and keeps a depth-bounded queue depth-bounded. |
| Crawler.HCCrawler.SkipRequest | lib/hccrawler.ts:337-345 | Answers as CrawlModel.SkipRequest. |
| Crawler.HCCrawler.Request | lib/hccrawler.ts:355-381 | The recursion reaches CrawlModel.Request's state and links. |
| Crawler.HCCrawler.CheckAllowedRobots | lib/hccrawler.ts:390-395 | As CrawlModel.CheckAllowedRobots. |
| Crawler.HCCrawler.FollowSitemap | lib/hccrawler.ts:404-415 | The nested loops reach CrawlModel.FollowSitemap's state. |
| Crawler.HCCrawler.GetSitemapXml | lib/hccrawler.ts:424-438 | As CrawlModel.GetSitemapXml. |
| Crawler.HCCrawler.GetRobot | lib/hccrawler.ts:447-462 | As CrawlModel.GetRobot. |
| Crawler.HCCrawler.CheckRequested | lib/hccrawler.ts:492-497 | True only with skipDuplicates and a truthy value under the fingerprint. |
| Crawler.HCCrawler.CheckRequestedRedirect | lib/hccrawler.ts:505-509 | As CrawlModel.CheckRequestedRedirect. |
| Crawler.HCCrawler.MarkRequested | lib/hccrawler.ts:516-520 | Marks the fingerprint; afterwards the options count as requested iff skipDuplicates is on. |
| Crawler.HCCrawler.MarkRequestedRedirects | lib/hccrawler.ts:529-535 | Leaves the cache CrawlModel.MarkRequestedRedirects gives and changes nothing else. |
| Crawler.HCCrawler.MarkEach | lib/hccrawler.ts:531-533 | Marks the chain's urls one by one, leaving the cache CrawlModel.MarkUrls gives. |
| Crawler.HCCrawler.CheckRequestCount | lib/hccrawler.ts:612-618 | Counts one request; paused iff it was or a truthy maxRequest is reached. |
| Crawler.HCCrawler.FollowLinks | lib/hccrawler.ts:596-607 | Reaches CrawlModel.FollowLinks's state. |
| Crawler.HCCrawler.PushLinks | lib/hccrawler.ts:600-605 | Appends exactly CrawlModel.LinkEntries of the links and changes nothing else. |
| Crawler.HCCrawler.PushLink | lib/hccrawler.ts:601-604 | One link: appends its entry one level deeper unless `_skipRequest` says skip. |
| Crawler.LinkEntriesStep | lib/hccrawler.ts:600-605 | One link's entry precedes those of the later links. |

## Left out

- `tracePublicAPI`, `stringifyArgument`, `debugConsole`, `debugDialog`, `delay` and `hash` (lib/helper.ts): reflection, logging, timers and MD5. The digest is a function parameter.
- `getRobotsUrl`, `url.parse`, `url.resolve`, robots-parser and the device table are foreign libraries, so they are modelled as functions in `Platform`. `ResolveUrl` takes the protocol parser and `url.resolve` as parameters.
- Regular-expression entries of `checkDomainMatch` and of the domain lists: only string entries are modelled.
- Helper.LowerBound: the comparator is a total function on the modelled values. The JavaScript `(count / 2) \| 0` truncation is written as integer division, which agrees for the non-negative counts that occur.
- String order in `sort()` is the order of `char` values. JSON numbers are integers, so floating-point formatting is not modelled.
- Fingerprint.KeySourceSortsKeys: it states the sorted object rather than the literal text `{"device":"d","url":"u"}`.
- Browser lifecycle (`connect`, `launch`, `init`, `close`, `disconnect`, `version`, `userAgent`, `wsEndpoint`, `onIdle`, `_newCrawler`, `_crawl`, `customCrawl`, evaluatePage): browser I/O. Each crawl attempt is an input outcome.
- `queueSize` and `pendingQueueSize`, and the priority queue itself: the queue is a log of pushed entries with a paused flag. Its pull order, concurrency and removal are not modelled, so entries are handed to `StartRequest` by the caller.
- Exporter writes (`_exportHeader`, `_exportLine`, `_endExporter`), `_clearCacheOnEnd`, `_closeCache`: file and storage I/O. The exported line and the `onSuccess` result are the appended `delivered` result.
- `onError` and the contents of the `Error` objects: a failure is the `RequestFailed` event carrying the options, depth and previous url.
- `Disconnected` and the other events of the browser: not part of a request.
- Exceptions thrown by hooks, the cache or the exporter: every foreign call is total.
- Timers: `delay(options.delay)` and `retryDelay` waits are no-ops.
- `Promise.all` in `queue`, `_followLinks` and `_markRequestedRedirects`: modelled as sequential iteration. The skip checks of `_followLinks` read the cache, which pushing does not change, so order does not affect which links are pushed.
- `_followSitemap`: the source does not await the per-sitemap work. It is modelled as finishing before the request.
- One `fetch` function answers all robots.txt and sitemap requests of one entry, so a refetch within the same entry gets the same answer.
- A queued property set explicitly to `undefined` is modelled as not set.
- Headers with repeated names: KeyIgnoresHeaderOrder assumes distinct names.
- Helper.EscapeQuotes: it is the evidently intended quoting, with the separator taken literally. The code as written is Helper.EscapeQuotesAsWritten (see Findings). Separators are single characters; a longer separator spliced into the character class is not modelled.
- CrawlModel.ShouldRequest: `_skipRequest` and `_followLinks` hand the options object itself to the `preRequest` hook (lib/hccrawler.ts:337-345 and lib/hccrawler.ts:601-605), so a hook can change it in place before it is fingerprinted, marked or pushed. The hook here is a pure predicate on an options value, so that aliasing and any such change are not captured by ShouldRequest, SkipRequest, Crawler.HCCrawler.SkipRequest or the link pushing.
- Constructor options other than the request defaults, `maxConcurrency`, `maxRequest` and `cache` (`exporter`, `persistCache`, `jQuery`, `browserCache`, cookies, screenshot, viewport): page and export settings, not used by the modelled steps.
- lib/hccrawler.ts:148 merges the constructor's options into the shared `defaultOptions` object. Later crawlers in the same process then see earlier ones' options. The model uses a pure overlay on fresh defaults.
- dist/ duplicates of the TypeScript files are not part of this model.

## Findings

| source | as written | input that shows it | evidently intended | confidence | as-written member | corrected member |
|---|---|---|---|---|---|---|
| lib/helper.ts:68-69 | The separator is spliced unescaped into the RegExp character class `["${separator}\\r\\n]`. | Separator `]`: the value `"a"` is returned unquoted and reads back as `a` (BracketSeparatorBreaksRoundTrip). Separator `\`: `a` CR `b` is returned unquoted (BackslashSeparatorMissesCarriageReturn), and `bar` is quoted because the class holds the letter `r` (BackslashSeparatorQuotesLetterR). Separator `-`: the pattern does not compile and the call throws. | A class holding the quote, the literal separator, CR and LF, so every such value is quoted and reads back as itself (EscapeQuotesRoundTrip). | medium, not executed | Helper.EscapeQuotesAsWritten | Helper.EscapeQuotes |

## Notes

- Sitemaps: a sitemap that failed to download is still stored as `'1'`, so it is never retried. A robots.txt that failed is stored as `''`, which reads as missing, so it is fetched again next time. Both are modelled as written (SitemapVisitedOnce, EmptyRobotsTxtRefetched).
- Custom crawl option name: CONSTRUCTOR_OPTIONS names `customizeCrawl` while the constructor reads `customCrawl`, so a queued `customCrawl` is not refused. Modelled as written (CustomCrawlNotRefused).
