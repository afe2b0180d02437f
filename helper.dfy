/**
 * The self-contained helpers of lib/helper.ts: the binary search the priority
 * queue uses for insertion points, domain matching, sitemap <loc> extraction,
 * XML entity decoding, CSV field quoting and URL resolution.
 *
 * Node's url.parse/url.resolve are not part of this model: they are passed in
 * as functions wherever the source calls them.
 */
module Helper {
  import opened Wrappers

  // ------------------------------------------------------------------ lowerBound

  /** `value` splits `a`: every element that `comp` puts at or below `value`
      comes before every element it puts above `value`. */
  ghost predicate Partitioned<T>(a: seq<T>, value: T, comp: (T, T) -> int) {
    forall i, j :: 0 <= i < j < |a| && comp(a[j], value) <= 0 ==> comp(a[i], value) <= 0
  }

  ghost predicate SortedBy<T>(a: seq<T>, comp: (T, T) -> int) {
    forall i, j :: 0 <= i < j < |a| ==> comp(a[i], a[j]) <= 0
  }

  /** `comp` behaves as a comparator: "at or below" is transitive and total. */
  ghost predicate TotalPreorder<T(!new)>(comp: (T, T) -> int) {
    && (forall x, y, z :: comp(x, y) <= 0 && comp(y, z) <= 0 ==> comp(x, z) <= 0)
    && (forall x, y :: comp(x, y) <= 0 || comp(y, x) <= 0)
  }

  /**
   * The binary search of lowerBound. The probe steps past elements equal to
   * `value` (the test is `<= 0`), so on a partitioned sequence the result is
   * the first index whose element is strictly above `value`: a new element
   * inserted there goes after all equal ones.
   */
  method LowerBound<T>(a: seq<T>, value: T, comp: (T, T) -> int) returns (first: nat)
    ensures first <= |a|
    ensures Partitioned(a, value, comp) ==>
      && (forall i :: 0 <= i < first ==> comp(a[i], value) <= 0)
      && (forall i :: first <= i < |a| ==> comp(a[i], value) > 0)
    ensures Partitioned(a, value, comp) ==>
      forall i :: 0 <= i < |a| && comp(a[i], value) == 0 ==> i < first
  {
    first := 0;
    var count := |a|;
    while count > 0
      invariant 0 <= count && first + count <= |a|
      invariant Partitioned(a, value, comp) ==>
        && (forall i :: 0 <= i < first ==> comp(a[i], value) <= 0)
        && (forall i :: first + count <= i < |a| ==> comp(a[i], value) > 0)
      decreases count
    {
      var step := count / 2;
      var it := first + step;
      if comp(a[it], value) <= 0 {
        it := it + 1;
        first := it;
        count := count - (step + 1);
      } else {
        count := step;
      }
    }
  }

  /** On a sequence sorted by a comparator, every element is partitioned by any value. */
  lemma SortedIsPartitioned<T(!new)>(a: seq<T>, value: T, comp: (T, T) -> int)
    requires TotalPreorder(comp) && SortedBy(a, comp)
    ensures Partitioned(a, value, comp)
  {
    forall i, j | 0 <= i < j < |a| && comp(a[j], value) <= 0
      ensures comp(a[i], value) <= 0
    {
      assert comp(a[i], a[j]) <= 0;
    }
  }

  /** Inserting at the index lowerBound returns keeps a sorted sequence sorted. */
  lemma InsertAtBoundKeepsSorted<T(!new)>(a: seq<T>, value: T, comp: (T, T) -> int, k: nat)
    requires TotalPreorder(comp) && SortedBy(a, comp)
    requires k <= |a|
    requires forall i :: 0 <= i < k ==> comp(a[i], value) <= 0
    requires forall i :: k <= i < |a| ==> comp(a[i], value) > 0
    ensures SortedBy(a[..k] + [value] + a[k..], comp)
  {
    var b := a[..k] + [value] + a[k..];
    forall i, j | 0 <= i < j < |b| ensures comp(b[i], b[j]) <= 0 {
      if j < k || i > k {
        var i', j' := if i < k then i else i - 1, if j < k then j else j - 1;
        assert b[i] == a[i'] && b[j] == a[j'];
      } else if i == k {
        assert b[j] == a[j - 1];
        assert comp(a[j - 1], value) > 0;
      } else if j == k {
        assert b[i] == a[i];
      } else {
        assert i < k < j;
        assert b[i] == a[i] && b[j] == a[j - 1];
      }
    }
  }

  // ----------------------------------------------------------- checkDomainMatch

  /** `some(domains, domain => domain === hostname)`, for string entries. */
  function CheckDomainMatch(domains: seq<string>, hostname: string): (r: bool)
    ensures r <==> exists i :: 0 <= i < |domains| && domains[i] == hostname
    ensures domains == [] ==> !r
  {
    if domains == [] then false
    else domains[0] == hostname || CheckDomainMatch(domains[1..], hostname)
  }

  // ------------------------------------------------------------ getSitemapUrls

  /** Index of the first '<' at or after `i`, or |s| when there is none. */
  function NextLt(s: string, i: nat): (j: nat)
    requires i <= |s|
    ensures i <= j <= |s|
    ensures forall k :: i <= k < j ==> s[k] != '<'
    ensures j < |s| ==> s[j] == '<'
    decreases |s| - i
  {
    if i == |s| || s[i] == '<' then i else NextLt(s, i + 1)
  }

  /** "<loc>" at `p`, written out character by character. */
  predicate LocOpensAt(s: string, p: nat) {
    p + 5 <= |s| && s[p] == '<' && s[p + 1] == 'l' && s[p + 2] == 'o' && s[p + 3] == 'c' && s[p + 4] == '>'
  }

  /** "</loc>" at `e`, written out character by character. */
  predicate LocClosesAt(s: string, e: nat) {
    && e + 6 <= |s|
    && s[e] == '<' && s[e + 1] == '/' && s[e + 2] == 'l' && s[e + 3] == 'o' && s[e + 4] == 'c' && s[e + 5] == '>'
  }

  /** `<loc>` at `p`, a non-empty run without '<' up to `e`, then `</loc>`. */
  predicate IsLocAt(s: string, p: nat, e: nat) {
    && LocOpensAt(s, p)
    && p + 5 < e
    && LocClosesAt(s, e)
    && forall k :: p + 5 <= k < e ==> s[k] != '<'
  }

  /** The match of /<loc>([^<]+)<\/loc>/ that starts at `p`, given as the end
      of its captured text. The greedy `[^<]+` leaves no choice: there is a
      match exactly when the first '<' after the tag starts `</loc>`
      (LocMatchAtMeaning). */
  function LocMatchAt(s: string, p: nat): (m: Option<nat>)
    ensures m.Some? ==> p + 5 < m.value && m.value + 6 <= |s|
  {
    if LocOpensAt(s, p) then
      var e := NextLt(s, p + 5);
      if e > p + 5 && LocClosesAt(s, e) then Some(e) else None
    else None
  }

  /** A match is reported at `p` exactly when a <loc> element starts there,
      and it is reported with that element's end. */
  lemma LocMatchAtMeaning(s: string, p: nat)
    ensures LocMatchAt(s, p).Some? ==> IsLocAt(s, p, LocMatchAt(s, p).value)
    ensures forall e: nat :: IsLocAt(s, p, e) ==> LocMatchAt(s, p) == Some(e)
  {
    if LocOpensAt(s, p) {
      LocEndUnique(s, p);
    }
  }

  lemma LocMatchFound(s: string, p: nat)
    requires LocMatchAt(s, p).Some?
    ensures IsLocAt(s, p, LocMatchAt(s, p).value)
  {
    LocMatchAtMeaning(s, p);
  }

  /** Only the first '<' after the opening tag can end the captured text. */
  lemma LocEndUnique(s: string, p: nat)
    requires LocOpensAt(s, p)
    ensures forall e: nat :: IsLocAt(s, p, e) ==> NextLt(s, p + 5) == e
  {
    forall e: nat | IsLocAt(s, p, e) ensures NextLt(s, p + 5) == e {
    }
  }

  /** The texts a global scan for /<loc>([^<]+)<\/loc>/g captures from
      position `p` on: after a match the scan resumes behind its `</loc>`,
      otherwise one character further. */
  function LocTexts(s: string, p: nat): seq<string>
    requires p <= |s|
    decreases |s| - p
  {
    if p == |s| then []
    else match LocMatchAt(s, p)
      case Some(e) => [s[p + 5..e]] + LocTexts(s, e + 6)
      case None => LocTexts(s, p + 1)
  }

  /** Every text decoded, in order. */
  function UnescapeAll(xs: seq<string>): (r: seq<string>)
    ensures |r| == |xs|
    ensures forall i :: 0 <= i < |xs| ==> r[i] == Unescape(xs[i])
  {
    if xs == [] then [] else [Unescape(xs[0])] + UnescapeAll(xs[1..])
  }

  /** The URLs the scan collects from position `p` on: each captured text,
      unescaped. */
  function SitemapLocs(s: string, p: nat): seq<string>
    requires p <= |s|
  {
    UnescapeAll(LocTexts(s, p))
  }

  /** getSitemapUrls: the unescaped <loc> values, in document order. */
  method GetSitemapUrls(sitemapXml: string) returns (urls: seq<string>)
    ensures urls == SitemapLocs(sitemapXml, 0)
  {
    urls := [];
    ghost var texts: seq<string> := [];
    var p := 0;
    while p < |sitemapXml|
      invariant p <= |sitemapXml|
      invariant texts + LocTexts(sitemapXml, p) == LocTexts(sitemapXml, 0)
      invariant urls == UnescapeAll(texts)
      decreases |sitemapXml| - p
    {
      var m := LocMatchAt(sitemapXml, p);
      if m.Some? {
        var text := sitemapXml[p + 5..m.value];
        ScanPastMatch(sitemapXml, p, texts);
        UnescapeAllSnoc(texts, text);
        urls := urls + [Unescape(text)];
        texts := texts + [text];
        p := m.value + 6;
      } else {
        ScanPastNoMatch(sitemapXml, p, texts);
        p := p + 1;
      }
    }
    assert texts == LocTexts(sitemapXml, 0);
  }

  /** The loop's step at a match: its text joins those already captured. */
  lemma ScanPastMatch(s: string, p: nat, texts: seq<string>)
    requires p <= |s| && LocMatchAt(s, p).Some?
    requires texts + LocTexts(s, p) == LocTexts(s, 0)
    ensures texts + [s[p + 5..LocMatchAt(s, p).value]] + LocTexts(s, LocMatchAt(s, p).value + 6) == LocTexts(s, 0)
  {
    var e := LocMatchAt(s, p).value;
    LocMatchFound(s, p);
    LocTextStep(s, p, e);
    AppendAssoc(texts, s[p + 5..e], LocTexts(s, e + 6));
  }

  /** The loop's step where no match starts. */
  lemma ScanPastNoMatch(s: string, p: nat, texts: seq<string>)
    requires p < |s| && LocMatchAt(s, p).None?
    requires texts + LocTexts(s, p) == LocTexts(s, 0)
    ensures texts + LocTexts(s, p + 1) == LocTexts(s, 0)
  {
    NoMatchStep(s, p);
  }

  lemma AppendAssoc(a: seq<string>, x: string, b: seq<string>)
    ensures a + [x] + b == a + ([x] + b)
  {
  }

  /** Where no match starts, the scan moves on by one character. */
  lemma {:induction false} NoMatchStep(s: string, p: nat)
    requires p < |s| && LocMatchAt(s, p).None?
    ensures LocTexts(s, p) == LocTexts(s, p + 1)
  {
  }

  /** A match at `p` contributes its text, then the scan resumes behind
      `</loc>`. */
  lemma {:induction false} LocTextStep(s: string, p: nat, e: nat)
    requires IsLocAt(s, p, e)
    ensures LocTexts(s, p) == [s[p + 5..e]] + LocTexts(s, e + 6)
  {
    assert p < |s|;
    LocMatchAtMeaning(s, p);
    assert LocMatchAt(s, p) == Some(e);
  }

  lemma UnescapeAllSnoc(xs: seq<string>, x: string)
    ensures UnescapeAll(xs + [x]) == UnescapeAll(xs) + [Unescape(x)]
  {
  }

  lemma UnescapeAllCons(x: string, xs: seq<string>)
    ensures UnescapeAll([x] + xs) == [Unescape(x)] + UnescapeAll(xs)
  {
    assert ([x] + xs)[1..] == xs;
  }

  /** A match at `p` contributes its decoded text, then the scan resumes
      behind `</loc>`. */
  lemma {:induction false} LocStep(s: string, p: nat, e: nat)
    requires IsLocAt(s, p, e)
    ensures SitemapLocs(s, p) == [Unescape(s[p + 5..e])] + SitemapLocs(s, e + 6)
  {
    LocTextStep(s, p, e);
    UnescapeAllCons(s[p + 5..e], LocTexts(s, e + 6));
  }

  /** A document in which no "<loc>" starts yields no URLs. */
  lemma {:induction false} NoLocNoUrls(s: string, p: nat)
    requires p <= |s|
    requires forall q :: p <= q ==> !LocOpensAt(s, q)
    ensures LocTexts(s, p) == [] && SitemapLocs(s, p) == []
    decreases |s| - p
  {
    if p < |s| {
      assert !LocOpensAt(s, p);
      NoLocNoUrls(s, p + 1);
    }
  }

  /** The empty document and the cache marker "1" yield no URLs. */
  lemma EmptyAndMarkerYieldNoUrls()
    ensures SitemapLocs("", 0) == []
    ensures SitemapLocs("1", 0) == []
  {
    NoLocNoUrls("1", 0);
  }

  /** Every captured text is the non-empty, '<'-free content of a <loc>
      element that starts at or after `p`. */
  lemma {:induction false} LocTextsSound(s: string, p: nat)
    requires p <= |s|
    ensures forall t :: t in LocTexts(s, p) ==>
      exists q: nat, e: nat :: p <= q && IsLocAt(s, q, e) && t == s[q + 5..e]
    decreases |s| - p
  {
    if p < |s| {
      var m := LocMatchAt(s, p);
      if m.Some? {
        LocMatchFound(s, p);
        LocTextStep(s, p, m.value);
        LocTextsSound(s, m.value + 6);
      } else {
        NoMatchStep(s, p);
        LocTextsSound(s, p + 1);
      }
    }
  }

  /** Every collected URL is the unescaped content of a <loc> element that
      starts at or after `p`. */
  lemma SitemapLocsSound(s: string, p: nat)
    requires p <= |s|
    ensures forall u :: u in SitemapLocs(s, p) ==>
      exists q: nat, e: nat :: p <= q && IsLocAt(s, q, e) && u == Unescape(s[q + 5..e])
  {
    var l := LocTexts(s, p);
    LocTextsSound(s, p);
    forall u | u in SitemapLocs(s, p)
      ensures exists q: nat, e: nat :: p <= q && IsLocAt(s, q, e) && u == Unescape(s[q + 5..e])
    {
      var i :| 0 <= i < |l| && SitemapLocs(s, p)[i] == u;
      assert l[i] in l;
      var q: nat, e: nat :| p <= q && IsLocAt(s, q, e) && l[i] == s[q + 5..e];
    }
  }

  /** Two <loc> elements never overlap: a later one starts behind the
      earlier one's `</loc>`. */
  lemma NoOverlap(s: string, p: nat, e: nat, q: nat, f: nat)
    requires IsLocAt(s, p, e) && IsLocAt(s, q, f) && p < q
    ensures e + 6 <= q
  {
    NoLocInside(s, p, e);
  }

  /** No "<loc>" starts inside a <loc> element. */
  lemma NoLocInside(s: string, p: nat, e: nat)
    requires IsLocAt(s, p, e)
    ensures forall k :: p < k < e + 6 ==> !LocOpensAt(s, k)
  {
  }

  /** A match found before a <loc> element ends before it, and the scan
      resumes behind the match. */
  lemma SkipMatch(s: string, p: nat, q: nat, f: nat)
    requires p < q && IsLocAt(s, q, f) && LocMatchAt(s, p).Some?
    ensures LocMatchAt(s, p).value + 6 <= q
    ensures LocTexts(s, p) == [s[p + 5..LocMatchAt(s, p).value]] + LocTexts(s, LocMatchAt(s, p).value + 6)
  {
    var e := LocMatchAt(s, p).value;
    LocMatchFound(s, p);
    NoOverlap(s, p, e, q, f);
    LocTextStep(s, p, e);
  }

  /** Every <loc>X</loc> at or after `p` is captured: the scan cannot step
      over it, because no earlier match overlaps it. */
  lemma {:induction false} LocTextsComplete(s: string, p: nat, q: nat, f: nat)
    requires p <= q && IsLocAt(s, q, f)
    ensures s[q + 5..f] in LocTexts(s, p)
    decreases |s| - p
  {
    if p == q {
      LocTextStep(s, q, f);
    } else {
      var m := LocMatchAt(s, p);
      if m.Some? {
        SkipMatch(s, p, q, f);
        LocTextsComplete(s, m.value + 6, q, f);
      } else {
        NoMatchStep(s, p);
        LocTextsComplete(s, p + 1, q, f);
      }
    }
  }

  /** The decoded content of every <loc> element at or after `p` is among
      the URLs. */
  lemma SitemapLocsComplete(s: string, p: nat, q: nat, f: nat)
    requires p <= q && IsLocAt(s, q, f)
    ensures Unescape(s[q + 5..f]) in SitemapLocs(s, p)
  {
    var l := LocTexts(s, p);
    LocTextsComplete(s, p, q, f);
    var i :| 0 <= i < |l| && l[i] == s[q + 5..f];
    assert SitemapLocs(s, p)[i] == Unescape(s[q + 5..f]);
  }

  /** `u1` occurs in `l` before `u2` does. */
  predicate Precedes(l: seq<string>, u1: string, u2: string) {
    exists i, j :: 0 <= i < j < |l| && l[i] == u1 && l[j] == u2
  }

  lemma PrecedesHead(u1: string, l: seq<string>, u2: string)
    requires u2 in l
    ensures Precedes([u1] + l, u1, u2)
  {
    var j :| 0 <= j < |l| && l[j] == u2;
    assert ([u1] + l)[0] == u1 && ([u1] + l)[j + 1] == u2;
  }

  lemma PrecedesCons(x: string, l: seq<string>, u1: string, u2: string)
    requires Precedes(l, u1, u2)
    ensures Precedes([x] + l, u1, u2)
  {
    var i, j :| 0 <= i < j < |l| && l[i] == u1 && l[j] == u2;
    assert ([x] + l)[i + 1] == u1 && ([x] + l)[j + 1] == u2;
  }

  /** A scan that starts on the earlier of two <loc> elements captures it
      first and the later one after it. */
  lemma {:induction false} FirstOfTwoTexts(s: string, q1: nat, f1: nat, q2: nat, f2: nat)
    requires q1 < q2 && IsLocAt(s, q1, f1) && IsLocAt(s, q2, f2)
    ensures Precedes(LocTexts(s, q1), s[q1 + 5..f1], s[q2 + 5..f2])
  {
    NoOverlap(s, q1, f1, q2, f2);
    LocTextStep(s, q1, f1);
    LocTextsComplete(s, f1 + 6, q2, f2);
    PrecedesHead(s[q1 + 5..f1], LocTexts(s, f1 + 6), s[q2 + 5..f2]);
  }

  /** Of two <loc> elements, the earlier one's text is captured before the
      later one's. */
  lemma {:induction false} LocTextsInOrder(s: string, p: nat, q1: nat, f1: nat, q2: nat, f2: nat)
    requires p <= q1 < q2 && IsLocAt(s, q1, f1) && IsLocAt(s, q2, f2)
    ensures Precedes(LocTexts(s, p), s[q1 + 5..f1], s[q2 + 5..f2])
    decreases |s| - p, 1
  {
    if p == q1 {
      FirstOfTwoTexts(s, q1, f1, q2, f2);
    } else if LocMatchAt(s, p).Some? {
      InOrderPastMatch(s, p, q1, f1, q2, f2);
    } else {
      InOrderPastNoMatch(s, p, q1, f1, q2, f2);
    }
  }

  /** The order is kept when the scan passes a match before both elements. */
  lemma {:induction false} InOrderPastMatch(s: string, p: nat, q1: nat, f1: nat, q2: nat, f2: nat)
    requires p < q1 < q2 && IsLocAt(s, q1, f1) && IsLocAt(s, q2, f2)
    requires LocMatchAt(s, p).Some?
    ensures Precedes(LocTexts(s, p), s[q1 + 5..f1], s[q2 + 5..f2])
    decreases |s| - p, 0
  {
    MatchEndsBefore(s, p, q1, f1);
    LocTextsInOrder(s, LocMatchAt(s, p).value + 6, q1, f1, q2, f2);
    PrecedesPastMatch(s, p, q1, f1, s[q1 + 5..f1], s[q2 + 5..f2]);
  }

  lemma MatchEndsBefore(s: string, p: nat, q: nat, f: nat)
    requires p < q && IsLocAt(s, q, f) && LocMatchAt(s, p).Some?
    ensures LocMatchAt(s, p).value + 6 <= q
  {
    LocMatchFound(s, p);
    NoOverlap(s, p, LocMatchAt(s, p).value, q, f);
  }

  lemma PrecedesPastMatch(s: string, p: nat, q: nat, f: nat, u1: string, u2: string)
    requires p < q && IsLocAt(s, q, f) && LocMatchAt(s, p).Some?
    requires Precedes(LocTexts(s, LocMatchAt(s, p).value + 6), u1, u2)
    ensures Precedes(LocTexts(s, p), u1, u2)
  {
    var e := LocMatchAt(s, p).value;
    SkipMatch(s, p, q, f);
    PrecedesCons(s[p + 5..e], LocTexts(s, e + 6), u1, u2);
  }

  /** The order is kept when the scan steps over a position without a match. */
  lemma {:induction false} InOrderPastNoMatch(s: string, p: nat, q1: nat, f1: nat, q2: nat, f2: nat)
    requires p < q1 < q2 && IsLocAt(s, q1, f1) && IsLocAt(s, q2, f2)
    requires LocMatchAt(s, p).None?
    ensures Precedes(LocTexts(s, p), s[q1 + 5..f1], s[q2 + 5..f2])
    decreases |s| - p, 0
  {
    NoMatchStep(s, p);
    LocTextsInOrder(s, p + 1, q1, f1, q2, f2);
  }

  /** The URLs come out in document order. */
  lemma SitemapLocsInOrder(s: string, p: nat, q1: nat, f1: nat, q2: nat, f2: nat)
    requires p <= q1 < q2 && IsLocAt(s, q1, f1) && IsLocAt(s, q2, f2)
    ensures Precedes(SitemapLocs(s, p), Unescape(s[q1 + 5..f1]), Unescape(s[q2 + 5..f2]))
  {
    var l := LocTexts(s, p);
    LocTextsInOrder(s, p, q1, f1, q2, f2);
    var i, j :| 0 <= i < j < |l| && l[i] == s[q1 + 5..f1] && l[j] == s[q2 + 5..f2];
    assert SitemapLocs(s, p)[i] == Unescape(s[q1 + 5..f1]);
    assert SitemapLocs(s, p)[j] == Unescape(s[q2 + 5..f2]);
  }

  const TWO_LOCS: string := "<loc>a</loc><loc>b&amp;c</loc>"

  lemma FirstLocOfTwo()
    ensures IsLocAt(TWO_LOCS, 0, 6) && TWO_LOCS[5..6] == "a"
  {
    var s := TWO_LOCS;
    assert s[0] == '<' && s[1] == 'l' && s[2] == 'o' && s[3] == 'c' && s[4] == '>';
    assert s[6] == '<' && s[7] == '/' && s[8] == 'l' && s[9] == 'o' && s[10] == 'c' && s[11] == '>';
    assert s[5] == 'a';
  }

  lemma SecondLocOfTwo()
    ensures IsLocAt(TWO_LOCS, 12, 24) && TWO_LOCS[17..24] == "b&amp;c"
  {
    var s := TWO_LOCS;
    assert |s| == 30;
    assert s[12] == '<' && s[13] == 'l' && s[14] == 'o' && s[15] == 'c' && s[16] == '>';
    assert s[24] == '<' && s[25] == '/' && s[26] == 'l' && s[27] == 'o' && s[28] == 'c' && s[29] == '>';
    assert s[17] == 'b' && s[18] == '&' && s[19] == 'a' && s[20] == 'm' && s[21] == 'p' && s[22] == ';' && s[23] == 'c';
  }

  /** Two elements come back in document order, each decoded. */
  lemma TwoLocsInOrder()
    ensures SitemapLocs(TWO_LOCS, 0) == ["a", "b&c"]
  {
    FirstLocOfTwo();
    SecondLocOfTwo();
    LocStep(TWO_LOCS, 0, 6);
    LocStep(TWO_LOCS, 12, 24);
    AmpersandInText();
    NoLocNoUrls(TWO_LOCS, 30);
  }

  // ------------------------------------------------------------------ unescape

  /** `s.replace(new RegExp(pattern, 'g'), replacement)` for a literal
      pattern: a left-to-right scan replacing non-overlapping occurrences. */
  function ReplaceAll(s: string, pattern: string, replacement: string): (r: string)
    requires |pattern| > 0
    ensures pattern[0] !in s ==> r == s
    ensures |replacement| <= |pattern| ==> |r| <= |s|
    decreases |s|
  {
    if |s| < |pattern| then s
    else if s[..|pattern|] == pattern then replacement + ReplaceAll(s[|pattern|..], pattern, replacement)
    else [s[0]] + ReplaceAll(s[1..], pattern, replacement)
  }

  /** Decodes the five predefined XML entities, one pass per entity, `&amp;` first. */
  function Unescape(src: string): (r: string)
    ensures '&' !in src ==> r == src
    ensures |r| <= |src|
  {
    var s1 := ReplaceAll(src, "&amp;", "&");
    var s2 := ReplaceAll(s1, "&apos;", "'");
    var s3 := ReplaceAll(s2, "&quot;", "\"");
    var s4 := ReplaceAll(s3, "&lt;", "<");
    ReplaceAll(s4, "&gt;", ">")
  }

  /** Because `&amp;` is decoded first, a doubly escaped `&amp;lt;` comes out as `<`. */
  lemma AmpersandDecodedFirst()
    ensures Unescape("&amp;lt;") == "<"
  {
    var s := "&amp;lt;";
    assert ReplaceAll(s, "&amp;", "&") == "&lt;" by {
      assert s[..5] == "&amp;" && s[5..] == "lt;";
      assert ReplaceAll("lt;", "&amp;", "&") == "lt;";
    }
    assert ReplaceAll("&lt;", "&apos;", "'") == "&lt;";
    assert ReplaceAll("&lt;", "&quot;", "\"") == "&lt;";
    assert ReplaceAll("&lt;", "&lt;", "<") == "<" by {
      assert "&lt;"[..4] == "&lt;" && "&lt;"[4..] == "";
    }
  }

  lemma AmpersandInText()
    ensures Unescape("b&amp;c") == "b&c"
  {
    var s := "b&amp;c";
    assert ReplaceAll(s, "&amp;", "&") == "b&c" by {
      assert s[..5] != "&amp;" && s[1..] == "&amp;c";
      assert s[1..][..5] == "&amp;" && s[1..][5..] == "c";
    }
  }

  // -------------------------------------------------------------- escapeQuotes

  const DEFAULT_SEPARATOR: char := ','

  /** A character of the class ["<separator>\r\n]. */
  predicate IsSpecial(c: char, separator: char) {
    c == '"' || c == separator || c == '\r' || c == '\n'
  }

  predicate NeedsQuoting(value: string, separator: char) {
    exists i :: 0 <= i < |value| && IsSpecial(value[i], separator)
  }

  /** `value.replace(/"/g, '""')`. */
  function DoubleQuotes(s: string): (r: string)
    ensures '"' !in s ==> r == s
  {
    if s == [] then []
    else (if s[0] == '"' then "\"\"" else [s[0]]) + DoubleQuotes(s[1..])
  }

  /** escapeQuotes as intended: null/undefined become the empty field; a
      value holding a quote, the separator, CR or LF is wrapped in quotes with
      its quotes doubled; anything else is returned as it is. The source
      splices the separator into a regular expression unescaped, which reads
      differently for three separators (EscapeQuotesAsWritten). */
  function EscapeQuotes(value: Option<string>, separator: char): (r: string)
    ensures value.None? ==> r == ""
    ensures value.Some? && !NeedsQuoting(value.value, separator) ==> r == value.value
    ensures value.Some? && NeedsQuoting(value.value, separator) ==>
      |r| >= 2 && r[0] == '"' && r[|r| - 1] == '"'
  {
    match value
    case None => ""
    case Some(v) => if NeedsQuoting(v, separator) then "\"" + DoubleQuotes(v) + "\"" else v
  }

  /** Reads the inside of a quoted field: each `""` stands for one quote, a
      lone quote is malformed. */
  function Undouble(s: string): Option<string>
    decreases |s|
  {
    if s == [] then Some([])
    else if s[0] != '"' then
      match Undouble(s[1..])
      case Some(t) => Some([s[0]] + t)
      case None => None
    else if |s| >= 2 && s[1] == '"' then
      match Undouble(s[2..])
      case Some(t) => Some("\"" + t)
      case None => None
    else None
  }

  /** Reads one field as section 2 of RFC 4180 writes it. */
  function ParseField(f: string): Option<string> {
    if |f| >= 2 && f[0] == '"' && f[|f| - 1] == '"' then Undouble(f[1..|f| - 1])
    else if '"' in f then None
    else Some(f)
  }

  lemma {:induction false} UndoubleDoubleQuotes(s: string)
    ensures Undouble(DoubleQuotes(s)) == Some(s)
  {
    if s != [] {
      UndoubleDoubleQuotes(s[1..]);
      var d := DoubleQuotes(s[1..]);
      assert s == [s[0]] + s[1..];
      if s[0] == '"' {
        assert DoubleQuotes(s) == "\"\"" + d;
        assert ("\"\"" + d)[2..] == d;
      } else {
        assert DoubleQuotes(s) == [s[0]] + d;
        assert ([s[0]] + d)[1..] == d;
      }
    }
  }

  /** Every non-null value survives escapeQuotes followed by an RFC 4180 read. */
  lemma EscapeQuotesRoundTrip(v: string, separator: char)
    ensures ParseField(EscapeQuotes(Some(v), separator)) == Some(v)
  {
    if NeedsQuoting(v, separator) {
      var f := "\"" + DoubleQuotes(v) + "\"";
      assert f[1..|f| - 1] == DoubleQuotes(v);
      UndoubleDoubleQuotes(v);
    } else {
      forall i | 0 <= i < |v| ensures v[i] != '"' {
        assert !IsSpecial(v[i], separator);
      }
      assert '"' !in v;
    }
  }

  /** Hence two different values never produce the same field. */
  lemma EscapeQuotesInjective(a: string, b: string, separator: char)
    requires EscapeQuotes(Some(a), separator) == EscapeQuotes(Some(b), separator)
    ensures a == b
  {
    EscapeQuotesRoundTrip(a, separator);
    EscapeQuotesRoundTrip(b, separator);
  }

  /** A separator that stands for itself inside a regular-expression
      character class that follows a `"`. */
  predicate PlainSeparator(separator: char) {
    separator != '\\' && separator != ']' && separator != '-'
  }

  /** `new RegExp(`["${separator}\\r\\n]`).test(value)`, or None when the
      pattern does not compile. With `-` the class holds the range from `"`
      down to CR, which is out of order. With `\\` the separator escapes the
      backslash of `\\r`, so the class is `"`, `\\`, `r` and LF. With `]`
      the class closes after `"` and the rest must follow literally. */
  function QuotePatternTest(value: string, separator: char): (r: Option<bool>)
    ensures r.None? <==> separator == '-'
    ensures PlainSeparator(separator) ==> r == Some(NeedsQuoting(value, separator))
  {
    if separator == '-' then None
    else if separator == '\\' then
      Some(exists i :: 0 <= i < |value| && value[i] in "\"\\r\n")
    else if separator == ']' then
      Some(exists i :: 0 <= i && i + 4 <= |value| && value[i] == '"' && value[i + 1] == '\r' && value[i + 2] == '\n' && value[i + 3] == ']')
    else Some(NeedsQuoting(value, separator))
  }

  /** escapeQuotes as written: null/undefined give the empty field before the
      pattern is built; a pattern that does not compile throws. */
  function EscapeQuotesAsWritten(value: Option<string>, separator: char): (r: Result<string, string>)
    ensures value.None? ==> r == Success("")
    ensures value.Some? ==> (r.Failure? <==> separator == '-')
  {
    match value
    case None => Success("")
    case Some(v) =>
      match QuotePatternTest(v, separator)
      case None => Failure("SyntaxError: range out of order in character class")
      case Some(true) => Success("\"" + DoubleQuotes(v) + "\"")
      case Some(false) => Success(v)
  }

  /** For every other separator the source does what it evidently intends. */
  lemma AsWrittenAgreesForPlainSeparator(value: Option<string>, separator: char)
    requires PlainSeparator(separator)
    ensures EscapeQuotesAsWritten(value, separator) == Success(EscapeQuotes(value, separator))
  {
  }

  /** With `]` as separator a value holding quotes is returned as it is, so
      the field reads back as a different value. */
  lemma BracketSeparatorBreaksRoundTrip()
    ensures EscapeQuotesAsWritten(Some("\"a\""), ']') == Success("\"a\"")
    ensures ParseField("\"a\"") == Some("a")
    ensures EscapeQuotes(Some("\"a\""), ']') == "\"\"\"a\"\"\""
  {
    var v := "\"a\"";
    assert |v| == 3;
    assert IsSpecial(v[0], ']');
    assert v[1..|v| - 1] == "a";
    assert Undouble("a") == Some("a") by {
      assert "a"[0] == 'a' && "a"[1..] == [];
      assert Undouble([]) == Some([]);
      assert ['a'] + [] == "a";
    }
    assert DoubleQuotes(v) == "\"\"a\"\"" by {
      assert v[1..] == "a\"" && v[1..][1..] == "\"";
    }
  }

  /** With `\\` as separator a CR is left unquoted, though the intended
      class holds it. */
  lemma BackslashSeparatorMissesCarriageReturn()
    ensures EscapeQuotesAsWritten(Some("a\rb"), '\\') == Success("a\rb")
    ensures EscapeQuotes(Some("a\rb"), '\\') == "\"a\rb\""
  {
    var v := "a\rb";
    assert !exists i :: 0 <= i < |v| && v[i] in "\"\\r\n";
    assert IsSpecial(v[1], '\\');
  }

  /** With `\\` as separator the class holds the letter `r`, so `bar` is
      quoted, though the intended class does not hold `r`. */
  lemma BackslashSeparatorQuotesLetterR()
    ensures EscapeQuotesAsWritten(Some("bar"), '\\') == Success("\"bar\"")
    ensures EscapeQuotes(Some("bar"), '\\') == "bar"
  {
    var w := "bar";
    assert w[2] in "\"\\r\n";
    assert QuotePatternTest(w, '\\') == Some(true);
    assert '"' !in w;
    assert "\"" + DoubleQuotes(w) + "\"" == "\"bar\"";
    assert !NeedsQuoting(w, '\\') by {
      forall i | 0 <= i < |w| ensures !IsSpecial(w[i], '\\') {
      }
    }
  }

  // ---------------------------------------------------------------- resolveUrl

  /** The characters JavaScript's \s matches, which lodash's trim removes. */
  predicate IsWhitespace(c: char) {
    || c == ' ' || c == '\t' || c == '\n' || c == '\U{B}' || c == '\U{C}' || c == '\r'
    || c == '\U{A0}' || c == '\U{1680}' || ('\U{2000}' <= c <= '\U{200A}')
    || c == '\U{2028}' || c == '\U{2029}' || c == '\U{202F}' || c == '\U{205F}'
    || c == '\U{3000}' || c == '\U{FEFF}'
  }

  function TrimStart(s: string): (r: string)
    ensures |r| <= |s| && r == s[|s| - |r|..]
    ensures forall i :: 0 <= i < |s| - |r| ==> IsWhitespace(s[i])
    ensures r == [] || !IsWhitespace(r[0])
  {
    if s == [] || !IsWhitespace(s[0]) then s else TrimStart(s[1..])
  }

  function TrimEnd(s: string): (r: string)
    ensures |r| <= |s| && r == s[..|r|]
    ensures forall i :: |r| <= i < |s| ==> IsWhitespace(s[i])
    ensures r == [] || !IsWhitespace(r[|r| - 1])
  {
    if s == [] || !IsWhitespace(s[|s| - 1]) then s else TrimEnd(s[..|s| - 1])
  }

  /** lodash trim: the slice of `s` left after dropping whitespace at both ends. */
  function Trim(s: string): (r: string)
    ensures exists i, j ::
              (0 <= i <= j <= |s| && r == s[i..j]
               && (forall k :: 0 <= k < i ==> IsWhitespace(s[k]))
               && (forall k :: j <= k < |s| ==> IsWhitespace(s[k])))
    ensures r == [] || (!IsWhitespace(r[0]) && !IsWhitespace(r[|r| - 1]))
  {
    var e := TrimEnd(s);
    var r := TrimStart(e);
    assert r == s[|e| - |r|..|e|];
    r
  }

  /** `s.split('#')[0]`: everything before the first '#'. */
  function BeforeHash(s: string): (r: string)
    ensures '#' !in r
    ensures |r| <= |s| && r == s[..|r|]
    ensures |r| < |s| ==> s[|r|] == '#'
  {
    if s == [] || s[0] == '#' then [] else [s[0]] + BeforeHash(s[1..])
  }

  /**
   * resolveUrl: blank and fragment-only links give null; an http(s) link is
   * kept, a link without a protocol is resolved against `baseUrl`, both with
   * their fragment cut off; any other protocol gives null. `protocolOf`
   * (url.parse(u).protocol, "" for none) and `resolve` (url.resolve) are
   * Node's.
   */
  function ResolveUrl(url: string, baseUrl: string, protocolOf: string -> string,
                      resolve: (string, string) -> string): (r: Option<string>)
    ensures Trim(url) == [] ==> r.None?
    ensures Trim(url) != [] && Trim(url)[0] == '#' ==> r.None?
    ensures r.Some? ==> '#' !in r.value
    ensures r.Some? && protocolOf(Trim(url)) != "" ==>
      |r.value| <= |Trim(url)| && Trim(url)[..|r.value|] == r.value && (|r.value| < |Trim(url)| ==> Trim(url)[|r.value|] == '#')
  {
    var u := Trim(url);
    if u == [] then None
    else if u[0] == '#' then None
    else
      var protocol := protocolOf(u);
      if protocol == "http:" || protocol == "https:" then Some(BeforeHash(u))
      else if protocol == "" then Some(BeforeHash(resolve(baseUrl, u)))
      else None
  }
}
