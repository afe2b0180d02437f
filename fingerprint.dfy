/**
 * The duplicate-detection fingerprint of lib/helper.ts: `generateKey` picks
 * url, device, userAgent and extraHeaders out of a request's options,
 * serialises them with JSON.stringify under `jsonStableReplacer` (which
 * rebuilds every plain object with its keys sorted), hashes the text and
 * keeps the first MAX_KEY_LENGTH characters of the digest.
 *
 * The MD5 digest is not part of this model: `GenerateKey` takes the hash as
 * a function.
 */
module Fingerprint {
  import opened Wrappers

  const PICKED_OPTION_FIELDS: seq<string> := ["url", "device", "userAgent", "extraHeaders"]
  const MAX_KEY_LENGTH: nat := 10

  /** JSON values as JSON.stringify sees them; an object is its own
      properties in insertion order. Numbers are integers here. */
  datatype Json =
    | JNull
    | JBool(b: bool)
    | JNumber(n: int)
    | JString(s: string)
    | JArray(items: seq<Json>)
    | JObject(members: seq<Member>)

  datatype Member = Member(key: string, value: Json)

  // ------------------------------------------------------------ key order

  /** Array.prototype.sort's default order on strings: lexicographic by
      character, a proper prefix first. */
  predicate StrLess(a: string, b: string) {
    if a == [] then b != []
    else if b == [] then false
    else a[0] < b[0] || (a[0] == b[0] && StrLess(a[1..], b[1..]))
  }

  lemma {:induction false} StrLessIrreflexive(a: string)
    ensures !StrLess(a, a)
  {
    if a != [] {
      StrLessIrreflexive(a[1..]);
    }
  }

  lemma {:induction false} StrLessTransitive(a: string, b: string, c: string)
    requires StrLess(a, b) && StrLess(b, c)
    ensures StrLess(a, c)
  {
    if a != [] && a[0] == b[0] && b[0] == c[0] {
      StrLessTransitive(a[1..], b[1..], c[1..]);
    }
  }

  lemma {:induction false} StrLessTotal(a: string, b: string)
    requires a != b
    ensures StrLess(a, b) || StrLess(b, a)
  {
    if a != [] && b != [] && a[0] == b[0] {
      assert a == [a[0]] + a[1..] && b == [b[0]] + b[1..];
      StrLessTotal(a[1..], b[1..]);
    }
  }

  lemma StrLessAsymmetric(a: string, b: string)
    requires StrLess(a, b)
    ensures !StrLess(b, a)
  {
    if StrLess(b, a) {
      StrLessTransitive(a, b, a);
      StrLessIrreflexive(a);
    }
  }

  /** The two orders properties are listed in: the replacer's `sort()`, and
      the ascending numeric order JSON.stringify gives array indices. */
  datatype KeyOrder = SortOrder | IndexOrder

  /** On array indices a shorter numeral is the smaller number, and numerals
      of one length compare digit by digit (IndexOrderIsNumeric). */
  predicate KeyLess(ord: KeyOrder, a: string, b: string) {
    match ord
    case SortOrder => StrLess(a, b)
    case IndexOrder => |a| < |b| || (|a| == |b| && StrLess(a, b))
  }

  lemma KeyLessIrreflexive(ord: KeyOrder, a: string)
    ensures !KeyLess(ord, a, a)
  {
    StrLessIrreflexive(a);
  }

  lemma KeyLessTransitive(ord: KeyOrder, a: string, b: string, c: string)
    requires KeyLess(ord, a, b) && KeyLess(ord, b, c)
    ensures KeyLess(ord, a, c)
  {
    if StrLess(a, b) && StrLess(b, c) {
      StrLessTransitive(a, b, c);
    }
  }

  lemma KeyLessTotal(ord: KeyOrder, a: string, b: string)
    requires a != b
    ensures KeyLess(ord, a, b) || KeyLess(ord, b, a)
  {
    StrLessTotal(a, b);
  }

  lemma KeyLessAsymmetric(ord: KeyOrder, a: string, b: string)
    requires KeyLess(ord, a, b)
    ensures !KeyLess(ord, b, a)
  {
    if KeyLess(ord, b, a) {
      KeyLessTransitive(ord, a, b, a);
      KeyLessIrreflexive(ord, a);
    }
  }

  predicate HasKey(ms: seq<Member>, k: string) {
    exists i :: 0 <= i < |ms| && ms[i].key == k
  }

  /** An object's own keys are pairwise different. */
  predicate DistinctKeys(ms: seq<Member>) {
    forall i, j :: 0 <= i < j < |ms| ==> ms[i].key != ms[j].key
  }

  /** A member in front of members with other keys keeps keys distinct. */
  lemma DistinctCons(m: Member, t: seq<Member>)
    requires DistinctKeys(t) && !HasKey(t, m.key)
    ensures DistinctKeys([m] + t)
  {
    forall i, j | 0 <= i < j < |[m] + t| ensures ([m] + t)[i].key != ([m] + t)[j].key {
      if i == 0 {
        assert ([m] + t)[j] == t[j - 1];
      } else {
        assert ([m] + t)[i] == t[i - 1] && ([m] + t)[j] == t[j - 1];
      }
    }
  }

  /** Keys strictly ascending, so no key repeats. */
  predicate StrictlySorted(ord: KeyOrder, ms: seq<Member>) {
    |ms| <= 1 || (KeyLess(ord, ms[0].key, ms[1].key) && StrictlySorted(ord, ms[1..]))
  }

  /** In a strictly sorted sequence the first key is below every later one. */
  lemma {:induction false} StrictHeadLeast(ord: KeyOrder, ms: seq<Member>, i: nat)
    requires StrictlySorted(ord, ms) && 0 < i < |ms|
    ensures KeyLess(ord, ms[0].key, ms[i].key)
  {
    if i > 1 {
      StrictHeadLeast(ord, ms[1..], i - 1);
      KeyLessTransitive(ord, ms[0].key, ms[1].key, ms[i].key);
    }
  }

  /** Strict order holds between any two positions, not only neighbours. */
  lemma {:induction false} StrictPairs(ord: KeyOrder, ms: seq<Member>, i: nat, j: nat)
    requires StrictlySorted(ord, ms) && i < j < |ms|
    ensures KeyLess(ord, ms[i].key, ms[j].key)
  {
    if i == 0 {
      StrictHeadLeast(ord, ms, j);
    } else {
      StrictPairs(ord, ms[1..], i - 1, j - 1);
    }
  }

  /** One step of insertion sort: `m` goes in front of the first member
      whose key sorts above its own. */
  function Insert(ord: KeyOrder, m: Member, s: seq<Member>): (r: seq<Member>)
    ensures forall x :: x in r <==> x == m || x in s
    ensures r != [] && (s == [] || r[0] == m || r[0] == s[0])
    ensures StrictlySorted(ord, s) && !HasKey(s, m.key) ==> StrictlySorted(ord, r)
  {
    if s == [] || KeyLess(ord, m.key, s[0].key) then
      [m] + s
    else
      var rest := Insert(ord, m, s[1..]);
      assert StrictlySorted(ord, s) && !HasKey(s, m.key) ==> StrictlySorted(ord, [s[0]] + rest) by {
        if StrictlySorted(ord, s) && !HasKey(s, m.key) {
          assert m.key != s[0].key;
          KeyLessTotal(ord, m.key, s[0].key);
          forall i | 0 <= i < |s| - 1 ensures s[1..][i].key != m.key {
            assert s[1..][i] == s[i + 1];
          }
        }
      }
      [s[0]] + rest
  }

  /** Insertion sort by key. Under SortOrder it is the
      `Object.keys(val).sort()` of the replacer. */
  function SortMembers(ord: KeyOrder, ms: seq<Member>): (r: seq<Member>)
    ensures forall x :: x in r <==> x in ms
    ensures DistinctKeys(ms) ==> StrictlySorted(ord, r)
  {
    if ms == [] then []
    else
      var rest := SortMembers(ord, ms[1..]);
      assert DistinctKeys(ms) ==> DistinctKeys(ms[1..]) && !HasKey(rest, ms[0].key) by {
        if DistinctKeys(ms) {
          forall i | 0 <= i < |rest| ensures rest[i].key != ms[0].key {
            assert rest[i] in ms[1..];
            var j :| 0 <= j < |ms[1..]| && ms[1..][j] == rest[i];
            assert ms[j + 1] == rest[i];
          }
        }
      }
      Insert(ord, ms[0], rest)
  }

  /** Two strictly sorted sequences holding the same members are equal. */
  lemma {:induction false} StrictlySortedUnique(ord: KeyOrder, a: seq<Member>, b: seq<Member>)
    requires StrictlySorted(ord, a) && StrictlySorted(ord, b)
    requires forall x :: x in a <==> x in b
    ensures a == b
    decreases |a|
  {
    assert a != [] ==> a[0] in b;
    assert b != [] ==> b[0] in a;
    if a != [] {
      var j :| 0 <= j < |b| && b[j] == a[0];
      assert b[0] in a;
      var i :| 0 <= i < |a| && a[i] == b[0];
      if j > 0 {
        StrictHeadLeast(ord, b, j);
        if i > 0 {
          StrictHeadLeast(ord, a, i);
          KeyLessAsymmetric(ord, a[0].key, a[i].key);
        } else {
          KeyLessIrreflexive(ord, b[0].key);
        }
      }
      assert a[0] == b[0];
      forall x ensures x in a[1..] <==> x in b[1..] {
        if x in a[1..] {
          var k :| 0 <= k < |a[1..]| && a[1..][k] == x;
          StrictHeadLeast(ord, a, k + 1);
          KeyLessIrreflexive(ord, a[0].key);
          assert x in b;
        }
        if x in b[1..] {
          var k :| 0 <= k < |b[1..]| && b[1..][k] == x;
          StrictHeadLeast(ord, b, k + 1);
          KeyLessIrreflexive(ord, b[0].key);
          assert x in a;
        }
      }
      StrictlySortedUnique(ord, a[1..], b[1..]);
      assert a == [a[0]] + a[1..] && b == [b[0]] + b[1..];
    }
  }

  // ------------------------------------------------------- property order

  const MAX_ARRAY_INDEX: string := "4294967294"

  predicate IsDigit(c: char) {
    '0' <= c <= '9'
  }

  predicate AllDigits(k: string) {
    forall i :: 0 <= i < |k| ==> IsDigit(k[i])
  }

  /** An array index: the decimal numeral, without sign or leading zero, of
      an integer from 0 to 2^32 - 2. A ten-digit numeral is in range when it
      does not sort above MAX_ARRAY_INDEX. */
  predicate IsArrayIndex(k: string) {
    && 0 < |k| <= 10
    && AllDigits(k)
    && (k[0] == '0' ==> |k| == 1)
    && (|k| == 10 ==> !StrLess(MAX_ARRAY_INDEX, k))
  }

  function Pow10(n: nat): (r: nat)
    ensures r >= 1
  {
    if n == 0 then 1 else 10 * Pow10(n - 1)
  }

  lemma {:induction false} Pow10Monotone(m: nat, n: nat)
    requires m <= n
    ensures Pow10(m) <= Pow10(n)
    decreases n
  {
    if m < n {
      Pow10Monotone(m, n - 1);
    }
  }

  function DigitValue(c: char): nat
    requires IsDigit(c)
  {
    c as int - '0' as int
  }

  /** The number a string of decimal digits denotes. */
  function NumeralValue(k: string): (v: nat)
    requires AllDigits(k)
    ensures v < Pow10(|k|)
    ensures |k| > 0 && k[0] != '0' ==> Pow10(|k| - 1) <= v
  {
    if k == [] then 0
    else
      AllDigitsTail(k);
      var rest := NumeralValue(k[1..]);
      LeadingDigitBounds(DigitValue(k[0]), Pow10(|k| - 1), rest);
      DigitValue(k[0]) * Pow10(|k| - 1) + rest
  }

  lemma AllDigitsTail(k: string)
    requires AllDigits(k) && k != []
    ensures AllDigits(k[1..])
  {
    forall i | 0 <= i < |k[1..]| ensures IsDigit(k[1..][i]) {
      assert k[1..][i] == k[i + 1];
    }
  }

  /** A smaller leading digit makes the smaller number, whatever follows. */
  lemma {:induction false} LeadingDigitDecides(da: nat, db: nat, p: nat, ra: nat, rb: nat)
    requires da < db && ra < p && rb < p
    ensures da * p + ra < db * p + rb
    decreases db
  {
    assert db * p == (db - 1) * p + p;
    if da < db - 1 {
      LeadingDigitDecides(da, db - 1, p, ra, rb);
    }
  }

  /** Numbers written with one leading digit each and equally long tails
      compare by leading digit first, then by tail. */
  lemma NumeralOrder(da: nat, db: nat, p: nat, ra: nat, rb: nat)
    requires ra < p && rb < p
    ensures da * p + ra < db * p + rb <==> da < db || (da == db && ra < rb)
  {
    if da < db {
      LeadingDigitDecides(da, db, p, ra, rb);
    } else if db < da {
      LeadingDigitDecides(db, da, p, rb, ra);
    }
  }

  /** d·p + rest lies below (d + 1)·p, and at or above p when d > 0. */
  lemma LeadingDigitBounds(d: nat, p: nat, rest: nat)
    requires d <= 9 && rest < p
    ensures d * p + rest < (d + 1) * p <= 10 * p
    ensures d > 0 ==> p <= d * p + rest
  {
  }

  /** Numerals of one length compare as strings exactly as they compare as
      numbers. */
  lemma {:induction false} SameLengthNumerals(a: string, b: string)
    requires AllDigits(a) && AllDigits(b) && |a| == |b|
    ensures StrLess(a, b) <==> NumeralValue(a) < NumeralValue(b)
  {
    if a != [] {
      AllDigitsTail(a);
      AllDigitsTail(b);
      SameLengthNumerals(a[1..], b[1..]);
      NumeralOrder(DigitValue(a[0]), DigitValue(b[0]), Pow10(|a| - 1), NumeralValue(a[1..]), NumeralValue(b[1..]));
    }
  }

  /** IndexOrder is ascending numeric order on array indices. */
  lemma IndexOrderIsNumeric(a: string, b: string)
    requires IsArrayIndex(a) && IsArrayIndex(b)
    ensures KeyLess(IndexOrder, a, b) <==> NumeralValue(a) < NumeralValue(b)
  {
    if |a| < |b| {
      Pow10Monotone(|a|, |b| - 1);
    } else if |b| < |a| {
      Pow10Monotone(|b|, |a| - 1);
    } else {
      SameLengthNumerals(a, b);
    }
  }

  /** The members whose key is an array index, in their order. */
  function IndexMembers(ms: seq<Member>): (r: seq<Member>)
    ensures forall x :: x in r <==> x in ms && IsArrayIndex(x.key)
    ensures DistinctKeys(ms) ==> DistinctKeys(r)
  {
    if ms == [] then []
    else
      var rest := IndexMembers(ms[1..]);
      assert DistinctKeys(ms) ==> DistinctKeys(ms[1..]) && !HasKey(rest, ms[0].key) by {
        if DistinctKeys(ms) {
          forall i | 0 <= i < |rest| ensures rest[i].key != ms[0].key {
            assert rest[i] in ms[1..];
            var j :| 0 <= j < |ms[1..]| && ms[1..][j] == rest[i];
            assert ms[j + 1] == rest[i];
          }
        }
      }
      if IsArrayIndex(ms[0].key) then
        if DistinctKeys(ms) then DistinctCons(ms[0], rest); [ms[0]] + rest
        else [ms[0]] + rest
      else rest
  }

  /** The members whose key is not an array index, in their order. */
  function NamedMembers(ms: seq<Member>): (r: seq<Member>)
    ensures forall x :: x in r <==> x in ms && !IsArrayIndex(x.key)
  {
    if ms == [] then []
    else if IsArrayIndex(ms[0].key) then NamedMembers(ms[1..])
    else [ms[0]] + NamedMembers(ms[1..])
  }

  lemma {:induction false} NamedMembersConcat(a: seq<Member>, b: seq<Member>)
    ensures NamedMembers(a + b) == NamedMembers(a) + NamedMembers(b)
  {
    if a == [] {
      assert a + b == b;
    } else {
      assert (a + b)[0] == a[0] && (a + b)[1..] == a[1..] + b;
      NamedMembersConcat(a[1..], b);
      if !IsArrayIndex(a[0].key) {
        assert [a[0]] + (NamedMembers(a[1..]) + NamedMembers(b))
            == ([a[0]] + NamedMembers(a[1..])) + NamedMembers(b);
      }
    }
  }

  lemma {:induction false} NamedMembersIdempotent(ms: seq<Member>)
    ensures NamedMembers(NamedMembers(ms)) == NamedMembers(ms)
  {
    if ms != [] {
      NamedMembersIdempotent(ms[1..]);
      if !IsArrayIndex(ms[0].key) {
        assert ([ms[0]] + NamedMembers(ms[1..]))[1..] == NamedMembers(ms[1..]);
      }
    }
  }

  lemma {:induction false} NamedMembersOfIndices(ms: seq<Member>)
    requires forall x :: x in ms ==> IsArrayIndex(x.key)
    ensures NamedMembers(ms) == []
  {
    if ms != [] {
      assert ms[0] in ms;
      NamedMembersOfIndices(ms[1..]);
    }
  }

  /** The order JSON.stringify lists an object's properties in
      (OrdinaryOwnPropertyKeys in the ECMAScript specification): the array
      indices in ascending numeric order, then every other key in insertion
      order. */
  function OwnKeysOrder(ms: seq<Member>): (r: seq<Member>)
    ensures forall x :: x in r <==> x in ms
    ensures NamedMembers(r) == NamedMembers(ms)
    ensures DistinctKeys(ms) ==> forall i, j :: 0 <= i < j < |r| && IsArrayIndex(r[j].key) ==>
      IsArrayIndex(r[i].key) && KeyLess(IndexOrder, r[i].key, r[j].key)
  {
    var indices := SortMembers(IndexOrder, IndexMembers(ms));
    var named := NamedMembers(ms);
    NamedMembersConcat(indices, named);
    NamedMembersOfIndices(indices);
    NamedMembersIdempotent(ms);
    var r := indices + named;
    assert DistinctKeys(ms) ==> forall i, j :: 0 <= i < j < |r| && IsArrayIndex(r[j].key) ==>
      IsArrayIndex(r[i].key) && KeyLess(IndexOrder, r[i].key, r[j].key) by {
      forall k | |indices| <= k < |r| ensures !IsArrayIndex(r[k].key) {
        assert r[k] == named[k - |indices|] && named[k - |indices|] in named;
      }
      if DistinctKeys(ms) {
        forall i, j | 0 <= i < j < |r| && IsArrayIndex(r[j].key)
          ensures IsArrayIndex(r[i].key) && KeyLess(IndexOrder, r[i].key, r[j].key)
        {
          assert r[i] == indices[i] && r[j] == indices[j] && r[i] in indices;
          StrictPairs(IndexOrder, indices, i, j);
        }
      }
    }
    r
  }

  /** A filter of a strictly sorted sequence is strictly sorted. */
  lemma {:induction false} NamedMembersSorted(ord: KeyOrder, ms: seq<Member>)
    requires StrictlySorted(ord, ms)
    ensures StrictlySorted(ord, NamedMembers(ms))
  {
    if ms != [] {
      NamedMembersSorted(ord, ms[1..]);
      var t := NamedMembers(ms[1..]);
      if !IsArrayIndex(ms[0].key) && t != [] {
        assert t[0] in ms[1..];
        var k :| 0 <= k < |ms[1..]| && ms[1..][k] == t[0];
        StrictHeadLeast(ord, ms, k + 1);
        assert ([ms[0]] + t)[1..] == t;
      }
    }
  }

  /** Strictly sorted keys are distinct. */
  lemma SortedDistinct(ord: KeyOrder, ms: seq<Member>)
    requires StrictlySorted(ord, ms)
    ensures DistinctKeys(ms)
  {
    forall i, j | 0 <= i < j < |ms| ensures ms[i].key != ms[j].key {
      StrictPairs(ord, ms, i, j);
      KeyLessIrreflexive(ord, ms[i].key);
    }
  }

  /** The order JSON.stringify writes a canonical object in: array indices
      first, ascending, then the other keys strictly sorted. */
  predicate SerialisationOrdered(ms: seq<Member>) {
    && StrictlySorted(SortOrder, NamedMembers(ms))
    && forall i, j :: 0 <= i < j < |ms| && IsArrayIndex(ms[j].key) ==>
         IsArrayIndex(ms[i].key) && KeyLess(IndexOrder, ms[i].key, ms[j].key)
  }

  /** Sorting, then listing in property order, gives serialisation order. */
  lemma SortedObjectOrdered(ms: seq<Member>)
    requires DistinctKeys(ms)
    ensures SerialisationOrdered(OwnKeysOrder(SortMembers(SortOrder, ms)))
  {
    var sorted := SortMembers(SortOrder, ms);
    SortedDistinct(SortOrder, sorted);
    NamedMembersSorted(SortOrder, sorted);
  }

  /** An object without array-index keys is listed in insertion order. */
  lemma {:induction false} OwnKeysOrderWithoutIndices(ms: seq<Member>)
    requires forall i :: 0 <= i < |ms| ==> !IsArrayIndex(ms[i].key)
    ensures OwnKeysOrder(ms) == ms
  {
    NoIndexMembers(ms);
  }

  lemma {:induction false} NoIndexMembers(ms: seq<Member>)
    requires forall i :: 0 <= i < |ms| ==> !IsArrayIndex(ms[i].key)
    ensures IndexMembers(ms) == [] && NamedMembers(ms) == ms
  {
    if ms != [] {
      assert !IsArrayIndex(ms[0].key);
      NoIndexMembers(ms[1..]);
      assert ms == [ms[0]] + ms[1..];
    }
  }

  // ------------------------------------------------------- jsonStableReplacer

  /** The value JSON.stringify serialises once `jsonStableReplacer` has run
      on every value: each object rebuilt with its keys inserted in `sort()`
      order, then listed in the order JSON.stringify enumerates them; arrays
      kept in order; everything below treated the same way. */
  function Canonical(j: Json): (r: Json)
    ensures !j.JArray? && !j.JObject? ==> r == j
    ensures j.JArray? ==> r.JArray? && |r.items| == |j.items|
    ensures j.JObject? ==> r.JObject?
    decreases j
  {
    match j
    case JArray(items) => JArray(CanonicalItems(items))
    case JObject(ms) => JObject(CanonicalObject(CanonicalMembers(ms)))
    case _ => j
  }

  /** An object rebuilt by the replacer, as JSON.stringify lists it. */
  function CanonicalObject(ms: seq<Member>): seq<Member> {
    OwnKeysOrder(SortMembers(SortOrder, ms))
  }

  /** A canonical object holds the canonical members, and JSON.stringify
      writes them array indices first, ascending, then the other keys in
      sorted order. */
  lemma CanonicalOrdered(ms: seq<Member>)
    requires DistinctKeys(ms)
    ensures var r := Canonical(JObject(ms)).members;
      && (forall m :: m in r <==> m in CanonicalMembers(ms))
      && SerialisationOrdered(r)
  {
    var cm := CanonicalMembers(ms);
    assert DistinctKeys(cm);
    SortedObjectOrdered(cm);
  }

  function CanonicalItems(items: seq<Json>): (r: seq<Json>)
    ensures |r| == |items|
    ensures forall i :: 0 <= i < |items| ==> r[i] == Canonical(items[i])
    decreases items
  {
    if items == [] then [] else [Canonical(items[0])] + CanonicalItems(items[1..])
  }

  function CanonicalMembers(ms: seq<Member>): (r: seq<Member>)
    ensures |r| == |ms|
    ensures forall i :: 0 <= i < |ms| ==> r[i] == Member(ms[i].key, Canonical(ms[i].value))
    decreases ms
  {
    if ms == [] then []
    else [Member(ms[0].key, Canonical(ms[0].value))] + CanonicalMembers(ms[1..])
  }

  /** The same properties, possibly listed in another order. */
  ghost predicate SameMembers(a: seq<Member>, b: seq<Member>) {
    DistinctKeys(a) && DistinctKeys(b) && forall x :: x in a <==> x in b
  }

  /** The replacer makes the encoding independent of insertion order. */
  lemma CanonicalIgnoresKeyOrder(a: seq<Member>, b: seq<Member>)
    requires SameMembers(a, b)
    ensures Canonical(JObject(a)) == Canonical(JObject(b))
  {
    var ca, cb := CanonicalMembers(a), CanonicalMembers(b);
    assert DistinctKeys(ca) && DistinctKeys(cb);
    forall x ensures x in ca <==> x in cb {
      if x in ca {
        var i :| 0 <= i < |ca| && ca[i] == x;
        assert a[i] in b;
        var j :| 0 <= j < |b| && b[j] == a[i];
        assert cb[j] == x;
      }
      if x in cb {
        var i :| 0 <= i < |cb| && cb[i] == x;
        assert b[i] in a;
        var j :| 0 <= j < |a| && a[j] == b[i];
        assert ca[j] == x;
      }
    }
    StrictlySortedUnique(SortOrder, SortMembers(SortOrder, ca), SortMembers(SortOrder, cb));
  }

  /** Sorting an already sorted object changes nothing. */
  lemma SortMembersOfSorted(ord: KeyOrder, ms: seq<Member>)
    requires StrictlySorted(ord, ms)
    ensures SortMembers(ord, ms) == ms
  {
    assert DistinctKeys(ms) by {
      forall i, j | 0 <= i < j < |ms| ensures ms[i].key != ms[j].key {
        StrictPairs(ord, ms, i, j);
        KeyLessIrreflexive(ord, ms[i].key);
      }
    }
    StrictlySortedUnique(ord, SortMembers(ord, ms), ms);
  }

  /** Array-index keys come out in numeric order although `sort()` puts
      "10" before "9". */
  lemma IndexKeysSerialiseNumerically()
    ensures SortMembers(SortOrder, [Member("9", JString("x")), Member("10", JString("y"))])
         == [Member("10", JString("y")), Member("9", JString("x"))]
    ensures Canonical(JObject([Member("9", JString("x")), Member("10", JString("y"))]))
         == JObject([Member("9", JString("x")), Member("10", JString("y"))])
  {
    var nine, ten := Member("9", JString("x")), Member("10", JString("y"));
    assert StrLess("10", "9") && !StrLess("9", "10");
    assert SortMembers(SortOrder, [nine, ten]) == [ten, nine] by {
      assert [nine, ten][1..] == [ten];
      assert SortMembers(SortOrder, [ten]) == [ten];
      assert Insert(SortOrder, nine, []) == [nine];
      assert Insert(SortOrder, nine, [ten]) == [ten, nine];
    }
    assert CanonicalMembers([nine, ten]) == [nine, ten];
    IndicesFirstExample();
  }

  /** "10" and "9" are array indices, and index order puts 9 first. */
  lemma IndicesFirstExample()
    ensures OwnKeysOrder([Member("10", JString("y")), Member("9", JString("x"))])
         == [Member("9", JString("x")), Member("10", JString("y"))]
  {
    var nine, ten := Member("9", JString("x")), Member("10", JString("y"));
    assert IsArrayIndex("9") && IsArrayIndex("10");
    assert IndexMembers([ten, nine]) == [ten, nine] by {
      assert [ten, nine][1..] == [nine];
      assert IndexMembers([nine]) == [nine];
    }
    assert NamedMembers([ten, nine]) == [] by {
      NamedMembersOfIndices([ten, nine]);
    }
    assert KeyLess(IndexOrder, "9", "10");
    assert SortMembers(IndexOrder, [ten, nine]) == [nine, ten] by {
      assert [ten, nine][1..] == [nine];
      assert SortMembers(IndexOrder, [nine]) == [nine];
    }
  }

  // ------------------------------------------------------------------- pick

  /** The value of the first property named `key`, if any. */
  function Get(ms: seq<Member>, key: string): (r: Option<Json>)
    ensures r.Some? <==> HasKey(ms, key)
    ensures r.Some? ==> Member(key, r.value) in ms
  {
    if ms == [] then None
    else if ms[0].key == key then Some(ms[0].value)
    else
      var r := Get(ms[1..], key);
      assert HasKey(ms, key) ==> HasKey(ms[1..], key) by {
        if HasKey(ms, key) {
          var i :| 0 <= i < |ms| && ms[i].key == key;
          assert ms[1..][i - 1].key == key;
        }
      }
      r
  }

  /** With distinct keys the property named `key` is unique. */
  lemma GetDistinct(ms: seq<Member>, key: string, v: Json)
    requires DistinctKeys(ms) && Member(key, v) in ms
    ensures Get(ms, key) == Some(v)
  {
    var i :| 0 <= i < |ms| && ms[i] == Member(key, v);
    var w := Get(ms, key).value;
    var j :| 0 <= j < |ms| && ms[j] == Member(key, w);
    assert i == j;
  }

  /** lodash `pick(options, fields)`: the named properties that are present,
      in the order of `fields`. */
  function Pick(ms: seq<Member>, fields: seq<string>): (r: seq<Member>)
    ensures forall x :: x in r ==> x.key in fields && Get(ms, x.key) == Some(x.value)
  {
    if fields == [] then []
    else
      var head := match Get(ms, fields[0])
        case Some(v) => [Member(fields[0], v)]
        case None => [];
      head + Pick(ms, fields[1..])
  }

  // -------------------------------------------------------------- stringify

  const HEX_DIGITS: string := "0123456789abcdef"

  /** JSON.stringify's escape for one character of a string. */
  function EscapeChar(c: char): string {
    if c == '"' then "\\\""
    else if c == '\\' then "\\\\"
    else if c == '\U{8}' then "\\b"
    else if c == '\t' then "\\t"
    else if c == '\n' then "\\n"
    else if c == '\U{C}' then "\\f"
    else if c == '\r' then "\\r"
    else if c < ' ' then "\\u00" + [HEX_DIGITS[c as int / 16], HEX_DIGITS[c as int % 16]]
    else [c]
  }

  function Quote(s: string): string {
    "\"" + EscapeBody(s) + "\""
  }

  function EscapeBody(s: string): string {
    if s == [] then "" else EscapeChar(s[0]) + EscapeBody(s[1..])
  }

  /** Characters JSON.stringify writes out as they are. */
  predicate PlainChar(c: char) {
    ' ' <= c && c != '"' && c != '\\'
  }

  /** A string of plain characters is quoted without any escape. */
  lemma {:induction false} EscapeBodyPlain(s: string)
    requires forall i :: 0 <= i < |s| ==> PlainChar(s[i])
    ensures EscapeBody(s) == s
  {
    if s != [] {
      EscapeBodyPlain(s[1..]);
      assert s == [s[0]] + s[1..];
    }
  }

  function NatToString(n: nat): (r: string)
    ensures |r| > 0
  {
    if n < 10 then [HEX_DIGITS[n]] else NatToString(n / 10) + [HEX_DIGITS[n % 10]]
  }

  function IntToString(n: int): string {
    if n < 0 then "-" + NatToString(-n) else NatToString(n)
  }

  function Join(parts: seq<string>): string {
    if parts == [] then ""
    else if |parts| == 1 then parts[0]
    else parts[0] + "," + Join(parts[1..])
  }

  /** JSON.stringify without indentation. */
  function Stringify(j: Json): (r: string)
    ensures j.JString? ==> |r| >= 2 && r[0] == '"' && r[|r| - 1] == '"'
    ensures j.JArray? ==> |r| >= 2 && r[0] == '[' && r[|r| - 1] == ']'
    ensures j.JObject? ==> |r| >= 2 && r[0] == '{' && r[|r| - 1] == '}'
    decreases j
  {
    match j
    case JNull => "null"
    case JBool(b) => if b then "true" else "false"
    case JNumber(n) => IntToString(n)
    case JString(s) => Quote(s)
    case JArray(items) => "[" + Join(StringifyItems(items)) + "]"
    case JObject(ms) => "{" + Join(StringifyMembers(ms)) + "}"
  }

  function StringifyItems(items: seq<Json>): seq<string>
    decreases items
  {
    if items == [] then [] else [Stringify(items[0])] + StringifyItems(items[1..])
  }

  function StringifyMembers(ms: seq<Member>): seq<string>
    decreases ms
  {
    if ms == [] then []
    else [Quote(ms[0].key) + ":" + Stringify(ms[0].value)] + StringifyMembers(ms[1..])
  }

  // ------------------------------------------------------------ generateKey

  /** The text generateKey hashes. */
  function KeySource(options: seq<Member>): string {
    Stringify(Canonical(JObject(Pick(options, PICKED_OPTION_FIELDS))))
  }

  /** `hash(json).substring(0, MAX_KEY_LENGTH)`. */
  function GenerateKey(options: seq<Member>, hash: string -> string): (key: string)
    ensures |key| <= MAX_KEY_LENGTH && |key| <= |hash(KeySource(options))|
    ensures key == hash(KeySource(options))[..|key|]
    ensures |hash(KeySource(options))| >= MAX_KEY_LENGTH ==> |key| == MAX_KEY_LENGTH
  {
    var digest := hash(KeySource(options));
    if |digest| <= MAX_KEY_LENGTH then digest else digest[..MAX_KEY_LENGTH]
  }

  /** Two field values that serialise alike once keys are sorted. */
  predicate SameField(x: Option<Json>, y: Option<Json>) {
    match x
    case None => y.None?
    case Some(v) => y.Some? && Canonical(v) == Canonical(y.value)
  }

  lemma {:induction false} PickAgrees(a: seq<Member>, b: seq<Member>, fields: seq<string>)
    requires forall f :: f in fields ==> SameField(Get(a, f), Get(b, f))
    ensures CanonicalMembers(Pick(a, fields)) == CanonicalMembers(Pick(b, fields))
  {
    if fields != [] {
      PickAgrees(a, b, fields[1..]);
      assert SameField(Get(a, fields[0]), Get(b, fields[0]));
      var pa, pb := Pick(a, fields), Pick(b, fields);
      var ra, rb := Pick(a, fields[1..]), Pick(b, fields[1..]);
      match Get(a, fields[0])
      case None =>
        assert pa == ra && pb == rb;
      case Some(v) =>
        var w := Get(b, fields[0]).value;
        assert pa == [Member(fields[0], v)] + ra;
        assert pb == [Member(fields[0], w)] + rb;
        assert CanonicalMembers(pa)[0] == CanonicalMembers(pb)[0];
        assert CanonicalMembers(pa)[1..] == CanonicalMembers(ra);
        assert CanonicalMembers(pb)[1..] == CanonicalMembers(rb);
    }
  }

  /** The key depends on url, device, userAgent and extraHeaders only:
      options that agree on those four (up to key order inside them) get the
      same key, whatever else they carry. */
  lemma GenerateKeyDependsOnlyOnPickedFields(a: seq<Member>, b: seq<Member>, hash: string -> string)
    requires forall f :: f in PICKED_OPTION_FIELDS ==> SameField(Get(a, f), Get(b, f))
    ensures GenerateKey(a, hash) == GenerateKey(b, hash)
  {
    PickAgrees(a, b, PICKED_OPTION_FIELDS);
    assert Canonical(JObject(Pick(a, PICKED_OPTION_FIELDS))) == Canonical(JObject(Pick(b, PICKED_OPTION_FIELDS)));
  }

  /** Listing the options' properties in another order does not change the key. */
  lemma GenerateKeyIgnoresKeyOrder(a: seq<Member>, b: seq<Member>, hash: string -> string)
    requires SameMembers(a, b)
    ensures GenerateKey(a, hash) == GenerateKey(b, hash)
  {
    forall f | f in PICKED_OPTION_FIELDS ensures SameField(Get(a, f), Get(b, f)) {
      if Get(a, f).Some? {
        GetDistinct(b, f, Get(a, f).value);
      } else if Get(b, f).Some? {
        GetDistinct(a, f, Get(b, f).value);
      }
    }
    GenerateKeyDependsOnlyOnPickedFields(a, b, hash);
  }

  /** The hashed text lists the picked keys in sorted order, whatever order
      the options list them in, and leaves every other option out. */
  lemma KeySourceSortsKeys()
    ensures KeySource([Member("url", JString("u")), Member("maxDepth", JNumber(2)), Member("device", JString("d"))])
         == Stringify(JObject([Member("device", JString("d")), Member("url", JString("u"))]))
  {
    PickExample();
    SortExample();
  }

  /** pick keeps url and device in PICKED_OPTION_FIELDS order and drops maxDepth. */
  lemma PickExample()
    ensures Pick([Member("url", JString("u")), Member("maxDepth", JNumber(2)), Member("device", JString("d"))], PICKED_OPTION_FIELDS)
         == [Member("url", JString("u")), Member("device", JString("d"))]
  {
    var ms := [Member("url", JString("u")), Member("maxDepth", JNumber(2)), Member("device", JString("d"))];
    assert Get(ms, "url") == Some(JString("u"));
    assert Get(ms, "device") == Some(JString("d"));
    assert Get(ms, "userAgent") == None;
    assert Get(ms, "extraHeaders") == None;
    assert Pick(ms, ["extraHeaders"]) == [];
    assert Pick(ms, ["userAgent", "extraHeaders"]) == [];
    assert Pick(ms, ["device", "userAgent", "extraHeaders"]) == [Member("device", JString("d"))];
  }

  /** The replacer puts "device" before "url", and neither key is an array
      index, so JSON.stringify keeps that order. */
  lemma SortExample()
    ensures Canonical(JObject([Member("url", JString("u")), Member("device", JString("d"))]))
         == JObject([Member("device", JString("d")), Member("url", JString("u"))])
  {
    var picked := [Member("url", JString("u")), Member("device", JString("d"))];
    assert CanonicalMembers(picked) == picked;
    SortPickedObject();
  }

  lemma SortPickedObject()
    ensures CanonicalObject([Member("url", JString("u")), Member("device", JString("d"))])
         == [Member("device", JString("d")), Member("url", JString("u"))]
  {
    var sorted := [Member("device", JString("d")), Member("url", JString("u"))];
    SortPickedExample();
    assert !IsDigit(sorted[0].key[0]) && !IsDigit(sorted[1].key[0]);
    OwnKeysOrderWithoutIndices(sorted);
  }

  lemma SortPickedExample()
    ensures SortMembers(SortOrder, [Member("url", JString("u")), Member("device", JString("d"))])
         == [Member("device", JString("d")), Member("url", JString("u"))]
  {
    var picked := [Member("url", JString("u")), Member("device", JString("d"))];
    var sorted := [Member("device", JString("d")), Member("url", JString("u"))];
    assert StrLess("device", "url");
    StrictlySortedUnique(SortOrder, SortMembers(SortOrder, picked), sorted);
  }
}
