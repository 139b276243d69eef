/** `scrapeProduct`: what a product page yields once the browser has loaded
    it — a normalised target URL, the first price on the page, cleaned list
    items and the first eight definition pairs. */
module Scrape {
  import opened Wrappers
  import opened Text

  // ---------------------------------------------------------------- target URL

  /** `/^https?:\/\//i`: the text starts with an http or https scheme, in any case. */
  predicate HasScheme(u: string) {
    StartsWithCI(u, "http://") || StartsWithCI(u, "https://")
  }

  /** The address the browser is sent to: the trimmed target, with `https://`
      put in front unless it already names its scheme. */
  function NormalizeTarget(targetUrl: string): (u: string)
    ensures HasScheme(u)
    ensures HasScheme(Trim(targetUrl)) ==> u == Trim(targetUrl)
    ensures !HasScheme(Trim(targetUrl)) ==> u == "https://" + Trim(targetUrl)
  {
    var t := Trim(targetUrl);
    if HasScheme(t) then t
    else
      var scheme := "https://";
      var u := scheme + t;
      assert u[..|scheme|] == scheme;
      LowerOfLower(scheme);
      u
  }

  /** A target that is already normalised is left as it is. */
  lemma NormalizeTargetIdempotent(targetUrl: string)
    ensures NormalizeTarget(NormalizeTarget(targetUrl)) == NormalizeTarget(targetUrl)
  {
    var t := Trim(targetUrl);
    var u := NormalizeTarget(targetUrl);
    if !HasScheme(t) {
      var prefix := "https://";
      assert u == prefix + t;
      assert !IsSpace(u[0]) && !IsSpace(u[|u| - 1]) by {
        assert u[0] == 'h';
        if t != [] {
          assert u[|u| - 1] == t[|t| - 1];
        }
      }
    }
    TrimOfTrimmed(u);
  }

  // ---------------------------------------------------------------- bullets

  /** `arr.map(t => t.trim())`. */
  function MapTrim(texts: seq<string>): (r: seq<string>)
    ensures |r| == |texts|
    decreases |texts|
  {
    if texts == [] then [] else MapTrim(texts[..|texts| - 1]) + [Trim(texts[|texts| - 1])]
  }

  /** Element `i` of the trimmed list is element `i` of the list, trimmed. */
  lemma {:induction false} MapTrimAt(texts: seq<string>, i: nat)
    requires i < |texts|
    ensures MapTrim(texts)[i] == Trim(texts[i])
    ensures IsTrimmed(MapTrim(texts)[i])
    ensures MapTrim(texts)[i] == [] <==> AllSpace(texts[i])
    decreases |texts|
  {
    if i < |texts| - 1 {
      MapTrimAt(texts[..|texts| - 1], i);
    } else {
      TrimEmpty(texts[i]);
    }
  }

  /** Trimming texts that are already trimmed changes nothing. */
  lemma {:induction false} MapTrimOfTrimmed(texts: seq<string>)
    requires forall i | 0 <= i < |texts| :: IsTrimmed(texts[i])
    ensures MapTrim(texts) == texts
    decreases |texts|
  {
    if texts != [] {
      var init, t := texts[..|texts| - 1], texts[|texts| - 1];
      assert forall i | 0 <= i < |init| :: init[i] == texts[i];
      MapTrimOfTrimmed(init);
      TrimOfTrimmed(t);
      assert texts[|texts| - 1..] == [t];
      assert init + texts[|texts| - 1..] == texts;
    }
  }

  const MaxBullets := 10

  /** The bullets: the list items trimmed, the empty ones dropped, the first ten kept. */
  function CleanBullets(texts: seq<string>): (r: seq<string>)
    ensures |r| <= MaxBullets && |r| <= |NonEmptyOnly(MapTrim(texts))|
    ensures forall i | 0 <= i < |r| :: r[i] != []
    ensures r == NonEmptyOnly(MapTrim(texts))[..|r|]
    ensures |r| < MaxBullets ==> r == NonEmptyOnly(MapTrim(texts))
  {
    Take(NonEmptyOnly(MapTrim(texts)), MaxBullets)
  }

  /** Every bullet is the trimmed text of some list item, and the bullets keep the items' order. */
  lemma BulletsAreTrimmedItems(texts: seq<string>)
    ensures IsSubsequence(CleanBullets(texts), MapTrim(texts))
    ensures forall b | b in CleanBullets(texts) :: b != [] && exists i | 0 <= i < |texts| :: b == Trim(texts[i])
  {
    var kept := NonEmptyOnly(MapTrim(texts));
    var r := CleanBullets(texts);
    SubsequencePrefix(kept, MapTrim(texts), |r|);
    SubsequenceMembers(r, MapTrim(texts));
    forall b | b in r ensures b != [] && exists i | 0 <= i < |texts| :: b == Trim(texts[i]) {
      var i :| 0 <= i < |texts| && MapTrim(texts)[i] == b;
      MapTrimAt(texts, i);
    }
  }

  /** Up to ten items with visible text are all kept, in order. */
  lemma ShortCleanListKept(texts: seq<string>)
    requires |texts| <= MaxBullets
    requires forall i | 0 <= i < |texts| :: texts[i] != [] && IsTrimmed(texts[i])
    ensures CleanBullets(texts) == texts
  {
    MapTrimOfTrimmed(texts);
    NonEmptyOnlyOfNonEmpty(texts);
  }

  // ---------------------------------------------------------------- price

  predicate IsDigit(c: char) {
    '0' <= c <= '9'
  }

  /** The length of the run of white space at `i`. */
  function SpaceRun(html: string, i: nat): (n: nat)
    requires i <= |html|
    ensures i + n <= |html|
    ensures forall k | i <= k < i + n :: IsSpace(html[k])
    ensures i + n == |html| || !IsSpace(html[i + n])
    decreases |html| - i
  {
    if i == |html| || !IsSpace(html[i]) then 0 else 1 + SpaceRun(html, i + 1)
  }

  /** How many of the (at most `max`) characters at `i` satisfy `ok`, greedily. */
  function RunUpTo(ok: char -> bool, html: string, i: nat, max: nat): (n: nat)
    requires i <= |html|
    ensures n <= max && i + n <= |html|
    ensures forall k | i <= k < i + n :: ok(html[k])
    ensures n < max ==> i + n == |html| || !ok(html[i + n])
    decreases max
  {
    if max == 0 || i == |html| || !ok(html[i]) then 0 else 1 + RunUpTo(ok, html, i + 1, max - 1)
  }

  predicate IsDigitOrComma(c: char) {
    IsDigit(c) || c == ','
  }

  /** Where `\$[\s]*\d{1,3}(?:[,\d]{0,3})?(?:\.\d{2})?` ends when it starts at
      `s`. Every part after the first digit may match nothing, so the greedy
      first try succeeds and the regular expression never backtracks into it. */
  function PriceEnd(html: string, s: nat): (e: Option<nat>)
    ensures e.Some? ==> s < e.value <= |html| && html[s] == '$'
    ensures e.Some? ==> s + 1 + SpaceRun(html, s + 1) < e.value && IsDigit(html[s + 1 + SpaceRun(html, s + 1)])
    ensures e.Some? <==>
      (s < |html| && html[s] == '$' &&
       s + 1 + SpaceRun(html, s + 1) < |html| && IsDigit(html[s + 1 + SpaceRun(html, s + 1)]))
  {
    if s >= |html| || html[s] != '$' then None
    else DigitsEnd(html, s + 1 + SpaceRun(html, s + 1))
  }

  /** Where `\d{1,3}(?:[,\d]{0,3})?(?:\.\d{2})?` ends when it is tried at `d`. */
  function DigitsEnd(html: string, d: nat): (e: Option<nat>)
    requires d <= |html|
    ensures e.Some? <==> d < |html| && IsDigit(html[d])
    ensures e.Some? ==> d < e.value <= |html|
  {
    var digits := RunUpTo(IsDigit, html, d, 3);
    if digits == 0 then None
    else
      var g := d + digits;
      Some(CentsEnd(html, g + RunUpTo(IsDigitOrComma, html, g, 3)))
  }

  /** Where the optional `(?:\.\d{2})?` ends when it is tried at `g`. */
  function CentsEnd(html: string, g: nat): (e: nat)
    ensures e == g || e == g + 3
    ensures g <= |html| ==> e <= |html|
    ensures e == g + 3 <==> g + 2 < |html| && html[g] == '.' && IsDigit(html[g + 1]) && IsDigit(html[g + 2])
  {
    if g + 2 < |html| && html[g] == '.' && IsDigit(html[g + 1]) && IsDigit(html[g + 2]) then g + 3 else g
  }

  /** The pattern read from `s`: after the `$` and the `w` white-space
      characters that follow it, the match goes on as `DigitsEnd` reads. */
  lemma PriceEndAfterSpace(html: string, s: nat, w: nat)
    requires s < |html| && html[s] == '$'
    requires s + 1 + w <= |html|
    requires forall k | s + 1 <= k < s + 1 + w :: IsSpace(html[k])
    requires s + 1 + w == |html| || !IsSpace(html[s + 1 + w])
    ensures PriceEnd(html, s) == DigitsEnd(html, s + 1 + w)
  {
    SpaceRunIs(html, s + 1, w);
  }

  /** The digits part read at `d`: `n` digits (one to three, as many as stand
      there), `m` digits or commas (up to three, as many as stand there), and
      then `.` with two digits when they follow. The match ends after the last
      part present. */
  lemma DigitsEndParts(html: string, d: nat, n: nat, m: nat)
    requires d + n + m <= |html|
    requires 1 <= n <= 3 && forall k | d <= k < d + n :: IsDigit(html[k])
    requires n < 3 ==> d + n == |html| || !IsDigit(html[d + n])
    requires m <= 3 && forall k | d + n <= k < d + n + m :: IsDigitOrComma(html[k])
    requires m < 3 ==> d + n + m == |html| || !IsDigitOrComma(html[d + n + m])
    ensures DigitsEnd(html, d) == Some(CentsEnd(html, d + n + m))
  {
    RunUpToIs(IsDigit, html, d, 3, n);
    RunUpToIs(IsDigitOrComma, html, d + n, 3, m);
  }

  /** `SpaceRun` is the only length with its properties. */
  lemma SpaceRunIs(html: string, i: nat, w: nat)
    requires i + w <= |html|
    requires forall k | i <= k < i + w :: IsSpace(html[k])
    requires i + w == |html| || !IsSpace(html[i + w])
    ensures SpaceRun(html, i) == w
  {
  }

  /** `RunUpTo` is the only count with its properties. */
  lemma RunUpToIs(ok: char -> bool, html: string, i: nat, max: nat, n: nat)
    requires n <= max && i + n <= |html|
    requires forall k | i <= k < i + n :: ok(html[k])
    requires n < max ==> i + n == |html| || !ok(html[i + n])
    ensures RunUpTo(ok, html, i, max) == n
  {
  }

  /** The leftmost start at `lo` or later where the price pattern matches. */
  function FirstPriceStart(html: string, lo: nat): (s: Option<nat>)
    ensures s.Some? ==> lo <= s.value && PriceEnd(html, s.value).Some?
    ensures forall t: nat | lo <= t && (s.Some? ==> t < s.value) :: PriceEnd(html, t).None?
    decreases |html| - lo
  {
    if lo >= |html| then None
    else if PriceEnd(html, lo).Some? then Some(lo)
    else FirstPriceStart(html, lo + 1)
  }

  /** `html.match(re)?.[0]`: the text of the first price on the page. */
  function FirstPrice(html: string): (r: Option<string>)
    ensures r.None? <==> forall t: nat :: PriceEnd(html, t).None?
    ensures r.Some? ==> exists s: nat | PriceEnd(html, s).Some? ::
      r.value == html[s..PriceEnd(html, s).value] && forall t: nat | t < s :: PriceEnd(html, t).None?
  {
    match FirstPriceStart(html, 0)
    case None => None
    case Some(s) => Some(html[s..PriceEnd(html, s).value])
  }

  /** A price found on the page begins with `$` and holds a digit. */
  lemma PriceShape(html: string)
    requires FirstPrice(html).Some?
    ensures FirstPrice(html).value[0] == '$'
    ensures exists k | 0 <= k < |FirstPrice(html).value| :: IsDigit(FirstPrice(html).value[k])
  {
    var s := FirstPriceStart(html, 0).value;
    var e := PriceEnd(html, s).value;
    var d := s + 1 + SpaceRun(html, s + 1);
    assert s < d < e && IsDigit(html[d]);
    assert FirstPrice(html).value == html[s..e];
    SliceAt(html, s, e, s);
    SliceAt(html, s, e, d);
  }

  lemma SliceAt(html: string, s: nat, e: nat, k: nat)
    requires s <= k < e <= |html|
    ensures html[s..e][k - s] == html[k]
  {
  }

  // ---------------------------------------------------------------- specs

  const MaxSpecs := 8

  /** JavaScript ignores a string assigned to an object's `__proto__`. */
  const ProtoKey := "__proto__"

  /** The pair at index `i` is stored: the raw key is not empty, a value with
      visible text stands at the same index, and the trimmed key is not
      `__proto__`. `tkeys` and `tvalues` are the keys and values trimmed. */
  predicate PairStored(keys: seq<string>, tkeys: seq<string>, tvalues: seq<string>, i: nat)
    requires |tkeys| == |keys|
  {
    i < |keys| && keys[i] != [] && i < |tvalues| && tvalues[i] != [] && tkeys[i] != ProtoKey
  }

  /** The record after the first `n` pairs have been visited. */
  function SpecPairs(keys: seq<string>, tkeys: seq<string>, tvalues: seq<string>, n: nat): (m: map<string, string>)
    requires |tkeys| == |keys| && n <= |keys|
    ensures forall k | k in m :: k != ProtoKey && m[k] != []
    decreases n
  {
    if n == 0 then map[]
    else
      var m := SpecPairs(keys, tkeys, tvalues, n - 1);
      if PairStored(keys, tkeys, tvalues, n - 1) then m[tkeys[n - 1] := tvalues[n - 1]] else m
  }

  /** The record `scrapeProduct` builds from the first eight keys. */
  function Specs(keys: seq<string>, values: seq<string>): (m: map<string, string>)
    ensures |m.Keys| <= MaxSpecs
  {
    SpecPairsSize(keys, MapTrim(keys), MapTrim(values), if |keys| < MaxSpecs then |keys| else MaxSpecs);
    SpecPairs(keys, MapTrim(keys), MapTrim(values), if |keys| < MaxSpecs then |keys| else MaxSpecs)
  }

  /** `dt.slice(0, 8).forEach(...)`, filling `specs` in place. */
  method BuildSpecs(keys: seq<string>, values: seq<string>) returns (specs: map<string, string>)
    ensures specs == Specs(keys, values)
  {
    var first := Take(keys, MaxSpecs);
    specs := map[];
    var i := 0;
    while i < |first|
      invariant i <= |first| <= |keys|
      invariant specs == SpecPairs(keys, MapTrim(keys), MapTrim(values), i)
    {
      var k := first[i];
      assert k == keys[i];
      SpecPairsStep(keys, values, i);
      if i < |values| {
        var v := Trim(values[i]);
        if k != [] && v != [] && Trim(k) != ProtoKey {
          specs := specs[Trim(k) := v];
        }
      }
      i := i + 1;
    }
  }

  /** One visit of the callback, in terms of the raw key and value. */
  lemma SpecPairsStep(keys: seq<string>, values: seq<string>, i: nat)
    requires i < |keys|
    ensures var before := SpecPairs(keys, MapTrim(keys), MapTrim(values), i);
      SpecPairs(keys, MapTrim(keys), MapTrim(values), i + 1) ==
        if keys[i] != [] && i < |values| && Trim(values[i]) != [] && Trim(keys[i]) != ProtoKey
        then before[Trim(keys[i]) := Trim(values[i])] else before
  {
    MapTrimAt(keys, i);
    if i < |values| {
      MapTrimAt(values, i);
    }
  }

  /** At most one entry per visited pair. */
  lemma {:induction false} SpecPairsSize(keys: seq<string>, tkeys: seq<string>, tvalues: seq<string>, n: nat)
    requires |tkeys| == |keys| && n <= |keys|
    ensures |SpecPairs(keys, tkeys, tvalues, n).Keys| <= n
    decreases n
  {
    if n > 0 {
      SpecPairsSize(keys, tkeys, tvalues, n - 1);
      var m := SpecPairs(keys, tkeys, tvalues, n - 1);
      if PairStored(keys, tkeys, tvalues, n - 1) {
        assert m[tkeys[n - 1] := tvalues[n - 1]].Keys == m.Keys + {tkeys[n - 1]};
      }
    }
  }

  /** Pair `i` is stored under key `k`. */
  predicate StoredUnder(keys: seq<string>, tkeys: seq<string>, tvalues: seq<string>, i: nat, k: string)
    requires |tkeys| == |keys|
  {
    PairStored(keys, tkeys, tvalues, i) && tkeys[i] == k
  }

  /** A key is in the record exactly when some stored pair has it. */
  lemma {:induction false} SpecPairsKeys(keys: seq<string>, tkeys: seq<string>, tvalues: seq<string>, n: nat, k: string)
    requires |tkeys| == |keys| && n <= |keys|
    ensures k in SpecPairs(keys, tkeys, tvalues, n) <==> exists i: nat | i < n :: StoredUnder(keys, tkeys, tvalues, i, k)
    decreases n
  {
    if n > 0 {
      SpecPairsKeys(keys, tkeys, tvalues, n - 1, k);
      if !StoredUnder(keys, tkeys, tvalues, n - 1, k) {
        assert forall i: nat | i < n && StoredUnder(keys, tkeys, tvalues, i, k) :: i < n - 1;
      }
    }
  }

  /** The value under a key is the value of the LAST stored pair with that
      key: a later duplicate overwrites an earlier one. */
  lemma {:induction false} SpecPairsLastWins(keys: seq<string>, tkeys: seq<string>, tvalues: seq<string>, n: nat, i: nat)
    requires |tkeys| == |keys| && i < n <= |keys|
    requires PairStored(keys, tkeys, tvalues, i)
    requires forall j: nat | i < j < n :: !StoredUnder(keys, tkeys, tvalues, j, tkeys[i])
    ensures tkeys[i] in SpecPairs(keys, tkeys, tvalues, n)
    ensures SpecPairs(keys, tkeys, tvalues, n)[tkeys[i]] == tvalues[i]
    decreases n
  {
    if i < n - 1 {
      SpecPairsLastWins(keys, tkeys, tvalues, n - 1, i);
      assert !StoredUnder(keys, tkeys, tvalues, n - 1, tkeys[i]);
    }
  }

  /** Every value in the record is one of the given values. */
  lemma {:induction false} SpecPairsValues(keys: seq<string>, tkeys: seq<string>, tvalues: seq<string>, n: nat)
    requires |tkeys| == |keys| && n <= |keys|
    ensures forall k | k in SpecPairs(keys, tkeys, tvalues, n) ::
      exists i: nat | i < n :: StoredUnder(keys, tkeys, tvalues, i, k) && SpecPairs(keys, tkeys, tvalues, n)[k] == tvalues[i]
    decreases n
  {
    if n > 0 {
      SpecPairsValues(keys, tkeys, tvalues, n - 1);
    }
  }

  /** What `scrapeProduct` records: at most eight entries, each under a
      trimmed key of one of the first eight pairs, with that pair's trimmed,
      non-blank value. */
  lemma SpecsShape(keys: seq<string>, values: seq<string>)
    ensures |Specs(keys, values).Keys| <= MaxSpecs
    ensures forall k | k in Specs(keys, values) :: exists i: nat | i < MaxSpecs && i < |keys| && i < |values| ::
      keys[i] != [] && k == Trim(keys[i]) && Specs(keys, values)[k] == Trim(values[i]) && !AllSpace(values[i])
  {
    var n := if |keys| < MaxSpecs then |keys| else MaxSpecs;
    var tk, tv := MapTrim(keys), MapTrim(values);
    SpecPairsSize(keys, tk, tv, n);
    SpecPairsValues(keys, tk, tv, n);
    forall k | k in Specs(keys, values) ensures exists i: nat | i < MaxSpecs && i < |keys| && i < |values| ::
      keys[i] != [] && k == Trim(keys[i]) && Specs(keys, values)[k] == Trim(values[i]) && !AllSpace(values[i])
    {
      var i: nat :| i < n && StoredUnder(keys, tk, tv, i, k) && SpecPairs(keys, tk, tv, n)[k] == tv[i];
      MapTrimAt(keys, i);
      MapTrimAt(values, i);
    }
  }

  // ---------------------------------------------------------------- the page

  /** What the browser reads from the loaded page; a locator that throws reads
      as nothing (`undefined` or `[]`, as the `.catch` handlers give). */
  datatype Page = Page(
    title: Option<string>,        // og:title content or <title> text, whichever comes first
    description: Option<string>,  // description or og:description content
    listItems: seq<string>,       // text of every <li>
    html: string,                 // page.content()
    specKeys: seq<string>,        // text of every <dt> and <th>
    specValues: seq<string>)      // text of every <dd> and <td>

  datatype ScrapeResult = ScrapeResult(
    url: string, title: Option<string>, description: Option<string>, bullets: seq<string>,
    price: Option<string>, specs: map<string, string>, html: string)

  function TrimOpt(o: Option<string>): (r: Option<string>)
    ensures r.None? <==> o.None?
    ensures r.Some? ==> r.value == Trim(o.value)
  {
    match o
    case None => None
    case Some(s) => Some(Trim(s))
  }

  /** `scrapeProduct(targetUrl)`: `load` is the browser, giving the page at an address. */
  method ScrapeProduct(targetUrl: string, load: string -> Page) returns (visited: string, r: ScrapeResult)
    ensures visited == NormalizeTarget(targetUrl)
    ensures var page := load(visited);
      r == ScrapeResult(targetUrl, TrimOpt(page.title), TrimOpt(page.description), CleanBullets(page.listItems),
                        FirstPrice(page.html),
                        Specs(page.specKeys, page.specValues),
                        page.html)
  {
    var u := Trim(targetUrl);
    if !HasScheme(u) {
      u := "https://" + u;
    }
    visited := u;
    var page := load(u);
    var specs := BuildSpecs(page.specKeys, page.specValues);
    r := ScrapeResult(targetUrl, TrimOpt(page.title), TrimOpt(page.description), CleanBullets(page.listItems),
                      FirstPrice(page.html), specs, page.html);
  }
}
