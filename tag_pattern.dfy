/** Hand-written matchers for the regular expressions that pull a URL out of a
    page's markup. All of them have the shape

      <tag [^>]{g,} marker [^>]* key ["']([^"']+)["']        (flag /i)

    where `marker` is an attribute such as `rel="canonical"` (or absent) and
    `key` is `href=` or `content=`. JavaScript's `String.prototype.match`
    returns the match with the leftmost start; at that start both gaps are
    greedy, so the search backs off from the rightmost `key` position: the
    captured value is the one after the LAST `key=` of the tag that still has a
    marker in front of it and a quoted, non-empty value behind it. */
module TagPattern {
  import opened Wrappers
  import opened Text

  predicate IsQuote(c: char) {
    c == '"' || c == '\''
  }

  /** Whether the marker's value must be quoted (`["']canonical["']`) or may
      be bare (`["']?canonical["']?`). */
  datatype Quoting = Quoted | OptionallyQuoted

  /** The attribute that has to come before the key, e.g. `rel=` `canonical`. */
  datatype Marker = NoMarker | Marker(name: string, value: string, quoting: Quoting)

  /** One regular expression of the family above; `tag`, `name`, `value` and
      `key` are lower-case ASCII and hold no `>` and no quote. */
  datatype Pattern = Pattern(tag: string, minGap: nat, marker: Marker, key: string)

  /** `/<link[^>]+rel=["']canonical["'][^>]*href=["']([^"']+)["']/i` */
  const CanonicalLink := Pattern("<link", 1, Marker("rel=", "canonical", Quoted), "href=")
  /** `/<link[^>]+rel=["']?canonical["']?[^>]*href=["']([^"']+)["']/i` */
  const LooseCanonicalLink := Pattern("<link", 1, Marker("rel=", "canonical", OptionallyQuoted), "href=")
  /** `/<meta[^>]+property=["']og:url["'][^>]*content=["']([^"']+)["']/i` */
  const OgUrlMeta := Pattern("<meta", 1, Marker("property=", "og:url", Quoted), "content=")
  /** `/<base[^>]*href=["']([^"']+)["']/i` */
  const BaseHref := Pattern("<base", 0, NoMarker, "href=")

  /** The ASCII literal `lit` (lower case) is written at `i`, in any case. */
  predicate AtCI(html: string, i: nat, lit: string)
    decreases lit
  {
    i + |lit| <= |html| &&
    (lit == [] || (LowerChar(html[i]) == lit[0] && AtCI(html, i + 1, lit[1..])))
  }

  /** Where the marker written at `m` ends, if one is written there. A trailing
      optional quote is left to the `[^>]*` gap that follows: consuming it or
      not gives the same matches, since neither a quote nor the gap is `>`. */
  function MarkerEnd(mk: Marker, html: string, m: nat): (e: Option<nat>)
    requires mk.Marker?
    ensures e.Some? ==> m < e.value <= |html|
    ensures e.Some? ==> m + |mk.name| + |mk.value| <= e.value <= m + |mk.name| + |mk.value| + 2
    ensures e.Some? && mk.quoting.Quoted? ==> e.value == m + |mk.name| + |mk.value| + 2
    ensures e.Some? && mk.quoting.OptionallyQuoted? ==> e.value <= m + |mk.name| + |mk.value| + 1
  {
    if !AtCI(html, m, mk.name) then None
    else
      var v := m + |mk.name|;
      if v < |html| && IsQuote(html[v]) then
        var w := v + 1 + |mk.value|;
        if !AtCI(html, v + 1, mk.value) then None
        else if mk.quoting.OptionallyQuoted? then Some(w)
        else if w < |html| && IsQuote(html[w]) then Some(w + 1)
        else None
      else if mk.quoting.OptionallyQuoted? && AtCI(html, v, mk.value) && |mk.name| + |mk.value| > 0 then
        Some(v + |mk.value|)
      else None
  }

  /** A marker starts at `m` and is over by `h`. */
  predicate MarkerFits(mk: Marker, html: string, m: nat, h: nat)
    requires mk.Marker?
  {
    var e := MarkerEnd(mk, html, m);
    e.Some? && e.value <= h
  }

  /** The leftmost marker that starts at `lo` or later. */
  function LeftmostMarker(mk: Marker, html: string, lo: nat): (r: Option<nat>)
    requires mk.Marker?
    ensures r.Some? ==> lo <= r.value && MarkerEnd(mk, html, r.value).Some?
    ensures forall m: nat | lo <= m && (r.Some? ==> m < r.value) :: MarkerEnd(mk, html, m).None?
    decreases |html| - lo
  {
    if |html| <= lo then None
    else if MarkerEnd(mk, html, lo).Some? then Some(lo)
    else LeftmostMarker(mk, html, lo + 1)
  }

  /** The pattern's marker (if it has one) starts at `lo` or later and is over by
      `h`. The leftmost marker ends first, so it is the one to try. */
  predicate MarkerBefore(p: Pattern, html: string, lo: nat, h: nat) {
    p.marker.NoMarker? ||
    (var m := LeftmostMarker(p.marker, html, lo); m.Some? && MarkerEnd(p.marker, html, m.value).value <= h)
  }

  /** The first `>` at `i` or later (`|html|` when there is none). */
  function NextGt(html: string, i: nat): (r: nat)
    requires i <= |html|
    ensures i <= r <= |html|
    ensures r < |html| ==> html[r] == '>'
    ensures forall k | i <= k < r :: html[k] != '>'
    decreases |html| - i
  {
    if i == |html| || html[i] == '>' then i else NextGt(html, i + 1)
  }

  /** The length of the run of non-quote characters that starts at `i`. */
  function QuoteFreeRun(html: string, i: nat): (n: nat)
    requires i <= |html|
    ensures i + n <= |html|
    ensures forall k | i <= k < i + n :: !IsQuote(html[k])
    ensures i + n == |html| || IsQuote(html[i + n])
    decreases |html| - i
  {
    if i == |html| || IsQuote(html[i]) then 0 else 1 + QuoteFreeRun(html, i + 1)
  }

  /** The capture `([^"']+)["']` at `i`: the run of non-quote characters there,
      when it is not empty and a quote closes it. */
  function CaptureAt(html: string, i: nat): (r: Option<string>)
    ensures r.Some? ==> |r.value| > 0 && (forall k | 0 <= k < |r.value| :: !IsQuote(r.value[k]))
    ensures r.Some? ==> i + |r.value| < |html| && r.value == html[i..i + |r.value|] && IsQuote(html[i + |r.value|])
  {
    if i > |html| then None
    else
      var n := QuoteFreeRun(html, i);
      if n > 0 && i + n < |html| then Some(html[i..i + n]) else None
  }

  /** Everything of a match but the marker: the tag name at `s`, at least
      `minGap` characters and no `>` up to the key at `h`, and a quoted,
      non-empty value after the key. */
  predicate FrameAt(tag: string, minGap: nat, key: string, html: string, s: nat, h: nat) {
    s + |tag| + minGap <= h && h + |key| < |html| &&
    AtCI(html, s, tag) &&
    h <= NextGt(html, s + |tag|) &&
    AtCI(html, h, key) && IsQuote(html[h + |key|]) &&
    CaptureAt(html, h + |key| + 1).Some?
  }

  /** The regular expression matches with its tag at `s` and its key at `h`. */
  predicate MatchAt(p: Pattern, html: string, s: nat, h: nat) {
    FrameAt(p.tag, p.minGap, p.key, html, s, h) &&
    MarkerBefore(p, html, s + |p.tag| + p.minGap, h)
  }

  /** Whether the pattern matches with its tag at `t` and its key at `k`. */
  function MatchOf(p: Pattern, html: string): (ok: (nat, nat) -> bool)
    ensures forall t: nat, k: nat :: ok(t, k) == MatchAt(p, html, t, k)
  {
    (t: nat, k: nat) => MatchAt(p, html, t, k)
  }

  /** `(s, h)` satisfies `ok` with the smallest `s`, and at `s` the largest `h`. */
  ghost predicate IsFirstOf(ok: (nat, nat) -> bool, s: nat, h: nat) {
    ok(s, h) &&
    (forall t: nat, k: nat | t < s :: !ok(t, k)) &&
    (forall k: nat | h < k :: !ok(s, k))
  }

  /** The match JavaScript reports: the leftmost start, and at it the rightmost key. */
  ghost predicate IsFirstMatch(p: Pattern, html: string, s: nat, h: nat) {
    IsFirstOf(MatchOf(p, html), s, h)
  }

  /** The largest `k <= h` with `ok(t, k)`: how a greedy gap backs off from the right. */
  function LastEnd(ok: (nat, nat) -> bool, t: nat, h: nat): (r: Option<nat>)
    ensures r.Some? ==> r.value <= h && ok(t, r.value)
    ensures r.Some? ==> forall k: nat | r.value < k <= h :: !ok(t, k)
    ensures r.None? ==> forall k: nat | k <= h :: !ok(t, k)
    decreases h
  {
    if ok(t, h) then Some(h)
    else if h == 0 then None
    else LastEnd(ok, t, h - 1)
  }

  /** The first start `t` in `[s, n)` for which some end `k <= n` satisfies `ok(t, k)`,
      with the largest such end: how an unanchored match scans its start positions. */
  function FirstStart(ok: (nat, nat) -> bool, s: nat, n: nat): (r: Option<(nat, nat)>)
    ensures r.Some? ==> s <= r.value.0 < n && r.value.1 <= n && ok(r.value.0, r.value.1)
    ensures r.Some? ==> forall k: nat | r.value.1 < k <= n :: !ok(r.value.0, k)
    ensures r.Some? ==> forall t: nat, k: nat | s <= t < r.value.0 && k <= n :: !ok(t, k)
    ensures r.None? ==> forall t: nat, k: nat | s <= t < n && k <= n :: !ok(t, k)
    decreases n - s
  {
    if n <= s then None
    else
      match LastEnd(ok, s, n)
      case Some(h) => Some((s, h))
      case None => FirstStart(ok, s + 1, n)
  }

  /** When every pair satisfying `ok` lies below `n`, scanning the starts
      below `n` finds the first pair there is. */
  lemma FirstStartIsFirst(ok: (nat, nat) -> bool, n: nat)
    requires forall t: nat, k: nat | ok(t, k) :: t < n && k <= n
    ensures FirstStart(ok, 0, n).None? <==> forall t: nat, k: nat :: !ok(t, k)
    ensures FirstStart(ok, 0, n).Some? ==> IsFirstOf(ok, FirstStart(ok, 0, n).value.0, FirstStart(ok, 0, n).value.1)
  {
  }

  /** A match lies inside `html`. */
  lemma MatchBounds(p: Pattern, html: string, s: nat, h: nat)
    requires MatchAt(p, html, s, h)
    ensures s <= h < |html|
  {
  }

  /** `html.match(re)`: the positions of the first match, if any. */
  function FirstMatch(p: Pattern, html: string): (r: Option<(nat, nat)>)
    ensures r.None? <==> forall s: nat, h: nat :: !MatchAt(p, html, s, h)
    ensures r.Some? ==> IsFirstMatch(p, html, r.value.0, r.value.1)
  {
    var ok := MatchOf(p, html);
    forall t: nat, k: nat | ok(t, k) ensures t < |html| && k <= |html| {
      MatchBounds(p, html, t, k);
    }
    FirstStartIsFirst(ok, |html|);
    FirstStart(ok, 0, |html|)
  }

  lemma MatchCaptures(p: Pattern, html: string, s: nat, h: nat)
    requires IsFirstMatch(p, html, s, h)
    ensures CaptureAt(html, h + |p.key| + 1).Some?
    ensures exists s': nat, h': nat :: IsFirstMatch(p, html, s', h') && CaptureAt(html, h' + |p.key| + 1) == CaptureAt(html, h + |p.key| + 1)
  {
    assert MatchOf(p, html)(s, h);
    assert FrameAt(p.tag, p.minGap, p.key, html, s, h);
  }

  /** `html.match(re)?.[1]`: the captured value of the first match, if any. */
  function Capture(p: Pattern, html: string): (r: Option<string>)
    ensures r.None? <==> forall s: nat, h: nat :: !MatchAt(p, html, s, h)
    ensures r.Some? ==> exists s: nat, h: nat :: IsFirstMatch(p, html, s, h) && CaptureAt(html, h + |p.key| + 1) == r
    ensures r.Some? ==> |r.value| > 0 && forall k | 0 <= k < |r.value| :: !IsQuote(r.value[k])
  {
    match FirstMatch(p, html)
    case None => None
    case Some((s, h)) =>
      MatchCaptures(p, html, s, h);
      CaptureAt(html, h + |p.key| + 1)
  }

  /** The first match is unique: the leftmost start and its rightmost key. */
  lemma FirstMatchUnique(ok: (nat, nat) -> bool, s1: nat, h1: nat, s2: nat, h2: nat)
    requires IsFirstOf(ok, s1, h1) && IsFirstOf(ok, s2, h2)
    ensures s1 == s2 && h1 == h2
  {
  }

  /** Of two markers, the one that starts first is over first. */
  lemma MarkerEndMonotone(mk: Marker, html: string, m1: nat, m2: nat)
    requires mk.Marker? && m1 < m2
    requires MarkerEnd(mk, html, m1).Some? && MarkerEnd(mk, html, m2).Some?
    ensures MarkerEnd(mk, html, m1).value <= MarkerEnd(mk, html, m2).value
  {
  }

  /** Trying only the leftmost marker is what the regular expression does when it
      tries every marker position: some marker between `lo` and `h` fits. */
  lemma MarkerBeforeMeans(p: Pattern, html: string, lo: nat, h: nat)
    requires p.marker.Marker?
    ensures MarkerBefore(p, html, lo, h) <==> exists m: nat | lo <= m <= h :: MarkerFits(p.marker, html, m, h)
  {
    var first := LeftmostMarker(p.marker, html, lo);
    if exists m: nat | lo <= m <= h :: MarkerFits(p.marker, html, m, h) {
      var m: nat :| lo <= m <= h && MarkerFits(p.marker, html, m, h);
      assert first.Some? && first.value <= m;
      if first.value < m {
        MarkerEndMonotone(p.marker, html, first.value, m);
      }
    }
    if MarkerBefore(p, html, lo, h) {
      assert MarkerFits(p.marker, html, first.value, h);
    }
  }

  /** Everything the patterns of this family recognise lies in one tag: no `>`
      comes between the tag name and the key, and the marker stands before the key. */
  lemma MatchInOneTag(p: Pattern, html: string, s: nat, h: nat)
    requires MatchAt(p, html, s, h)
    ensures s <= h && forall k | s + |p.tag| <= k < h :: html[k] != '>'
    ensures p.marker.Marker? ==> exists m: nat | s + |p.tag| + p.minGap <= m < h :: MarkerFits(p.marker, html, m, h)
  {
    if p.marker.Marker? {
      MarkerBeforeMeans(p, html, s + |p.tag| + p.minGap, h);
      var m: nat :| s + |p.tag| + p.minGap <= m <= h && MarkerFits(p.marker, html, m, h);
      assert m < h;
    }
  }

  /** The pattern with its marker's quotes made optional. */
  function Loosened(p: Pattern): (q: Pattern)
    requires p.marker.Marker?
    ensures q.tag == p.tag && q.minGap == p.minGap && q.key == p.key
    ensures q.marker.Marker? && q.marker.name == p.marker.name && q.marker.value == p.marker.value
    ensures q.marker.quoting.OptionallyQuoted?
  {
    Pattern(p.tag, p.minGap, Marker(p.marker.name, p.marker.value, OptionallyQuoted), p.key)
  }

  /** A quoted marker is also an optionally quoted one, over one place sooner. */
  lemma LoosenedMarkerFits(p: Pattern, html: string, m: nat, h: nat)
    requires p.marker.Marker? && p.marker.quoting.Quoted?
    requires MarkerFits(p.marker, html, m, h)
    ensures MarkerFits(Loosened(p).marker, html, m, h)
  {
  }

  lemma LoosenedMarkerBefore(p: Pattern, html: string, lo: nat, h: nat)
    requires p.marker.Marker? && p.marker.quoting.Quoted?
    requires MarkerBefore(p, html, lo, h)
    ensures MarkerBefore(Loosened(p), html, lo, h)
  {
    MarkerBeforeMeans(p, html, lo, h);
    MarkerBeforeMeans(Loosened(p), html, lo, h);
    var m: nat :| lo <= m <= h && MarkerFits(p.marker, html, m, h);
    LoosenedMarkerFits(p, html, m, h);
  }

  /** Making the marker's quotes optional loses no match. */
  lemma LoosenedKeepsMatch(p: Pattern, html: string, s: nat, h: nat)
    requires p.marker.Marker? && p.marker.quoting.Quoted?
    requires MatchAt(p, html, s, h)
    ensures MatchAt(Loosened(p), html, s, h)
  {
    var q := Loosened(p);
    var lo := s + |p.tag| + p.minGap;
    assert FrameAt(p.tag, p.minGap, p.key, html, s, h) && MarkerBefore(p, html, lo, h);
    LoosenedMarkerBefore(p, html, lo, h);
    assert q.tag == p.tag && q.minGap == p.minGap && q.key == p.key;
    MatchAtOfParts(q, html, s, h, lo);
  }

  lemma MatchAtOfParts(p: Pattern, html: string, s: nat, h: nat, lo: nat)
    requires FrameAt(p.tag, p.minGap, p.key, html, s, h)
    requires lo == s + |p.tag| + p.minGap && MarkerBefore(p, html, lo, h)
    ensures MatchAt(p, html, s, h)
  {
  }

  /** The loose canonical pattern accepts every link the strict one accepts, and
      so finds a URL whenever the strict one does. */
  lemma StrictCanonicalImpliesLoose(html: string)
    ensures forall s: nat, h: nat | MatchAt(CanonicalLink, html, s, h) :: MatchAt(LooseCanonicalLink, html, s, h)
    ensures Capture(CanonicalLink, html).Some? ==> Capture(LooseCanonicalLink, html).Some?
  {
    assert LooseCanonicalLink == Loosened(CanonicalLink);
    forall s: nat, h: nat | MatchAt(CanonicalLink, html, s, h) ensures MatchAt(LooseCanonicalLink, html, s, h) {
      LoosenedKeepsMatch(CanonicalLink, html, s, h);
    }
  }
}
