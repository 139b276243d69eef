/** `htmlToMarkdown` of the brief route: from a parsed page to a title and a
    Markdown brief. The HTML parser is not modelled; a page arrives already
    parsed into the few things the conversion looks at (see `Doc`). */
module BriefMarkdown {
  import opened Wrappers
  import opened Text

  // ---------------------------------------------------------------- the parsed page

  /** The block elements the converter visits, `h1,h2,h3,p,li,blockquote`. */
  datatype Tag = H1 | H2 | H3 | P | Li | Blockquote

  /** One visited element with its raw text content (descendants included). */
  datatype Element = Element(tag: Tag, text: string)

  /** An `<a>` that has an `href` attribute: the attribute value and the link text. */
  datatype Anchor = Anchor(href: string, text: string)

  /** The main-content region re-parsed on its own: its block elements, the texts
      of its `<div>`s and its anchors, each in document order. */
  datatype Region = Region(elements: seq<Element>, divs: seq<string>, anchors: seq<Anchor>)

  /** The page: the text of its first `<title>` (`""` when it has none), the
      `content` attribute of the og:title, twitter:title and description metas
      (absent when the meta or the attribute is missing), and the first
      `<article>`, `<main>`, `[role="main"]` and `<body>`, each absent when the
      page has none. */
  datatype Doc = Doc(
    title: string,
    ogTitle: Option<string>,
    twitterTitle: Option<string>,
    description: Option<string>,
    article: Option<Region>,
    main: Option<Region>,
    roleMain: Option<Region>,
    body: Option<Region>)

  /** What the converter returns: the title (absent when empty) and the Markdown. */
  datatype Brief = Brief(title: Option<string>, markdown: string)

  const TitleCap := 140
  const ThinRegion := 6
  const MinDivText := 80
  const MinLongChunk := 40
  const MaxChunks := 400
  const MaxLinks := 100

  // ---------------------------------------------------------------- title

  /** `<title>` text, else og:title, else twitter:title, each trimmed; `""` when all are blank. */
  function MetaTitle(doc: Doc): (r: string)
    ensures Trim(doc.title) != [] ==> r == Trim(doc.title)
    ensures Trim(doc.title) == [] && Trim(doc.ogTitle.GetOr("")) != [] ==> r == Trim(doc.ogTitle.GetOr(""))
    ensures Trim(doc.title) == [] && Trim(doc.ogTitle.GetOr("")) == [] ==> r == Trim(doc.twitterTitle.GetOr(""))
    ensures IsTrimmed(r)
  {
    var t := Trim(doc.title);
    if t != [] then t
    else
      var og := Trim(doc.ogTitle.GetOr(""));
      if og != [] then og else Trim(doc.twitterTitle.GetOr(""))
  }

  /** The length of the longest prefix of `s` whose characters all satisfy `ok`. */
  function LeadingRun(s: string, ok: char -> bool): (n: nat)
    ensures n <= |s|
    ensures forall i | 0 <= i < n :: ok(s[i])
    ensures n < |s| ==> !ok(s[n])
    decreases |s|
  {
    if s != [] && ok(s[0]) then
      var n := 1 + LeadingRun(s[1..], ok);
      assert forall i | 1 <= i < n :: s[i] == s[1..][i - 1];
      n
    else 0
  }

  predicate IsHash(c: char) { c == '#' }

  /** `s.replace(/^#+\s*\/, "")`: when `s` starts with `#`, the leading `#`s and
      the white space after them are removed; otherwise `s` is unchanged. */
  function StripHashes(s: string): (r: string)
    ensures |r| <= |s| && r == s[|s| - |r|..]
    ensures s == [] || s[0] != '#' ==> r == s
    ensures s != [] && s[0] == '#' ==> 0 < |s| - |r|
    ensures s != [] && s[0] == '#' ==> r == [] || !IsSpace(r[0])
    ensures forall i | 0 <= i < |s| - |r| :: s[i] == '#' || IsSpace(s[i])
  {
    if s != [] && s[0] == '#' then
      var h := LeadingRun(s, IsHash);
      var rest := s[h..];
      var w := LeadingRun(rest, IsSpace);
      assert forall i | h <= i < h + w :: s[i] == rest[i - h];
      rest[w..]
    else s
  }

  /** Exactly the whole run of `#`s and the whole run of white space after it
      are cut, never fewer. */
  lemma StripHashesCut(s: string)
    ensures s != [] && s[0] == '#' ==>
      var h := LeadingRun(s, IsHash); StripHashes(s) == s[h + LeadingRun(s[h..], IsSpace)..]
  {
    if s != [] && s[0] == '#' {
      var h := LeadingRun(s, IsHash);
      var rest := s[h..];
      var w := LeadingRun(rest, IsSpace);
      assert StripHashes(s) == rest[w..];
      assert rest[w..] == s[h + w..];
    }
  }

  /** Read as its parts: a run of `#`s, the white space after it, then text
      that starts with neither (nor with `#` when no white space came between),
      `replace(/^#+\s*\/, "")` keeps exactly that text. */
  lemma StripHashesParts(hs: string, w: string, rest: string)
    requires hs != [] && forall i | 0 <= i < |hs| :: hs[i] == '#'
    requires AllSpace(w)
    requires rest == [] || !IsSpace(rest[0])
    requires w == [] ==> rest == [] || rest[0] != '#'
    ensures StripHashes(hs + w + rest) == rest
  {
    var s := hs + w + rest;
    assert s[0] == '#';
    assert s[|hs|..] == w + rest;
    assert |hs| < |s| ==> s[|hs|] == (w + rest)[0];
    LeadingRunIs(s, IsHash, |hs|);
    LeadingRunIs(w + rest, IsSpace, |w|);
    assert (w + rest)[|w|..] == rest;
  }

  /** `LeadingRun` is the only length with its three properties. */
  lemma LeadingRunIs(s: string, ok: char -> bool, n: nat)
    requires n <= |s|
    requires forall i | 0 <= i < n :: ok(s[i])
    requires n < |s| ==> !ok(s[n])
    ensures LeadingRun(s, ok) == n
  {
  }

  /** The index of the first element of `s` that satisfies `ok`, if any. */
  function FirstIndex<T>(s: seq<T>, ok: T -> bool): (r: Option<nat>)
    ensures r.None? <==> forall i | 0 <= i < |s| :: !ok(s[i])
    ensures r.Some? ==> r.value < |s| && ok(s[r.value])
    ensures r.Some? ==> forall i | 0 <= i < r.value :: !ok(s[i])
    decreases |s|
  {
    if s == [] then None
    else if ok(s[0]) then Some(0)
    else
      var r := FirstIndex(s[1..], ok);
      assert forall i | 1 <= i < |s| :: s[i] == s[1..][i - 1];
      if r.None? then None else Some(1 + r.value)
  }

  /** `$(tag).first().text()`: the text of the first element with that tag, `""` when there is none. */
  function FirstTextOf(elements: seq<Element>, tag: Tag): (r: string)
    ensures (exists i | 0 <= i < |elements| :: elements[i].tag == tag && elements[i].text == r &&
               forall j | 0 <= j < i :: elements[j].tag != tag) ||
            ((forall i | 0 <= i < |elements| :: elements[i].tag != tag) && r == [])
  {
    var k := FirstIndex(elements, (e: Element) => e.tag == tag);
    if k.None? then [] else elements[k.value].text
  }

  /** `chunks.find(c => c.length > 40) ?? ""`. */
  function FirstLong(chunks: seq<string>): (r: string)
    ensures r != [] ==> |r| > MinLongChunk && r in chunks
    ensures r == [] ==> forall i | 0 <= i < |chunks| :: |chunks[i]| <= MinLongChunk || chunks[i] == []
  {
    var k := FirstIndex(chunks, (c: string) => |c| > MinLongChunk);
    if k.None? then [] else chunks[k.value]
  }

  /** The chunk `find` returns is the first long one: every chunk before it is
      at most 40 characters. */
  lemma FirstLongIsFirst(chunks: seq<string>)
    ensures var r := FirstLong(chunks);
      r != [] ==> exists i | 0 <= i < |chunks| :: chunks[i] == r && forall j | 0 <= j < i :: |chunks[j]| <= MinLongChunk
  {
    var k := FirstIndex(chunks, (c: string) => |c| > MinLongChunk);
    if k.Some? {
      assert chunks[k.value] == FirstLong(chunks);
    }
  }

  /** The fallback title source: first h1 text, else first h2 text, each
      trimmed, else the first chunk longer than 40 characters. */
  function Candidate(region: Region, chunks: seq<string>): (r: string)
    ensures Trim(FirstTextOf(region.elements, H1)) != [] ==> r == Trim(FirstTextOf(region.elements, H1))
    ensures Trim(FirstTextOf(region.elements, H1)) == [] && Trim(FirstTextOf(region.elements, H2)) != [] ==>
      r == Trim(FirstTextOf(region.elements, H2))
    ensures Trim(FirstTextOf(region.elements, H1)) == [] && Trim(FirstTextOf(region.elements, H2)) == [] ==>
      r == FirstLong(chunks)
  {
    var h1 := Trim(FirstTextOf(region.elements, H1));
    if h1 != [] then h1
    else
      var h2 := Trim(FirstTextOf(region.elements, H2));
      if h2 != [] then h2 else FirstLong(chunks)
  }

  /** The title after the fallback: leading `#`s stripped, at most 140
      characters; a candidate that does not start with `#` is only cut. */
  function FallbackTitle(candidate: string): (r: string)
    ensures |r| <= TitleCap
    ensures candidate == [] ==> r == []
  {
    if candidate != [] then Take(StripHashes(candidate), TitleCap) else []
  }

  /** The fallback title of any candidate: the candidate itself cut to 140
      characters, or, when it starts with `#`, what follows its `#`s and the
      white space after them, cut to 140 characters. */
  lemma FallbackTitleCut(c: string)
    ensures c != [] && c[0] != '#' ==> FallbackTitle(c) == Take(c, TitleCap)
    ensures c != [] && c[0] == '#' ==>
      var h := LeadingRun(c, IsHash); FallbackTitle(c) == Take(c[h + LeadingRun(c[h..], IsSpace)..], TitleCap)
  {
    StripHashesCut(c);

  }

  /** A `#`-marked candidate (a chunk of an `h1`, `h2` or `h3`, say) loses its
      `#`s and the white space after them before the cut to 140 characters. */
  lemma FallbackTitleOfHeading(hs: string, w: string, rest: string)
    requires hs != [] && forall i | 0 <= i < |hs| :: hs[i] == '#'
    requires AllSpace(w)
    requires rest == [] || !IsSpace(rest[0])
    requires w == [] ==> rest == [] || rest[0] != '#'
    ensures FallbackTitle(hs + w + rest) == Take(rest, TitleCap)
  {
    StripHashesParts(hs, w, rest);
  }

  // ---------------------------------------------------------------- region

  /** `article ?? main ?? [role=main] ?? body ?? ""`: the first region the page
      has, even an empty one; a page with none of them yields an empty region. */
  function SelectRegion(doc: Doc): (r: Region)
    ensures doc.article.Some? ==> r == doc.article.value
    ensures doc.article.None? && doc.main.Some? ==> r == doc.main.value
    ensures doc.article.None? && doc.main.None? && doc.roleMain.Some? ==> r == doc.roleMain.value
    ensures doc.article.None? && doc.main.None? && doc.roleMain.None? ==>
      r == doc.body.GetOr(Region([], [], []))
  {
    if doc.article.Some? then doc.article.value
    else if doc.main.Some? then doc.main.value
    else if doc.roleMain.Some? then doc.roleMain.value
    else doc.body.GetOr(Region([], [], []))
  }

  // ---------------------------------------------------------------- chunks

  function TagPrefix(tag: Tag): string {
    match tag
    case H1 => "# "
    case H2 => "## "
    case H3 => "### "
    case Li => "- "
    case P => ""
    case Blockquote => ""
  }

  /** Not empty, and neither end is white space. */
  predicate Framed(x: string) {
    x != [] && !IsSpace(x[0]) && !IsSpace(x[|x| - 1])
  }

  /** The chunk an element contributes: its text collapsed and trimmed, behind
      the prefix of its tag; nothing for an element whose text is blank. */
  function ChunkOf(e: Element): (r: Option<string>)
    ensures r.None? <==> AllSpace(e.text)
    ensures r.Some? ==> Framed(r.value)
  {
    var text := Normalize(e.text);
    if text == [] then None else Some(TagPrefix(e.tag) + text)
  }

  /** The chunks of the block elements, in document order. */
  function Chunks(elements: seq<Element>): (r: seq<string>)
    ensures |r| <= |elements|
    ensures forall i | 0 <= i < |r| :: Framed(r[i])
    decreases |elements|
  {
    if elements == [] then []
    else
      var c := ChunkOf(elements[|elements| - 1]);
      Chunks(elements[..|elements| - 1]) + (if c.Some? then [c.value] else [])
  }

  lemma ChunksSnoc(elements: seq<Element>, i: nat)
    requires i < |elements|
    ensures Chunks(elements[..i + 1]) ==
      Chunks(elements[..i]) + (if ChunkOf(elements[i]).Some? then [ChunkOf(elements[i]).value] else [])
  {
    assert elements[..i + 1][..i] == elements[..i];
  }

  /** The chunks of two runs of elements are the chunks of each, in order. */
  lemma {:induction false} ChunksAppend(a: seq<Element>, b: seq<Element>)
    ensures Chunks(a + b) == Chunks(a) + Chunks(b)
    decreases |b|
  {
    if b == [] {
      assert a + b == a;
    } else {
      var b' := b[..|b| - 1];
      var c := ChunkOf(b[|b| - 1]);
      var tail := if c.Some? then [c.value] else [];
      assert Chunks(a + b) == Chunks(a + b') + tail by {
        assert (a + b)[..|a + b| - 1] == a + b' && (a + b)[|a + b| - 1] == b[|b| - 1];
      }
      ChunksAppend(a, b');
      Regroup(Chunks(a + b), Chunks(a), Chunks(b'), tail, Chunks(b));
    }
  }

  /** One element yields its tag-prefixed normal text, or nothing when its text is blank. */
  lemma ChunksOfOne(e: Element)
    ensures AllSpace(e.text) ==> Chunks([e]) == []
    ensures !AllSpace(e.text) ==> Chunks([e]) == [TagPrefix(e.tag) + Normalize(e.text)]
    ensures !AllSpace(e.text) ==> IsNormal(Normalize(e.text)) && Visible(Normalize(e.text)) == Visible(e.text)
  {
    assert [e][..0] == [];
  }

  /** The `<div>` texts, collapsed and trimmed, that are at least 80 characters long. */
  function DivChunks(divs: seq<string>): (r: seq<string>)
    ensures |r| <= |divs|
    ensures forall i | 0 <= i < |r| :: |r[i]| >= MinDivText
    decreases |divs|
  {
    if divs == [] then []
    else
      var t := DivChunkOf(divs[|divs| - 1]);
      DivChunks(divs[..|divs| - 1]) + (if t.Some? then [t.value] else [])
  }

  /** The supplement chunk of one `<div>`: its normal text when at least 80 characters long. */
  function DivChunkOf(div: string): (r: Option<string>)
    ensures r.Some? ==> |r.value| >= MinDivText
  {
    var t := Normalize(div);
    if t != [] && |t| >= MinDivText then Some(t) else None
  }

  /** Every supplement chunk is the normal form of one of the `<div>` texts. */
  lemma {:induction false} DivChunksFromDivs(divs: seq<string>)
    ensures forall x | x in DivChunks(divs) :: IsNormal(x) && exists i | 0 <= i < |divs| :: x == Normalize(divs[i])
    decreases |divs|
  {
    if divs != [] {
      var init := divs[..|divs| - 1];
      DivChunksFromDivs(init);
      assert forall i | 0 <= i < |init| :: init[i] == divs[i];
    }
  }

  /** Every `<div>` whose normal text is at least 80 characters long contributes that text. */
  lemma DivChunksComplete(divs: seq<string>)
    ensures forall i | 0 <= i < |divs| && |Normalize(divs[i])| >= MinDivText ::
      Normalize(divs[i]) in DivChunks(divs)
  {
    forall i | 0 <= i < |divs| && |Normalize(divs[i])| >= MinDivText
      ensures Normalize(divs[i]) in DivChunks(divs)
    {
      DivChunkPresent(divs, i);
    }
  }

  /** One `<div>` whose normal text is long enough contributes that text. */
  lemma {:induction false} DivChunkPresent(divs: seq<string>, i: nat)
    requires i < |divs| && |Normalize(divs[i])| >= MinDivText
    ensures Normalize(divs[i]) in DivChunks(divs)
    decreases |divs|
  {
    var init := divs[..|divs| - 1];
    if i < |divs| - 1 {
      assert init[i] == divs[i];
      DivChunkPresent(init, i);
    } else {
      assert DivChunkOf(divs[i]) == Some(Normalize(divs[i]));
    }
  }

  /** The supplement follows document order: the chunks of two runs of `<div>`s
      are the chunks of each, concatenated. */
  lemma {:induction false} DivChunksAppend(a: seq<string>, b: seq<string>)
    ensures DivChunks(a + b) == DivChunks(a) + DivChunks(b)
    decreases |b|
  {
    if b == [] {
      assert a + b == a;
    } else {
      var b' := b[..|b| - 1];
      assert (a + b)[..|a + b| - 1] == a + b';
      DivChunksAppend(a, b');
    }
  }

  lemma DivChunksSnoc(divs: seq<string>, j: nat)
    requires j < |divs|
    ensures DivChunks(divs[..j + 1]) ==
      DivChunks(divs[..j]) + (if DivChunkOf(divs[j]).Some? then [DivChunkOf(divs[j]).value] else [])
  {
    assert divs[..j + 1][..j] == divs[..j];
  }

  /** The block chunks, followed by the `<div>` supplement when there are fewer than six. */
  function AllChunks(region: Region): (r: seq<string>)
    ensures |Chunks(region.elements)| >= ThinRegion ==> r == Chunks(region.elements)
    ensures |Chunks(region.elements)| < ThinRegion ==> r == Chunks(region.elements) + DivChunks(region.divs)
  {
    var c := Chunks(region.elements);
    if |c| < ThinRegion then c + DivChunks(region.divs) else c
  }

  // ---------------------------------------------------------------- links

  /** `/^(#|mailto:|javascript:)/i`. */
  predicate Excluded(href: string) {
    StartsWithCI(href, "#") || StartsWithCI(href, "mailto:") || StartsWithCI(href, "javascript:")
  }

  /** A rendered link ends with `)` or `>`. */
  predicate LinkEnd(l: string) {
    l != [] && (l[|l| - 1] == ')' || l[|l| - 1] == '>')
  }

  /** The Markdown an anchor contributes, if it is kept. */
  function LinkOf(a: Anchor): (r: Option<string>)
    ensures r.Some? <==> Trim(a.href) != [] && !Excluded(Trim(a.href))
    ensures r.Some? ==> LinkEnd(r.value)
  {
    var href := Trim(a.href);
    var txt := Normalize(a.text);
    if href == [] || Excluded(href) then None
    else if txt != [] then Some("[" + txt + "](" + href + ")")
    else Some("<" + href + ">")
  }

  /** The rendered links of the kept anchors, in document order, repeats included. */
  function LinkItems(anchors: seq<Anchor>): (r: seq<string>)
    ensures |r| <= |anchors|
    decreases |anchors|
  {
    if anchors == [] then []
    else
      var l := LinkOf(anchors[|anchors| - 1]);
      LinkItems(anchors[..|anchors| - 1]) + (if l.Some? then [l.value] else [])
  }

  lemma LinkItemsSnoc(anchors: seq<Anchor>, k: nat)
    requires k < |anchors|
    ensures LinkItems(anchors[..k + 1]) ==
      LinkItems(anchors[..k]) + (if LinkOf(anchors[k]).Some? then [LinkOf(anchors[k]).value] else [])
  {
    assert anchors[..k + 1][..k] == anchors[..k];
  }

  /** Every rendered link comes from a kept anchor, and every kept anchor's link is rendered. */
  lemma {:induction false} LinkItemsFromAnchors(anchors: seq<Anchor>)
    ensures forall x | x in LinkItems(anchors) :: exists i | 0 <= i < |anchors| :: LinkOf(anchors[i]) == Some(x)
    ensures forall i | 0 <= i < |anchors| && LinkOf(anchors[i]).Some? :: LinkOf(anchors[i]).value in LinkItems(anchors)
    decreases |anchors|
  {
    if anchors != [] {
      var init := anchors[..|anchors| - 1];
      LinkItemsFromAnchors(init);
      assert forall i | 0 <= i < |init| :: init[i] == anchors[i];
    }
  }

  // ---------------------------------------------------------------- assembly

  /** The lines before the chunks: `# title` and `> description`, each only
      when present and each followed by a blank line. */
  function Head(title: string, desc: string): (r: string)
    ensures |r| == (if title != [] then |title| + 4 else 0) + (if desc != [] then |desc| + 4 else 0)
    ensures title != [] ==> r[..|title| + 4] == "# " + title + "\n\n"
    ensures desc != [] ==> r[|r| - |desc| - 4..] == "> " + desc + "\n\n"
    ensures title == [] ==> (r == [] <==> desc == [])
  {
    var h := if title != [] then "# " + title + "\n\n" else "";
    var d := if desc != [] then "> " + desc + "\n\n" else "";
    assert (h + d)[..|h|] == h;
    assert (h + d)[|h|..] == d;
    h + d
  }

  /** What the Links section shows: a rule, the `**Links:**` label and the
      first 100 links, one per line. */
  function LinksBlock(links: seq<string>): string {
    "---\n**Links:**\n\n" + Join(Take(links, MaxLinks), "\n")
  }

  /** The Links section: nothing without links, otherwise the block between a
      blank line and a line end. */
  function LinksSection(links: seq<string>): (r: string)
    ensures r == [] <==> links == []
  {
    if links != [] then "\n\n" + LinksBlock(links) + "\n" else ""
  }

  /** The Markdown before trimming: the heading lines, then the chunks joined
      by blank lines, then the Links section. */
  function Assemble(title: string, desc: string, uniq: seq<string>, links: seq<string>): (r: string)
    ensures var h := Head(title, desc); var j := Join(uniq, "\n\n");
      |h| + |j| <= |r| && r[..|h|] == h && r[|h|..|h| + |j|] == j && r[|h| + |j|..] == LinksSection(links)
  {
    var h := Head(title, desc);
    var j := Join(uniq, "\n\n");
    var l := LinksSection(links);
    assert (h + j + l)[..|h|] == h;
    assert (h + j + l)[|h|..|h| + |j|] == j;
    assert (h + j + l)[|h| + |j|..] == l;
    h + j + l
  }

  /** The title of the brief before it is reported: the meta title, else the fallback. */
  function ResolvedTitle(doc: Doc): string {
    var meta := MetaTitle(doc);
    if meta != [] then meta
    else
      var region := SelectRegion(doc);
      FallbackTitle(Candidate(region, Chunks(region.elements)))
  }

  /** The chunks a page emits: its region's chunks, each once, at most 400. */
  function PageChunks(doc: Doc): seq<string> {
    Take(Dedupe(AllChunks(SelectRegion(doc))), MaxChunks)
  }

  /** The links a page lists: its region's kept links, each once. */
  function PageLinks(doc: Doc): seq<string> {
    Dedupe(LinkItems(SelectRegion(doc).anchors))
  }

  /** The whole conversion of a parsed page: the Markdown is trimmed and a
      reported title is never empty. */
  function Convert(doc: Doc): (r: Brief)
    ensures IsTrimmed(r.markdown)
    ensures r.title.Some? ==> r.title.value != []
  {
    var title := ResolvedTitle(doc);
    var desc := Trim(doc.description.GetOr(""));
    Brief(if title != [] then Some(title) else None, Trim(Assemble(title, desc, PageChunks(doc), PageLinks(doc))))
  }

  // ---------------------------------------------------------------- properties

  /** The title is the first non-blank of `<title>`, og:title and twitter:title;
      only when all three are blank does the heading/chunk fallback apply, and
      an empty title is reported as absent. */
  lemma TitlePrecedence(doc: Doc)
    ensures Trim(doc.title) != [] ==> Convert(doc).title == Some(Trim(doc.title))
    ensures Trim(doc.title) == [] && Trim(doc.ogTitle.GetOr("")) != [] ==>
      Convert(doc).title == Some(Trim(doc.ogTitle.GetOr("")))
    ensures Trim(doc.title) == [] && Trim(doc.ogTitle.GetOr("")) == [] && Trim(doc.twitterTitle.GetOr("")) != [] ==>
      Convert(doc).title == Some(Trim(doc.twitterTitle.GetOr("")))
    ensures MetaTitle(doc) == [] ==>
      var f := FallbackTitle(Candidate(SelectRegion(doc), Chunks(SelectRegion(doc).elements)));
      Convert(doc).title == if f == [] then None else Some(f)
    ensures Convert(doc).title != Some([])
  {
  }

  /** A fallback title is at most 140 characters and does not start with white
      space (which characters it keeps is `FallbackTitleCut`). */
  lemma {:induction false} FallbackTitleShape(region: Region)
    ensures var f := FallbackTitle(Candidate(region, Chunks(region.elements)));
      |f| <= TitleCap && (f != [] ==> !IsSpace(f[0]))
  {
    var chunks := Chunks(region.elements);
    var c := Candidate(region, chunks);
    if c != [] {
      assert !IsSpace(c[0]) by {
        var h1 := Trim(FirstTextOf(region.elements, H1));
        var h2 := Trim(FirstTextOf(region.elements, H2));
        if h1 == [] && h2 == [] {
          var k :| 0 <= k < |chunks| && chunks[k] == c;
        }
      }
      var s := StripHashes(c);
      if s != [] {
        assert Take(s, TitleCap)[0] == s[0];
      }
    }
  }

  /** A converted brief with a title starts with `# ` followed by the whole title. */
  lemma MarkdownStartsWithTitle(doc: Doc)
    requires Convert(doc).title.Some?
    ensures Convert(doc).title == Some(ResolvedTitle(doc))
    ensures var md := Convert(doc).markdown; var t := ResolvedTitle(doc);
      |t| + 2 <= |md| && md[..|t| + 2] == "# " + t
  {
    ConvertParts(doc);
    HeadingFollowed(doc);
    TitledMarkdown(ResolvedTitle(doc), Trim(doc.description.GetOr("")), PageChunks(doc), PageLinks(doc),
      Convert(doc).markdown);
  }

  /** Something visible follows the first character of the title: its own last
      character, or the first chunk's first. */
  predicate HeadingBacked(t: string, uniq: seq<string>)
    requires t != []
  {
    !IsSpace(t[|t| - 1]) || (uniq != [] && uniq[0] != [] && !IsSpace(uniq[0][0]))
  }

  /** A meta title ends visibly; a fallback title is followed by a chunk that starts visibly. */
  lemma HeadingFollowed(doc: Doc)
    requires ResolvedTitle(doc) != []
    ensures HeadingBacked(ResolvedTitle(doc), PageChunks(doc))
  {
    var t := ResolvedTitle(doc);
    if MetaTitle(doc) == [] {
      FallbackHasChunk(doc);
      BackedByChunk(t, PageChunks(doc));
    } else {
      assert t == MetaTitle(doc);
      BackedByEnd(t, PageChunks(doc));
    }
  }

  lemma BackedByChunk(t: string, uniq: seq<string>)
    requires t != [] && uniq != [] && uniq[0] != [] && !IsSpace(uniq[0][0])
    ensures HeadingBacked(t, uniq)
  {
  }

  lemma BackedByEnd(t: string, uniq: seq<string>)
    requires t != [] && IsTrimmed(t)
    ensures HeadingBacked(t, uniq)
  {
  }

  /** What `Convert` is made of, by name. */
  lemma ConvertParts(doc: Doc)
    ensures var t := ResolvedTitle(doc);
      Convert(doc).title == (if t != [] then Some(t) else None)
    ensures Convert(doc).markdown ==
      Trim(Assemble(ResolvedTitle(doc), Trim(doc.description.GetOr("")), PageChunks(doc), PageLinks(doc)))
  {
  }

  /** A fallback title comes with a first chunk that starts visibly. */
  lemma FallbackHasChunk(doc: Doc)
    requires MetaTitle(doc) == [] && ResolvedTitle(doc) != []
    ensures var uniq := PageChunks(doc);
      uniq != [] && uniq[0] != [] && !IsSpace(uniq[0][0])
  {
    var region := SelectRegion(doc);
    CandidateHasChunk(region);
    FirstChunkVisible(region);
  }

  /** A region with a block chunk emits a first chunk that starts visibly. */
  lemma FirstChunkVisible(region: Region)
    requires Chunks(region.elements) != []
    ensures var uniq := Take(Dedupe(AllChunks(region)), MaxChunks);
      uniq != [] && uniq[0] != [] && !IsSpace(uniq[0][0])
  {
    var all := AllChunks(region);
    assert all[0] == Chunks(region.elements)[0];
    var d := Dedupe(all);
    assert all[0] in d;
    SubsequenceMembers(d, all);
    AllChunksFramed(region);
    assert d[0] in all;
  }

  /** Trimming keeps the `# ` heading whole when something visible follows the
      title's first character: the title's own last character, or the first chunk. */
  lemma TitledMarkdown(t: string, desc: string, uniq: seq<string>, links: seq<string>, md: string)
    requires t != [] && md == Trim(Assemble(t, desc, uniq, links))
    requires HeadingBacked(t, uniq)
    ensures |t| + 2 <= |md| && md[..|t| + 2] == "# " + t
  {
    var s := Assemble(t, desc, uniq, links);
    var n := VisibleAfterHeading(t, desc, uniq, links);
    assert s[0] == '#' by {
      assert s[..|t| + 2][0] == '#';
    }
    TrimKeepsHead(s, n);
    assert md[..|t| + 2] == s[..|t| + 2] by {
      assert forall k | 0 <= k < |t| + 2 :: md[k] == s[k];
    }
  }

  /** The position of a visible character after the title's first character. */
  lemma VisibleAfterHeading(t: string, desc: string, uniq: seq<string>, links: seq<string>) returns (n: nat)
    requires t != []
    requires HeadingBacked(t, uniq)
    ensures var md := Assemble(t, desc, uniq, links); |t| + 1 <= n < |md| && !IsSpace(md[n])
  {
    if !IsSpace(t[|t| - 1]) {
      TitleEndAt(t, desc, uniq, links);
      n := |t| + 1;
    } else {
      n := FirstChunkAt(t, desc, uniq, links);
    }
  }

  /** The title's last character sits right after `# ` and the rest of the title. */
  lemma TitleEndAt(t: string, desc: string, uniq: seq<string>, links: seq<string>)
    requires t != []
    ensures var md := Assemble(t, desc, uniq, links); |t| + 1 < |md| && md[|t| + 1] == t[|t| - 1]
  {
    var md := Assemble(t, desc, uniq, links);
    var p := md[..|t| + 2];
    assert p == "# " + t;
    assert p[|t| + 1] == t[|t| - 1];
  }

  /** The first chunk's first character follows the heading lines. */
  lemma FirstChunkAt(t: string, desc: string, uniq: seq<string>, links: seq<string>) returns (n: nat)
    requires t != [] && uniq != [] && uniq[0] != []
    ensures var md := Assemble(t, desc, uniq, links); |t| + 1 <= n < |md| && md[n] == uniq[0][0]
  {
    var h := Head(t, desc);
    var j := Join(uniq, "\n\n");
    var rest := LinksSection(links);
    JoinFirst(uniq, "\n\n");
    assert Assemble(t, desc, uniq, links) == h + j + rest;
    n := |h|;
    assert (h + j + rest)[n] == j[0];
  }

  /** Every chunk, of a block element or of a `<div>`, starts and ends with a visible character. */
  lemma AllChunksFramed(region: Region)
    ensures forall x | x in AllChunks(region) :: Framed(x)
  {
    DivChunksFromDivs(region.divs);
  }

  /** A fallback candidate exists only when some block element gave a chunk. */
  lemma CandidateHasChunk(region: Region)
    requires Candidate(region, Chunks(region.elements)) != []
    ensures Chunks(region.elements) != []
  {
    var es := region.elements;
    var h1 := FirstTextOf(es, H1);
    var h2 := FirstTextOf(es, H2);
    if Trim(h1) != [] {
      var i :| 0 <= i < |es| && es[i].tag == H1 && es[i].text == h1;
      TrimEmpty(h1);
      ChunkPresent(es, i);
    } else if Trim(h2) != [] {
      var i :| 0 <= i < |es| && es[i].tag == H2 && es[i].text == h2;
      TrimEmpty(h2);
      ChunkPresent(es, i);
    }
  }

  /** An element with visible text gives the region at least one chunk. */
  lemma {:induction false} ChunkPresent(elements: seq<Element>, i: nat)
    requires i < |elements| && !AllSpace(elements[i].text)
    ensures Chunks(elements) != []
    decreases |elements|
  {
    var init := elements[..|elements| - 1];
    if i < |elements| - 1 {
      assert init[i] == elements[i];
      ChunkPresent(init, i);
    } else {
      assert ChunkOf(elements[i]).Some?;
    }
  }

  /** The Links section closes the brief exactly when the region has a kept
      link: then the brief ends with the rule, the label and the first 100
      distinct links, one per line; otherwise it is the heading lines and the
      chunks alone. */
  lemma MarkdownLinks(doc: Doc)
    ensures PageLinks(doc) != [] ==>
      var md := Convert(doc).markdown; var block := LinksBlock(PageLinks(doc));
      |block| <= |md| && md[|md| - |block|..] == block
    ensures PageLinks(doc) == [] ==>
      Convert(doc).markdown == Trim(Head(ResolvedTitle(doc), Trim(doc.description.GetOr(""))) + Join(PageChunks(doc), "\n\n"))
  {
    ConvertParts(doc);
    PageLinksEnd(doc);
    AssembledLinks(ResolvedTitle(doc), Trim(doc.description.GetOr("")), PageChunks(doc), PageLinks(doc),
      Convert(doc).markdown);
  }

  /** With at least one chunk, trimming cuts only the last line end: the brief
      is the heading lines, the chunks joined by blank lines and, when the
      region has a kept link, a blank line and the Links block. */
  lemma MarkdownBody(doc: Doc)
    requires PageChunks(doc) != []
    ensures var body := Head(ResolvedTitle(doc), Trim(doc.description.GetOr(""))) + Join(PageChunks(doc), "\n\n");
      Convert(doc).markdown == if PageLinks(doc) != [] then body + "\n\n" + LinksBlock(PageLinks(doc)) else body
  {
    ConvertParts(doc);
    PageLinksEnd(doc);
    PageChunksFramed(doc);
    HeadJoinFramed(ResolvedTitle(doc), Trim(doc.description.GetOr("")), PageChunks(doc));
    TrimBody(Head(ResolvedTitle(doc), Trim(doc.description.GetOr(""))) + Join(PageChunks(doc), "\n\n"),
      PageLinks(doc));
  }

  /** A non-blank description shows as a `> ` line right after the `# ` heading
      lines, or first when there is no title. */
  lemma MarkdownDescription(doc: Doc)
    requires Trim(doc.description.GetOr("")) != []
    ensures DescLineAt(Convert(doc).markdown, DescStart(ResolvedTitle(doc)), Trim(doc.description.GetOr("")))
  {
    ConvertParts(doc);
    DescribedMarkdown(ResolvedTitle(doc), Trim(doc.description.GetOr("")), PageChunks(doc), PageLinks(doc),
      Convert(doc).markdown);
  }

  /** A brief without a title starts with its description line when it has one. */
  lemma UntitledStartsWithDescription(doc: Doc)
    requires Convert(doc).title.None? && Trim(doc.description.GetOr("")) != []
    ensures var d := Trim(doc.description.GetOr("")); var md := Convert(doc).markdown;
      |d| + 2 <= |md| && md[..|d| + 2] == "> " + d
  {
    ConvertParts(doc);
    UntitledMarkdown(Trim(doc.description.GetOr("")), PageChunks(doc), PageLinks(doc), Convert(doc).markdown);
  }

  /** Without a heading, the assembled Markdown opens with the description line. */
  lemma UntitledMarkdown(d: string, uniq: seq<string>, links: seq<string>, md: string)
    requires d != [] && IsTrimmed(d) && md == Trim(Assemble([], d, uniq, links))
    ensures |d| + 2 <= |md| && md[..|d| + 2] == "> " + d
  {
    DescribedMarkdown([], d, uniq, links, md);
    assert md[..|d| + 2] == md[0..|d| + 2];
  }

  /** The brief reports a title exactly when the resolved title is not empty. */
  lemma TitlePresence(doc: Doc)
    ensures Convert(doc).title.None? <==> ResolvedTitle(doc) == []
  {
    ConvertParts(doc);
  }

  /** The emitted chunks start and end visibly. */
  lemma PageChunksFramed(doc: Doc)
    ensures forall x | x in PageChunks(doc) :: Framed(x)
  {
    var region := SelectRegion(doc);
    var all := AllChunks(region);
    var d := Dedupe(all);
    AllChunksFramed(region);
    SubsequenceMembers(d, all);
    assert forall x | x in PageChunks(doc) :: x in d;
  }

  /** The heading lines followed by at least one chunk start and end visibly. */
  lemma HeadJoinFramed(t: string, d: string, uniq: seq<string>)
    requires uniq != [] && forall x | x in uniq :: Framed(x)
    ensures Framed(Head(t, d) + Join(uniq, "\n\n"))
  {
    assert Framed(uniq[0]) && Framed(uniq[|uniq| - 1]);
    JoinFirst(uniq, "\n\n");
    JoinLast(uniq, "\n\n");
    HeadStart(t, d);
    FramedBehind(Head(t, d), Join(uniq, "\n\n"));
  }

  /** The heading lines, when there are any, start with `#` or `>`. */
  lemma HeadStart(t: string, d: string)
    ensures var h := Head(t, d); h == [] || !IsSpace(h[0])
  {
    var h := Head(t, d);
    if t != [] {
      assert h[0] == h[..|t| + 4][0] == '#';
    } else if d != [] {
      assert h[0] == h[|h| - |d| - 4..][0] == '>';
    }
  }

  /** Text that starts visibly, or nothing, in front of a framed piece keeps it framed. */
  lemma FramedBehind(h: string, j: string)
    requires h == [] || !IsSpace(h[0])
    requires Framed(j)
    ensures Framed(h + j)
  {
    assert (h + j)[|h + j| - 1] == j[|j| - 1];
    if h != [] {
      assert (h + j)[0] == h[0];
    }
  }

  /** Trimming text that starts and ends visibly, followed by the Links section,
      cuts only the section's last line end. */
  lemma TrimBody(p: string, links: seq<string>)
    requires Framed(p) && LastLinkEnds(links)
    ensures Trim(p + LinksSection(links)) == if links != [] then p + "\n\n" + LinksBlock(links) else p
  {
    if links != [] {
      var block := LinksBlock(links);
      var shown := Take(links, MaxLinks);
      JoinLast(shown, "\n");
      assert block[|block| - 1] == shown[|shown| - 1][|shown[|shown| - 1]| - 1];
      var m := p + "\n\n" + block;
      assert p + LinksSection(links) == m + "\n";
      TrimPadded(m, "\n");
    } else {
      assert p + LinksSection(links) == p;
      TrimPadded(p, "");
    }
  }

  /** `md` holds the `> ` line of `d` at position `h`. */
  predicate DescLineAt(md: string, h: nat, d: string) {
    h + |d| + 2 <= |md| && md[h..h + |d| + 2] == "> " + d
  }

  /** Where the `> ` line starts: after the `# ` heading and its blank line, if any. */
  function DescStart(t: string): nat {
    if t != [] then |t| + 4 else 0
  }

  /** In the trimmed assembly, a non-blank description follows the `# ` heading
      lines, or starts the text when there is no title. */
  lemma DescribedMarkdown(t: string, d: string, uniq: seq<string>, links: seq<string>, md: string)
    requires d != [] && IsTrimmed(d) && md == Trim(Assemble(t, d, uniq, links))
    ensures DescLineAt(md, DescStart(t), d)
  {
    var s := Assemble(t, d, uniq, links);
    var head := Head(t, d);
    HeadDescLine(t, d);
    SliceOfPrefix(s, head, DescStart(t), DescStart(t) + |d| + 2);
    SliceOfPrefix(s, head, 0, 1);
    assert s[0] == head[0] by {
      assert s[0..1][0] == head[0..1][0];
    }
    TrimKeepsPiece(s, DescStart(t), "> " + d);
  }

  /** The heading lines start visibly and hold the `> ` line where `DescStart` says. */
  lemma HeadDescLine(t: string, d: string)
    requires d != []
    ensures var head := Head(t, d); var h := DescStart(t);
      h + |d| + 2 <= |head| && head[h..h + |d| + 2] == "> " + d && !IsSpace(head[0])
  {
    var head := Head(t, d);
    var h := DescStart(t);
    var line := "> " + d + "\n\n";
    assert head[h..] == line;
    SliceOfSuffix(head, h, line, |d| + 2);
    assert line[..|d| + 2] == "> " + d;
    if t != [] {
      assert head[0] == head[..|t| + 4][0];
    } else {
      assert head[0] == line[0];
    }
  }

  /** The last link a page lists ends visibly. */
  lemma PageLinksEnd(doc: Doc)
    ensures LastLinkEnds(PageLinks(doc))
  {
    LastLinkVisible(SelectRegion(doc).anchors);
  }

  /** The trimmed assembly ends with the Links block when there are links, and
      is the heading lines and chunks alone otherwise. */
  lemma AssembledLinks(t: string, desc: string, uniq: seq<string>, links: seq<string>, md: string)
    requires md == Trim(Assemble(t, desc, uniq, links))
    requires LastLinkEnds(links)
    ensures links != [] ==> var block := LinksBlock(links); |block| <= |md| && md[|md| - |block|..] == block
    ensures links == [] ==> md == Trim(Head(t, desc) + Join(uniq, "\n\n"))
  {
    assert Assemble(t, desc, uniq, links) == Head(t, desc) + Join(uniq, "\n\n") + LinksSection(links);
    LinksAtEnd(Head(t, desc), uniq, links, md);
  }

  /** The last of the links shown, if any, ends with a visible character. */
  predicate LastLinkEnds(links: seq<string>) {
    links != [] ==>
      var shown := Take(links, MaxLinks); var last := shown[|shown| - 1];
      last != [] && !IsSpace(last[|last| - 1])
  }

  /** The last link shown ends with `)` or `>`. */
  lemma LastLinkVisible(anchors: seq<Anchor>)
    ensures LastLinkEnds(Dedupe(LinkItems(anchors)))
  {
    var items := LinkItems(anchors);
    var links := Dedupe(items);
    if links == [] {
      return;
    }
    var shown := Take(links, MaxLinks);
    var last := shown[|shown| - 1];
    assert last in links;
    SubsequenceMembers(links, items);
    LinkItemsEnd(anchors);
    assert LinkEnd(last);
  }

  /** Every rendered link ends with `)` or `>`. */
  lemma {:induction false} LinkItemsEnd(anchors: seq<Anchor>)
    ensures forall x | x in LinkItems(anchors) :: LinkEnd(x)
    decreases |anchors|
  {
    if anchors != [] {
      LinkItemsEnd(anchors[..|anchors| - 1]);
    }
  }

  /** Trimming keeps the whole Links block at the end, and without links the
      section is absent. */
  lemma LinksAtEnd(head: string, uniq: seq<string>, links: seq<string>, md: string)
    requires LastLinkEnds(links) && md == Trim(head + Join(uniq, "\n\n") + LinksSection(links))
    ensures links != [] ==> var block := LinksBlock(links); |block| <= |md| && md[|md| - |block|..] == block
    ensures links == [] ==> md == Trim(head + Join(uniq, "\n\n"))
  {
    var p := head + Join(uniq, "\n\n");
    if links != [] {
      var shown := Take(links, MaxLinks);
      var last := shown[|shown| - 1];
      JoinLast(shown, "\n");
      var block := LinksBlock(links);
      assert block[|block| - 1] == last[|last| - 1];
      assert p + LinksSection(links) == (p + "\n\n") + block + "\n";
      TrimKeepsTail(p + "\n\n", block, "\n");
    } else {
      assert p + LinksSection(links) == p;
    }
  }

  /** Trimming a string that starts with a visible character keeps every
      character up to any later visible one. */
  lemma TrimKeepsHead(s: string, n: nat)
    requires n < |s| && !IsSpace(s[0]) && !IsSpace(s[n])
    ensures |Trim(s)| > n && forall k | 0 <= k <= n :: Trim(s)[k] == s[k]
  {
    TrimIsSlice(s);
    assert TrimOffset(s) == 0;
  }

  /** The emitted chunks are distinct, at most 400, and in the order they were
      collected; when there are at most 400 distinct chunks, none is lost. */
  lemma UniqueChunks(chunks: seq<string>)
    ensures var u := Take(Dedupe(chunks), MaxChunks);
      |u| <= MaxChunks && NoDuplicates(u) && IsSubsequence(u, chunks) &&
      (|Dedupe(chunks)| <= MaxChunks ==> forall i | 0 <= i < |chunks| :: chunks[i] in u)
    ensures forall k | 0 <= k <= |chunks| :: Take(Dedupe(chunks[..k]), MaxChunks) <= Take(Dedupe(chunks), MaxChunks)
  {
    var d := Dedupe(chunks);
    var u := Take(d, MaxChunks);
    SubsequencePrefix(d, chunks, |u|);
    if |d| <= MaxChunks {
      assert u == d;
    } else {
      assert forall i | 0 <= i < |u| :: u[i] == d[i];
    }
    DedupeOrder(chunks);
    forall k | 0 <= k <= |chunks|
      ensures Take(Dedupe(chunks[..k]), MaxChunks) <= u
    {
      TakePrefix(Dedupe(chunks[..k]), d, MaxChunks);
    }
  }

  /** A kept anchor is one whose trimmed `href` is non-empty and not a `#`,
      `mailto:` or `javascript:` link; it renders as `[text](href)`, or as
      `<href>` when its text is blank. */
  lemma LinkOfKept(a: Anchor)
    ensures var href := Trim(a.href); var txt := Normalize(a.text);
      LinkOf(a) == if href == [] || Excluded(href) then None
        else if !AllSpace(a.text) then Some("[" + txt + "](" + href + ")")
        else Some("<" + href + ">")
  {
  }

  /** Every emitted link comes, once, from a kept anchor, and every kept
      anchor's link is emitted. */
  lemma LinksFromKeptAnchors(anchors: seq<Anchor>)
    ensures NoDuplicates(Dedupe(LinkItems(anchors)))
    ensures forall x | x in Dedupe(LinkItems(anchors)) ::
      exists i | 0 <= i < |anchors| :: LinkOf(anchors[i]) == Some(x)
    ensures forall i | 0 <= i < |anchors| && LinkOf(anchors[i]).Some? ::
      LinkOf(anchors[i]).value in Dedupe(LinkItems(anchors))
  {
    var items := LinkItems(anchors);
    LinkItemsFromAnchors(anchors);
    SubsequenceMembers(Dedupe(items), items);
  }

  /** `$("h1,h2,h3,p,li,blockquote").each(...)`: one chunk pushed per element with visible text. */
  method CollectChunks(elements: seq<Element>) returns (chunks: seq<string>)
    ensures chunks == Chunks(elements)
  {
    chunks := [];
    var i := 0;
    while i < |elements|
      invariant i <= |elements|
      invariant chunks == Chunks(elements[..i])
    {
      ChunksSnoc(elements, i);
      var c := ChunkOf(elements[i]);
      if c.Some? {
        chunks := chunks + [c.value];
      }
      i := i + 1;
    }
    assert elements[..i] == elements;
  }

  /** `$("div").each(...)`: the long `<div>` texts pushed after `chunks`. */
  method PushDivChunks(chunks: seq<string>, divs: seq<string>) returns (out: seq<string>)
    ensures out == chunks + DivChunks(divs)
  {
    out := chunks;
    var j := 0;
    ghost var pushed: seq<string> := [];
    while j < |divs|
      invariant j <= |divs|
      invariant pushed == DivChunks(divs[..j])
      invariant out == chunks + pushed
    {
      DivChunksSnoc(divs, j);
      var d := DivChunkOf(divs[j]);
      if d.Some? {
        AppendAssoc(chunks, pushed, d.value);
        out := out + [d.value];
        pushed := pushed + [d.value];
      }
      j := j + 1;
    }
    assert divs[..j] == divs;
  }

  /** Pushing onto a sequence that was extended is extending by the longer tail. */
  lemma AppendAssoc<T>(a: seq<T>, b: seq<T>, x: T)
    ensures (a + b) + [x] == a + (b + [x])
  {
  }

  /** One more anchor adds its link unless it is dropped or already listed. */
  lemma LinksStep(anchors: seq<Anchor>, k: nat, before: seq<string>)
    requires k < |anchors| && before == Dedupe(LinkItems(anchors[..k]))
    ensures var l := LinkOf(anchors[k]);
      Dedupe(LinkItems(anchors[..k + 1])) == if l.Some? && l.value !in before then before + [l.value] else before
  {
    LinkItemsSnoc(anchors, k);
    var l := LinkOf(anchors[k]);
    if l.Some? {
      DedupeSnoc(LinkItems(anchors[..k]), l.value);
    } else {
      assert LinkItems(anchors[..k + 1]) == LinkItems(anchors[..k]);
    }
  }

  /** `$("a[href]").each(...)` into a `Set`: each kept link added once, in first-seen order. */
  method CollectLinks(anchors: seq<Anchor>) returns (links: seq<string>)
    ensures links == Dedupe(LinkItems(anchors))
  {
    links := [];
    var k := 0;
    assert anchors[..k] == [];
    while k < |anchors|
      invariant k <= |anchors|
      invariant links == Dedupe(LinkItems(anchors[..k]))
    {
      LinksStep(anchors, k, links);
      var l := LinkOf(anchors[k]);
      if l.Some? && l.value !in links {
        links := links + [l.value];
      }
      assert links == Dedupe(LinkItems(anchors[..k + 1]));
      k := k + 1;
    }
    assert anchors[..k] == anchors;
  }

  /** `htmlToMarkdown` on a parsed page. */
  method HtmlToMarkdown(doc: Doc) returns (title: Option<string>, markdown: string)
    ensures Brief(title, markdown) == Convert(doc)
  {
    var t := MetaTitle(doc);
    var desc := Trim(doc.description.GetOr(""));
    var region := SelectRegion(doc);
    var chunks := CollectChunks(region.elements);
    if t == [] {
      var candidate := Candidate(region, chunks);
      if candidate != [] {
        t := Take(StripHashes(candidate), TitleCap);
      }
    }
    if |chunks| < ThinRegion {
      chunks := PushDivChunks(chunks, region.divs);
    }
    var links := CollectLinks(region.anchors);
    var uniq := Take(Dedupe(chunks), MaxChunks);
    title := if t != [] then Some(t) else None;
    markdown := Trim(Assemble(t, desc, uniq, links));
  }
}
