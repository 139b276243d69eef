# Affiliate-marketing briefs, modelled in Dafny

The application stores *briefs*: Markdown summaries of product or landing
pages, kept in a database with their title, source URL and raw HTML. This
project models the decision logic of that application and proves its
properties. The modelled logic is:

- **The brief route** (`/api/brief`).
  - `htmlToMarkdown` turns a parsed page into a title and a Markdown brief, in these steps:
    - the title's fallback chain;
    - the choice of the main-content region;
    - tag-prefixed chunks, then a `<div>` supplement when the region is thin;
    - filtered and de-duplicated links;
    - de-duplicated, capped chunks, and the final assembly.
  - `titleFromUrl` builds a title from the last path segment of a URL.
  - `GET` computes the `?list=` limit, and `DELETE` and `POST` choose their branch.
  - Modules `BriefMarkdown` (`brief_markdown.dfy`) and `BriefRoute` (`brief_route.dfy`).
- **Manual brief creation.**
  - `/api/briefs/create` recovers a page's own URL from canonical, og:url and `<base>` tags, then picks the stored `source_url`. Module `BriefsCreate`.
  - `/api/brief/create` recovers a URL from canonical and og:url tags, then fills the `source_url`/`url` columns. Module `BriefCreate`.
  - The regular expressions that find those tags have a hand-written matcher in module `TagPattern`. It is proved to return the match JavaScript's `String.prototype.match` returns.
- **The list route** (`/api/brief/list`): the default and the clamp of `limit`. Module `BriefList`.
- **The briefs page**: the query filter and the local delete. The page's state is a class whose methods are the state setters the page calls. Module `BriefsPage`.
- **`scrapeProduct`**: the target URL's scheme, the bullet cleaning, the first price and the dt/dd spec pairing, around an abstract browser. Module `Scrape`.

Two shared modules sit underneath:

- `Wrappers` holds the optional value and JavaScript truthiness.
- `Text` holds JavaScript's white space and `trim`, the `/\s+/g` collapse, ASCII case folding, `includes`, `split`, `join`, `slice` and `Array.from(new Set(...))`.

`htmlToMarkdown` takes the page title from the `<title>` text first, then og:title, then twitter:title (`app/api/brief/route.ts:47-50`).

These parts are given to the model as parameters:

- the HTML parser (`parseDoc`);
- the `URL` parser (`parse`/`parseUrl`);
- `decodeURIComponent` (`decode`);
- `new URL(u).toString()` (`validate`);
- `Number` (`toNumber`);
- the browser (`load`);
- the network's answer (`fetched`);
- the database's answer (`stored`, `insertFails`, `lookupFails`, `deleteFails`, `dbError`).

A partial one of these returns `None` where the JavaScript throws.

## Model

| member | source | states |
|---|---|---|
| Wrappers.FirstTruthy | app/api/brief/create/route.ts:34-35 | `a \|\| b \|\| null`: the first of the two that is a non-empty string, else nothing |
| Text.Trim | app/api/brief/route.ts:48-52 | `trim()` leaves a string with neither end blank and no longer than its input |
| Text.TrimIsSlice | app/api/brief/route.ts:48-52 | what `trim()` keeps is one contiguous piece of the input, and everything cut on either side is white space |
| Text.TrimPiece | app/api/brief/route.ts:48-52 | what `trim()` keeps begins right after the leading white space and lies inside the input |
| Text.TrimCutsSpace | app/api/brief/route.ts:48-52 | every character `trim()` cuts from either end is white space |
| Text.TrimEmpty | app/api/brief/route.ts:48-52 | `trim()` gives `""` exactly when the input is blank, so `x.trim()` is falsy exactly for blank `x` |
| Text.TrimKeepsVisible | app/api/brief/route.ts:48-52 | `trim()` removes only white space: the visible characters stay, in order |
| Text.TrimOfTrimmed | app/api/brief/route.ts:48-52 | a string with no blank end is its own trim |
| Text.TrimIdempotent | app/api/brief/route.ts:48-52 | trimming twice is trimming once |
| Text.Collapse | app/api/brief/route.ts:66 | `replace(/\s+/g, " ")` leaves no two spaces in a row and only plain spaces, and is empty exactly for empty input |
| Text.CollapseKeepsVisible | app/api/brief/route.ts:66 | the collapse keeps every visible character, in order |
| Text.CollapseRun | app/api/brief/route.ts:66 | a whole run of white space becomes exactly one space |
| Text.CollapseOfPlain | app/api/brief/route.ts:66 | text with no white space is unchanged |
| Text.CollapseAppend | app/api/brief/route.ts:66 | the rewrite goes run by run: cut anywhere except inside a white-space run, the two sides collapse separately; with `CollapseRun` and `CollapseOfPlain` this fixes the result on every input |
| Text.NormalizeFramed | app/api/brief/route.ts:66 | collapse-then-trim removes the white space before and after the visible text and collapses the runs inside it: `Normalize(lead + m + tail) == Collapse(m)` for blank `lead` and `tail` |
| Text.Normalize | app/api/brief/route.ts:66 | collapse-then-trim yields the normal form (no blank ends, single plain spaces), keeps the visible characters, and is empty exactly for blank input |
| Text.TrimOfCollapsed | app/api/brief/route.ts:85 | trimming a collapsed text gives a text in normal form |
| Text.LowerChar | app/briefs/page.tsx:125 | ASCII capitals map to their lower case, which upper-cases back; every other character is unchanged |
| Text.Lower | app/briefs/page.tsx:125 | `toLowerCase` keeps the length and folds each character |
| Text.LowerOfLower | app/briefs/page.tsx:125 | text without ASCII capitals is its own lower case |
| Text.Take | app/api/brief/route.ts:98 | `slice(0, n)` is the prefix of length `min(n, len)` |
| Text.Dedupe | app/api/brief/route.ts:98 | `Array.from(new Set(s))` has no repeats, contains every element of `s`, and keeps its elements in the order of `s` (a subsequence) |
| Text.DedupeOrder | app/api/brief/route.ts:98 | each element is kept at its first occurrence: de-duplicating any prefix of `s` gives a prefix of de-duplicating all of `s` |
| Text.DedupeSnoc | app/api/brief/route.ts:95 | adding one more element to a set grows it exactly when the element is new; this is what the link loop relies on |
| Text.DedupeOfDistinct | app/api/brief/route.ts:98 | de-duplicating a list without repeats changes nothing |
| Text.DedupeIdempotent | app/api/brief/route.ts:98 | de-duplicating twice is de-duplicating once |
| Text.NonEmptyOnly | app/api/brief/route.ts:29 | `.filter(Boolean)` on strings keeps exactly the non-empty ones, in order: a subsequence holding every non-empty text as many times as the input does, and no empty text |
| Text.NonEmptyOnlyOfNonEmpty | lib/scrape.ts:20 | filtering a list with no empty text changes nothing |
| Text.Split | app/api/brief/route.ts:29 | `split("/")` always yields at least one piece |
| Text.SplitPiecesFree | app/api/brief/route.ts:29 | no piece of a split contains the separator |
| Text.SplitJoin | app/api/brief/route.ts:29 | joining the pieces with the separator gives back the original string |
| Text.SubsequenceMembers | app/briefs/page.tsx:126 | everything a filter keeps was in its input |
| TagPattern.NextGt | app/api/briefs/create/route.ts:10 | the `[^>]` gap ends at the first `>` after the tag name |
| TagPattern.CaptureAt | app/api/briefs/create/route.ts:10 | `([^"']+)["']` captures a non-empty quote-free text that is followed by a quote |
| TagPattern.LeftmostMarker | app/api/briefs/create/route.ts:10 | the leftmost position from which the `rel="canonical"`-style marker fits, and none fits before it |
| TagPattern.MarkerBeforeMeans | app/api/briefs/create/route.ts:10 | trying only the leftmost marker accepts exactly when some marker between the gap's start and the key fits, as backtracking would find |
| TagPattern.FirstStartIsFirst | app/api/briefs/create/route.ts:10 | scanning start positions left to right, with the greedy gap backing off from the right, finds the leftmost start and at it the rightmost key, or reports that there is no match at all |
| TagPattern.FirstMatch | app/api/briefs/create/route.ts:10 | `html.match(re)` fails exactly when no position matches; otherwise it is the leftmost match, with the rightmost key at that start |
| TagPattern.FirstMatchUnique | app/api/briefs/create/route.ts:10 | the reported match is unique |
| TagPattern.Capture | app/api/briefs/create/route.ts:10-11 | `html.match(re)?.[1]` is absent exactly when nothing matches; otherwise it is the capture of the first match, non-empty and quote-free |
| TagPattern.MatchCaptures | app/api/briefs/create/route.ts:10-11 | the first match always has a capture |
| TagPattern.MatchBounds | app/api/briefs/create/route.ts:10 | a match lies inside the page |
| TagPattern.MatchInOneTag | app/api/briefs/create/route.ts:10 | a match never crosses a `>`: the marker and the key are in the same tag, with the marker before the key |
| TagPattern.Loosened | app/api/brief/create/route.ts:13 | the loose canonical pattern is the strict one with the marker's quotes made optional |
| TagPattern.LoosenedMarkerFits | app/api/brief/create/route.ts:13 | a quoted marker also fits the optionally quoted one |
| TagPattern.LoosenedKeepsMatch | app/api/brief/create/route.ts:13 | making the quotes optional loses no match |
| TagPattern.StrictCanonicalImpliesLoose | app/api/brief/create/route.ts:13 | every link the strict canonical pattern matches, the loose one matches too, so the loose route recovers a URL whenever the strict one does |
| BriefsCreate.TryExtractUrl | app/api/briefs/create/route.ts:9-16 | the canonical link's href, else the og:url content, else the `<base>` href, else null; each link is taken only when its pattern matches, and never reads as empty |
| BriefsCreate.FinalUrl | app/api/briefs/create/route.ts:36-45 | no URL is stored only when the caller's URL is missing or invalid and the recovered one is missing or invalid too |
| BriefsCreate.ResolveFinalUrl | app/api/briefs/create/route.ts:36-45 | the step-by-step reassignment of `finalUrl` ends with the value of the precedence rule `FinalUrl` |
| BriefsCreate.CallerUrlWins | app/api/briefs/create/route.ts:37-39 | a caller URL that validates is stored in its normalised form, whatever the page says |
| BriefsCreate.RecoveredUrlFallback | app/api/briefs/create/route.ts:40-45 | a missing or invalid caller URL gives way to the normalised recovered URL |
| BriefsCreate.NoUsableUrl | app/api/briefs/create/route.ts:36-45 | when neither URL validates, `source_url` is null and the request goes on |
| BriefsCreate.FinalUrlOrigin | app/api/briefs/create/route.ts:36-45 | a stored URL is always the normalised caller URL or the normalised recovered URL |
| BriefsCreate.Post | app/api/briefs/create/route.ts:24-63 | a body that fails to parse gives 500; a missing title or html_raw gives 400 with no insert; otherwise the row holds the given title and html_raw unchanged, the resolved URL and origin `manual`, and the reply is 201, or 500 on a store error |
| BriefCreate.ExtractCanonical | app/api/brief/create/route.ts:10-19 | the loose canonical link's href, else the og:url content, else null, with no `<base>` fallback; never reads as empty |
| BriefCreate.MakePayload | app/api/brief/create/route.ts:31-36 | the row keeps title and html, `source_url` prefers the caller's URL, and `url` prefers the recovered one |
| BriefCreate.PayloadUrls | app/api/brief/create/route.ts:34-35 | with only one of the two URLs, both columns hold it; with both, each column holds its own; with neither, both are null |
| BriefCreate.Post | app/api/brief/create/route.ts:21-45 | unparseable body gives 500; missing title or html gives 400; otherwise the payload is inserted, and an insert error gives 400, success 200; 200 exactly when a row was stored |
| BriefList.RequestedLimit | app/api/brief/list/route.ts:9 | an absent or empty `limit` means 10, otherwise the number given |
| BriefList.Clamp | app/api/brief/list/route.ts:15 | the clamp always lands in [1, 50], passes values inside through, and sends values outside to the nearer bound |
| BriefList.ClampIdempotent | app/api/brief/list/route.ts:15 | clamping a clamped limit changes nothing |
| BriefList.ClampMonotone | app/api/brief/list/route.ts:15 | a larger request never gets a smaller limit |
| BriefList.EffectiveLimit | app/api/brief/list/route.ts:9-15 | the store is asked for between 1 and 50 rows, 10 by default, and exactly the requested number when it is in range |
| BriefList.Reply | app/api/brief/list/route.ts:17-18 | a store error gives `{ok: false}` with status 500 and its message; otherwise status 200 with the rows |
| BriefsPage.Matches | app/briefs/page.tsx:126-131 | a brief can match only a query no longer than its id, url or title |
| BriefsPage.KeepMatching | app/briefs/page.tsx:126-131 | the filter keeps a subsequence of the list, and a brief is kept exactly when it matches |
| BriefsPage.KeepMatchingCount | app/briefs/page.tsx:126-131 | the filter keeps every copy of a matching brief and no copy of any other |
| BriefsPage.Filtered | app/briefs/page.tsx:123-132 | a blank query shows the whole list; otherwise the shown list is an order-preserving sublist, and a brief is shown exactly when its lower-cased id, url or title contains the lower-cased query |
| BriefsPage.QueryNotTrimmed | app/briefs/page.tsx:124-125 | the query is trimmed only to test for blankness: `"ab "` does not match id `ab`, while `"ab"` does |
| BriefsPage.FilteredCount | app/briefs/page.tsx:123-132 | for a non-blank query the shown list holds each matching brief as often as the list does, and no other brief |
| BriefsPage.Without | app/briefs/page.tsx:75 | the delete updater removes every brief with the id and keeps all others, in order |
| BriefsPage.WithoutAbsent | app/briefs/page.tsx:75 | deleting an id no brief has leaves the list as it was |
| BriefsPage.WithoutIdempotent | app/briefs/page.tsx:75 | deleting twice is deleting once |
| BriefsPage.WithoutCount | app/briefs/page.tsx:75 | the delete keeps every copy of a brief with another id and none with the id |
| BriefsPage.BriefsView.constructor | app/briefs/page.tsx:42-46 | the page starts with no briefs, loading, no error, an empty query and nothing being copied |
| BriefsPage.BriefsView.Shown | app/briefs/page.tsx:123-132 | what the page lists is `Filtered` of its briefs and query: a sublist of its briefs, and all of them for a blank query |
| BriefsPage.BriefsView.SetQuery | app/briefs/page.tsx:162 | typing changes only the query |
| BriefsPage.BriefsView.StartLoad | app/briefs/page.tsx:51-52 | a reload sets loading and clears the error, and touches nothing else |
| BriefsPage.BriefsView.FinishLoad | app/briefs/page.tsx:53-62 | loading ends; a non-array body lists nothing; a failure keeps the old list and shows its message, or "Failed to load" |
| BriefsPage.BriefsView.Delete | app/briefs/page.tsx:69-84 | the list loses the id's briefs only when the server confirmed the delete; otherwise nothing changes |
| BriefsPage.BriefsView.StartCopy | app/briefs/page.tsx:109 | copying marks that id, and only that changes |
| BriefsPage.BriefsView.FinishCopy | app/briefs/page.tsx:111 | when the clipboard answers, nothing is marked any more, whatever it answered |
| Scrape.NormalizeTarget | lib/scrape.ts:12-13 | the address visited always has an http(s) scheme: the trimmed target when it has one in any case, else `https://` in front |
| Scrape.NormalizeTargetIdempotent | lib/scrape.ts:12-13 | normalising a normalised target changes nothing |
| Scrape.MapTrim | lib/scrape.ts:20 | mapping `trim` keeps the list's length |
| Scrape.MapTrimAt | lib/scrape.ts:20 | each mapped element is the trimmed original, and empty exactly when the original is blank |
| Scrape.MapTrimOfTrimmed | lib/scrape.ts:20 | mapping `trim` over trimmed texts changes nothing |
| Scrape.CleanBullets | lib/scrape.ts:19-21 | at most 10 bullets, none empty, forming a prefix of the trimmed non-empty items, and all of them when fewer than 10 |
| Scrape.BulletsAreTrimmedItems | lib/scrape.ts:19-21 | the bullets keep the items' order, and each is the non-empty trim of some list item |
| Scrape.ShortCleanListKept | lib/scrape.ts:19-21 | up to ten trimmed non-empty items are all kept as they are |
| Scrape.SpaceRun | lib/scrape.ts:24 | `[\s]*` after the `$` takes the longest run of white space |
| Scrape.PriceEnd | lib/scrape.ts:24 | the pattern matches at a position exactly when a `$` stands there and a digit follows it after any white space; a match starts with `$` and holds that digit |
| Scrape.PriceEndAfterSpace | lib/scrape.ts:24 | after the `$`, `[\s]*` takes the whole run of white space, and the match goes on with the digits part right after it |
| Scrape.DigitsEndParts | lib/scrape.ts:24 | the digits part is one to three digits, then up to three more digits or commas (each run as long as it can be), then `.` with two digits when they follow; the match ends after the last part present |
| Scrape.FirstPriceStart | lib/scrape.ts:24 | the leftmost position at or after the given one where the price pattern matches, and no position before it matches |
| Scrape.FirstPrice | lib/scrape.ts:24-25 | absent exactly when the pattern matches nowhere; otherwise the text of the match at the leftmost matching position |
| Scrape.PriceShape | lib/scrape.ts:24-25 | a found price begins with `$` and holds a digit |
| Scrape.BuildSpecs | lib/scrape.ts:28-31 | the `forEach` that fills `specs` in place ends with the record `Specs` |
| Scrape.SpecPairs | lib/scrape.ts:31 | no entry is stored under `__proto__`, and no stored value is empty |
| Scrape.Specs | lib/scrape.ts:28-31 | the record has at most 8 entries |
| Scrape.SpecPairsStep | lib/scrape.ts:31 | one callback stores the trimmed value under the trimmed key exactly when the raw key is non-empty, a value with visible text stands at the same index and the trimmed key is not `__proto__`; otherwise it leaves the record alone |
| Scrape.SpecPairsSize | lib/scrape.ts:31 | at most one entry per visited pair |
| Scrape.SpecPairsKeys | lib/scrape.ts:31 | a key is in the record exactly when some stored pair has it |
| Scrape.SpecPairsLastWins | lib/scrape.ts:31 | a later duplicate key overwrites an earlier one: the value is that of the last stored pair with the key |
| Scrape.SpecPairsValues | lib/scrape.ts:31 | every stored value is the trimmed value of a stored pair with that key |
| Scrape.SpecsShape | lib/scrape.ts:28-31 | at most 8 entries, each under the trimmed key of a pair among the first eight, holding that pair's trimmed non-blank value |
| Scrape.TrimOpt | lib/scrape.ts:34 | `x?.trim()`: absent stays absent, present is trimmed |
| Scrape.ScrapeProduct | lib/scrape.ts:9-35 | the browser visits the normalised target; the result carries the original target URL, trimmed title and description, cleaned bullets, first price, specs and the page HTML |
| BriefMarkdown.MetaTitle | app/api/brief/route.ts:47-50 | the trimmed `<title>` text, else the trimmed og:title, else the trimmed twitter:title; never has blank ends |
| BriefMarkdown.LeadingRun | app/api/brief/route.ts:80 | the longest prefix whose characters all pass the test: every character in it passes and the next one fails |
| BriefMarkdown.FirstIndex | app/api/brief/route.ts:79 | `find`: the first element satisfying the test, and none before it; absent exactly when none does |
| BriefMarkdown.FirstTextOf | app/api/brief/route.ts:77-78 | `$(tag).first().text()`: the text of the first element with the tag, `""` when there is none |
| BriefMarkdown.FirstLong | app/api/brief/route.ts:79 | a non-empty result is a chunk of the list longer than 40 characters; `""` comes back only when no chunk is longer than 40 |
| BriefMarkdown.FirstLongIsFirst | app/api/brief/route.ts:79 | the chunk returned is the first long one: it sits at a position before which every chunk is at most 40 characters |
| BriefMarkdown.Candidate | app/api/brief/route.ts:76-79 | the trimmed text of the first `h1` when it is not blank, else that of the first `h2`, else the first chunk longer than 40 characters |
| BriefMarkdown.StripHashes | app/api/brief/route.ts:80 | `replace(/^#+\s*/, "")` leaves a suffix of the text; it removes something exactly when the text starts with `#`; every character removed is `#` or white space, and what is left does not start with white space |
| BriefMarkdown.StripHashesCut | app/api/brief/route.ts:80 | for text that starts with `#`, what is removed is exactly the whole leading run of `#`s and the whole run of white space after it, and nothing more |
| BriefMarkdown.StripHashesParts | app/api/brief/route.ts:80 | for text made of `#`s, white space, then a rest that starts with neither (and not with `#` when no white space came between), the result is the rest |
| BriefMarkdown.FallbackTitle | app/api/brief/route.ts:80 | a fallback title is at most 140 characters and empty for an empty candidate; `FallbackTitleCut` states which characters it keeps |
| BriefMarkdown.FallbackTitleOfHeading | app/api/brief/route.ts:80 | a candidate of `#`s, white space and a rest gives the rest cut to 140 characters: a `### heading` chunk gives the title `heading` |
| BriefMarkdown.FallbackTitleCut | app/api/brief/route.ts:80 | the fallback title of any candidate is the candidate cut to 140 characters when it does not start with `#`, and otherwise what follows its leading `#`s and the white space after them, cut to 140 characters |
| BriefMarkdown.FallbackTitleShape | app/api/brief/route.ts:75-81 | the fallback title of a page region (its first `h1`, else its first `h2`, else its first long chunk) is at most 140 characters and starts with a visible character |
| BriefMarkdown.TitlePrecedence | app/api/brief/route.ts:47-81 | the brief's title is the first non-blank of `<title>`, og:title and twitter:title; only when all three are blank does the h1/h2/long-chunk fallback apply; an empty title is reported as absent |
| BriefMarkdown.SelectRegion | app/api/brief/route.ts:54-59 | the first of article, main, `[role=main]` and body that exists, even an empty one; an empty region when none exists |
| BriefMarkdown.ChunkOf | app/api/brief/route.ts:65-72 | a blank element contributes nothing, and any other contributes a chunk starting with a visible character |
| BriefMarkdown.Chunks | app/api/brief/route.ts:64-73 | at most one chunk per element, none empty or starting blank |
| BriefMarkdown.ChunksAppend | app/api/brief/route.ts:64-73 | the chunks follow document order: the chunks of two runs of elements are the chunks of each, concatenated |
| BriefMarkdown.ChunksOfOne | app/api/brief/route.ts:64-72 | an element with visible text yields its tag's prefix (`# `, `## `, `### `, `- ` or none) followed by its text in normal form, which keeps every visible character |
| BriefMarkdown.CollectChunks | app/api/brief/route.ts:64-73 | the `.each` loop that pushes chunks ends with `Chunks` of the elements |
| BriefMarkdown.DivChunkOf | app/api/brief/route.ts:85-86 | a `<div>` contributes only a text of at least 80 characters |
| BriefMarkdown.DivChunks | app/api/brief/route.ts:83-88 | every supplement chunk is at least 80 characters long, and there is at most one per `<div>` |
| BriefMarkdown.DivChunksFromDivs | app/api/brief/route.ts:85-86 | every supplement chunk is the normal form of some `<div>` text |
| BriefMarkdown.DivChunksComplete | app/api/brief/route.ts:84-87 | every `<div>` whose normal text is at least 80 characters long contributes that text |
| BriefMarkdown.DivChunksAppend | app/api/brief/route.ts:84-87 | the supplement follows document order: the chunks of two runs of `<div>`s are the chunks of each, concatenated |
| BriefMarkdown.PushDivChunks | app/api/brief/route.ts:83-88 | the `<div>` loop appends exactly `DivChunks` after the chunks already collected |
| BriefMarkdown.AllChunks | app/api/brief/route.ts:83-88 | the supplement is added exactly when fewer than 6 chunks were collected |
| BriefMarkdown.LinkOf | app/api/brief/route.ts:92-95 | an anchor gives a link exactly when its trimmed href is non-empty and does not start with `#`, `mailto:` or `javascript:` in any case; the link ends with `)` or `>` |
| BriefMarkdown.LinkOfKept | app/api/brief/route.ts:92-95 | an anchor is dropped exactly when its trimmed href is empty or starts, in any case, with `#`, `mailto:` or `javascript:`; a kept one renders as `[text](href)`, or `<href>` when its text is blank |
| BriefMarkdown.LinkItems | app/api/brief/route.ts:91-96 | at most one rendered link per anchor |
| BriefMarkdown.LinkItemsFromAnchors | app/api/brief/route.ts:91-96 | every rendered link comes from a kept anchor, and every kept anchor's link is rendered |
| BriefMarkdown.LinksFromKeptAnchors | app/api/brief/route.ts:90-96 | the link set has no repeats, holds only links of kept anchors, and holds the link of every kept anchor |
| BriefMarkdown.CollectLinks | app/api/brief/route.ts:90-96 | the `.each` loop into a `Set` ends with the de-duplicated kept links, in first-seen order |
| BriefMarkdown.UniqueChunks | app/api/brief/route.ts:98 | the emitted chunks are distinct, at most 400, in collection order, and none is lost when there are at most 400 distinct ones; the 400 kept are the first distinct chunks collected (the cut of any collection prefix is a prefix of them) |
| BriefMarkdown.Head | app/api/brief/route.ts:100-101 | the heading lines are exactly `# title` and a blank line when there is a title, followed by `> description` and a blank line when there is a description; they are empty exactly when both are empty |
| BriefMarkdown.LinksSection | app/api/brief/route.ts:103 | the Links section is present exactly when there is at least one link |
| BriefMarkdown.Assemble | app/api/brief/route.ts:99-103 | before trimming, the brief is the heading lines, then the chunks joined by blank lines, then the Links section, in that order |
| BriefMarkdown.Convert | app/api/brief/route.ts:43-106 | the Markdown has no blank ends, and a reported title is never empty; the Markdown's content is stated by `MarkdownBody`, `MarkdownDescription`, `UntitledStartsWithDescription`, `MarkdownStartsWithTitle` and `MarkdownLinks` below |
| BriefMarkdown.MarkdownBody | app/api/brief/route.ts:97-105 | with at least one chunk, trimming cuts only the last line end: the brief is the heading lines, the chunks joined by blank lines and, when there are kept links, a blank line and the Links block |
| BriefMarkdown.MarkdownDescription | app/api/brief/route.ts:99-105 | a non-blank description appears as a `> ` line right after the `# title` lines, or at the start when there is no title |
| BriefMarkdown.UntitledStartsWithDescription | app/api/brief/route.ts:99-105 | a brief without a title but with a description starts with `> ` and the description |
| BriefMarkdown.UntitledMarkdown | app/api/brief/route.ts:99-105 | Markdown assembled with no heading and a trimmed, non-empty description opens with `> ` and that description |
| BriefMarkdown.TitlePresence | app/api/brief/route.ts:105 | a title is reported exactly when the resolved title is not empty |
| BriefMarkdown.MarkdownStartsWithTitle | app/api/brief/route.ts:99-105 | a brief with a title reports the resolved title, and its Markdown starts with `# ` followed by the whole title, which the final trim keeps |
| BriefMarkdown.MarkdownLinks | app/api/brief/route.ts:90-105 | when the region has a kept link, the brief ends with the rule, the `**Links:**` label and the first 100 distinct links, one per line; with no kept link there is no Links section, and the brief is the trimmed heading lines and chunks |
| BriefMarkdown.HtmlToMarkdown | app/api/brief/route.ts:43-106 | the imperative conversion (chunk loop, div loop, link loop, title reassignment) returns exactly the brief `Convert` describes |
| BriefRoute.LastSegment | app/api/brief/route.ts:29 | a segment found is a non-empty piece of the path split at `/` |
| BriefRoute.SplitLastPiece | app/api/brief/route.ts:29 | the last piece of a split is the tail of the string after its last separator |
| BriefRoute.NonEmptyOnlyLast | app/api/brief/route.ts:29 | `.filter(Boolean).pop()` of pieces whose last one is non-empty is that last piece |
| BriefRoute.SegmentStep | app/api/brief/route.ts:29 | a path whose last character is not `/` has as last segment the non-empty `/`-free run it ends with |
| BriefRoute.SlashStep | app/api/brief/route.ts:29 | a trailing `/` changes neither the last segment nor where it sits |
| BriefRoute.LastSegmentShape | app/api/brief/route.ts:29 | the last non-empty path segment is a `/`-free run that starts the path or follows a `/`, with only `/`s after it; there is none exactly when the path is all `/`s |
| BriefRoute.ExtensionOf | app/api/brief/route.ts:31 | the extension found is one of `.html`, `.htm`, `.php`, `.aspx`, `.asp` that the text ends with in any case; none is found only when the text ends with none of them |
| BriefRoute.StripExtension | app/api/brief/route.ts:31 | the text is unchanged exactly when it ends with none of `.html`, `.htm`, `.php`, `.aspx`, `.asp` in any case; otherwise exactly one such trailing extension is cut off |
| BriefRoute.JoinersToSpace | app/api/brief/route.ts:32 | no `_`, `-` or `+` remains and the text never grows; the result ends with a space that came from a joiner exactly when the input ends with a joiner |
| BriefRoute.JoinersToSpaceOfPlain | app/api/brief/route.ts:32 | text without joiners is left as it is |
| BriefRoute.JoinerRun | app/api/brief/route.ts:32 | a whole run of `_`, `-` and `+` becomes a single space |
| BriefRoute.JoinersToSpaceAppend | app/api/brief/route.ts:32 | the rewrite works run by run: text cut anywhere except inside a run of joiners is rewritten piece by piece, so with the two lemmas above the result of every text is fixed |
| BriefRoute.Plain | app/api/brief/route.ts:30-34 | the characters of a text that are neither white space nor joiners, in order |
| BriefRoute.JoinersToSpaceKeepsPlain | app/api/brief/route.ts:32 | joiners become white space and nothing else changes: the visible characters of the result are exactly the input's visible non-joiner characters |
| BriefRoute.Capitalize | app/api/brief/route.ts:36 | capitalising keeps the length |
| BriefRoute.CapitalizeMeaning | app/api/brief/route.ts:36 | capitalising changes only the case of word-initial letters: the same text ignoring case, the same word starts, no word starting in lower case, every other character kept |
| BriefRoute.CleanSegment | app/api/brief/route.ts:30-34 | the cleaned segment is in normal form (single spaces, no blank ends), holds no `_`, `-` or `+`, and its visible characters are exactly the visible non-joiner characters of the decoded segment once its extension is cut |
| BriefRoute.TitleFromUrl | app/api/brief/route.ts:25-41 | absent for a missing or empty input and for one the URL parser rejects; otherwise absent exactly when the segment (or host name) fails to decode; the host name when nothing is left after cleaning; otherwise the capitalised cleaned segment cut to 140 characters |
| BriefRoute.TitleFromPathShape | app/api/brief/route.ts:35-36 | a path title is 1 to 140 characters, starts visibly, has no joiner, no double space and no word starting in lower case, and reads as the cleaned segment up to case |
| BriefRoute.VisibleOfLower | app/api/brief/route.ts:36 | lower-casing and dropping white space can be done in either order |
| BriefRoute.TitleReadsSegment | app/api/brief/route.ts:30-36 | a path title read without case is a prefix of the cleaned segment; when the segment fits in 140 characters, the title's visible characters are, up to case, exactly the visible non-joiner characters of the decoded segment without its extension |
| BriefRoute.LeadingDigits | app/api/brief/route.ts:117 | `parseInt` reads exactly the longest run of leading digits |
| BriefRoute.ParseDigits | app/api/brief/route.ts:117 | a digit run has a value exactly when it is non-empty |
| BriefRoute.ParseIntOfDigits | app/api/brief/route.ts:117 | a plain run of digits parses to its decimal value |
| BriefRoute.ParseDigitsOfDigits | app/api/brief/route.ts:117 | a whole run of digits is read in full |
| BriefRoute.ParseIntSign | app/api/brief/route.ts:117 | a leading `-` negates the digits' value and a `+` keeps it; no digit after the sign gives NaN |
| BriefRoute.ParseInt | app/api/brief/route.ts:117 | `parseInt` gives NaN exactly when no digit follows the leading white space and the optional sign |
| BriefRoute.ParseIntPrefix | app/api/brief/route.ts:117 | leading white space is skipped and reading stops at the first non-digit: `" 20abc"` reads as 20 |
| BriefRoute.SignedPrefix | app/api/brief/route.ts:117 | after white space, a `-` negates and a `+` keeps the value of the leading digit run that follows |
| BriefRoute.DigitsThenRest | app/api/brief/route.ts:117 | a digit run followed by a non-digit is read in full and no further |
| BriefRoute.IsListFlag | app/api/brief/route.ts:117 | a flag is exactly `1` or `true` in any mix of upper and lower case |
| BriefRoute.ListLimit | app/api/brief/route.ts:117 | the list limit always lies in [1, 100], and is 50 for `true` (any case) or `1` |
| BriefRoute.ListLimitCases | app/api/brief/route.ts:117 | otherwise NaN and 0 give 5, a value in [1, 100] passes through, larger values give 100 and negative ones give 1 |
| BriefRoute.GetQueryOf | app/api/brief/route.ts:111-134 | a non-empty `list` parameter asks for the list with its limit, whatever `id` holds; otherwise a non-empty `id` asks for that brief; otherwise nothing is looked up |
| BriefRoute.GetStatus | app/api/brief/route.ts:124-134 | a failed list lookup gives 500, a failed single lookup 404, and everything else 200 |
| BriefRoute.DeleteReply | app/api/brief/route.ts:138-148 | a missing or empty id gives 400 and deletes nothing; otherwise the delete is issued, and the reply is 500 exactly when it fails and 200 exactly when it succeeds |
| BriefRoute.FromUrl | app/api/brief/route.ts:162-209 | the URL branch never echoes: a network failure gives 500 and an error status from the page 502, carrying that status; after a successful fetch the reply is a save exactly when the store took the row, minimal exactly when only the minimal schema took it (just url and title written), and 500 otherwise; the row holds the caller's URL, the page text and its Markdown, titled by the page when it has a title, else by `titleFromUrl` of the URL |
| BriefRoute.FromHtml | app/api/brief/route.ts:212-253 | the pasted-HTML branch echoes the conversion exactly when `save` is off; with `save` the reply is a save exactly when the store took the row (minimal exactly for the minimal schema) and 500 otherwise; a stored row has url `local://manual`, the pasted HTML, its Markdown, and the page title or "Untitled Brief" |
| BriefRoute.Post | app/api/brief/route.ts:151-256 | 400 exactly when both `url` and `html` are missing or blank; a non-blank `url` gives the URL branch on the fetched page; otherwise a non-blank `html` gives the pasted-HTML branch on its conversion |
| BriefRoute.UrlBeatsHtml | app/api/brief/route.ts:162-212 | with a non-blank `url` the reply does not depend on `html`, `preview` or `save`, is never an echo, and any stored row carries that url |
| BriefRoute.PreviewFlagIgnored | app/api/brief/route.ts:216-252 | the `preview` flag never changes the reply: without `save` the conversion is echoed either way |

## Left out

- Supabase. The store is left out: no insert, select, delete, order or limit is modelled. Each route receives only the store's outcome as input. For the brief route's URL and HTML branches, the full-then-minimal insert retry is reduced to its outcome (`Stored`: full row, minimal row, or neither).
- The network and the browser. `fetch` and its exceptions are reduced to `Fetched`. Playwright is reduced to a function from the visited address to the `Page` its locators read, and a throwing locator reads as absent or empty, as its `.catch` gives.
- cheerio. Parsing, removing `script`/`noscript`/`style`/`template`/`iframe` and re-parsing the region are not modelled: a page arrives as `Doc`, where each element already holds its descendant text, and each region holds its elements, `<div>` texts and anchors in document order. Nesting between elements is therefore not represented.
- `replace(/\s+\n/g, "\n")` at app/api/brief/route.ts:66 is not modelled separately. The `/\s+/g` collapse that follows it gives the same result, because each white-space run stays one white-space run.
- `URL`, `decodeURIComponent`, `new URL(u).toString()` and `Number` are partial parameters. Their own parsing rules are not modelled.
- `Number` on the list route. `NaN` and fractional limits are not modelled; `RequestedLimit` takes an integer-valued parameter.
- `parseInt` precision: integers are unbounded here, so JavaScript's rounding of values above 2^53 is not modelled.
- Strings. A Dafny `char` is a Unicode scalar value, while JavaScript strings are UTF-16 code units. Lengths and the 140-character cap therefore agree only on text in the Basic Multilingual Plane.
- Lower (Text): `toLowerCase`, and `toUpperCase` inside `Capitalize`, fold ASCII letters only. Every `/i` pattern here is an ASCII literal, so case-insensitive matching is exact. The page filter's and the title capitaliser's treatment of non-ASCII letters is not modelled.
- JSON values in request bodies that are not strings (or, for `preview` and `save`, not booleans) are not modelled. A body that is not JSON reads as having no fields, as the brief route's `.catch(() => ({}))` gives.
- The JSON bodies of the replies are not modelled: ids, error messages and the "Saved with minimal schema." note. Only the status and the stored row are modelled.
- The single-brief `GET` returns whatever row the store gives; the rows are not modelled.
- The order of a JavaScript object's keys in `specs` is not modelled, because a map has no order. Assigning a key of `__proto__` is ignored, matching JavaScript's behaviour.
- The briefs page's rendering, routing, toasts and `copyToClipboard` fallback are not modelled. Only the state updates are.
- BriefMarkdown.Convert: its own contract states only the trimmed ends and the non-empty title. The lemmas `MarkdownBody`, `MarkdownDescription`, `UntitledStartsWithDescription`, `MarkdownStartsWithTitle`, `MarkdownLinks` and `TitlePresence` state the rest. `MarkdownBody` needs at least one chunk; for a page with no chunk, the title, description and Links lemmas still apply.
- The admin-client environment check (`admin()` throwing when variables are missing) and the route configuration exports are not modelled.
