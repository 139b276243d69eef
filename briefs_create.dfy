/** `POST /api/briefs/create`: store a manually pasted page, with the page's
    own URL normalised when one can be found. */
module BriefsCreate {
  import opened Wrappers
  import opened TagPattern

  /** `tryExtractUrlFromHtml`: the first canonical link (quotes around
      `canonical` required), else the first `og:url` meta tag, else the first
      `<base href>`, else nothing. */
  function TryExtractUrl(html: string): (r: Option<string>)
    ensures r.None? <==>
      (forall s: nat, h: nat :: !MatchAt(CanonicalLink, html, s, h)) &&
      (forall s: nat, h: nat :: !MatchAt(OgUrlMeta, html, s, h)) &&
      (forall s: nat, h: nat :: !MatchAt(BaseHref, html, s, h))
    ensures (exists s: nat, h: nat :: MatchAt(CanonicalLink, html, s, h)) ==> r == Capture(CanonicalLink, html)
    ensures ((forall s: nat, h: nat :: !MatchAt(CanonicalLink, html, s, h)) &&
             (exists s: nat, h: nat :: MatchAt(OgUrlMeta, html, s, h))) ==> r == Capture(OgUrlMeta, html)
    ensures ((forall s: nat, h: nat :: !MatchAt(CanonicalLink, html, s, h)) &&
             (forall s: nat, h: nat :: !MatchAt(OgUrlMeta, html, s, h))) ==> r == Capture(BaseHref, html)
    ensures r.Some? ==> r.value != []
  {
    match Capture(CanonicalLink, html)
    case Some(u) => Some(u)
    case None =>
      match Capture(OgUrlMeta, html)
      case Some(u) => Some(u)
      case None => Capture(BaseHref, html)
  }

  /** The URL stored with the brief: `validate` stands for `new URL(u).toString()`,
      `None` when the constructor throws. The caller's URL is tried first; an
      unusable one gives way to the URL recovered from the page. */
  function FinalUrl(sourceUrl: Option<string>, html: string, validate: string -> Option<string>): (r: Option<string>)
    ensures r.None? ==> !Truthy(sourceUrl) || validate(sourceUrl.value).None?
    ensures r.None? ==> TryExtractUrl(html).None? || validate(TryExtractUrl(html).value).None?
  {
    var fromCaller := if Truthy(sourceUrl) then validate(sourceUrl.value) else None;
    if Truthy(fromCaller) then fromCaller
    else
      var extracted := TryExtractUrl(html);
      if Truthy(extracted) && validate(extracted.value).Some? then validate(extracted.value)
      else fromCaller
  }

  /** The step-by-step reassignment of `finalUrl`. */
  method ResolveFinalUrl(sourceUrl: Option<string>, html: string, validate: string -> Option<string>)
    returns (finalUrl: Option<string>)
    ensures finalUrl == FinalUrl(sourceUrl, html, validate)
  {
    finalUrl := None;
    if Truthy(sourceUrl) {
      var v := validate(sourceUrl.value);
      if v.Some? {
        finalUrl := v;
      }
    }
    if !Truthy(finalUrl) {
      var extracted := TryExtractUrl(html);
      if Truthy(extracted) {
        var v := validate(extracted.value);
        if v.Some? {
          finalUrl := v;
        }
      }
    }
  }

  /** A caller's URL that validates is stored in its normalised form. */
  lemma CallerUrlWins(sourceUrl: Option<string>, html: string, validate: string -> Option<string>)
    requires Truthy(sourceUrl) && Truthy(validate(sourceUrl.value))
    ensures FinalUrl(sourceUrl, html, validate) == validate(sourceUrl.value)
  {
  }

  /** A missing or unparseable caller URL gives way to the recovered one, normalised. */
  lemma RecoveredUrlFallback(sourceUrl: Option<string>, html: string, validate: string -> Option<string>)
    requires !Truthy(sourceUrl) || validate(sourceUrl.value).None?
    requires TryExtractUrl(html).Some? && validate(TryExtractUrl(html).value).Some?
    ensures FinalUrl(sourceUrl, html, validate) == validate(TryExtractUrl(html).value)
  {
  }

  /** When neither URL validates the brief is stored without one; this is not an error. */
  lemma NoUsableUrl(sourceUrl: Option<string>, html: string, validate: string -> Option<string>)
    requires !Truthy(sourceUrl) || validate(sourceUrl.value).None?
    requires TryExtractUrl(html).None? || validate(TryExtractUrl(html).value).None?
    ensures FinalUrl(sourceUrl, html, validate).None?
  {
  }

  /** The fields of the request body; JSON values other than strings are not modelled. */
  datatype Body = Body(title: Option<string>, htmlRaw: Option<string>, sourceUrl: Option<string>)

  /** The row handed to the store. */
  datatype ManualRow = ManualRow(title: string, htmlRaw: string, sourceUrl: Option<string>, origin: string)

  const ManualOrigin := "manual"

  /** `POST`: `body` is the parsed JSON (`None` when parsing throws), `validate`
      the URL normaliser and `insertFails` whether the store reports an error. */
  method Post(body: Option<Body>, validate: string -> Option<string>, insertFails: bool)
    returns (status: int, inserted: Option<ManualRow>)
    ensures body.None? ==> status == 500 && inserted.None?
    ensures body.Some? && (!Truthy(body.value.title) || !Truthy(body.value.htmlRaw)) ==>
      status == 400 && inserted.None?
    ensures body.Some? && Truthy(body.value.title) && Truthy(body.value.htmlRaw) ==>
      inserted == Some(ManualRow(body.value.title.value, body.value.htmlRaw.value,
                                 FinalUrl(body.value.sourceUrl, body.value.htmlRaw.value, validate), ManualOrigin)) &&
      status == (if insertFails then 500 else 201)
  {
    if body.None? {
      return 500, None;
    }
    var b := body.value;
    if !Truthy(b.title) || !Truthy(b.htmlRaw) {
      return 400, None;
    }
    var finalUrl := ResolveFinalUrl(b.sourceUrl, b.htmlRaw.value, validate);
    inserted := Some(ManualRow(b.title.value, b.htmlRaw.value, finalUrl, ManualOrigin));
    status := if insertFails then 500 else 201;
  }

  /** A stored URL is always the normalised form of the caller's URL or of
      the recovered one; nothing else ends up in `source_url`. */
  lemma FinalUrlOrigin(sourceUrl: Option<string>, html: string, validate: string -> Option<string>)
    ensures var r := FinalUrl(sourceUrl, html, validate);
      var e := TryExtractUrl(html);
      r.Some? ==> (Truthy(sourceUrl) && r == validate(sourceUrl.value)) || (e.Some? && r == validate(e.value))
  {
  }
}
