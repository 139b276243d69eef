/** `POST /api/brief/create`: store a pasted page together with the URL it
    came from, recovering that URL from the page when it can. */
module BriefCreate {
  import opened Wrappers
  import opened TagPattern

  /** `extractCanonical`: the first canonical link (quotes around `canonical`
      optional), else the first `og:url` meta tag; there is no `<base>` fallback. */
  function ExtractCanonical(html: string): (r: Option<string>)
    ensures r.None? <==>
      (forall s: nat, h: nat :: !MatchAt(LooseCanonicalLink, html, s, h)) &&
      (forall s: nat, h: nat :: !MatchAt(OgUrlMeta, html, s, h))
    ensures (exists s: nat, h: nat :: MatchAt(LooseCanonicalLink, html, s, h)) ==> r == Capture(LooseCanonicalLink, html)
    ensures (forall s: nat, h: nat :: !MatchAt(LooseCanonicalLink, html, s, h)) ==> r == Capture(OgUrlMeta, html)
    ensures r.Some? ==> r.value != []
  {
    match Capture(LooseCanonicalLink, html)
    case Some(u) => Some(u)
    case None => Capture(OgUrlMeta, html)
  }

  /** The fields of the request body; JSON values other than strings are not modelled. */
  datatype Body = Body(title: Option<string>, html: Option<string>, sourceUrl: Option<string>)

  /** The row handed to the store. */
  datatype Payload = Payload(title: string, html: string, sourceUrl: Option<string>, url: Option<string>)

  /** The row built from the request once title and html are present. */
  function MakePayload(title: string, html: string, sourceUrl: Option<string>): (p: Payload)
    ensures p.title == title && p.html == html
    ensures p.sourceUrl == FirstTruthy(sourceUrl, ExtractCanonical(html))
    ensures p.url == FirstTruthy(ExtractCanonical(html), sourceUrl)
  {
    var canonical := ExtractCanonical(html);
    Payload(title, html, FirstTruthy(sourceUrl, canonical), FirstTruthy(canonical, sourceUrl))
  }

  /** When only one of the caller's URL and the recovered one is there, both
      columns hold it; when both are there, `source_url` keeps the caller's and
      `url` the recovered one; when neither is, both are null. */
  lemma PayloadUrls(title: string, html: string, sourceUrl: Option<string>)
    ensures var p := MakePayload(title, html, sourceUrl);
      var c := ExtractCanonical(html);
      (Truthy(sourceUrl) != c.Some? ==> p.sourceUrl == p.url && p.url.Some?) &&
      (Truthy(sourceUrl) && c.Some? ==> p.sourceUrl == sourceUrl && p.url == c) &&
      (!Truthy(sourceUrl) && c.None? ==> p.sourceUrl.None? && p.url.None?)
  {
  }

  /** What the route answers; `inserted` is the row it tried to store, if any. */
  datatype Reply = Reply(status: int, inserted: Option<Payload>)

  /** `POST`: `body` is the parsed JSON (`None` when parsing throws), and
      `insertFails` whether the store reports an error for the row. */
  function Post(body: Option<Body>, insertFails: bool): (r: Reply)
    ensures body.None? ==> r == Reply(500, None)
    ensures body.Some? && (!Truthy(body.value.title) || !Truthy(body.value.html)) ==> r == Reply(400, None)
    ensures body.Some? && Truthy(body.value.title) && Truthy(body.value.html) ==>
      r.inserted == Some(MakePayload(body.value.title.value, body.value.html.value, body.value.sourceUrl)) &&
      r.status == (if insertFails then 400 else 200)
    ensures r.status in {200, 400, 500}
    ensures r.status == 200 <==> r.inserted.Some? && !insertFails
  {
    match body
    case None => Reply(500, None)
    case Some(b) =>
      if !Truthy(b.title) || !Truthy(b.html) then Reply(400, None)
      else
        var p := MakePayload(b.title.value, b.html.value, b.sourceUrl);
        if insertFails then Reply(400, Some(p)) else Reply(200, Some(p))
  }
}
