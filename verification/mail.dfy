/** Mail messages as the parsers receive them, and the HTML-body lookup the cmbcc and wechat parsers share. */
module Mail {
  import opened Wrappers
  import opened Host

  /** One MIME part: its content type, declared charset, attachment filename and decoded payload (None for a multipart container). */
  datatype Part = Part(contentType: string, charset: Option<string>, filename: Option<string>, payload: Option<Bytes>)

  /** A message is either a single part, or a multipart tree given in `walk()` order (the container itself first). */
  datatype Body = Single(part: Part) | Multi(walk: seq<Part>)

  datatype Message = Message(subject: Option<string>, sender: Option<string>, body: Body)

  /** `msg.walk()` */
  function Walk(m: Message): seq<Part> {
    match m.body
    case Single(p) => [p]
    case Multi(w) => w
  }

  /** A file a parser writes into the staging directory. */
  datatype Content = Binary(bytes: Bytes) | Utf8(text: string)
  datatype Artifact = Artifact(path: string, content: Content)

  /** What `parse` reports, together with every file it wrote before returning. */
  datatype Parsed = Parsed(ok: bool, written: seq<Artifact>)

  /** The outcome of looking for the HTML body. */
  datatype HtmlLookup = Html(text: string) | NoHtml | Raised

  /** `part.get_content_charset() or "utf-8"` */
  function CharsetOf(p: Part): string {
    if p.charset.Some? && p.charset.value != "" then p.charset.value else "utf-8"
  }

  /** Decoding one part; a missing payload or an unknown charset raises. */
  function DecodePart(p: Part, host: Host): HtmlLookup {
    if p.payload.None? then Raised
    else match host.decode(p.payload.value, CharsetOf(p))
      case Some(text) => Html(text)
      case None => Raised
  }

  /** Index of the first `text/html` part of a walk, or `|walk|` when there is none. */
  function FirstHtml(walk: seq<Part>): (i: nat)
    ensures i <= |walk|
    ensures i < |walk| ==> walk[i].contentType == "text/html"
    ensures forall k :: 0 <= k < i ==> walk[k].contentType != "text/html"
    decreases |walk|
  {
    if walk == [] then 0
    else if walk[0].contentType == "text/html" then 0
    else 1 + FirstHtml(walk[1..])
  }

  /** Part `k` of the walk is the first `text/html` one. */
  ghost predicate IsFirstHtml(walk: seq<Part>, k: int) {
    0 <= k < |walk| && walk[k].contentType == "text/html"
    && forall j :: 0 <= j < k ==> walk[j].contentType != "text/html"
  }

  /**
   * The body-lookup block of the cmbcc and wechat parsers: in a multipart
   * message the first `text/html` part of the walk is decoded and the search
   * stops there; a single-part message is used when it is itself `text/html`.
   */
  function HtmlBody(m: Message, host: Host): (r: HtmlLookup)
    ensures m.body.Single? ==> (r.NoHtml? <==> m.body.part.contentType != "text/html")
    ensures m.body.Multi? ==> (r.NoHtml? <==> forall k :: 0 <= k < |m.body.walk| ==> m.body.walk[k].contentType != "text/html")
    ensures r.Html? ==> exists k :: IsFirstHtml(Walk(m), k) && DecodePart(Walk(m)[k], host) == r
    ensures forall k :: IsFirstHtml(Walk(m), k) ==> r == DecodePart(Walk(m)[k], host)
  {
    match m.body
    case Single(p) =>
      assert IsFirstHtml(Walk(m), 0) <==> p.contentType == "text/html";
      if p.contentType == "text/html" then DecodePart(p, host) else NoHtml
    case Multi(w) =>
      var i := FirstHtml(w);
      assert i < |w| ==> IsFirstHtml(Walk(m), i);
      assert forall k :: IsFirstHtml(Walk(m), k) ==> k == i;
      if i < |w| then DecodePart(w[i], host) else NoHtml
  }

  /** `if not body_html`: no HTML part, an empty body, or a decoding that raised. */
  predicate NoUsableBody(h: HtmlLookup) {
    !h.Html? || h.text == ""
  }

  /** `decode_mime_header(msg.get(name, ""))`: an absent or empty header decodes to "". */
  function HeaderText(h: Option<string>, host: Host): (r: string)
    ensures h.None? || h == Some("") ==> r == ""
    ensures h.Some? && h.value != "" ==> r == host.decodeHeader(h.value)
  {
    match h
    case None => ""
    case Some(v) => if v == "" then "" else host.decodeHeader(v)
  }
}
