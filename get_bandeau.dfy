/** The read endpoint (GET): the stored document, field by field with the
    built-in defaults, and a default body, still with status 200, whenever
    anything goes wrong. The store read and the JSON parse are inputs. */
module GetBandeau {
  import opened Text
  import opened JsValue
  import opened Http
  import opened Bandeau

  const CachePublic: string := "public, max-age=60"

  const LoadFailed: string := "Failed to load data, using defaults"

  /** The three defaults, with the one-minute cache. */
  function DefaultsBody(): Response {
    Response(200, None, Some(CachePublic), Banner(Str(DefaultMessagesHtml), Num(DefaultSpeed), Str(DefaultColor)))
  }

  /** The `catch` body: the defaults plus the error and whether EDGE_CONFIG
      is set; no `Cache-Control`. */
  function FallbackBody(edgeConfigured: bool): Response {
    Plain(200, BannerFallback(Str(DefaultMessagesHtml), Num(DefaultSpeed), Str(DefaultColor), LoadFailed, edgeConfigured))
  }

  /** The success body: each field, when falsy, replaced by its own default. */
  function Served(data: JsVal): (r: Response)
    requires !IsNullish(data)
    ensures r.status == 200 && r.cacheControl == Some(CachePublic) && r.body.Banner?
    ensures Truthy(r.body.html) && Truthy(r.body.speed) && Truthy(r.body.color)
  {
    var html := Or(OptionalMember(data, "html"), Str(DefaultMessagesHtml));
    var speed := Or(OptionalMember(data, "speed"), Num(DefaultSpeed));
    var color := Or(OptionalMember(data, "color"), Str(DefaultColor));
    Response(200, None, Some(CachePublic), Banner(html, speed, color))
  }

  /** The handler. `read` is the store's answer; `parsed` is what
      `JSON.parse` makes of it when it is a string (`None`: a SyntaxError). */
  function HandleGet(verb: string, edgeConfig: Option<string>, read: ReadOutcome, parsed: Option<JsVal>): (r: Response)
    ensures verb != "GET" ==> r == MethodNotAllowed("GET")
    ensures verb == "GET" ==> r.status == 200 && r.allow.None?
    ensures verb == "GET" && !IsSet(edgeConfig) ==> r == FallbackBody(false)
    ensures verb == "GET" && read == ReadThrew ==> r == FallbackBody(IsSet(edgeConfig))
    ensures r.body.BannerFallback? ==> r == FallbackBody(IsSet(edgeConfig))
    ensures r.body.Banner? ==> Truthy(r.body.html) && Truthy(r.body.speed) && Truthy(r.body.color)
  {
    if verb != "GET" then MethodNotAllowed("GET")
    else if !IsSet(edgeConfig) then FallbackBody(false)
    else match read
      case ReadThrew => FallbackBody(true)
      case ReadValue(stored) =>
        if !Truthy(stored) then DefaultsBody()
        else
          var data := if stored.Str? then parsed else Some(stored);
          if data.None? || IsNullish(data.value) then FallbackBody(true)
          else Served(data.value)
  }

  /** Nothing stored, or a falsy value, gives exactly the defaults and no
      error; a stored object, or a stored string whose parse is neither
      `null` nor `undefined`, is served field by field. */
  lemma StoredValueCases(edgeConfig: Option<string>, stored: JsVal, parsed: Option<JsVal>)
    requires IsSet(edgeConfig)
    ensures !Truthy(stored) ==> HandleGet("GET", edgeConfig, ReadValue(stored), parsed) == DefaultsBody()
    ensures stored.Obj? ==>
      HandleGet("GET", edgeConfig, ReadValue(stored), parsed).body == Banner(
        Or(OptionalMember(stored, "html"), Str(DefaultMessagesHtml)),
        Or(OptionalMember(stored, "speed"), Num(DefaultSpeed)),
        Or(OptionalMember(stored, "color"), Str(DefaultColor)))
    ensures stored.Str? && stored.s != "" && parsed.Some? && !IsNullish(parsed.value) ==>
      HandleGet("GET", edgeConfig, ReadValue(stored), parsed) == Served(parsed.value)
  {
  }

  /** A stored string is parsed: a parse failure, or a document that parses
      to `null`, gives the default body with its error, still 200. */
  lemma UnparsableStringFallsBack(edgeConfig: Option<string>, text: string, parsed: Option<JsVal>)
    requires IsSet(edgeConfig) && text != ""
    requires parsed.None? || IsNullish(parsed.value)
    ensures HandleGet("GET", edgeConfig, ReadValue(Str(text)), parsed) == FallbackBody(true)
  {
  }

  /** Each field falls back on its own: a stored speed of 0 is served as 5
      while the stored html and color are kept. */
  lemma SpeedZeroIsServedAsDefault(html: string, color: string, extra: map<string, JsVal>)
    requires html != "" && color != ""
    ensures var data := Obj(extra["html" := Str(html)]["speed" := Num(0)]["color" := Str(color)]);
      Served(data).body == Banner(Str(html), Num(DefaultSpeed), Str(color))
  {
  }

  /** The served body holds html, speed and color only: the stored
      `updatedAt`, or any other field, never changes the response. */
  lemma ExtraFieldsAreNotServed(fields: map<string, JsVal>, key: string, v: JsVal)
    requires key !in ["html", "speed", "color"]
    ensures Served(Obj(fields[key := v])) == Served(Obj(fields))
  {
    assert OptionalMember(Obj(fields[key := v]), "html") == OptionalMember(Obj(fields), "html");
    assert OptionalMember(Obj(fields[key := v]), "speed") == OptionalMember(Obj(fields), "speed");
    assert OptionalMember(Obj(fields[key := v]), "color") == OptionalMember(Obj(fields), "color");
  }
}
