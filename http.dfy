/** The HTTP responses of the four endpoints, and the constants they share
    with the client. Every response also carries `Content-Type:
    application/json` and the same three defensive headers; those constant
    headers are not fields here. */
module Http {
  import opened Text
  import opened JsValue

  /** The JSON bodies the endpoints send, one constructor per shape. */
  datatype Body =
    | Error(error: string)                                   // { error }
    | ErrorList(error: string, details: seq<string>)         // { error, details: [..] }
    | ErrorDetail(error: string, detail: string)             // { error, details }
    | InternalError(message: string)                         // { error: 'Internal server error', message }
    | Saved(message: string)                                 // { success: true, message }
    | Uploaded(url: string, filename: string)                // { success: true, url, filename }
    | Banner(html: JsVal, speed: JsVal, color: JsVal)        // { html, speed, color }
    | BannerFallback(html: JsVal, speed: JsVal, color: JsVal, error: string, edgeConfigConfigured: bool)
    | Freshness(lastModified: JsVal)                         // { lastModified }
    | FreshnessFallback(lastModified: JsVal, error: string)  // { lastModified, error }

  datatype Response = Response(status: nat, allow: Option<string>, cacheControl: Option<string>, body: Body)

  /** 405 naming the one verb the endpoint accepts in `Allow`. */
  function MethodNotAllowed(allowed: string): Response {
    Response(405, Some(allowed), None, Error("Method not allowed"))
  }

  /** A plain response: no `Allow`, no `Cache-Control`. */
  function Plain(status: nat, body: Body): Response {
    Response(status, None, None, body)
  }

  /** What the store's `get('bandeau_data')` gives: the stored value
      (`undefined` when there is none), or an exception. */
  datatype ReadOutcome = ReadValue(value: JsVal) | ReadThrew

  /** `!process.env.X`: an environment variable counts as set only when it
      is present and not empty. */
  predicate IsSet(v: Option<string>) {
    v.Some? && v.value != ""
  }
}

/** The banner's built-in defaults, defined identically by the read endpoint
    and by the page script. */
module Bandeau {
  const CheckmarkSvg: string :=
    "<svg class=\"blue-check-svg\" " + "viewBox=\"0 0 24 24\">" + "<path d=\"M9 16.17L4.83 12l"
    + "-1.42 1.41L9 19 21 7l" + "-1.41-1.41z\"/></svg>"

  /** The check mark emoji the old plain-text format used where the SVG
      now stands. */
  const Checkmark: char := '\U{2705}'

  /** The SVG is plain ASCII: it holds no check mark. */
  lemma CheckmarkIsNotInSvg()
    ensures Checkmark !in CheckmarkSvg
  {
    SvgOpeningLacksCheckmark();
    SvgPathLacksCheckmark();
    SvgClosingLacksCheckmark();
  }

  lemma SvgOpeningLacksCheckmark()
    ensures Checkmark !in "<svg class=\"blue-check-svg\" " && Checkmark !in "viewBox=\"0 0 24 24\">"
  {
  }

  lemma SvgPathLacksCheckmark()
    ensures Checkmark !in "<path d=\"M9 16.17L4.83 12l"
  {
  }

  lemma SvgClosingLacksCheckmark()
    ensures Checkmark !in "-1.42 1.41L9 19 21 7l" && Checkmark !in "-1.41-1.41z\"/></svg>"
  {
  }

  const DefaultColor: string := "#FFFFFF"

  const DefaultSpeed: int := 5

  /** The default announcement, as the template literal spells it (it
      starts and ends with a line break). */
  const DefaultMessagesHtml: string :=
    "\n  " + CheckmarkSvg + " Engin : <span class=\"status-red\">néant</span><br><br>\n"
    + "  " + CheckmarkSvg + " Rue barrée : <span class=\"status-yellow\">néant</span><br><br>\n"
    + "  " + CheckmarkSvg + " Divers : <span class=\"status-blue\">néant</span><br><br>\n"
    + "  " + CheckmarkSvg + " Manoeuvre: néant<br><br>\n"
    + "  " + CheckmarkSvg + " Sport:<br><br>\n"
    + "  " + CheckmarkSvg + " Merci de votre coopération\n"
}
