/** The page's data layer: loading the banner from the read endpoint with
    the browser's local copy as a fallback, and saving it to the write
    endpoint after refreshing that local copy. The local copy is a
    string-to-string map the save mutates; the network answers are inputs. */
module ClientApi {
  import opened Text
  import opened JsValue

  const TextKey: string := "bandeau_html_content"
  const SpeedKey: string := "bandeau_speed"
  const ColorKey: string := "bandeau_color"

  /** What a `fetch` gives the page: a rejected promise, or a response with
      its `ok` flag and what `response.json()` yields (`None`: it rejects). */
  datatype FetchOutcome = NetworkError | HttpResponse(ok: bool, json: Option<JsVal>)

  /** `localStorage.getItem(key)`: `None` is `null`. */
  function GetItem(storage: map<string, string>, key: string): Option<string> {
    if key in storage then Some(storage[key]) else None
  }

  predicate ItemTruthy(item: Option<string>) {
    item.Some? && item.value != ""
  }

  /** The banner object the page works with. */
  function BannerObject(html: JsVal, speed: JsVal, color: JsVal): (r: JsVal)
    ensures r.Obj? && r.fields.Keys == {"html", "speed", "color"}
    ensures r.fields["html"] == html && r.fields["speed"] == speed && r.fields["color"] == color
  {
    Obj(map["html" := html, "speed" := speed, "color" := color])
  }

  /** The `catch` branch: the local html or `''`, the local speed parsed or
      5, the local color or `#FFFFFF`. */
  function LocalFallback(storage: map<string, string>): JsVal {
    var html := GetItem(storage, TextKey);
    var speed := GetItem(storage, SpeedKey);
    var color := GetItem(storage, ColorKey);
    BannerObject(
      Str(if ItemTruthy(html) then html.value else ""),
      if ItemTruthy(speed) then NumberOf(ParseInt10(speed.value)) else Num(5),
      Str(if ItemTruthy(color) then color.value else "#FFFFFF"))
  }

  /** The local-preference branch, taken when the local html is non-empty:
      the local html, `parseInt(localSpeed || '5', 10)`, the local color or
      `#FFFFFF`. */
  function LocalPreferred(storage: map<string, string>): JsVal
    requires ItemTruthy(GetItem(storage, TextKey))
  {
    var speed := GetItem(storage, SpeedKey);
    var color := GetItem(storage, ColorKey);
    BannerObject(
      Str(GetItem(storage, TextKey).value),
      NumberOf(ParseInt10(if ItemTruthy(speed) then speed.value else "5")),
      Str(if ItemTruthy(color) then color.value else "#FFFFFF"))
  }

  /** What `loadBandeauData` resolves to. An unreadable answer, a non-ok
      status or a network error gives the fallback; a readable answer is
      returned as it is unless the local html is non-empty and the answer's
      html is falsy, when the local copy is preferred. Reading `html` of a
      `null` answer throws, which also lands in the fallback; with no local
      html that read never happens. */
  function LoadResult(storage: map<string, string>, outcome: FetchOutcome): (r: JsVal)
    ensures !(outcome.HttpResponse? && outcome.ok && outcome.json.Some?) ==> r == LocalFallback(storage)
    ensures r == LocalFallback(storage) || (outcome.HttpResponse? && outcome.json == Some(r))
         || (ItemTruthy(GetItem(storage, TextKey)) && r == LocalPreferred(storage))
    ensures ItemTruthy(GetItem(storage, TextKey)) ==> Truthy(OptionalMember(r, "html"))
    ensures (outcome.HttpResponse? && outcome.ok && outcome.json.Some? && !ItemTruthy(GetItem(storage, TextKey)))
         ==> r == outcome.json.value
    ensures (outcome.HttpResponse? && outcome.ok && outcome.json.Some? && ItemTruthy(GetItem(storage, TextKey))
             && IsNullish(outcome.json.value))
         ==> r == LocalFallback(storage)
  {
    match outcome
    case NetworkError => LocalFallback(storage)
    case HttpResponse(ok, json) =>
      if !ok || json.None? then LocalFallback(storage)
      else
        var data := json.value;
        if !ItemTruthy(GetItem(storage, TextKey)) then data
        else if IsNullish(data) then LocalFallback(storage)
        else if !Truthy(OptionalMember(data, "html")) then LocalPreferred(storage)
        else data
  }

  /** The body the save sends: the three fields, and the access code or `''`. */
  datatype SaveRequest = SaveRequest(html: string, speed: JsVal, color: string, accessCode: string)

  /** `result.success === true` for a readable answer to an ok response. */
  predicate SaveSucceeded(outcome: FetchOutcome) {
    && outcome.HttpResponse? && outcome.ok && outcome.json.Some?
    && Member(outcome.json.value, "success") == Some(Bool(true))
  }

  /** The page's local storage and the two calls that use it. */
  class BandeauClient {
    var storage: map<string, string>

    constructor(initial: map<string, string>)
      ensures storage == initial
    {
      storage := initial;
    }

    /** `loadBandeauData`: reads the local copy, never writes it, never
        fails. */
    method LoadBandeauData(outcome: FetchOutcome) returns (data: JsVal)
      ensures data == LoadResult(storage, outcome)
    {
      if outcome.NetworkError? || !outcome.ok || outcome.json.None? {
        return LocalFallback(storage);
      }
      data := outcome.json.value;
      var localHtml := GetItem(storage, TextKey);
      if ItemTruthy(localHtml) {
        if IsNullish(data) {
          return LocalFallback(storage);
        }
        if !Truthy(OptionalMember(data, "html")) {
          return LocalPreferred(storage);
        }
      }
    }

    /** `saveBandeauData`: the three local items are written first,
        whatever follows; the POST is always sent, with `''` for a missing
        code; the answer is true exactly when the server reports success,
        and nothing is thrown. */
    method SaveBandeauData(html: string, speed: JsVal, color: string, accessCode: Option<string>,
                           outcome: FetchOutcome)
      returns (saved: bool, request: SaveRequest)
      modifies this
      ensures storage == old(storage)[TextKey := html][SpeedKey := ToJsString(speed)][ColorKey := color]
      ensures request == SaveRequest(html, speed, color, if ItemTruthy(accessCode) then accessCode.value else "")
      ensures saved <==> SaveSucceeded(outcome)
    {
      storage := storage[TextKey := html];
      storage := storage[SpeedKey := ToJsString(speed)];
      storage := storage[ColorKey := color];
      request := SaveRequest(html, speed, color, if ItemTruthy(accessCode) then accessCode.value else "");
      match outcome {
        case NetworkError =>
          saved := false;
        case HttpResponse(ok, json) =>
          if !ok || json.None? {
            saved := false;
          } else {
            var success := Member(json.value, "success");
            saved := success.Some? && success.value == Bool(true);
          }
      }
    }
  }

  /** The three items a save leaves in the local copy. */
  function AfterSave(storage: map<string, string>, html: string, speed: JsVal, color: string): map<string, string> {
    storage[TextKey := html][SpeedKey := ToJsString(speed)][ColorKey := color]
  }

  /** The fallback always has a string html, a string color that is never
      empty, and a speed that is a number or `NaN`. */
  lemma LocalFallbackShape(storage: map<string, string>)
    ensures var r := LocalFallback(storage);
      && r.Obj? && r.fields["html"].Str? && r.fields["color"].Str? && r.fields["color"].s != ""
      && (r.fields["speed"].Num? || r.fields["speed"].NaN?)
  {
  }

  /** The two local readings agree on the speed: a missing or empty item
      reads as 5 in both. */
  lemma LocalSpeedReadingsAgree(storage: map<string, string>)
    requires ItemTruthy(GetItem(storage, TextKey))
    ensures LocalPreferred(storage).fields["speed"] == LocalFallback(storage).fields["speed"]
  {
    var speed := GetItem(storage, SpeedKey);
    if !ItemTruthy(speed) {
      assert "5" == IntToString(5);
      ParseIntOfIntToString(5);
    }
  }

  /** A save followed by a load that cannot reach the server gives back
      what was saved: the html when it was non-empty, a numeric speed
      unchanged, and the color when it was non-empty. */
  lemma OfflineLoadReturnsLastSave(storage: map<string, string>, html: string, speed: int, color: string)
    requires html != "" && color != ""
    ensures LoadResult(AfterSave(storage, html, Num(speed), color), NetworkError)
         == BannerObject(Str(html), Num(speed), Str(color))
  {
    var s := AfterSave(storage, html, Num(speed), color);
    assert GetItem(s, TextKey) == Some(html);
    assert GetItem(s, SpeedKey) == Some(IntToString(speed));
    assert GetItem(s, ColorKey) == Some(color);
    ParseIntOfIntToString(speed);
    IntToStringNonEmpty(speed);
  }

  lemma IntToStringNonEmpty(n: int)
    ensures IntToString(n) != ""
  {
  }

  /** A readable answer with a truthy html is returned untouched, whatever
      the local copy holds. */
  lemma ServerCopyWins(storage: map<string, string>, data: JsVal)
    requires Truthy(OptionalMember(data, "html"))
    ensures LoadResult(storage, HttpResponse(true, Some(data))) == data
  {
  }

  /** With a non-empty local html, an answer whose html is falsy is replaced
      by the local copy. */
  lemma LocalCopyWinsOverEmptyAnswer(storage: map<string, string>, data: JsVal)
    requires ItemTruthy(GetItem(storage, TextKey)) && !IsNullish(data)
    requires !Truthy(OptionalMember(data, "html"))
    ensures LoadResult(storage, HttpResponse(true, Some(data))) == LocalPreferred(storage)
    ensures LoadResult(storage, HttpResponse(true, Some(data))).fields["html"] == Str(GetItem(storage, TextKey).value)
  {
  }
}
