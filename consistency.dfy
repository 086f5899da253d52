/** How the pieces fit together: the record the write endpoint stores, as
    the two read endpoints see it, and the body the page sends, as the
    write endpoint validates it. The stored item is the JSON text of the
    record; its parse is an input, as in the read endpoint, and is here the
    object with the record's four fields. */
module Consistency {
  import opened Text
  import opened JsValue
  import opened Http
  import opened UpdateBandeau
  import opened GetBandeau
  import opened CheckUpdates
  import opened ClientApi

  /** The object `JSON.parse` gives back for the text of a stored record. */
  function RecordObject(rec: SavedRecord): (r: JsVal)
    ensures r.Obj? && r.fields.Keys == {"html", "speed", "color", "updatedAt"}
  {
    Obj(map["html" := Str(rec.html), "speed" := Num(rec.speed), "color" := Str(rec.color),
            "updatedAt" := Str(rec.updatedAt)])
  }

  /** A record the writer accepted is served back as it was stored: its
      html, speed and color, none replaced by a default (each is truthy),
      and without its time stamp. */
  lemma StoredRecordIsServed(edgeConfig: Option<string>, text: string, rec: SavedRecord)
    requires IsSet(edgeConfig) && text != "" && WellFormedRecord(rec)
    ensures HandleGet("GET", edgeConfig, ReadValue(Str(text)), Some(RecordObject(rec)))
         == Response(200, None, Some(CachePublic), Banner(Str(rec.html), Num(rec.speed), Str(rec.color)))
  {
    var data := RecordObject(rec);
    assert data.fields["html"] == Str(rec.html);
    assert data.fields["speed"] == Num(rec.speed);
    assert data.fields["color"] == Str(rec.color);
    assert |rec.color| == 7;
  }

  /** The freshness endpoint never sees a write: the stored item is a
      string, whose `lastModified` is `undefined`, so every answer is the
      reader's own clock, whatever was written and when. */
  lemma WritesAreInvisibleToFreshness(edgeConfig: Option<string>, text: string, now: string)
    requires IsSet(edgeConfig)
    ensures HandleCheck("GET", edgeConfig, ReadValue(Str(text)), now)
         == Response(200, None, Some(NoCache), Freshness(Str(now)))
  {
    StoredStringAlwaysGivesNow(edgeConfig, text, now);
  }

  /** `JSON.stringify` of a number field: `NaN` is written as `null`. */
  function WireNumber(v: JsVal): (r: JsVal)
    ensures v.NaN? ==> r == Null
    ensures v.Num? ==> r == v
  {
    if v.NaN? then Null else v
  }

  /** The JSON body the page's save sends, as the write endpoint reads it. */
  function WireBody(req: SaveRequest): (r: JsVal)
    ensures r.Obj? && r.fields.Keys == {"html", "speed", "color", "accessCode"}
    ensures OptionalMember(r, "html") == Str(req.html) && OptionalMember(r, "color") == Str(req.color)
    ensures OptionalMember(r, "speed") == WireNumber(req.speed)
    ensures OptionalMember(r, "accessCode") == Str(req.accessCode)
  {
    Obj(map["html" := Str(req.html), "speed" := WireNumber(req.speed), "color" := Str(req.color),
            "accessCode" := Str(req.accessCode)])
  }

  /** A speed the page could not read as a number reaches the server as
      `null`, and is rejected as missing rather than as out of range. */
  lemma UnreadableSpeedIsMissing(req: SaveRequest, secret: Option<string>)
    requires req.speed.NaN?
    ensures SpeedRequired in ValidationErrors(WireBody(req), secret)
    ensures SpeedOutOfRange !in ValidationErrors(WireBody(req), secret)
  {
    NullSpeedIsMissing(WireBody(req), secret);
  }

  lemma NullSpeedIsMissing(body: JsVal, secret: Option<string>)
    requires !IsNullish(body) && OptionalMember(body, "speed") == Null
    ensures SpeedRequired in ValidationErrors(body, secret)
    ensures SpeedOutOfRange !in ValidationErrors(body, secret)
  {
    var h := HtmlCheck(OptionalMember(body, "html"));
    var c := ColorCheck(OptionalMember(body, "color"));
    var a := AccessCodeCheck(OptionalMember(body, "accessCode"), secret);
    assert ValidationErrors(body, secret) == AsSeq(h) + [SpeedRequired] + AsSeq(c) + AsSeq(a);
    OnlyItsField(h, SpeedOutOfRange);
    OnlyItsField(c, SpeedOutOfRange);
    OnlyItsField(a, SpeedOutOfRange);
  }

  /** A check's failure, if any, names the check's own field. */
  lemma OnlyItsField(o: Option<FieldError>, e: FieldError)
    requires o.Some? ==> o.value.Field() != e.Field()
    ensures e !in AsSeq(o)
  {
  }

  /** A save sent before any code was entered carries `''`, which is
      present but never equal to a configured, non-empty code: it fails as
      incorrect, not as missing. */
  lemma SaveWithoutCodeIsIncorrect(req: SaveRequest, secret: string)
    requires req.accessCode == "" && secret != ""
    ensures AccessCodeIncorrect in ValidationErrors(WireBody(req), Some(secret))
    ensures AccessCodeRequired !in ValidationErrors(WireBody(req), Some(secret))
  {
    EmptyCodeIsIncorrect(WireBody(req), secret);
  }

  lemma EmptyCodeIsIncorrect(body: JsVal, secret: string)
    requires !IsNullish(body) && OptionalMember(body, "accessCode") == Str("") && secret != ""
    ensures AccessCodeIncorrect in ValidationErrors(body, Some(secret))
    ensures AccessCodeRequired !in ValidationErrors(body, Some(secret))
  {
    var h := HtmlCheck(OptionalMember(body, "html"));
    var sp := SpeedCheck(OptionalMember(body, "speed"));
    var c := ColorCheck(OptionalMember(body, "color"));
    assert AccessCodeCheck(Str(""), Some(secret)) == Some(AccessCodeIncorrect);
    assert ValidationErrors(body, Some(secret)) == AsSeq(h) + AsSeq(sp) + AsSeq(c) + [AccessCodeIncorrect];
    OnlyItsField(h, AccessCodeRequired);
    OnlyItsField(sp, AccessCodeRequired);
    OnlyItsField(c, AccessCodeRequired);
  }

  /** A save from the page with a valid html, a speed in range, a
      six-digit color and the configured code passes validation, and the
      record the writer composes from it holds exactly those values. */
  lemma ValidSaveIsRecorded(req: SaveRequest, secret: string, now: string)
    requires 1 <= |req.html| <= MaxHtmlLength && IsHexColor(req.color)
    requires req.speed.Num? && MinSpeed <= req.speed.n <= MaxSpeed
    requires req.accessCode == secret
    ensures ValidationErrors(WireBody(req), Some(secret)) == []
    ensures PayloadFieldsValid(WireBody(req))
    ensures DataToSave(WireBody(req), now) == SavedRecord(req.html, req.speed.n, req.color, now)
  {
    SpeedNumberBounds(req.speed.n);
    ParseIntValueOfNumber(req.speed);
  }
}
