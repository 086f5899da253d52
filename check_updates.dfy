/** The freshness endpoint (GET) the page could poll: a `lastModified` that
    is the stored value's own field when truthy and the current time
    otherwise, always 200 and never cached. */
module CheckUpdates {
  import opened Text
  import opened JsValue
  import opened Http

  const NoCache: string := "no-cache, no-store, must-revalidate"

  /** `data?.lastModified || now` */
  function LastModified(data: JsVal, now: string): JsVal {
    Or(OptionalMember(data, "lastModified"), Str(now))
  }

  /** The handler; `now` is `new Date().toISOString()`. */
  function HandleCheck(verb: string, edgeConfig: Option<string>, read: ReadOutcome, now: string): (r: Response)
    ensures verb != "GET" ==> r == MethodNotAllowed("GET")
    ensures verb == "GET" ==> r.status == 200 && r.cacheControl == Some(NoCache) && r.allow.None?
    ensures verb == "GET" ==> r.body.Freshness? || r.body.FreshnessFallback?
    ensures verb == "GET" && !IsSet(edgeConfig) ==>
      r.body == FreshnessFallback(Str(now), "Edge Config non configuré")
    ensures verb == "GET" && IsSet(edgeConfig) && read == ReadThrew ==>
      r.body == FreshnessFallback(Str(now), "Failed to check updates")
    ensures verb == "GET" && IsSet(edgeConfig) && read.ReadValue? ==>
      r.body == Freshness(LastModified(read.value, now))
  {
    if verb != "GET" then MethodNotAllowed("GET")
    else if !IsSet(edgeConfig) then
      Response(200, None, Some(NoCache), FreshnessFallback(Str(now), "Edge Config non configuré"))
    else match read
      case ReadThrew => Response(200, None, Some(NoCache), FreshnessFallback(Str(now), "Failed to check updates"))
      case ReadValue(data) => Response(200, None, Some(NoCache), Freshness(LastModified(data, now)))
  }

  /** `lastModified` is the stored field when truthy and `now` otherwise;
      either way it is truthy whenever `now` is non-empty. */
  lemma LastModifiedChoice(data: JsVal, now: string)
    ensures Truthy(OptionalMember(data, "lastModified")) ==> LastModified(data, now) == OptionalMember(data, "lastModified")
    ensures !Truthy(OptionalMember(data, "lastModified")) ==> LastModified(data, now) == Str(now)
    ensures now != "" ==> Truthy(LastModified(data, now))
  {
    if now != "" {
      OrTruthy(OptionalMember(data, "lastModified"), Str(now));
    }
  }

  /** The writer stores a string, whose `lastModified` property is
      `undefined`, so the answer for anything it wrote is always `now`:
      the value changes on every call and says nothing about the document. */
  lemma StoredStringAlwaysGivesNow(edgeConfig: Option<string>, text: string, now: string)
    requires IsSet(edgeConfig)
    ensures HandleCheck("GET", edgeConfig, ReadValue(Str(text)), now).body == Freshness(Str(now))
  {
  }
}
