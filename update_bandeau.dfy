/** The write endpoint (POST): field validation that reports every
    violation, the deny-list HTML screen, the parsing of the Edge Config
    connection string, the record that is persisted and the handler's fixed
    order of early returns. The REST write to the store is an input: the
    handler says which write it issues and the outcome of that write decides
    the response. */
module UpdateBandeau {
  import opened Text
  import opened JsValue
  import opened Http

  const MaxHtmlLength: nat := 50000
  const MinSpeed: int := 3
  const MaxSpeed: int := 60

  /** The key the banner document is stored under. */
  const StoreKey: string := "bandeau_data"

  // ---------------------------------------------------------------------
  // Validation
  // ---------------------------------------------------------------------

  datatype Field = HtmlField | SpeedField | ColorField | AccessCodeField

  /** One message per failed check; each belongs to exactly one field. */
  datatype FieldError =
    | HtmlRequired | HtmlTooLong
    | SpeedRequired | SpeedOutOfRange
    | ColorRequired | ColorMalformed
    | AccessCodeRequired | AccessCodeIncorrect
  {
    function Field(): Field {
      match this
      case HtmlRequired => HtmlField
      case HtmlTooLong => HtmlField
      case SpeedRequired => SpeedField
      case SpeedOutOfRange => SpeedField
      case ColorRequired => ColorField
      case ColorMalformed => ColorField
      case AccessCodeRequired => AccessCodeField
      case AccessCodeIncorrect => AccessCodeField
    }

    function Message(): string {
      match this
      case HtmlRequired => "Le champ html est requis et doit être une chaîne de caractères"
      case HtmlTooLong => "Le contenu HTML est trop long (max 50000 caractères)"
      case SpeedRequired => "Le champ speed est requis"
      case SpeedOutOfRange => "La vitesse doit être un nombre entre 3 et 60 secondes"
      case ColorRequired => "Le champ color est requis et doit être une chaîne de caractères"
      case ColorMalformed => "La couleur doit être au format hexadécimal (#RRGGBB)"
      case AccessCodeRequired => "Le code d'accès est requis"
      case AccessCodeIncorrect => "Code d'accès incorrect"
    }
  }

  /** `/^#[0-9A-F]{6}$/i`: a `#` and exactly six hexadecimal digits of
      either case, nothing before and nothing after. */
  predicate IsHexColor(s: string) {
    |s| == 7 && s[0] == '#' && forall i :: 1 <= i < 7 ==> IsHexDigit(s[i])
  }

  /** The html check: a non-empty string of at most 50000 characters. */
  function HtmlCheck(html: JsVal): (r: Option<FieldError>)
    ensures r.None? <==> html.Str? && 1 <= |html.s| <= MaxHtmlLength
    ensures r.Some? ==> r.value.Field() == HtmlField
    ensures r == Some(HtmlTooLong) <==> html.Str? && |html.s| > MaxHtmlLength
  {
    if !Truthy(html) || !html.Str? then Some(HtmlRequired)
    else if |html.s| > MaxHtmlLength then Some(HtmlTooLong)
    else None
  }

  /** The speed check: present, and `parseInt(speed, 10)` a number in [3, 60]. */
  function SpeedCheck(speed: JsVal): (r: Option<FieldError>)
    ensures r.Some? ==> r.value.Field() == SpeedField
    ensures r == Some(SpeedRequired) <==> IsNullish(speed)
  {
    if IsNullish(speed) then Some(SpeedRequired)
    else
      var parsed := ParseIntValue(speed);
      if parsed.None? || parsed.value < MinSpeed || parsed.value > MaxSpeed then Some(SpeedOutOfRange)
      else None
  }

  /** The color check: a string that is a six-digit hexadecimal color. */
  function ColorCheck(color: JsVal): (r: Option<FieldError>)
    ensures r.None? <==> color.Str? && IsHexColor(color.s)
    ensures r.Some? ==> r.value.Field() == ColorField
  {
    if !Truthy(color) || !color.Str? then Some(ColorRequired)
    else if !IsHexColor(color.s) then Some(ColorMalformed)
    else None
  }

  /** The access-code check: present, and strictly equal to the configured
      secret (an unset secret is `undefined`, which no present value equals). */
  function AccessCodeCheck(code: JsVal, secret: Option<string>): (r: Option<FieldError>)
    ensures r.None? <==> secret.Some? && code == Str(secret.value)
    ensures r.Some? ==> r.value.Field() == AccessCodeField
    ensures r == Some(AccessCodeRequired) <==> IsNullish(code)
  {
    if IsNullish(code) then Some(AccessCodeRequired)
    else if !(secret.Some? && code == Str(secret.value)) then Some(AccessCodeIncorrect)
    else None
  }

  function AsSeq(o: Option<FieldError>): seq<FieldError> {
    match o
    case None => []
    case Some(e) => [e]
  }

  /** What `validateData` returns for a body that is not `null`: the
      failures of the four independent checks, in field order. */
  function ValidationErrors(data: JsVal, secret: Option<string>): (r: seq<FieldError>)
    requires !IsNullish(data)
    ensures |r| <= 4
  {
    AsSeq(HtmlCheck(OptionalMember(data, "html")))
    + AsSeq(SpeedCheck(OptionalMember(data, "speed")))
    + AsSeq(ColorCheck(OptionalMember(data, "color")))
    + AsSeq(AccessCodeCheck(OptionalMember(data, "accessCode"), secret))
  }

  /** `validateData`, pushing a message for every failed check. Reading a
      field of a `null` body throws in the source; the handler handles that
      case, so it is excluded here. */
  method ValidateData(data: JsVal, secret: Option<string>) returns (errors: seq<FieldError>)
    requires !IsNullish(data)
    ensures errors == ValidationErrors(data, secret)
  {
    errors := [];
    var html := OptionalMember(data, "html");
    if !Truthy(html) || !html.Str? {
      errors := errors + [HtmlRequired];
    } else if |html.s| > MaxHtmlLength {
      errors := errors + [HtmlTooLong];
    }
    assert errors == AsSeq(HtmlCheck(html));
    var afterHtml := errors;
    var speed := OptionalMember(data, "speed");
    var speedError := SpeedCheck(speed);
    if IsNullish(speed) {
      errors := errors + [SpeedRequired];
    } else {
      var parsed := ParseIntValue(speed);
      if parsed.None? || parsed.value < MinSpeed || parsed.value > MaxSpeed {
        assert speedError == Some(SpeedOutOfRange);
        errors := errors + [SpeedOutOfRange];
      } else {
        assert speedError.None?;
      }
    }
    assert errors == afterHtml + AsSeq(speedError);
    var afterSpeed := errors;
    var color := OptionalMember(data, "color");
    if !Truthy(color) || !color.Str? {
      errors := errors + [ColorRequired];
    } else if !IsHexColor(color.s) {
      errors := errors + [ColorMalformed];
    }
    assert errors == afterSpeed + AsSeq(ColorCheck(color));
    var afterColor := errors;
    var code := OptionalMember(data, "accessCode");
    if IsNullish(code) {
      errors := errors + [AccessCodeRequired];
    } else if !(secret.Some? && code == Str(secret.value)) {
      errors := errors + [AccessCodeIncorrect];
    }
    assert errors == afterColor + AsSeq(AccessCodeCheck(code, secret));
  }

  /** Every violation is reported, no field twice, so there are at most four
      messages; a field is named exactly when its own check fails, whatever
      the other fields hold. */
  lemma ValidationCollectsEveryViolation(data: JsVal, secret: Option<string>)
    requires !IsNullish(data)
    ensures var errs := ValidationErrors(data, secret);
      && |errs| <= 4
      && InFieldOrder(errs)
      && (HtmlField in FailingFields(errs) <==> HtmlCheck(OptionalMember(data, "html")).Some?)
      && (SpeedField in FailingFields(errs) <==> SpeedCheck(OptionalMember(data, "speed")).Some?)
      && (ColorField in FailingFields(errs) <==> ColorCheck(OptionalMember(data, "color")).Some?)
      && (AccessCodeField in FailingFields(errs)
          <==> AccessCodeCheck(OptionalMember(data, "accessCode"), secret).Some?)
  {
    var h := HtmlCheck(OptionalMember(data, "html"));
    var s := SpeedCheck(OptionalMember(data, "speed"));
    var c := ColorCheck(OptionalMember(data, "color"));
    var a := AccessCodeCheck(OptionalMember(data, "accessCode"), secret);
    FieldsOfChecks(h, s, c, a);
    EachFieldFromItsCheck(h, s, c, a);
  }

  /** Each field is in the union exactly when its own check failed. */
  lemma EachFieldFromItsCheck(h: Option<FieldError>, s: Option<FieldError>, c: Option<FieldError>, a: Option<FieldError>)
    requires h.Some? ==> h.value.Field() == HtmlField
    requires s.Some? ==> s.value.Field() == SpeedField
    requires c.Some? ==> c.value.Field() == ColorField
    requires a.Some? ==> a.value.Field() == AccessCodeField
    ensures var fields := FieldOf(h) + FieldOf(s) + FieldOf(c) + FieldOf(a);
      && (HtmlField in fields <==> h.Some?) && (SpeedField in fields <==> s.Some?)
      && (ColorField in fields <==> c.Some?) && (AccessCodeField in fields <==> a.Some?)
  {
  }

  /** The four checks' failures, each labelled with its own field, laid end
      to end. */
  lemma FieldsOfChecks(h: Option<FieldError>, s: Option<FieldError>, c: Option<FieldError>, a: Option<FieldError>)
    requires h.Some? ==> h.value.Field() == HtmlField
    requires s.Some? ==> s.value.Field() == SpeedField
    requires c.Some? ==> c.value.Field() == ColorField
    requires a.Some? ==> a.value.Field() == AccessCodeField
    ensures var errs := AsSeq(h) + AsSeq(s) + AsSeq(c) + AsSeq(a);
      && |errs| <= 4
      && InFieldOrder(errs)
      && FailingFields(errs) == FieldOf(h) + FieldOf(s) + FieldOf(c) + FieldOf(a)
  {
    ChecksInFieldOrder(h, s, c, a);
    ChecksNameTheirFields(h, s, c, a);
  }

  lemma ChecksInFieldOrder(h: Option<FieldError>, s: Option<FieldError>, c: Option<FieldError>, a: Option<FieldError>)
    requires h.Some? ==> h.value.Field() == HtmlField
    requires s.Some? ==> s.value.Field() == SpeedField
    requires c.Some? ==> c.value.Field() == ColorField
    requires a.Some? ==> a.value.Field() == AccessCodeField
    ensures var errs := AsSeq(h) + AsSeq(s) + AsSeq(c) + AsSeq(a);
      |errs| <= 4 && InFieldOrder(errs)
  {
    var e1 := AsSeq(h);
    ExtendInFieldOrder([], h, 0);
    assert [] + e1 == e1;
    var e2 := e1 + AsSeq(s);
    ExtendInFieldOrder(e1, s, 1);
    var e3 := e2 + AsSeq(c);
    ExtendInFieldOrder(e2, c, 2);
    ExtendInFieldOrder(e3, a, 3);
  }

  lemma ChecksNameTheirFields(h: Option<FieldError>, s: Option<FieldError>, c: Option<FieldError>, a: Option<FieldError>)
    ensures FailingFields(AsSeq(h) + AsSeq(s) + AsSeq(c) + AsSeq(a))
         == FieldOf(h) + FieldOf(s) + FieldOf(c) + FieldOf(a)
  {
    var e1 := AsSeq(h);
    var e2 := e1 + AsSeq(s);
    var e3 := e2 + AsSeq(c);
    FieldsOfOne(h);
    FieldsOfOne(s);
    FieldsOfOne(c);
    FieldsOfOne(a);
    FailingFieldsOfConcat(e1, AsSeq(s));
    FailingFieldsOfConcat(e2, AsSeq(c));
    FailingFieldsOfConcat(e3, AsSeq(a));
  }

  lemma FieldsOfOne(o: Option<FieldError>)
    ensures FailingFields(AsSeq(o)) == FieldOf(o)
  {
  }

  /** The fields an error list names. */
  function FailingFields(errs: seq<FieldError>): set<Field> {
    set e | e in errs :: e.Field()
  }

  function FieldOf(o: Option<FieldError>): set<Field> {
    if o.Some? then {o.value.Field()} else {}
  }

  lemma FailingFieldsOfConcat(xs: seq<FieldError>, o: seq<FieldError>)
    requires |o| <= 1
    ensures FailingFields(xs + o) == FailingFields(xs) + FailingFields(o)
  {
    assert forall e :: e in xs + o <==> e in xs || e in o;
  }

  /** The position of each field in the order the checks run. */
  function FieldRank(f: Field): nat {
    match f
    case HtmlField => 0
    case SpeedField => 1
    case ColorField => 2
    case AccessCodeField => 3
  }

  predicate InFieldOrder(errs: seq<FieldError>) {
    forall i, j :: 0 <= i < j < |errs| ==> FieldRank(errs[i].Field()) < FieldRank(errs[j].Field())
  }

  predicate RanksBelow(errs: seq<FieldError>, r: nat) {
    forall i :: 0 <= i < |errs| ==> FieldRank(errs[i].Field()) < r
  }

  lemma ExtendInFieldOrder(errs: seq<FieldError>, next: Option<FieldError>, r: nat)
    requires InFieldOrder(errs) && RanksBelow(errs, r)
    requires next.Some? ==> FieldRank(next.value.Field()) == r
    ensures InFieldOrder(errs + AsSeq(next)) && RanksBelow(errs + AsSeq(next), r + 1)
  {
  }

  /** A speed given as a number passes exactly when it lies in [3, 60]. */
  lemma SpeedNumberBounds(n: int)
    ensures SpeedCheck(Num(n)).None? <==> MinSpeed <= n <= MaxSpeed
  {
    ParseIntValueOfNumber(Num(n));
  }

  /** The bounds are inclusive: 2 and 61 fail, 3 and 60 pass. */
  lemma SpeedBoundaries()
    ensures SpeedCheck(Num(2)).Some? && SpeedCheck(Num(61)).Some?
    ensures SpeedCheck(Num(3)).None? && SpeedCheck(Num(60)).None?
  {
    SpeedNumberBounds(2);
    SpeedNumberBounds(61);
    SpeedNumberBounds(3);
    SpeedNumberBounds(60);
  }

  /** A string speed is read by `parseInt`, so text after the leading
      digits is ignored: "12abc" passes and is later stored as 12. */
  lemma SpeedTextIsReadByPrefix(digits: string, rest: string)
    requires digits != [] && AllDigits(digits) && (rest == [] || !IsDigit(rest[0]))
    ensures ParseIntValue(Str(digits + rest)) == Some(DigitsValue(digits) as int)
    ensures SpeedCheck(Str(digits + rest)).None? <==> MinSpeed <= DigitsValue(digits) <= MaxSpeed
  {
    var s := digits + rest;
    ParseIntReadsDigitPrefix(digits, rest);
    assert ToJsString(Str(s)) == s;
    assert !IsNullish(Str(s));
  }

  /** `#FFF` fails; `#ffffff` and `#FFFFFF` pass. */
  lemma ColorExamples()
    ensures ColorCheck(Str("#FFF")) == Some(ColorMalformed)
    ensures ColorCheck(Str("#ffffff")).None? && ColorCheck(Str("#FFFFFF")).None?
  {
  }

  /** With a configured secret, an empty or different code is incorrect; with
      no secret configured, every code is. */
  lemma AccessCodeExamples(code: string, secret: string)
    requires secret != "" && code != secret
    ensures AccessCodeCheck(Str(""), Some(secret)) == Some(AccessCodeIncorrect)
    ensures AccessCodeCheck(Str(code), Some(secret)) == Some(AccessCodeIncorrect)
    ensures AccessCodeCheck(Str(secret), None) == Some(AccessCodeIncorrect)
    ensures AccessCodeCheck(Null, Some(secret)) == Some(AccessCodeRequired)
  {
  }

  // ---------------------------------------------------------------------
  // Deny-list screen
  // ---------------------------------------------------------------------

  /** The six dangerous patterns, all case-insensitive: five literals and
      `/on\w+\s*=/i`. */
  datatype Pattern = Literal(text: string) | EventHandlerAttribute

  const DangerousPatterns: seq<Pattern> := [
    Literal("<script"),
    Literal("javascript:"),
    EventHandlerAttribute,
    Literal("<iframe"),
    Literal("<object"),
    Literal("<embed")
  ]

  /** The end of the maximal run of `\w` characters that starts at `from`. */
  function WordRunEnd(s: string, from: nat): (e: nat)
    requires from <= |s|
    decreases |s| - from
    ensures from <= e <= |s|
    ensures forall m :: from <= m < e ==> IsWordChar(s[m])
    ensures e == |s| || !IsWordChar(s[e])
  {
    if from < |s| && IsWordChar(s[from]) then WordRunEnd(s, from + 1) else from
  }

  /** The end of the maximal run of `\s` characters that starts at `from`. */
  function SpaceRunEnd(s: string, from: nat): (e: nat)
    requires from <= |s|
    decreases |s| - from
    ensures from <= e <= |s|
    ensures forall m :: from <= m < e ==> IsSpace(s[m])
    ensures e == |s| || !IsSpace(s[e])
  {
    if from < |s| && IsSpace(s[from]) then SpaceRunEnd(s, from + 1) else from
  }

  /** A maximal word run ends where the characters stop being word characters. */
  lemma {:induction false} WordRunEndIsUnique(s: string, from: nat, e: nat)
    requires from <= e <= |s|
    requires forall m :: from <= m < e ==> IsWordChar(s[m])
    requires e == |s| || !IsWordChar(s[e])
    ensures WordRunEnd(s, from) == e
    decreases e - from
  {
    if from < e {
      WordRunEndIsUnique(s, from + 1, e);
    }
  }

  /** A maximal space run ends where the characters stop being spaces. */
  lemma {:induction false} SpaceRunEndIsUnique(s: string, from: nat, e: nat)
    requires from <= e <= |s|
    requires forall m :: from <= m < e ==> IsSpace(s[m])
    requires e == |s| || !IsSpace(s[e])
    ensures SpaceRunEnd(s, from) == e
    decreases e - from
  {
    if from < e {
      SpaceRunEndIsUnique(s, from + 1, e);
    }
  }

  /** `/on\w+\s*=/i` matches at `i`, read greedily: after `on` the longest
      word run, then the longest space run, then `=`. */
  predicate HandlerAt(s: string, i: nat) {
    && i + 2 <= |s|
    && CharEq(s[i], 'o', true) && CharEq(s[i + 1], 'n', true)
    && var j := WordRunEnd(s, i + 2);
    && j > i + 2
    && var k := SpaceRunEnd(s, j);
    && k < |s| && s[k] == '='
  }

  /** One way of reading `on\w+\s*=` at `i`: the word run is `s[i+2..j]`,
      the space run `s[j..k]`, and `=` stands at `k`. */
  ghost predicate HandlerSplit(s: string, i: nat, j: nat, k: nat) {
    && i + 2 < j <= k < |s|
    && CharEq(s[i], 'o', true) && CharEq(s[i + 1], 'n', true)
    && (forall m :: i + 2 <= m < j ==> IsWordChar(s[m]))
    && (forall m :: j <= m < k ==> IsSpace(s[m]))
    && s[k] == '='
  }

  /** The greedy reading finds a match exactly when some reading exists:
      backtracking cannot find more, since neither a space nor `=` is a word
      character and `=` is not a space. */
  lemma HandlerAtIff(s: string, i: nat)
    ensures HandlerAt(s, i) <==> exists j: nat, k: nat :: HandlerSplit(s, i, j, k)
  {
    if HandlerAt(s, i) {
      var j := WordRunEnd(s, i + 2);
      var k := SpaceRunEnd(s, j);
      assert HandlerSplit(s, i, j, k);
    }
    if exists j: nat, k: nat :: HandlerSplit(s, i, j, k) {
      var j: nat, k: nat :| HandlerSplit(s, i, j, k);
      assert !IsWordChar(s[j]) by {
        if j < k { assert IsSpace(s[j]); } else { assert s[j] == '='; }
      }
      WordRunEndIsUnique(s, i + 2, j);
      SpaceRunEndIsUnique(s, j, k);
    }
  }

  /** Executable test of one pattern, as `pattern.test(html)` on a fresh
      regular expression (its `lastIndex` is 0, since the list is rebuilt
      on every call). */
  predicate Matches(p: Pattern, s: string) {
    match p
    case Literal(t) => Contains(s, t, true)
    case EventHandlerAttribute => exists i: nat :: i < |s| && HandlerAt(s, i)
  }

  /** What each pattern means: an occurrence somewhere in the input. */
  ghost predicate Occurs(p: Pattern, s: string) {
    match p
    case Literal(t) => exists i: nat :: MatchesAt(s, i, t, true)
    case EventHandlerAttribute => exists i: nat, j: nat, k: nat :: HandlerSplit(s, i, j, k)
  }

  lemma MatchesIff(p: Pattern, s: string)
    ensures Matches(p, s) <==> Occurs(p, s)
  {
    match p
    case Literal(t) => ContainsIff(s, t, true);
    case EventHandlerAttribute =>
      if Matches(p, s) {
        var i: nat :| i < |s| && HandlerAt(s, i);
        HandlerAtIff(s, i);
      }
      if Occurs(p, s) {
        var i: nat, j: nat, k: nat :| HandlerSplit(s, i, j, k);
        HandlerAtIff(s, i);
      }
  }

  /** The input holds at least one dangerous pattern. */
  predicate UnsafeHtml(s: string) {
    exists i :: 0 <= i < |DangerousPatterns| && Matches(DangerousPatterns[i], s)
  }

  /** The screen rejects exactly the inputs that contain, ignoring ASCII
      case, `<script`, `javascript:`, `on` + word characters + optional
      spaces + `=`, `<iframe`, `<object` or `<embed`. */
  lemma UnsafeHtmlIff(s: string)
    ensures UnsafeHtml(s) <==>
      || (exists i: nat :: MatchesAt(s, i, "<script", true))
      || (exists i: nat :: MatchesAt(s, i, "javascript:", true))
      || (exists i: nat, j: nat, k: nat :: HandlerSplit(s, i, j, k))
      || (exists i: nat :: MatchesAt(s, i, "<iframe", true))
      || (exists i: nat :: MatchesAt(s, i, "<object", true))
      || (exists i: nat :: MatchesAt(s, i, "<embed", true))
  {
    forall i | 0 <= i < |DangerousPatterns| {
      MatchesIff(DangerousPatterns[i], s);
    }
    assert DangerousPatterns[0] == Literal("<script");
    assert DangerousPatterns[1] == Literal("javascript:");
    assert DangerousPatterns[2] == EventHandlerAttribute;
    assert DangerousPatterns[3] == Literal("<iframe");
    assert DangerousPatterns[4] == Literal("<object");
    assert DangerousPatterns[5] == Literal("<embed");
  }

  /** A script tag anywhere rejects the whole input, whatever surrounds it. */
  lemma ScriptAnywhereIsRejected(before: string, after: string)
    ensures UnsafeHtml(before + "<script>alert(1)</script>" + after)
  {
    var s := before + "<script>alert(1)</script>" + after;
    var i := |before|;
    assert MatchesAt(s, i, "<script", true) by {
      forall k | 0 <= k < 7 ensures CharEq(s[i + k], "<script"[k], true) {
        assert s[i + k] == "<script>alert(1)</script>"[k];
      }
    }
    UnsafeHtmlIff(s);
  }

  /** The screen is a deny list, not a parser: ordinary text such as
      `condition = 1` reads as an event-handler attribute and is rejected. */
  lemma PlainTextCanBeRejected()
    ensures UnsafeHtml("condition = 1")
  {
    var s := "condition = 1";
    assert HandlerSplit(s, 1, 9, 10);
    UnsafeHtmlIff(s);
  }

  /** Result of `sanitizeHTML`: the input unchanged, or the thrown error. */
  datatype Sanitized = Clean(html: string) | Rejected

  const RejectionMessage: string := "Contenu HTML non autorisé détecté"

  /** `sanitizeHTML`: a non-string gives `''`; a string is matched against
      each pattern in turn and the first hit throws; nothing is ever
      stripped. */
  method SanitizeHtml(html: JsVal) returns (r: Sanitized)
    ensures !html.Str? ==> r == Clean("")
    ensures html.Str? ==> (r.Rejected? <==> UnsafeHtml(html.s))
    ensures r.Clean? && html.Str? ==> r.html == html.s
  {
    if !html.Str? {
      return Clean("");
    }
    var i := 0;
    while i < |DangerousPatterns|
      invariant 0 <= i <= |DangerousPatterns|
      invariant forall k :: 0 <= k < i ==> !Matches(DangerousPatterns[k], html.s)
    {
      if Matches(DangerousPatterns[i], html.s) {
        return Rejected;
      }
      i := i + 1;
    }
    return Clean(html.s);
  }

  // ---------------------------------------------------------------------
  // Edge Config id
  // ---------------------------------------------------------------------

  /** `ecfg_` followed by at least one `[a-zA-Z0-9]` starts at `i`. */
  predicate IdStartsAt(s: string, i: nat) {
    i + 6 <= |s| && s[i..i + 5] == "ecfg_" && IsAlnum(s[i + 5])
  }

  /** The end of the maximal run of `[a-zA-Z0-9]` that starts at `from`. */
  function AlnumRunEnd(s: string, from: nat): (e: nat)
    requires from <= |s|
    decreases |s| - from
    ensures from <= e <= |s|
    ensures forall m :: from <= m < e ==> IsAlnum(s[m])
    ensures e == |s| || !IsAlnum(s[e])
  {
    if from < |s| && IsAlnum(s[from]) then AlnumRunEnd(s, from + 1) else from
  }

  /** The leftmost start of an `ecfg_[a-zA-Z0-9]+` match at or after `from`. */
  function FindIdStart(s: string, from: nat): (r: Option<nat>)
    decreases |s| - from
    ensures r.Some? ==> from <= r.value && IdStartsAt(s, r.value)
    ensures forall i: nat :: from <= i && (r.None? || i < r.value) ==> !IdStartsAt(s, i)
  {
    if from + 6 > |s| then None
    else if IdStartsAt(s, from) then Some(from)
    else FindIdStart(s, from + 1)
  }

  /** `getEdgeConfigId`: `null` when EDGE_CONFIG is unset; else the first
      `ecfg_[a-zA-Z0-9]+` in it; else the whole value if it starts with
      `ecfg_`; else `null`. */
  function EdgeConfigId(edgeConfig: Option<string>): (r: Option<string>)
    ensures !IsSet(edgeConfig) ==> r.None?
    ensures r.Some? ==> StartsWith(r.value, "ecfg_")
  {
    if !IsSet(edgeConfig) then None
    else
      var s := edgeConfig.value;
      match FindIdStart(s, 0)
      case Some(i) =>
        var e := AlnumRunEnd(s, i + 5);
        assert s[i..e][..5] == s[i..i + 5];
        Some(s[i..e])
      case None => if StartsWith(s, "ecfg_") then Some(s) else None
  }

  /** `s[i..e]` is the leftmost, longest `ecfg_[a-zA-Z0-9]+` in `s`. */
  ghost predicate LeftmostId(s: string, i: nat, e: nat) {
    && IdStartsAt(s, i)
    && (forall i': nat :: i' < i ==> !IdStartsAt(s, i'))
    && i + 6 <= e <= |s|
    && (forall m :: i + 5 <= m < e ==> IsAlnum(s[m]))
    && (e == |s| || !IsAlnum(s[e]))
  }

  /** What the regular expression finds is the leftmost longest match; only
      when there is none does the prefix test decide. */
  lemma EdgeConfigIdIsLeftmostMatch(s: string)
    requires s != ""
    ensures || (exists i: nat, e: nat :: LeftmostId(s, i, e) && EdgeConfigId(Some(s)) == Some(s[i..e]))
            || ((forall i: nat :: !IdStartsAt(s, i))
                && EdgeConfigId(Some(s)) == (if StartsWith(s, "ecfg_") then Some(s) else None))
  {
    match FindIdStart(s, 0)
    case Some(i) =>
      var e := AlnumRunEnd(s, i + 5);
      assert LeftmostId(s, i, e);
    case None =>
  }

  /** A bare id is returned as it is. */
  lemma BareIdIsKept(id: string)
    requires StartsWith(id, "ecfg_") && |id| > 5
    requires forall m :: 5 <= m < |id| ==> IsAlnum(id[m])
    ensures EdgeConfigId(Some(id)) == Some(id)
  {
    assert IdStartsAt(id, 0);
    assert AlnumRunEnd(id, 5) == |id|;
    assert id[0..|id|] == id;
  }

  /** The prefix branch returns values the pattern rejects, such as `ecfg_`
      alone. */
  lemma PrefixOnlyIdIsKept()
    ensures EdgeConfigId(Some("ecfg_")) == Some("ecfg_")
  {
  }

  // ---------------------------------------------------------------------
  // The persisted record and the handler
  // ---------------------------------------------------------------------

  /** `dataToSave`: exactly these four fields are persisted. */
  datatype SavedRecord = SavedRecord(html: string, speed: int, color: string, updatedAt: string)

  /** The banner document schema every persisted record satisfies. */
  predicate WellFormedRecord(r: SavedRecord) {
    && 1 <= |r.html| <= MaxHtmlLength
    && !UnsafeHtml(r.html)
    && MinSpeed <= r.speed <= MaxSpeed
    && IsHexColor(r.color)
  }

  /** The html, speed and color checks pass (the checks that shape the record). */
  predicate PayloadFieldsValid(body: JsVal) {
    && HtmlCheck(OptionalMember(body, "html")).None?
    && SpeedCheck(OptionalMember(body, "speed")).None?
    && ColorCheck(OptionalMember(body, "color")).None?
  }

  /** The record composed from a validated body: the html as sent,
      `parseInt(speed, 10)`, the color as sent, and the server's timestamp. */
  function DataToSave(body: JsVal, updatedAt: string): (rec: SavedRecord)
    requires PayloadFieldsValid(body)
    ensures rec.html == OptionalMember(body, "html").s && rec.color == OptionalMember(body, "color").s
    ensures Some(rec.speed) == ParseIntValue(OptionalMember(body, "speed"))
    ensures rec.updatedAt == updatedAt
    ensures 1 <= |rec.html| <= MaxHtmlLength && MinSpeed <= rec.speed <= MaxSpeed && IsHexColor(rec.color)
  {
    SavedRecord(
      OptionalMember(body, "html").s,
      ParseIntValue(OptionalMember(body, "speed")).value,
      OptionalMember(body, "color").s,
      updatedAt)
  }

  /** Bodies that agree on html, speed and color give the same record: the
      access code and every other field are dropped. Saving one payload twice
      gives records that differ at most in `updatedAt`. */
  lemma RecordKeepsOnlyDocumentFields(b1: JsVal, b2: JsVal, t1: string, t2: string)
    requires PayloadFieldsValid(b1) && PayloadFieldsValid(b2)
    requires forall k :: k in ["html", "speed", "color"] ==> OptionalMember(b1, k) == OptionalMember(b2, k)
    ensures DataToSave(b1, t1).(updatedAt := t2) == DataToSave(b2, t2)
  {
    assert OptionalMember(b1, "html") == OptionalMember(b2, "html");
    assert OptionalMember(b1, "speed") == OptionalMember(b2, "speed");
    assert OptionalMember(b1, "color") == OptionalMember(b2, "color");
  }

  /** A request as the handler sees it; `body` is `None` when `req.json()`
      throws a SyntaxError. */
  datatype UpdateRequest = UpdateRequest(verb: string, body: Option<JsVal>)

  /** The environment: ACCESS_CODE and EDGE_CONFIG. */
  datatype UpdateEnv = UpdateEnv(accessCode: Option<string>, edgeConfig: Option<string>)

  /** An exception reaching the handler's `catch`. */
  datatype Thrown = Thrown(syntaxError: bool, message: string)

  /** What the REST write reports: success, or the exception it throws (no
      token, a rejected PATCH, an unreadable reply). */
  datatype WriteOutcome = WriteOk | WriteFailed(thrown: Thrown)

  /** The write the handler issues: the stringified record under `StoreKey`
      in the Edge Config named by `configId`. */
  datatype Write = Write(configId: string, key: string, record: SavedRecord)

  datatype UpdateResult = UpdateResult(response: Response, write: Option<Write>)

  /** The `catch` block: a SyntaxError, or any message mentioning JSON,
      reads as a bad body (400); anything else is a 500. */
  function Caught(t: Thrown): (r: Response)
    ensures r.status == 400 || r.status == 500
    ensures r.status == 400 <==> t.syntaxError || Contains(t.message, "JSON", false)
  {
    if t.syntaxError || Contains(t.message, "JSON", false) then
      Plain(400, Error("Invalid JSON in request body"))
    else
      Plain(500, InternalError("Une erreur est survenue lors de la sauvegarde"))
  }

  /** The TypeError of reading `data.html` on a `null` body. */
  const NullBodyError: Thrown := Thrown(false, "Cannot read " + "properties of null " + "(reading 'html')")

  /** The error `updateEdgeConfig` throws when no id can be extracted. */
  const NoConfigIdError: Thrown := Thrown(false, "Edge Config ID " + "non trouvé dans " + "EDGE_CONFIG")

  /** Neither error the handler raises itself mentions JSON, so both end
      in the 500 branch of the `catch`. */
  lemma ThrownMessagesAreNotJson()
    ensures !Contains(NullBodyError.message, "JSON", false)
    ensures !Contains(NoConfigIdError.message, "JSON", false)
  {
    NullBodyMessageLacksJ();
    AbsentChar(NullBodyError.message, "JSON", 0);
    NoConfigIdMessageLacksJ();
    AbsentChar(NoConfigIdError.message, "JSON", 0);
  }

  lemma NullBodyMessageLacksJ()
    ensures 'J' !in NullBodyError.message
  {
    assert 'J' !in "Cannot read ";
    assert 'J' !in "properties of null ";
    assert 'J' !in "(reading 'html')";
  }

  lemma NoConfigIdMessageLacksJ()
    ensures 'J' !in NoConfigIdError.message
  {
    assert 'J' !in "Edge Config ID ";
    assert 'J' !in "non trouvé dans ";
    assert 'J' !in "EDGE_CONFIG";
  }

  function Messages(errors: seq<FieldError>): (m: seq<string>)
    ensures |m| == |errors| && forall i :: 0 <= i < |errors| ==> m[i] == errors[i].Message()
  {
    if errors == [] then [] else [errors[0].Message()] + Messages(errors[1..])
  }

  /** The request passes every check up to the write: a parsed, non-null
      body whose four fields are valid and whose HTML is safe. */
  predicate Accepted(body: JsVal, env: UpdateEnv) {
    && !IsNullish(body)
    && PayloadFieldsValid(body)
    && AccessCodeCheck(OptionalMember(body, "accessCode"), env.accessCode).None?
    && !UnsafeHtml(OptionalMember(body, "html").s)
  }

  /** An empty error list is the same as every check passing. */
  lemma NoErrorsIffAllChecksPass(data: JsVal, secret: Option<string>)
    requires !IsNullish(data)
    ensures ValidationErrors(data, secret) == [] <==>
      PayloadFieldsValid(data) && AccessCodeCheck(OptionalMember(data, "accessCode"), secret).None?
  {
  }

  /** The part of the handler after the screen: the store configuration,
      the id, then the write. */
  function HandleAccepted(body: JsVal, env: UpdateEnv, now: string, outcome: WriteOutcome): (r: UpdateResult)
    requires Accepted(body, env)
    ensures !IsSet(env.edgeConfig) ==> r.response.status == 503 && r.write.None?
    ensures IsSet(env.edgeConfig) && EdgeConfigId(env.edgeConfig).None? ==> r.response.status == 500
    ensures r.write.Some? <==> IsSet(env.edgeConfig) && EdgeConfigId(env.edgeConfig).Some?
    ensures r.write.Some? ==> r.write.value == Write(EdgeConfigId(env.edgeConfig).value, StoreKey, DataToSave(body, now))
    ensures r.response.status == 200 <==> r.write.Some? && outcome == WriteOk
  {
    if !IsSet(env.edgeConfig) then
      UpdateResult(Plain(503, ErrorDetail("Edge Config non configuré",
        "La variable d'environnement EDGE_CONFIG doit être configurée")), None)
    else
      var record := DataToSave(body, now);
      match EdgeConfigId(env.edgeConfig)
      case None =>
        ThrownMessagesAreNotJson();
        UpdateResult(Caught(NoConfigIdError), None)
      case Some(id) =>
        var write := Write(id, StoreKey, record);
        match outcome
        case WriteOk => UpdateResult(Plain(200, Saved("Données mises à jour avec succès")), Some(write))
        case WriteFailed(t) => UpdateResult(Caught(t), Some(write))
  }

  /** The handler after the body has been parsed into a non-null value:
      validation, then the screen. */
  function HandleBody(body: JsVal, env: UpdateEnv, now: string, outcome: WriteOutcome): (r: UpdateResult)
    requires !IsNullish(body)
    ensures r.write.Some? ==>
      && Accepted(body, env) && IsSet(env.edgeConfig) && EdgeConfigId(env.edgeConfig).Some?
      && r.write.value == Write(EdgeConfigId(env.edgeConfig).value, StoreKey, DataToSave(body, now))
    ensures r.response.status == 200 <==> r.write.Some? && outcome == WriteOk
    ensures Accepted(body, env) ==> r == HandleAccepted(body, env, now, outcome)
  {
    var errors := ValidationErrors(body, env.accessCode);
    if errors != [] then
      UpdateResult(Plain(400, ErrorList("Validation failed", Messages(errors))), None)
    else
      var html := OptionalMember(body, "html").s;
      if UnsafeHtml(html) then
        UpdateResult(Plain(400, ErrorDetail("HTML sanitization failed", RejectionMessage)), None)
      else
        HandleAccepted(body, env, now, outcome)
  }

  /** The handler: 405 for any verb but POST; then the body; then validation
      (400, every message); then the screen (400); then the store
      configuration (503); only then the write, whose outcome decides
      between 200 and the `catch`. `now` is `new Date().toISOString()`. */
  function HandleUpdate(req: UpdateRequest, env: UpdateEnv, now: string, outcome: WriteOutcome): (r: UpdateResult)
    ensures req.verb != "POST" ==> r == UpdateResult(MethodNotAllowed("POST"), None)
    ensures r.write.Some? ==>
      && req.verb == "POST" && req.body.Some? && Accepted(req.body.value, env)
      && IsSet(env.edgeConfig) && EdgeConfigId(env.edgeConfig).Some?
      && r.write.value == Write(EdgeConfigId(env.edgeConfig).value, StoreKey, DataToSave(req.body.value, now))
    ensures r.write.Some? ==> WellFormedRecord(r.write.value.record)
    ensures r.response.status == 200 <==> r.write.Some? && outcome == WriteOk
    ensures req.verb == "POST" && req.body.None? ==> r == UpdateResult(Plain(400, Error("Invalid JSON in request body")), None)
    ensures req.verb == "POST" && req.body.Some? && IsNullish(req.body.value) ==> r.response.status == 500 && r.write.None?
    ensures req.verb == "POST" && req.body.Some? && !IsNullish(req.body.value) ==>
      r == HandleBody(req.body.value, env, now, outcome)
  {
    if req.verb != "POST" then UpdateResult(MethodNotAllowed("POST"), None)
    else if req.body.None? then UpdateResult(Caught(Thrown(true, "Unexpected token in JSON")), None)
    else if IsNullish(req.body.value) then
      ThrownMessagesAreNotJson();
      UpdateResult(Caught(NullBodyError), None)
    else HandleBody(req.body.value, env, now, outcome)
  }

  /** Validation comes first: a POST whose body fails any check gets 400
      with every message, whatever the HTML holds, whether the store is
      configured and whatever a write would do; nothing is written. */
  lemma ValidationFailureShortCircuits(body: JsVal, env: UpdateEnv, now: string, outcome: WriteOutcome)
    requires !IsNullish(body) && ValidationErrors(body, env.accessCode) != []
    ensures HandleUpdate(UpdateRequest("POST", Some(body)), env, now, outcome)
         == UpdateResult(Plain(400, ErrorList("Validation failed", Messages(ValidationErrors(body, env.accessCode)))), None)
  {
  }

  /** Without the right access code nothing is ever written and the answer
      is 400 or worse, never 200. */
  lemma WrongCodeNeverWrites(req: UpdateRequest, env: UpdateEnv, now: string, outcome: WriteOutcome)
    requires req.body.Some? ==> !(env.accessCode.Some? && OptionalMember(req.body.value, "accessCode") == Str(env.accessCode.value))
    ensures HandleUpdate(req, env, now, outcome).write.None?
    ensures HandleUpdate(req, env, now, outcome).response.status != 200
  {
    if req.verb == "POST" && req.body.Some? && !IsNullish(req.body.value) {
      var body := req.body.value;
      assert AccessCodeCheck(OptionalMember(body, "accessCode"), env.accessCode).Some?;
      assert ValidationErrors(body, env.accessCode) != [];
    }
  }

  /** The order of the later checks: an unsafe payload is refused before
      the store configuration is looked at, and a safe one with no store
      configured gets 503. */
  lemma ScreenBeforeConfiguration(body: JsVal, env: UpdateEnv, now: string, outcome: WriteOutcome)
    requires !IsNullish(body) && ValidationErrors(body, env.accessCode) == []
    ensures var r := HandleUpdate(UpdateRequest("POST", Some(body)), env, now, outcome);
      && (UnsafeHtml(OptionalMember(body, "html").s) ==>
            r == UpdateResult(Plain(400, ErrorDetail("HTML sanitization failed", RejectionMessage)), None))
      && (!UnsafeHtml(OptionalMember(body, "html").s) && !IsSet(env.edgeConfig) ==>
            r.response.status == 503 && r.write.None?)
  {
  }

  /** The converse of the screen: a POST whose body passes validation and
      the screen, sent to a configured store whose id can be read, is
      written, as the record composed from it, under the one key; it is
      answered 200 exactly when the write succeeds. */
  lemma AcceptedUpdateIsWritten(body: JsVal, env: UpdateEnv, now: string, outcome: WriteOutcome)
    requires Accepted(body, env) && IsSet(env.edgeConfig) && EdgeConfigId(env.edgeConfig).Some?
    ensures var r := HandleUpdate(UpdateRequest("POST", Some(body)), env, now, outcome);
      && r.write == Some(Write(EdgeConfigId(env.edgeConfig).value, StoreKey, DataToSave(body, now)))
      && WellFormedRecord(r.write.value.record)
      && (outcome == WriteOk ==> r.response == Plain(200, Saved("Données mises à jour avec succès")))
      && (outcome != WriteOk ==> r.response.status != 200)
  {
  }
}
