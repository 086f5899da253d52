/** The page script: the string pipeline that turns the editor's html into
    the scrolling line, the heuristic that upgrades banners saved in the
    old plain-text format when the page loads, the initial settings, and
    the page's mutable state (the fullscreen flag, the editor panel and
    its access code, and the one pending autosave per field) with the
    event handlers that update it. */
module ClientApp {
  import opened Text
  import opened JsValue
  import opened Bandeau
  import opened ClientApi

  // ---------------------------------------------------------------------
  // The scrolling line

  /** What the run-of-spaces replacement would insert between messages. */
  const Separator: string := "<span style=\"margin: 0 50px;\">***</span>"

  /** Steps 1 and 2: `<br>`, `<div>` and `<p>` become a space and the closing
      `</div>` and `</p>` disappear, each case-insensitive and in this order. */
  function FlattenBlocks(html: string): string {
    var breaks := ReplaceAll(html, "<br>", " ", true);
    var divs := ReplaceAll(ReplaceAll(breaks, "<div>", " ", true), "</div>", "", true);
    ReplaceAll(ReplaceAll(divs, "<p>", " ", true), "</p>", "", true)
  }

  /** Steps 3 and 4: every run of spaces collapsed to one, the ends
      trimmed, then every run of two or more spaces replaced by the
      separator. */
  function SingleSpaced(text: string): string {
    ReplaceSpaceRuns(Trim(CollapseSpaces(text)), Separator)
  }

  /** `prepareScrollContent` */
  function PrepareScrollContent(html: string): string {
    SingleSpaced(FlattenBlocks(html))
  }

  /** The prepared line has no space at either end and no two spaces in a
      row: it is the flattened text, collapsed and trimmed. */
  lemma PreparedLineIsTrimmed(html: string)
    ensures var r := PrepareScrollContent(html);
      && (r == [] || (!IsSpace(r[0]) && !IsSpace(r[|r| - 1])))
      && NoSpaceRun(r)
      && r == Trim(CollapseSpaces(FlattenBlocks(html)))
  {
    SingleSpacedIsTrimmed(FlattenBlocks(html));
  }

  /** The prepared line is trimmed and has no two adjacent spaces, so the
      last replacement never inserts the separator: the line is the
      collapsed, trimmed text itself. */
  lemma SingleSpacedIsTrimmed(text: string)
    ensures var r := SingleSpaced(text);
      && (r == [] || (!IsSpace(r[0]) && !IsSpace(r[|r| - 1])))
      && NoSpaceRun(r)
      && r == Trim(CollapseSpaces(text))
  {
    CollapseSpacesNoRun(text);
    ReplaceSpaceRunsIdle(Trim(CollapseSpaces(text)), Separator);
  }

  /** `updateScrollFromHtml`: the prepared line written twice in a row, so
      the animation can loop. */
  function ScrollContent(html: string): string {
    PrepareScrollContent(html) + PrepareScrollContent(html)
  }

  /** The scrolling content is two copies of the prepared line, and where
      they meet there is still no pair of spaces. */
  lemma ScrollContentIsTwoCopies(html: string)
    ensures var r := ScrollContent(html);
      && |r| == 2 * |PrepareScrollContent(html)|
      && r[..|r| / 2] == PrepareScrollContent(html) && r[|r| / 2..] == PrepareScrollContent(html)
      && NoSpaceRun(r)
  {
    var p := PrepareScrollContent(html);
    SingleSpacedIsTrimmed(FlattenBlocks(html));
    var r := p + p;
    forall k | 0 <= k < |r| - 1 ensures !(IsSpace(r[k]) && IsSpace(r[k + 1])) {
      if k == |p| - 1 {
        assert r[k] == p[|p| - 1] && r[k + 1] == p[0];
      } else if k < |p| - 1 {
        assert r[k] == p[k] && r[k + 1] == p[k + 1];
      } else {
        assert r[k] == p[k - |p|] && r[k + 1] == p[k - |p| + 1];
      }
    }
    assert r[..|r| / 2] == p && r[|r| / 2..] == p;
  }

  /** Html without any markup scrolls as its whitespace-normalised self:
      the block replacements have nothing to act on. */
  lemma PlainTextScrollsAsItself(text: string)
    requires '<' !in text
    ensures PrepareScrollContent(text) == Trim(CollapseSpaces(text))
  {
    TagFreeIsKept(text, "<br>", " ");
    TagFreeIsKept(text, "<div>", " ");
    TagFreeIsKept(text, "</div>", "");
    TagFreeIsKept(text, "<p>", " ");
    TagFreeIsKept(text, "</p>", "");
    SingleSpacedIsTrimmed(text);
  }

  /** A case-insensitive replacement of a tag leaves a text without `<`
      alone. */
  lemma TagFreeIsKept(text: string, lit: string, rep: string)
    requires '<' !in text && |lit| > 0 && lit[0] == '<'
    ensures ReplaceAll(text, lit, rep, true) == text
  {
    AbsentSymbol(text, lit, 0, true);
    ReplaceAllAbsent(text, lit, rep, true);
  }

  // ---------------------------------------------------------------------
  // Upgrading the old format on load

  function OpenTag(tag: string): string { "<" + tag + ">" }

  function CloseTag(tag: string): string { "</" + tag + ">" }

  function SpanOpen(cls: string): string { "<span class=\"" + cls + "\">" }

  const SpanClose: string := "</span>"

  /** `lit` occurs in `s` at `i`, case-sensitively. */
  predicate OccursAt(s: string, i: nat, lit: string) {
    i + |lit| <= |s| && s[i..i + |lit|] == lit
  }

  /** Where the lazy `(.*?)` of a tag pattern stops: the first index at or
      after `from` where `close` occurs, provided no line terminator (which
      `.` does not match) comes before it. */
  function CloseAt(s: string, from: nat, close: string): (r: Option<nat>)
    decreases |s| - from
    ensures r.Some? ==> from <= r.value && r.value + |close| <= |s|
  {
    if OccursAt(s, from, close) then Some(from)
    else if from < |s| && !IsLineTerminator(s[from]) then CloseAt(s, from + 1, close)
    else None
  }

  /** What `CloseAt` finds is an occurrence of `close` with no line
      terminator and no earlier occurrence between `from` and it. */
  lemma {:induction false} CloseAtIsLazyMatch(s: string, from: nat, close: string)
    requires CloseAt(s, from, close).Some?
    ensures var j := CloseAt(s, from, close).value;
      && OccursAt(s, j, close)
      && forall k :: from <= k < j ==> !IsLineTerminator(s[k]) && !OccursAt(s, k, close)
    decreases |s| - from
  {
    if !OccursAt(s, from, close) {
      CloseAtIsLazyMatch(s, from + 1, close);
    }
  }

  /** `s.replace(/<tag>(.*?)<\/tag>/g, '<span class="cls">$1</span>')`: scanning
      left to right, an opening tag with a closing tag later on the same
      line becomes the span around the text between them; anything else is
      kept as it is. */
  function ReplaceTag(s: string, tag: string, cls: string): string
    decreases |s|
  {
    if s == [] then []
    else if OccursAt(s, 0, OpenTag(tag)) && CloseAt(s, |OpenTag(tag)|, CloseTag(tag)).Some? then
      var j := CloseAt(s, |OpenTag(tag)|, CloseTag(tag)).value;
      SpanOpen(cls) + s[|OpenTag(tag)|..j] + SpanClose + ReplaceTag(s[j + |CloseTag(tag)|..], tag, cls)
    else [s[0]] + ReplaceTag(s[1..], tag, cls)
  }

  /** The old-format upgrade: check marks become the SVG, blank lines become
      two `<br>`, and the three colour tags become the matching status
      spans, in this order. No check mark is left: each becomes the SVG,
      and no later step writes one. */
  function Migrate(s: string): (r: string)
    ensures Checkmark !in r
  {
    CheckmarkIsNotInSvg();
    CheckmarkIsNotInSpans();
    var marks := ReplaceAll(s, [Checkmark], CheckmarkSvg, false);
    ReplaceAllRemovesChar(s, Checkmark, CheckmarkSvg);
    var breaks := ReplaceAll(marks, "\n\n", "<br><br>", false);
    ReplaceAllKeepsAbsent(marks, "\n\n", "<br><br>", false, Checkmark);
    var red := ReplaceTag(breaks, "c-red", "status-red");
    ReplaceTagKeepsAbsent(breaks, "c-red", "status-red", Checkmark);
    var yellow := ReplaceTag(red, "c-yellow", "status-yellow");
    ReplaceTagKeepsAbsent(red, "c-yellow", "status-yellow", Checkmark);
    ReplaceTagKeepsAbsent(yellow, "c-blue", "status-blue", Checkmark);
    ReplaceTag(yellow, "c-blue", "status-blue")
  }

  /** The html the editor starts with, from the loaded data: `data.html ||
      ''`; a non-empty string without `span` is upgraded, one with `span`
      is kept, an empty one is replaced by the default announcement. `None`
      is the TypeError that stops the page's start-up: reading `html` of a
      `null` answer, or calling `includes` on a truthy html that is not a
      string. */
  function InitialHtml(data: JsVal): (r: Option<string>)
    ensures r.None? <==> Member(data, "html").None? || (Truthy(Member(data, "html").value) && !Member(data, "html").value.Str?)
    ensures r.Some? && !Truthy(Member(data, "html").value) ==> r.value == DefaultMessagesHtml
    ensures r.Some? && Truthy(Member(data, "html").value) ==>
      var s := Member(data, "html").value.s;
      r.value == if Contains(s, "span", false) then s else Migrate(s)
  {
    match Member(data, "html")
    case None => None
    case Some(h) =>
      var toLoad := Or(h, Str(""));
      if !Truthy(toLoad) then Some(DefaultMessagesHtml)
      else if !toLoad.Str? then None
      else if Contains(toLoad.s, "span", false) then Some(toLoad.s)
      else Some(Migrate(toLoad.s))
  }

  /** `data.speed || 5` and `data.color || '#FFFFFF'`: a truthy stored
      value is used as it is, anything else gives the default, so the
      setting is never falsy. */
  function InitialSetting(data: JsVal, key: string, default: JsVal): (r: JsVal)
    requires Truthy(default)
    ensures Truthy(r)
    ensures Truthy(OptionalMember(data, key)) ==> r == OptionalMember(data, key)
    ensures !Truthy(OptionalMember(data, key)) ==> r == default
  {
    OrTruthy(OptionalMember(data, key), default);
    Or(OptionalMember(data, key), default)
  }

  function InitialSpeed(data: JsVal): (r: JsVal)
    ensures Truthy(r)
    ensures r == if Truthy(OptionalMember(data, "speed")) then OptionalMember(data, "speed") else Num(DefaultSpeed)
  {
    InitialSetting(data, "speed", Num(DefaultSpeed))
  }

  function InitialColor(data: JsVal): (r: JsVal)
    ensures Truthy(r)
    ensures r == if Truthy(OptionalMember(data, "color")) then OptionalMember(data, "color") else Str(DefaultColor)
  {
    InitialSetting(data, "color", Str(DefaultColor))
  }

  /** An html that already holds a span is loaded unchanged. */
  lemma SpanHtmlIsKept(data: JsVal, s: string)
    requires Member(data, "html") == Some(Str(s)) && Contains(s, "span", false)
    ensures InitialHtml(data) == Some(s)
  {
  }

  /** An empty or missing html loads the default announcement. */
  lemma EmptyHtmlLoadsDefault(data: JsVal)
    requires !IsNullish(data) && !Truthy(OptionalMember(data, "html"))
    ensures InitialHtml(data) == Some(DefaultMessagesHtml)
  {
  }

  /** A `null` answer, or an html that is a number or an object, stops the
      start-up. */
  lemma FaultyDataStopsStartup(data: JsVal)
    requires data.Null? || (data.Obj? && "html" in data.fields && Truthy(data.fields["html"]) && !data.fields["html"].Str?)
    ensures InitialHtml(data).None?
  {
  }

  /** `close` occurs at `j` and nothing before it from `from` on is a line
      terminator or another occurrence: the lazy match ends at `j`. */
  lemma {:induction false} CloseAtFinds(s: string, from: nat, j: nat, close: string)
    requires from <= j && OccursAt(s, j, close)
    requires forall k :: from <= k < j ==> !IsLineTerminator(s[k]) && !OccursAt(s, k, close)
    ensures CloseAt(s, from, close) == Some(j)
    decreases j - from
  {
    if from < j {
      CloseAtFinds(s, from + 1, j, close);
    }
  }

  /** A line terminator reached before any occurrence of `close` makes the
      lazy match fail. */
  lemma {:induction false} CloseAtStopsAtLineEnd(s: string, from: nat, j: nat, close: string)
    requires from <= j < |s| && IsLineTerminator(s[j])
    requires forall k :: from <= k <= j ==> !OccursAt(s, k, close)
    ensures CloseAt(s, from, close).None?
    decreases j - from
  {
    if from < j {
      CloseAtStopsAtLineEnd(s, from + 1, j, close);
    }
  }

  /** No occurrence of a closing tag starts on a character other than `<`. */
  lemma NoCloseWithoutBracket(s: string, k: nat, tag: string)
    requires k < |s| && s[k] != '<'
    ensures !OccursAt(s, k, CloseTag(tag))
  {
    assert CloseTag(tag)[0] == '<';
  }

  /** A tagged text on one line, without markup inside, becomes the status
      span around that text; what follows is processed on its own. */
  lemma TaggedTextBecomesSpan(tag: string, cls: string, t: string, rest: string)
    requires '<' !in t && forall k :: 0 <= k < |t| ==> !IsLineTerminator(t[k])
    ensures ReplaceTag(OpenTag(tag) + t + CloseTag(tag) + rest, tag, cls)
         == SpanOpen(cls) + t + SpanClose + ReplaceTag(rest, tag, cls)
  {
    var o, c := OpenTag(tag), CloseTag(tag);
    var s := o + t + c + rest;
    var j := |o| + |t|;
    TaggedTextCloses(tag, t, rest);
    assert s[0..|o|] == o;
    ReplaceTagAtMatch(s, tag, cls, j);
    assert s[|o|..j] == t;
    assert s[j + |c|..] == rest;
  }

  /** An opening tag whose lazy match ends at `j` is replaced by the span. */
  lemma ReplaceTagAtMatch(s: string, tag: string, cls: string, j: nat)
    requires OccursAt(s, 0, OpenTag(tag)) && CloseAt(s, |OpenTag(tag)|, CloseTag(tag)) == Some(j)
    ensures j + |CloseTag(tag)| <= |s|
    ensures ReplaceTag(s, tag, cls)
         == SpanOpen(cls) + s[|OpenTag(tag)|..j] + SpanClose + ReplaceTag(s[j + |CloseTag(tag)|..], tag, cls)
  {
  }

  /** In a tagged text without markup, the lazy match ends at the closing
      tag. */
  lemma TaggedTextCloses(tag: string, t: string, rest: string)
    requires '<' !in t && forall k :: 0 <= k < |t| ==> !IsLineTerminator(t[k])
    ensures CloseAt(OpenTag(tag) + t + CloseTag(tag) + rest, |OpenTag(tag)|, CloseTag(tag))
         == Some(|OpenTag(tag)| + |t|)
  {
    var o, c := OpenTag(tag), CloseTag(tag);
    var s := o + t + c + rest;
    assert s[|o|..|o| + |t|] == t;
    assert s[|o| + |t|..|o| + |t| + |c|] == c;
    CloseAfterPlainText(s, |o|, t, c);
  }

  /** From `from` on, `s` reads `t` and then `close`; a `t` without `<` and
      without a line terminator cannot hold the closing tag, so the lazy
      match ends right after it. */
  lemma {:induction false} CloseAfterPlainText(s: string, from: nat, t: string, close: string)
    requires |close| > 0 && close[0] == '<'
    requires from + |t| + |close| <= |s|
    requires s[from..from + |t|] == t && s[from + |t|..from + |t| + |close|] == close
    requires '<' !in t && forall k :: 0 <= k < |t| ==> !IsLineTerminator(t[k])
    ensures CloseAt(s, from, close) == Some(from + |t|)
    decreases |t|
  {
    if t == [] {
      assert OccursAt(s, from, close);
    } else {
      assert s[from] == t[0];
      assert s[from + 1..from + 1 + |t[1..]|] == t[1..];
      CloseAfterPlainText(s, from + 1, t[1..], close);
    }
  }

  /** An opening tag whose text runs into a line break before any closing
      tag is kept as text: the scan moves on by one character. */
  lemma TagAcrossLinesIsKept(tag: string, cls: string, t: string, m: nat, rest: string)
    requires '<' !in t && m < |t| && IsLineTerminator(t[m])
    ensures var s := OpenTag(tag) + t + rest;
      ReplaceTag(s, tag, cls) == [s[0]] + ReplaceTag(s[1..], tag, cls)
  {
    var o, c := OpenTag(tag), CloseTag(tag);
    var s := o + t + rest;
    var j := |o| + m;
    assert s[j] == t[m];
    forall k | |o| <= k <= j ensures !OccursAt(s, k, c) {
      assert s[k] == t[k - |o|];
      assert t[k - |o|] in t;
      NoCloseWithoutBracket(s, k, tag);
    }
    CloseAtStopsAtLineEnd(s, |o|, j, c);
  }

  lemma CheckmarkIsNotInSpans()
    ensures Checkmark !in "<br><br>" && Checkmark !in SpanClose
    ensures Checkmark !in SpanOpen("status-red") && Checkmark !in SpanOpen("status-yellow")
    ensures Checkmark !in SpanOpen("status-blue")
  {
    assert Checkmark !in "<span class=\"" && Checkmark !in "\">";
  }

  /** A tag replacement writes no character that is neither in the text nor
      in the span it builds. */
  lemma {:induction false} ReplaceTagKeepsAbsent(s: string, tag: string, cls: string, c: char)
    requires c !in s && c !in SpanOpen(cls) && c !in SpanClose
    ensures c !in ReplaceTag(s, tag, cls)
    decreases |s|
  {
    if s != [] {
      var o, cl := OpenTag(tag), CloseTag(tag);
      if OccursAt(s, 0, o) && CloseAt(s, |o|, cl).Some? {
        var j := CloseAt(s, |o|, cl).value;
        var mid, rest := s[|o|..j], s[j + |cl|..];
        AbsentFromSlice(s, |o|, j, c);
        AbsentFromSlice(s, j + |cl|, |s|, c);
        ReplaceTagKeepsAbsent(rest, tag, cls, c);
        assert ReplaceTag(s, tag, cls) == SpanOpen(cls) + mid + SpanClose + ReplaceTag(rest, tag, cls);
      } else {
        var rest := s[1..];
        AbsentFromSlice(s, 1, |s|, c);
        ReplaceTagKeepsAbsent(rest, tag, cls, c);
        assert ReplaceTag(s, tag, cls) == [s[0]] + ReplaceTag(rest, tag, cls);
      }
    }
  }

  lemma AbsentFromSlice(s: string, i: nat, j: nat, c: char)
    requires i <= j <= |s| && c !in s
    ensures c !in s[i..j]
  {
    assert forall k :: 0 <= k < j - i ==> s[i..j][k] == s[i + k];
  }

  // ---------------------------------------------------------------------
  // Notifications after a save

  datatype Notice = SuccessNotice | WarningNotice | ErrorNotice

  /** The notice of the update button, the reset button and the keyboard
      shortcut: success when `result.success`, a warning when
      `result.localOnly`, an error otherwise. The save answers a boolean,
      whose `success` and `localOnly` are both `undefined`, so every save,
      whether the server took it or not, ends with the error notice. */
  function SaveNotice(saved: bool): (r: Notice)
    ensures r == ErrorNotice
  {
    var result := Bool(saved);
    if Truthy(OptionalMember(result, "success")) then SuccessNotice
    else if Truthy(OptionalMember(result, "localOnly")) then WarningNotice
    else ErrorNotice
  }

  /** The notice of an autosave: success when `result.success`, an error
      unless `result.localOnly`. For the same reason every autosave reports
      an error. */
  function AutosaveNotice(saved: bool): (r: Option<Notice>)
    ensures r == Some(ErrorNotice)
  {
    var result := Bool(saved);
    if Truthy(OptionalMember(result, "success")) then Some(SuccessNotice)
    else if !Truthy(OptionalMember(result, "localOnly")) then Some(ErrorNotice)
    else None
  }

  // ---------------------------------------------------------------------
  // Debounced autosave

  /** One input event on a debounced field: with a truthy access code the
      pending timer is cleared and re-armed with the new value; without
      one nothing is scheduled and the slot is left alone. */
  function Debounce<T>(pending: Option<T>, armed: bool, value: T): Option<T> {
    if armed then Some(value) else pending
  }

  /** The slot after a series of inputs. */
  function AfterInputs<T>(pending: Option<T>, armed: bool, values: seq<T>): Option<T>
    decreases |values|
  {
    if values == [] then pending
    else AfterInputs(Debounce(pending, armed, values[0]), armed, values[1..])
  }

  /** With the code set, a burst of inputs leaves exactly one pending save,
      carrying the last value. */
  lemma {:induction false} DebounceKeepsLatest<T>(pending: Option<T>, values: seq<T>)
    requires values != []
    ensures AfterInputs(pending, true, values) == Some(values[|values| - 1])
    decreases |values|
  {
    if |values| > 1 {
      DebounceKeepsLatest(Some(values[0]), values[1..]);
    }
  }

  /** Without the code, inputs schedule nothing. */
  lemma {:induction false} DebounceIdleWithoutCode<T>(pending: Option<T>, values: seq<T>)
    ensures AfterInputs(pending, false, values) == pending
    decreases |values|
  {
    if values != [] {
      DebounceIdleWithoutCode(pending, values[1..]);
    }
  }

  /** The access code a save sends: the current code, or `''`. */
  function SentCode(accessCode: Option<string>): string {
    if ItemTruthy(accessCode) then accessCode.value else ""
  }

  // ---------------------------------------------------------------------
  // The page's state

  /** The module-level state of the page and the controls its handlers
      read: the editor's html, the speed slider's text and the colour
      picker's value. A pending slot holds the value its armed timer will
      save; `None` is no timer. */
  class EditorSession {
    var panelVisible: bool
    var accessCode: Option<string>
    var fullscreen: bool
    var pendingSpeed: Option<JsVal>
    var pendingColor: Option<string>
    var editorHtml: string
    var speedSetting: string
    var colorValue: string
    var scroll: string

    /** A timer is armed only once a code has been entered, and the code
        is never cleared afterwards. */
    predicate Valid()
      reads this
    {
      (pendingSpeed.Some? || pendingColor.Some?) ==> ItemTruthy(accessCode)
    }

    /** The state once start-up has filled the controls: the panel hidden,
        no code, not in fullscreen, no timer. */
    constructor(html: string, speed: JsVal, color: string)
      ensures Valid()
      ensures !panelVisible && accessCode.None? && !fullscreen
      ensures pendingSpeed.None? && pendingColor.None?
      ensures editorHtml == html && speedSetting == ToJsString(speed) && colorValue == color
      ensures scroll == ScrollContent(html)
    {
      panelVisible := false;
      accessCode := None;
      fullscreen := false;
      pendingSpeed := None;
      pendingColor := None;
      editorHtml := html;
      speedSetting := ToJsString(speed);
      colorValue := color;
      scroll := ScrollContent(html);
    }

    /** The fullscreen button: enter when out, leave when in. */
    method ToggleFullscreen()
      modifies this`fullscreen
      ensures fullscreen == !old(fullscreen)
    {
      if fullscreen {
        fullscreen := false;
      } else {
        fullscreen := true;
      }
    }

    /** The editor button. Showing the panel asks for the code (`answer`,
        `None` when the prompt is cancelled): a non-empty answer becomes the
        code and opens the panel, anything else leaves both as they were.
        Hiding the panel keeps the code. */
    method ToggleEditorPanel(answer: Option<string>)
      requires Valid()
      modifies this`panelVisible, this`accessCode
      ensures Valid()
      ensures old(panelVisible) ==> !panelVisible && accessCode == old(accessCode)
      ensures !old(panelVisible) && ItemTruthy(answer) ==> panelVisible && accessCode == answer
      ensures !old(panelVisible) && !ItemTruthy(answer) ==> !panelVisible && accessCode == old(accessCode)
    {
      if !panelVisible {
        if !ItemTruthy(answer) {
          return;
        }
        accessCode := answer;
        panelVisible := true;
      } else {
        panelVisible := false;
      }
    }

    /** Typing in the editor. */
    method EditHtml(html: string)
      modifies this`editorHtml
      ensures editorHtml == html
    {
      editorHtml := html;
    }

    /** A speed slider input: the slider now reads `text`; with a code, the
        pending speed save is replaced by one for `parseInt(text, 10)`. */
    method SpeedInput(text: string)
      requires Valid()
      modifies this`speedSetting, this`pendingSpeed
      ensures Valid()
      ensures speedSetting == text
      ensures pendingSpeed == Debounce(old(pendingSpeed), ItemTruthy(accessCode), NumberOf(ParseInt10(text)))
    {
      speedSetting := text;
      var val := NumberOf(ParseInt10(text));
      if ItemTruthy(accessCode) {
        pendingSpeed := Some(val);
      }
    }

    /** A colour picker input: likewise for the colour. */
    method ColorInput(value: string)
      requires Valid()
      modifies this`colorValue, this`pendingColor
      ensures Valid()
      ensures colorValue == value
      ensures pendingColor == Debounce(old(pendingColor), ItemTruthy(accessCode), value)
    {
      colorValue := value;
      if ItemTruthy(accessCode) {
        pendingColor := Some(value);
      }
    }

    /** The speed timer fires: it saves the speed it captured with the html,
        colour and code of the moment, and the slot empties. The code sent
        is never empty. */
    method FireSpeedSave(client: BandeauClient, outcome: FetchOutcome)
      returns (notice: Option<Notice>, request: SaveRequest)
      requires Valid() && pendingSpeed.Some?
      modifies this`pendingSpeed, client
      ensures Valid() && pendingSpeed.None?
      ensures request == SaveRequest(editorHtml, old(pendingSpeed).value, colorValue, accessCode.value)
      ensures request.accessCode != ""
      ensures client.storage == AfterSave(old(client.storage), editorHtml, old(pendingSpeed).value, colorValue)
      ensures notice == Some(ErrorNotice)
    {
      var saved;
      saved, request := client.SaveBandeauData(editorHtml, pendingSpeed.value, colorValue, accessCode, outcome);
      pendingSpeed := None;
      notice := AutosaveNotice(saved);
    }

    /** The colour timer fires: the colour it captured, with the html, the
        slider's speed and the code of the moment. */
    method FireColorSave(client: BandeauClient, outcome: FetchOutcome)
      returns (notice: Option<Notice>, request: SaveRequest)
      requires Valid() && pendingColor.Some?
      modifies this`pendingColor, client
      ensures Valid() && pendingColor.None?
      ensures request == SaveRequest(editorHtml, NumberOf(ParseInt10(speedSetting)), old(pendingColor).value, accessCode.value)
      ensures request.accessCode != ""
      ensures client.storage
           == AfterSave(old(client.storage), editorHtml, NumberOf(ParseInt10(speedSetting)), old(pendingColor).value)
      ensures notice == Some(ErrorNotice)
    {
      var saved;
      var speed := NumberOf(ParseInt10(speedSetting));
      saved, request := client.SaveBandeauData(editorHtml, speed, pendingColor.value, accessCode, outcome);
      pendingColor := None;
      notice := AutosaveNotice(saved);
    }

    /** What the update button, the reset button and Ctrl+Enter share: the
        scrolling line is rebuilt from the editor, and the editor's html,
        `speed` and the picker's colour are saved with the code, or `''`
        before any code was entered. Pending timers are left armed. */
    method Publish(speed: JsVal, client: BandeauClient, outcome: FetchOutcome)
      returns (notice: Notice, request: SaveRequest)
      requires Valid()
      modifies this`scroll, client
      ensures Valid()
      ensures scroll == ScrollContent(editorHtml)
      ensures request == SaveRequest(editorHtml, speed, colorValue, SentCode(accessCode))
      ensures client.storage == AfterSave(old(client.storage), editorHtml, speed, colorValue)
      ensures notice == ErrorNotice
    {
      scroll := ScrollContent(editorHtml);
      var saved;
      saved, request := client.SaveBandeauData(editorHtml, speed, colorValue, accessCode, outcome);
      notice := SaveNotice(saved);
    }

    /** The update button: the slider's speed, read by `parseInt`. */
    method Update(client: BandeauClient, outcome: FetchOutcome)
      returns (notice: Notice, request: SaveRequest)
      requires Valid()
      modifies this`scroll, client
      ensures Valid()
      ensures scroll == ScrollContent(editorHtml)
      ensures request == SaveRequest(editorHtml, NumberOf(ParseInt10(speedSetting)), colorValue, SentCode(accessCode))
      ensures client.storage == AfterSave(old(client.storage), editorHtml, NumberOf(ParseInt10(speedSetting)), colorValue)
      ensures notice == ErrorNotice
    {
      notice, request := Publish(NumberOf(ParseInt10(speedSetting)), client, outcome);
    }

    /** Filling the three controls. */
    method SetControls(html: string, speedText: string, color: string)
      requires Valid()
      modifies this`editorHtml, this`speedSetting, this`colorValue
      ensures Valid()
      ensures editorHtml == html && speedSetting == speedText && colorValue == color
    {
      editorHtml := html;
      speedSetting := speedText;
      colorValue := color;
    }

    /** The reset button: the controls and the scrolling line go back to the
        defaults, which are then saved with the number 5. */
    method Reset(client: BandeauClient, outcome: FetchOutcome)
      returns (notice: Notice, request: SaveRequest)
      requires Valid()
      modifies this`editorHtml, this`speedSetting, this`colorValue, this`scroll, client
      ensures Valid()
      ensures editorHtml == DefaultMessagesHtml && speedSetting == "5" && colorValue == DefaultColor
      ensures scroll == ScrollContent(editorHtml)
      ensures request == SaveRequest(editorHtml, Num(DefaultSpeed), colorValue, SentCode(accessCode))
      ensures client.storage == AfterSave(old(client.storage), editorHtml, Num(DefaultSpeed), colorValue)
      ensures notice == ErrorNotice
    {
      SetControls(DefaultMessagesHtml, "5", DefaultColor);
      notice, request := Publish(Num(DefaultSpeed), client, outcome);
    }

    /** A key press, seen by both keyboard listeners: Ctrl+Enter (or
        Meta+Enter) saves as the update button does; Escape leaves
        fullscreen, and does nothing when not in fullscreen. The save's
        notice is shown only for the shortcut. */
    method KeyDown(key: string, ctrlOrMeta: bool, client: BandeauClient, outcome: FetchOutcome)
      returns (notice: Option<Notice>, request: Option<SaveRequest>)
      requires Valid()
      modifies this`scroll, this`fullscreen, client
      ensures Valid()
      ensures fullscreen == (old(fullscreen) && key != "Escape")
      ensures request.Some? <==> ctrlOrMeta && key == "Enter"
      ensures notice == if ctrlOrMeta && key == "Enter" then Some(ErrorNotice) else None
      ensures request.Some? ==>
        request.value == SaveRequest(editorHtml, NumberOf(ParseInt10(speedSetting)), colorValue, SentCode(accessCode))
      ensures request.Some? ==>
        && scroll == ScrollContent(editorHtml)
        && client.storage == AfterSave(old(client.storage), editorHtml, NumberOf(ParseInt10(speedSetting)), colorValue)
      ensures request.None? ==> scroll == old(scroll) && client.storage == old(client.storage)
    {
      notice, request := None, None;
      if ctrlOrMeta && key == "Enter" {
        var shown, sent := Update(client, outcome);
        notice, request := Some(shown), Some(sent);
      }
      if key == "Escape" && fullscreen {
        fullscreen := false;
      }
    }
  }

  /** Start-up once the data is loaded: the editor takes the upgraded
      html, the slider the speed `data.speed || 5` and the picker the
      color `data.color || '#FFFFFF'`, each as the control's text. */
  method StartSession(data: JsVal) returns (page: EditorSession)
    requires InitialHtml(data).Some?
    ensures fresh(page) && page.Valid()
    ensures page.editorHtml == InitialHtml(data).value && page.scroll == ScrollContent(page.editorHtml)
    ensures page.speedSetting == ToJsString(InitialSpeed(data))
    ensures page.colorValue == ToJsString(InitialColor(data))
    ensures !page.panelVisible && page.accessCode.None? && !page.fullscreen
  {
    page := new EditorSession(InitialHtml(data).value, InitialSpeed(data), ToJsString(InitialColor(data)));
  }

  /** Two presses of the fullscreen button bring the flag back. */
  method FullscreenRoundTrip(page: EditorSession)
    modifies page`fullscreen
    ensures page.fullscreen == old(page.fullscreen)
  {
    page.ToggleFullscreen();
    page.ToggleFullscreen();
  }
}
