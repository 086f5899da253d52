# Bandeau — a Dafny model

Bandeau is a small web app that shows a scrolling announcement banner, the
kind of status line a control room keeps on a wall screen. An editor, guarded
by a shared access code, writes the banner: its html, its scroll duration in
seconds and its text color. The server side is four endpoints on a serverless
platform:

- `update-bandeau` validates, screens and stores a banner;
- `upload-image` validates and stores an image;
- `get-bandeau` serves the banner, or defaults;
- `check-updates` answers a freshness time stamp.

The page side loads and saves the banner through the endpoints, keeping a
copy in the browser's local storage. It prepares the html for the scroll
line, upgrades older stored formats, and autosaves the speed and color
controls after a pause.

This project models those parts and proves what they promise:

- **Server handlers.** Each handler is a pure function from an abstract
  request, the environment (`ACCESS_CODE`, `EDGE_CONFIG`), the store's answers
  and the clock to a `Response` value. A `Response` holds the status, the
  `Allow` and `Cache-Control` headers and one constructor per JSON body shape.
- **Imperative code.** The writer's `validateData` (a sequence of pushes,
  one per check) and `sanitizeHTML` (a loop trying each pattern) are methods
  proved against specification functions, and so is the upload's
  `validateFile` (three guarded pushes).
- **Local storage.** The client's storage is a class over a
  `map<string, string>`. Its load and save are methods proved against the
  load ladder and the save's three writes.
- **Page state.** The state the page keeps at module level is a class: the
  fullscreen flag, the editor panel, the access code, the editor and control
  values, the scroll content and the two pending autosave slots. Its event
  handlers are methods.
- **JavaScript semantics.** Values are a small `JsVal` datatype, with
  truthiness, `||`, property access (a TypeError on `null`/`undefined`),
  `String()` and `parseInt(_, 10)` written out. Numbers are integers plus
  `NaN`.
- **Regular expressions.** Each one the code uses is a hand-written matcher
  with a lemma tying it to its declarative meaning. This covers:
  - the deny-list patterns;
  - `ecfg_[a-zA-Z0-9]+`;
  - `\.([^.]+)$`;
  - the lazy `<c-red>(.*?)<\/c-red>` (which stops at a line terminator);
  - `\s+` and `\s\s+`: a maximal run of whitespace, between text that
    does not end and text that does not start with whitespace, becomes one
    space (respectively `sep` when it is two or more long), and every other
    character stays in its place.

Inputs the code reads from outside are parameters:

- the clock (`new Date().toISOString()`, `Date.now()`);
- `Math.random()`'s base-36 text;
- the body and form parsers (`None` is a parse failure);
- `JSON.parse` of a stored string;
- every `fetch` and store answer;
- the editor's `prompt` answer.

The two writes (the Edge Config PATCH and the blob `put`) are returned as
values describing the write attempted. Their outcome is an input.

Files:

- `text.dfy`: character classes, literal search and replace, whitespace runs, decimal text and `parseInt`.
- `js_value.dfy`: the value model.
- `http.dfy`: response shapes, and the defaults and SVG shared by server and page.
- `update_bandeau.dfy`, `upload_image.dfy`, `get_bandeau.dfy`, `check_updates.dfy`: the four endpoints.
- `client_api.dfy`: the page's data layer.
- `client_app.dfy`: the page script.
- `consistency.dfy`: how the writer's record is seen by the readers, and how the page's save is seen by the writer.

## Model

| member | source | states |
|---|---|---|
| Text.IndexFrom | api/upload-image.js:56-62 | `includes`: the position found is the leftmost occurrence at or after the start, and none exists when it finds none |
| Text.ContainsIff | public/js/app.js:226 | the executable substring test holds exactly when the literal occurs at some position |
| Text.ReplaceAllAbsent | public/js/app.js:87-91 | a global replace of a literal that does not occur returns the text unchanged |
| Text.ReplaceAllRemovesChar | public/js/app.js:227 | after replacing every occurrence of a character by text without it, the character is gone |
| Text.ReplaceAllKeepsAbsent | public/js/app.js:227 | a global replace introduces no character that is in neither the text nor the replacement |
| Text.Trim | public/js/app.js:98 | `trim()` leaves no whitespace at either end and keeps a text free of whitespace pairs free of them |
| Text.TrimKeepsMiddle | public/js/app.js:98 | `trim()` removes only the edges: the result is the slice of the text right after its leading whitespace, and only whitespace follows that slice |
| Text.CollapseSpacesOfConcat | public/js/app.js:94 | `replace(/\s+/g, ' ')` of two texts cut where no whitespace run is split is the two replacements laid end to end |
| Text.CollapseSpacesOfRun | public/js/app.js:94 | a maximal whitespace run becomes a single space, the text on either side being replaced independently |
| Text.CollapseSpacesKeepsChar | public/js/app.js:94 | a character that is not whitespace is kept in its place |
| Text.CollapseSpacesNoRun | public/js/app.js:94 | after `replace(/\s+/g, ' ')` no two whitespace characters are adjacent; the result is empty exactly when the input is, and starts with whitespace exactly when the input does |
| Text.ReplaceSpaceRunsIdle | public/js/app.js:98 | `replace(/\s\s+/g, sep)` on a text without a whitespace pair returns it unchanged |
| Text.ReplaceSpaceRunsOfConcat | public/js/app.js:98 | `replace(/\s\s+/g, sep)` of two texts cut where no whitespace run is split is the two replacements laid end to end |
| Text.ReplaceSpaceRunsOfRun | public/js/app.js:98 | a maximal whitespace run of two or more characters becomes `sep`; a lone whitespace character is kept |
| Text.ReplaceSpaceRunsKeepsChar | public/js/app.js:98 | a character that is not whitespace is kept in its place |
| Text.NatToString | api/upload-image.js:71-73 | a number's decimal text is non-empty and all digits |
| Text.NatToStringInjective | api/upload-image.js:71-73 | different timestamps have different decimal texts |
| Text.ParseIntOfIntToString | public/js/api.js:47 | `parseInt(String(n), 10)` gives `n` back, negative numbers included |
| Text.ParseIntReadsIff | api/update-bandeau.js:138 | after its leading whitespace, `parseInt` reads a number exactly when a digit comes first or right after one `+` or `-`; only a `-` gives a negative number |
| Text.ParseIntReadsDigitPrefix | api/update-bandeau.js:138 | `parseInt` reads the leading digits and ignores what follows a non-digit |
| Text.Substring | api/upload-image.js:72 | `substring(start, end)` is the slice when in range and never longer than `end - start` |
| JsValue.OrTruthy | api/get-bandeau.js:90-92 | the or-operator with a truthy fallback is truthy, and is `a` whenever `a` is truthy |
| JsValue.ParseIntValueOfNumber | api/update-bandeau.js:138 | `parseInt` of a number gives the number; of a value that is neither number nor string, `NaN` |
| Bandeau.CheckmarkIsNotInSvg | public/js/app.js:6 | the check-mark SVG contains no ✅ character |
| UpdateBandeau.HtmlCheck | api/update-bandeau.js:129-133 | the html passes exactly when it is a string of 1 to 50000 characters; "too long" exactly when longer |
| UpdateBandeau.SpeedCheck | api/update-bandeau.js:135-142 | "required" exactly when the speed is `undefined` or `null`; any failure names the speed |
| UpdateBandeau.ColorCheck | api/update-bandeau.js:144-148 | the color passes exactly when it is a string `#` plus six hex digits in either case |
| UpdateBandeau.AccessCodeCheck | api/update-bandeau.js:150-154 | passes exactly when a secret is configured and the code is that string; "required" exactly when the code is `undefined` or `null` |
| UpdateBandeau.ValidationErrors | api/update-bandeau.js:126-157 | at most four failures, one per check (which fields, and in which order, is `ValidationCollectsEveryViolation`) |
| UpdateBandeau.ValidateData | api/update-bandeau.js:126-157 | the four guarded pushes return the four checks' failures in field order |
| UpdateBandeau.ValidationCollectsEveryViolation | api/update-bandeau.js:126-157 | at most four errors, in field order; each field is named exactly when its own check fails, whatever the others hold |
| UpdateBandeau.FieldsOfChecks | api/update-bandeau.js:126-157 | failures laid end to end name exactly the fields whose checks failed, in check order |
| UpdateBandeau.SpeedNumberBounds | api/update-bandeau.js:138-141 | a numeric speed passes exactly when it lies in [3, 60] |
| UpdateBandeau.SpeedBoundaries | api/update-bandeau.js:139 | 2 and 61 fail, 3 and 60 pass |
| UpdateBandeau.SpeedTextIsReadByPrefix | api/update-bandeau.js:138-141 | a string speed is judged by its leading digits, so `"12abc"` passes as 12 |
| UpdateBandeau.ColorExamples | api/update-bandeau.js:146 | `#FFF` is malformed; `#ffffff` and `#FFFFFF` pass |
| UpdateBandeau.AccessCodeExamples | api/update-bandeau.js:150-154 | `''` and a different code are incorrect; with no secret every code is incorrect; `null` is required |
| UpdateBandeau.WordRunEnd | api/update-bandeau.js:108 | the end of the maximal `\w` run from a position |
| UpdateBandeau.SpaceRunEnd | api/update-bandeau.js:108 | the end of the maximal `\s` run from a position |
| UpdateBandeau.HandlerAtIff | api/update-bandeau.js:108 | the greedy reading of `on\w+\s*=` at a position succeeds exactly when some split into word run, space run and `=` exists |
| UpdateBandeau.MatchesIff | api/update-bandeau.js:105-115 | each pattern's test holds exactly when the pattern occurs somewhere, case-insensitively |
| UpdateBandeau.UnsafeHtmlIff | api/update-bandeau.js:105-118 | the screen rejects exactly inputs containing `<script`, `javascript:`, `on`+word chars+spaces+`=`, `<iframe`, `<object` or `<embed`, ignoring ASCII case |
| UpdateBandeau.ScriptAnywhereIsRejected | api/update-bandeau.js:106 | a script tag anywhere is rejected |
| UpdateBandeau.PlainTextCanBeRejected | api/update-bandeau.js:108 | the deny list rejects harmless text such as `condition = 1` |
| UpdateBandeau.SanitizeHtml | api/update-bandeau.js:91-121 | the loop over patterns rejects exactly unsafe strings, returns an accepted string unchanged, and gives `''` for a non-string |
| UpdateBandeau.FindIdStart | api/update-bandeau.js:27 | the leftmost start of an `ecfg_[a-zA-Z0-9]+` match, and none before it |
| UpdateBandeau.EdgeConfigId | api/update-bandeau.js:22-38 | no id when EDGE_CONFIG is unset; any id found starts with `ecfg_` |
| UpdateBandeau.EdgeConfigIdIsLeftmostMatch | api/update-bandeau.js:27-37 | the id is the leftmost, longest match; only with no match does the `ecfg_` prefix test decide |
| UpdateBandeau.BareIdIsKept | api/update-bandeau.js:27-30 | a bare id is returned as it is |
| UpdateBandeau.PrefixOnlyIdIsKept | api/update-bandeau.js:33-35 | the prefix branch returns `ecfg_` alone, which the pattern rejects |
| UpdateBandeau.DataToSave | api/update-bandeau.js:243-248 | the record holds the html and color as sent, `parseInt(speed)`, the server's time; it meets the schema bounds |
| UpdateBandeau.RecordKeepsOnlyDocumentFields | api/update-bandeau.js:243-248 | bodies agreeing on html, speed and color give the same record up to `updatedAt`: the code and other fields are dropped |
| UpdateBandeau.Caught | api/update-bandeau.js:269-311 | a SyntaxError or a message containing `JSON` gives 400; anything else gives 500 |
| UpdateBandeau.ThrownMessagesAreNotJson | api/update-bandeau.js:46 | the missing-id error and the `null`-body TypeError do not mention JSON, so both end in 500 |
| UpdateBandeau.Messages | api/update-bandeau.js:187 | one message per error, in the same order |
| UpdateBandeau.NoErrorsIffAllChecksPass | api/update-bandeau.js:182-183 | an empty error list is the same as all four checks passing |
| UpdateBandeau.HandleAccepted | api/update-bandeau.js:223-268 | no store: 503, no write; no id: 500; a write of the record is attempted exactly when an id is found; 200 exactly when it succeeds |
| UpdateBandeau.HandleBody | api/update-bandeau.js:181-268 | a write implies the body was accepted and the id found; an accepted body is handled by the store step; 200 exactly when a write succeeded |
| UpdateBandeau.HandleUpdate | api/update-bandeau.js:159-312 | non-POST: 405 with `Allow: POST`; bad JSON: 400; `null` body: 500; a non-`null` POST body goes to the body step; any write is of a well-formed record from an accepted body; 200 exactly when the write succeeds |
| UpdateBandeau.AcceptedUpdateIsWritten | api/update-bandeau.js:181-268 | an accepted body with a store and an id found is written under the key as the record `DataToSave` builds; 200 with the success message when the write succeeds, never 200 otherwise |
| UpdateBandeau.ValidationFailureShortCircuits | api/update-bandeau.js:182-199 | a body failing any check gets 400 with every message, whatever the html, store or write; nothing is written |
| UpdateBandeau.WrongCodeNeverWrites | api/update-bandeau.js:150-199 | without the configured code nothing is written and the answer is never 200 |
| UpdateBandeau.ScreenBeforeConfiguration | api/update-bandeau.js:201-240 | after validation, an unsafe html gets the sanitizer's 400 before the store is looked at; a safe one with no store gets 503 |
| UploadImage.ValidateFile | api/upload-image.js:29-48 | the three guarded pushes return the type, size and empty-file failures in that order |
| UploadImage.FileErrorsIff | api/upload-image.js:29-48 | each failure is reported exactly when its check fails; at most two; none exactly when the type is listed and the size is in [1, 2 MiB] |
| UploadImage.SizeBoundaries | api/upload-image.js:24-45 | 2097152 bytes pass, 2097153 are too large, 0 is empty |
| UploadImage.TooLargeMessage | api/upload-image.js:39 | the size message names the bound as `2MB` |
| UploadImage.LastDot | api/upload-image.js:66 | the last dot of a name, and no dot after it |
| UploadImage.FinalSuffix | api/upload-image.js:66-67 | `\.([^.]+)$` fails exactly when there is no dot or the name ends in one; otherwise it is the dot-free text after the last dot |
| UploadImage.Extension | api/upload-image.js:55-68 | the type is searched for `jpeg`/`jpg`, `png`, `gif`, `webp` in that order, the first found fixing the extension; with none, the name's final suffix with its dot, or nothing; always empty or a dot followed by dot-free text |
| UploadImage.JpegExtension | api/upload-image.js:56-57 | `image/jpeg` and `image/jpg` give `.jpg` |
| UploadImage.PngExtension | api/upload-image.js:58-59 | `image/png` gives `.png` |
| UploadImage.GifExtension | api/upload-image.js:60-61 | `image/gif` gives `.gif` |
| UploadImage.WebpExtension | api/upload-image.js:62-63 | `image/webp` gives `.webp` |
| UploadImage.AllowedTypeFixesExtension | api/upload-image.js:55-63 | for every accepted type the extension is fixed by the type, whatever the original name |
| UploadImage.RandomToken | api/upload-image.js:72 | the random part is at most 13 characters |
| UploadImage.RandomTokenHasNoDot | api/upload-image.js:72 | the random part of a base-36 fraction holds no dot |
| UploadImage.SafeFilename | api/upload-image.js:53-76 | every generated name starts with `bandeau-` |
| UploadImage.SafeFilenameIsUnique | api/upload-image.js:50-75 | equal names come from the same timestamp, random part and extension |
| UploadImage.Messages | api/upload-image.js:165 | one message per error, in the same order |
| UploadImage.HandleFile | api/upload-image.js:132-204 | a `put` happens exactly for a usable file with no validation error, under the generated name and the file's type; 200 exactly when it is stored, with the url and that name; the 400 detail for a missing or malformed file; a usable file failing validation gets 400 with every message |
| UploadImage.HandleUpload | api/upload-image.js:78-229 | non-POST: 405; unreadable form: 500; a falsy or wrong code: 403 (`Code manquant` when falsy, else `Code incorrect`); a truthy, matching code hands the file to the file step; a `put` only after the code and the file pass; 200 exactly when stored |
| UploadImage.AccessCheckedBeforeFile | api/upload-image.js:112-130 | with a missing or wrong code any two files get the same 403 |
| UploadImage.UploadReturnsStoredName | api/upload-image.js:179-194 | a 200 comes from a form with a file whose type is accepted; the `put` is under `generateSafeFilename` of its name and type with that type, and the answer carries the url and that same name, which starts with `bandeau-` |
| UploadImage.ValidUploadIsStored | api/upload-image.js:78-204 | a POST with the configured code and a named file of an accepted type and a size in [1, 2 MiB] is put under the generated name; 200 with the url and name when stored, the upload error otherwise |
| UploadImage.InvalidFileIsRefused | api/upload-image.js:132-170 | with the right code, a missing, malformed or invalid file is never stored and gets 400 |
| GetBandeau.Served | api/get-bandeau.js:87-104 | the success response is 200 with the one-minute cache, and each field is truthy |
| GetBandeau.HandleGet | api/get-bandeau.js:30-133 | non-GET: 405 with `Allow: GET`; otherwise 200; no store or a failed read: the defaults with the error; a served banner never has a falsy field |
| GetBandeau.StoredValueCases | api/get-bandeau.js:59-93 | a falsy stored value gives exactly the defaults without error; an object is served field by field, each falsy field replaced by its default; a stored string whose parse is neither `null` nor `undefined` is served from that parse |
| GetBandeau.UnparsableStringFallsBack | api/get-bandeau.js:79-131 | a string that fails to parse or parses to `null` gives the defaults with the error, still 200 |
| GetBandeau.SpeedZeroIsServedAsDefault | api/get-bandeau.js:90-92 | a stored speed of 0 is served as 5 while html and color are kept |
| GetBandeau.ExtraFieldsAreNotServed | api/get-bandeau.js:89-93 | any field other than html, speed and color, `updatedAt` included, does not change the response |
| CheckUpdates.HandleCheck | api/check-updates.js:13-94 | non-GET: 405; otherwise 200 with the no-cache header; no store: now with its error; a failed read: now with `Failed to check updates`; a read value: its `lastModified` or now |
| CheckUpdates.LastModifiedChoice | api/check-updates.js:56 | the stored `lastModified` when truthy, else now; never falsy when now is not empty |
| CheckUpdates.StoredStringAlwaysGivesNow | api/check-updates.js:53-60 | for a stored string, which is what the writer stores, the answer is always now |
| ClientApi.LoadResult | public/js/api.js:15-51 | any failure gives the fallback; with no local html a readable answer comes back unchanged, `null` included; with a local html a `null` answer gives the fallback, and the loaded html is never falsy; the result is always the fallback, the answer or the local copy |
| ClientApi.BandeauClient.LoadBandeauData | public/js/api.js:15-51 | the load ladder: fallback on any failure, the local copy when the answer's html is falsy and a local html exists, else the answer; storage is unchanged |
| ClientApi.BandeauClient.SaveBandeauData | public/js/api.js:62-94 | the three local items are written whatever follows; the request carries the code or `''`; true exactly when an ok response's body has `success: true` |
| ClientApi.LocalFallbackShape | public/js/api.js:41-49 | the fallback's html and color are strings, the color never empty, the speed a number or `NaN` |
| ClientApi.LocalSpeedReadingsAgree | public/js/api.js:31-47 | both local readings of the speed agree, a missing item reading 5 |
| ClientApi.OfflineLoadReturnsLastSave | public/js/api.js:41-66 | a save followed by a load that cannot reach the server gives back what was saved |
| ClientApi.ServerCopyWins | public/js/api.js:28-36 | an answer with a truthy html is returned untouched, whatever the local copy holds |
| ClientApi.LocalCopyWinsOverEmptyAnswer | public/js/api.js:27-34 | with a local html, an answer with a falsy html is replaced by the local copy |
| ClientApp.PreparedLineIsTrimmed | public/js/app.js:85-99 | the prepared line has no whitespace at either end and no whitespace pair: it is the flattened text, collapsed and trimmed |
| ClientApp.SingleSpacedIsTrimmed | public/js/app.js:94-98 | the prepared line has no whitespace at either end and no whitespace pair, so the separator is never inserted |
| ClientApp.ScrollContentIsTwoCopies | public/js/app.js:104-110 | the scroll content is exactly two copies of the prepared line, with no whitespace pair at the join |
| ClientApp.PlainTextScrollsAsItself | public/js/app.js:85-99 | html without markup scrolls as its whitespace-normalised self |
| ClientApp.CloseAt | public/js/app.js:228 | a closing tag found lies inside the text |
| ClientApp.CloseAtIsLazyMatch | public/js/app.js:228-230 | `(.*?)` ends at the nearest closing tag with no line terminator before it |
| ClientApp.CloseAtFinds | public/js/app.js:228-230 | the nearest closing tag on the same line is found |
| ClientApp.CloseAtStopsAtLineEnd | public/js/app.js:228-230 | a line terminator before any closing tag means no match |
| ClientApp.TaggedTextBecomesSpan | public/js/app.js:228-230 | `<tag>text</tag>` on one line becomes the status span around the text, and the scan goes on after it |
| ClientApp.TagAcrossLinesIsKept | public/js/app.js:228-230 | an opening tag whose text runs into a line break is kept as text |
| ClientApp.ReplaceTagKeepsAbsent | public/js/app.js:228-230 | a tag replacement writes no character that is in neither the text nor the span |
| ClientApp.Migrate | public/js/app.js:227-230 | no ✅ is left after the upgrade |
| ClientApp.InitialHtml | public/js/app.js:211-233 | start-up fails exactly on a `null` answer or a truthy non-string html; a falsy html gives the default; html containing `span` is kept; other strings are upgraded |
| ClientApp.InitialSetting | public/js/app.js:239-245 | a truthy field is used as it is, anything else gives the default, never falsy |
| ClientApp.InitialSpeed | public/js/app.js:239 | the loaded speed when truthy, else 5; never falsy |
| ClientApp.InitialColor | public/js/app.js:245 | the loaded color when truthy, else `#FFFFFF`; never falsy |
| ClientApp.SpanHtmlIsKept | public/js/app.js:226 | html containing `span` is loaded unchanged |
| ClientApp.EmptyHtmlLoadsDefault | public/js/app.js:231-232 | an empty or missing html loads the default announcement |
| ClientApp.FaultyDataStopsStartup | public/js/app.js:223-226 | a `null` answer or a truthy non-string html stops start-up |
| ClientApp.SaveNotice | public/js/app.js:271-278 | every save ends with the error notice, whatever the server answered |
| ClientApp.AutosaveNotice | public/js/app.js:339-343 | every autosave ends with the error notice |
| ClientApp.DebounceKeepsLatest | public/js/app.js:333-345 | with the code set, a burst of inputs leaves one pending save carrying the last value |
| ClientApp.DebounceIdleWithoutCode | public/js/app.js:333 | without the code, inputs schedule nothing |
| ClientApp.EditorSession.constructor | public/js/app.js:235-247 | the page starts hidden, not fullscreen, without code or pending saves, with the loaded controls and their scroll content |
| ClientApp.EditorSession.EditHtml | public/js/app.js:257-258 | the editor's html, which the handlers read, becomes the typed html; nothing else changes |
| ClientApp.EditorSession.ToggleFullscreen | public/js/app.js:185-191 | the fullscreen flag flips |
| ClientApp.EditorSession.ToggleEditorPanel | public/js/app.js:137-160 | hiding keeps the code; opening needs a non-empty answer, which becomes the code; otherwise nothing changes |
| ClientApp.EditorSession.SpeedInput | public/js/app.js:326-346 | the slider shows the text; with a code the pending speed save is replaced by the parsed value, otherwise left alone |
| ClientApp.EditorSession.ColorInput | public/js/app.js:350-369 | the picker shows the value; with a code the pending color save is replaced by it, otherwise left alone |
| ClientApp.EditorSession.FireSpeedSave | public/js/app.js:335-344 | the timer saves the current html and color with the pending speed and a non-empty code, clears the slot and reports an error |
| ClientApp.EditorSession.FireColorSave | public/js/app.js:358-367 | the timer saves the current html and speed with the pending color and a non-empty code, clears the slot and reports an error |
| ClientApp.EditorSession.Publish | public/js/app.js:262-278 | the scroll shows the editor html; the save sends the controls and the code or `''`; the notice is an error |
| ClientApp.EditorSession.Update | public/js/app.js:257-280 | the update button publishes with `parseInt` of the slider text |
| ClientApp.EditorSession.SetControls | public/js/app.js:288-291 | the editor, slider and picker take the given values |
| ClientApp.EditorSession.Reset | public/js/app.js:283-312 | the controls return to the defaults, which are shown and saved with speed 5 |
| ClientApp.EditorSession.KeyDown | public/js/app.js:372-407 | Ctrl/Cmd+Enter, and only it, publishes: the scroll shows the editor html, the local copy holds the html, `parseInt` of the slider and the color, and the error notice is shown; Escape leaves fullscreen and otherwise does nothing |
| ClientApp.StartSession | public/js/app.js:210-247 | start-up fills the editor with the upgraded html and its scroll content, the slider with the loaded speed when truthy, else 5, and the picker with the loaded color when truthy, else `#FFFFFF`, panel hidden and no code |
| ClientApp.FullscreenRoundTrip | public/js/app.js:185-191 | two toggles restore the fullscreen flag |
| Consistency.RecordObject | api/update-bandeau.js:243-252 | the parsed stored record has exactly the four record fields |
| Consistency.StoredRecordIsServed | api/get-bandeau.js:79-104 | a record the writer accepted is served back as stored, under the public cache, without `updatedAt` |
| Consistency.WritesAreInvisibleToFreshness | api/check-updates.js:53-60 | whatever was written, the freshness answer is the reader's clock |
| Consistency.WireNumber | public/js/api.js:74-79 | `JSON.stringify` writes `NaN` as `null` and a number as it is |
| Consistency.WireBody | public/js/api.js:74-79 | the sent body has exactly html, speed, color and accessCode, as the writer reads them |
| Consistency.UnreadableSpeedIsMissing | public/js/app.js:259 | a speed the page cannot read reaches the writer as `null` and is rejected as missing, not out of range |
| Consistency.NullSpeedIsMissing | api/update-bandeau.js:135-142 | a `null` speed gives "required" and never "out of range" |
| Consistency.SaveWithoutCodeIsIncorrect | public/js/api.js:78 | a save before any code was entered is rejected as incorrect, not missing |
| Consistency.EmptyCodeIsIncorrect | api/update-bandeau.js:150-154 | an empty code against a configured secret is incorrect, never required |
| Consistency.ValidSaveIsRecorded | public/js/api.js:69-80 | a page save with valid controls and the right code passes validation, and the record holds exactly the values sent |

## Left out

- Floating point: numbers are integers plus `NaN`, so `parseInt("3.9")` and fractional speeds are not modelled.
- Arrays and prototype properties: `JsVal` has no array, and property access on a non-object gives `undefined`.
- UpdateBandeau.HtmlCheck: the length is counted in characters, not UTF-16 code units, so html with characters outside the basic plane is measured shorter than JavaScript measures it.
- UpdateBandeau.ValidateData: requires a non-`null` body; reading a field of `null` throws in the source, and that path is modelled in `HandleUpdate` (500).
- `parseInt` is decimal only, without exponent notation or the `0x` prefix (radix 10 is always passed).
- Number-to-string conversion in exponent notation, and the full base-36 rendering of `Math.random()`: the rendering is an input, constrained (where uniqueness needs it) to hold no dot after its first two characters.
- The Edge Config REST PATCH, its token lookup and reply, and the blob `put`: network I/O. Each is a value naming the write attempted, with the outcome as an input.
- `req.json()`, `req.formData()` and `JSON.parse`: their results are inputs (`None` is a failure). `JSON.stringify` is modelled only for the number field.
- The exact text of a V8 TypeError: a fixed message without `JSON` is used.
- Development-only `error_details` and `details` fields, constant security and `Content-Type` headers, and console logging.
- api/health-kv.js and api/health-edge-config.js: live store probes; the latter's id extraction is the same function as the writer's `getEdgeConfigId`.
- Timers: only the replace-the-pending-slot behaviour of the debounce, not elapsed time.
- The DOM: serialisation of `innerHTML` (the editor's html is taken as the html set), clamping of the range input, and button labels.
- `showNotification` and its timing (only which notice is chosen is modelled), `execCommand` selection editing and the color buttons that use it, and the CSS duration and color setters.
- Concurrency between editors and between the asynchronous handlers: the store's last write wins outside this code.

Discrepancies the model reproduces rather than corrects:

- The page reads `result.success` and `result.localOnly` from the boolean the save returns. Both are `undefined`, so every save and every autosave shows the error notice (`ClientApp.SaveNotice`, `ClientApp.AutosaveNotice`).
- The writer stores a JSON string with `updatedAt`, and the freshness endpoint reads `lastModified` of the stored value. For a string that is `undefined`, so the answer is always the reader's clock (`Consistency.WritesAreInvisibleToFreshness`).
- Nothing on the page polls the freshness endpoint.
- On the page, the `try`/`catch` around the load never takes its `catch`, because the load never throws. A `null` answer with no local html, or a truthy html that is not a string, instead throws during start-up (`ClientApp.InitialHtml`, `ClientApp.FaultyDataStopsStartup`). The handlers and shortcuts are then never installed.
- The `***` separator is never inserted: the whitespace collapse before it leaves no pair of whitespace characters (`ClientApp.SingleSpacedIsTrimmed`).
