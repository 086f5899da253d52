/** The image upload endpoint (POST, multipart): the file checks, the
    generated blob name and the handler's order of early returns. The
    clock, the random source and the blob store are inputs. */
module UploadImage {
  import opened Text
  import opened JsValue
  import opened Http

  const AllowedMimeTypes: seq<string> := ["image/jpeg", "image/jpg", "image/png", "image/gif", "image/webp"]

  /** 2 MiB. */
  const MaxFileSize: nat := 2 * 1024 * 1024

  // ---------------------------------------------------------------------
  // validateFile
  // ---------------------------------------------------------------------

  datatype FileError = TypeNotAllowed | TooLarge | EmptyFile
  {
    function Message(): string {
      match this
      case TypeNotAllowed => "Type de fichier non autorisé. Types acceptés : " + Join(AllowedMimeTypes, ", ")
      case TooLarge => "Fichier trop volumineux. Taille maximale : " + IntToString(MaxFileSize / 1024 / 1024) + "MB"
      case EmptyFile => "Aucun fichier fourni"
    }
  }

  function When(c: bool, e: FileError): seq<FileError> {
    if c then [e] else []
  }

  /** What `validateFile` returns for a file of this type and size: one
      message per failed check, in the order the checks run. */
  function FileErrors(mimeType: string, size: nat): seq<FileError> {
    When(mimeType !in AllowedMimeTypes, TypeNotAllowed)
    + When(size > MaxFileSize, TooLarge)
    + When(size == 0, EmptyFile)
  }

  /** `validateFile` on a blob, pushing one message per failed check (the
      blob is an object, so `!file` never holds). */
  method ValidateFile(mimeType: string, size: nat) returns (errors: seq<FileError>)
    ensures errors == FileErrors(mimeType, size)
  {
    errors := [];
    if mimeType !in AllowedMimeTypes {
      errors := errors + [TypeNotAllowed];
    }
    if size > MaxFileSize {
      errors := errors + [TooLarge];
    }
    if size == 0 {
      errors := errors + [EmptyFile];
    }
  }

  /** Each check is reported exactly when it fails, independently of the
      others; a size cannot be both too large and zero, so at most two
      messages appear, and a file passes exactly when its type is one of the
      five listed strings and its size lies in [1, 2 MiB]. */
  lemma FileErrorsIff(mimeType: string, size: nat)
    ensures var errs := FileErrors(mimeType, size);
      && (TypeNotAllowed in errs <==> mimeType !in AllowedMimeTypes)
      && (TooLarge in errs <==> size > MaxFileSize)
      && (EmptyFile in errs <==> size == 0)
      && |errs| <= 2
      && (errs == [] <==> mimeType in AllowedMimeTypes && 1 <= size <= MaxFileSize)
  {
    var a := When(mimeType !in AllowedMimeTypes, TypeNotAllowed);
    var b := When(size > MaxFileSize, TooLarge);
    var c := When(size == 0, EmptyFile);
    assert FileErrors(mimeType, size) == a + b + c;
  }

  /** The size bound is inclusive: 2097152 bytes pass, 2097153 and 0 fail. */
  lemma SizeBoundaries(mimeType: string)
    requires mimeType in AllowedMimeTypes
    ensures FileErrors(mimeType, 2097152) == []
    ensures FileErrors(mimeType, 2097153) == [TooLarge]
    ensures FileErrors(mimeType, 0) == [EmptyFile]
  {
  }

  /** The size message names the bound in whole mebibytes. */
  lemma TooLargeMessage()
    ensures TooLarge.Message() == "Fichier trop volumineux. Taille maximale : 2MB"
  {
    assert MaxFileSize / 1024 / 1024 == 2;
    assert IntToString(2) == "2";
  }

  // ---------------------------------------------------------------------
  // generateSafeFilename
  // ---------------------------------------------------------------------

  /** The position of the last `.` of `s`. */
  function LastDot(s: string): (r: Option<nat>)
    ensures r.None? <==> '.' !in s
    ensures r.Some? ==> r.value < |s| && s[r.value] == '.' && '.' !in s[r.value + 1..]
  {
    if s == [] then None
    else if s[|s| - 1] == '.' then Some(|s| - 1)
    else
      var r := LastDot(s[..|s| - 1]);
      LastDotStep(s, r);
      r
  }

  /** A last character that is not a dot adds no dot after the last one
      of the rest. */
  lemma LastDotStep(s: string, r: Option<nat>)
    requires s != [] && s[|s| - 1] != '.'
    requires r.None? <==> '.' !in s[..|s| - 1]
    requires r.Some? ==> r.value < |s| - 1 && s[r.value] == '.' && '.' !in s[..|s| - 1][r.value + 1..]
    ensures r.None? <==> '.' !in s
    ensures r.Some? ==> r.value < |s| && s[r.value] == '.' && '.' !in s[r.value + 1..]
  {
    assert s == s[..|s| - 1] + [s[|s| - 1]];
    if r.Some? {
      assert s[r.value + 1..] == s[..|s| - 1][r.value + 1..] + [s[|s| - 1]];
    }
  }

  /** `name.match(/\.([^.]+)$/)`: the non-empty, dot-free text after the
      last dot; there is none when the name has no dot or ends with one. */
  function FinalSuffix(name: string): (r: Option<string>)
    ensures r.None? <==> '.' !in name || name[|name| - 1] == '.'
    ensures r.Some? ==>
      && 1 <= |r.value| < |name| && '.' !in r.value
      && name[|name| - |r.value| - 1] == '.' && name[|name| - |r.value|..] == r.value
  {
    match LastDot(name)
    case None => None
    case Some(i) => if i + 1 < |name| then Some(name[i + 1..]) else None
  }

  /** None of the keywords tried before step `n` occurs in the type; the
      steps are jpeg/jpg (0), png (1), gif (2), webp (3), the name (4). */
  predicate NoTypeKeyword(mimeType: string, n: nat) {
    && (n >= 1 ==> !Contains(mimeType, "jpeg", false) && !Contains(mimeType, "jpg", false))
    && (n >= 2 ==> !Contains(mimeType, "png", false))
    && (n >= 3 ==> !Contains(mimeType, "gif", false))
    && (n >= 4 ==> !Contains(mimeType, "webp", false))
  }

  /** The extension, chosen from the MIME type by substring in the order
      jpeg/jpg, png, gif, webp, else taken from the original name. */
  function Extension(originalName: string, mimeType: string): (r: string)
    ensures r == [] || (r[0] == '.' && '.' !in r[1..])
    ensures Contains(mimeType, "jpeg", false) || Contains(mimeType, "jpg", false) ==> r == ".jpg"
    ensures NoTypeKeyword(mimeType, 1) && Contains(mimeType, "png", false) ==> r == ".png"
    ensures NoTypeKeyword(mimeType, 2) && Contains(mimeType, "gif", false) ==> r == ".gif"
    ensures NoTypeKeyword(mimeType, 3) && Contains(mimeType, "webp", false) ==> r == ".webp"
    ensures NoTypeKeyword(mimeType, 4) ==>
      r == (if FinalSuffix(originalName).Some? then "." + FinalSuffix(originalName).value else "")
  {
    if Contains(mimeType, "jpeg", false) || Contains(mimeType, "jpg", false) then ".jpg"
    else if Contains(mimeType, "png", false) then ".png"
    else if Contains(mimeType, "gif", false) then ".gif"
    else if Contains(mimeType, "webp", false) then ".webp"
    else
      match FinalSuffix(originalName)
      case Some(x) => assert ("." + x)[1..] == x; "." + x
      case None => ""
  }

  lemma ContainsAt(s: string, i: nat, lit: string)
    requires i + |lit| <= |s| && s[i..i + |lit|] == lit
    ensures Contains(s, lit, false)
  {
    forall k | 0 <= k < |lit| ensures CharEq(s[i + k], lit[k], false) {
      assert s[i..i + |lit|][k] == s[i + k];
    }
    assert MatchesAt(s, i, lit, false);
    ContainsIff(s, lit, false);
  }

  lemma JpegExtension(name: string, mimeType: string)
    requires mimeType == "image/jpeg" || mimeType == "image/jpg"
    ensures Extension(name, mimeType) == ".jpg"
  {
    if mimeType == "image/jpeg" {
      ContainsAt(mimeType, 6, "jpeg");
    } else {
      ContainsAt(mimeType, 6, "jpg");
    }
  }

  lemma PngExtension(name: string, mimeType: string)
    requires mimeType == "image/png"
    ensures Extension(name, mimeType) == ".png"
  {
    AbsentChar(mimeType, "jpeg", 0);
    AbsentChar(mimeType, "jpg", 0);
    ContainsAt(mimeType, 6, "png");
  }

  lemma GifExtension(name: string, mimeType: string)
    requires mimeType == "image/gif"
    ensures Extension(name, mimeType) == ".gif"
  {
    AbsentChar(mimeType, "jpeg", 0);
    AbsentChar(mimeType, "jpg", 0);
    AbsentChar(mimeType, "png", 0);
    ContainsAt(mimeType, 6, "gif");
  }

  lemma WebpExtension(name: string, mimeType: string)
    requires mimeType == "image/webp"
    ensures Extension(name, mimeType) == ".webp"
  {
    AbsentChar(mimeType, "jpeg", 0);
    AbsentChar(mimeType, "jpg", 0);
    AbsentChar(mimeType, "png", 1);
    AbsentChar(mimeType, "gif", 2);
    ContainsAt(mimeType, 6, "webp");
  }

  /** Every accepted MIME type fixes the extension, whatever the original
      name: `.jpg` for both JPEG spellings, then `.png`, `.gif`, `.webp`. */
  lemma AllowedTypeFixesExtension(name: string, mimeType: string)
    requires mimeType in AllowedMimeTypes
    ensures Extension(name, mimeType) == ExtensionOfType(mimeType)
  {
    if mimeType == "image/jpeg" || mimeType == "image/jpg" {
      JpegExtension(name, mimeType);
    } else if mimeType == "image/png" {
      PngExtension(name, mimeType);
    } else if mimeType == "image/gif" {
      GifExtension(name, mimeType);
    } else {
      WebpExtension(name, mimeType);
    }
  }

  /** The extension each accepted type is stored with. */
  function ExtensionOfType(mimeType: string): string
    requires mimeType in AllowedMimeTypes
  {
    if mimeType == "image/jpeg" || mimeType == "image/jpg" then ".jpg"
    else if mimeType == "image/png" then ".png"
    else if mimeType == "image/gif" then ".gif"
    else ".webp"
  }

  /** `Math.random().toString(36).substring(2, 15)`, given the base-36
      rendering of the random number. */
  function RandomToken(randomText: string): (r: string)
    ensures |r| <= 13
  {
    Substring(randomText, 2, 15)
  }

  /** A base-36 rendering of a number in [0, 1) has its only dot, if any,
      in its first two characters. */
  predicate IsFractionText(randomText: string) {
    forall i :: 2 <= i < |randomText| ==> randomText[i] != '.'
  }

  lemma RandomTokenHasNoDot(randomText: string)
    requires IsFractionText(randomText)
    ensures '.' !in RandomToken(randomText)
  {
    var r := RandomToken(randomText);
    if |randomText| >= 2 {
      var end := if |randomText| < 15 then |randomText| else 15;
      assert r == randomText[2..end];
    } else {
      assert r == [];
    }
  }

  /** `generateSafeFilename`: `bandeau-`, the millisecond timestamp, `-`,
      the random token, the extension. */
  function SafeFilename(originalName: string, mimeType: string, timestamp: nat, randomText: string): (r: string)
    ensures StartsWith(r, "bandeau-")
  {
    "bandeau-" + NatToString(timestamp) + "-" + RandomToken(randomText) + Extension(originalName, mimeType)
  }

  /** The position of the first dot, or the length when there is none. */
  function FirstDotOrEnd(s: string): (n: nat)
    ensures n <= |s|
  {
    if s == [] || s[0] == '.' then 0 else 1 + FirstDotOrEnd(s[1..])
  }

  lemma {:induction false} FirstDotOfConcat(r: string, e: string)
    requires '.' !in r && (e == [] || e[0] == '.')
    ensures FirstDotOrEnd(r + e) == |r|
  {
    if r != [] {
      assert (r + e)[0] == r[0];
      assert (r + e)[1..] == r[1..] + e;
      FirstDotOfConcat(r[1..], e);
    }
  }

  /** A digit run followed by `-` splits back into the run and the rest. */
  lemma SplitAfterDigits(d1: string, tail1: string, d2: string, tail2: string)
    requires AllDigits(d1) && AllDigits(d2)
    requires tail1 != [] && tail1[0] == '-' && tail2 != [] && tail2[0] == '-'
    requires d1 + tail1 == d2 + tail2
    ensures d1 == d2 && tail1 == tail2
  {
    DigitPrefixOfConcat(d1, tail1);
    DigitPrefixOfConcat(d2, tail2);
    assert d1 == (d1 + tail1)[..|d1|] && tail1 == (d1 + tail1)[|d1|..];
    assert d2 == (d2 + tail2)[..|d2|] && tail2 == (d2 + tail2)[|d2|..];
  }

  /** A dot-free token followed by an extension splits back into the two. */
  lemma SplitAtDot(r1: string, e1: string, r2: string, e2: string)
    requires '.' !in r1 && (e1 == [] || e1[0] == '.')
    requires '.' !in r2 && (e2 == [] || e2[0] == '.')
    requires r1 + e1 == r2 + e2
    ensures r1 == r2 && e1 == e2
  {
    FirstDotOfConcat(r1, e1);
    FirstDotOfConcat(r2, e2);
    assert r1 == (r1 + e1)[..|r1|] && e1 == (r1 + e1)[|r1|..];
    assert r2 == (r2 + e2)[..|r2|] && e2 == (r2 + e2)[|r2|..];
  }

  lemma SafeFilenameParts(originalName: string, mimeType: string, timestamp: nat, randomText: string)
    ensures SafeFilename(originalName, mimeType, timestamp, randomText)
         == "bandeau-" + (NatToString(timestamp) + ("-" + (RandomToken(randomText) + Extension(originalName, mimeType))))
  {
    var d, r, e := NatToString(timestamp), RandomToken(randomText), Extension(originalName, mimeType);
    assert "bandeau-" + d + "-" + r + e == "bandeau-" + (d + ("-" + (r + e)));
  }

  lemma DropPrefix(p: string, a: string, b: string)
    requires p + a == p + b
    ensures a == b
  {
    assert a == (p + a)[|p|..];
    assert b == (p + b)[|p|..];
  }

  /** Two names that agree were built from the same timestamp, the same
      token and the same extension: distinct (timestamp, random) pairs give
      distinct names, the uniqueness the generator promises. */
  lemma SafeFilenameIsUnique(n1: string, m1: string, t1: nat, x1: string,
                             n2: string, m2: string, t2: nat, x2: string)
    requires IsFractionText(x1) && IsFractionText(x2)
    requires SafeFilename(n1, m1, t1, x1) == SafeFilename(n2, m2, t2, x2)
    ensures t1 == t2 && RandomToken(x1) == RandomToken(x2) && Extension(n1, m1) == Extension(n2, m2)
  {
    var d1, d2 := NatToString(t1), NatToString(t2);
    var r1, r2 := RandomToken(x1), RandomToken(x2);
    var e1, e2 := Extension(n1, m1), Extension(n2, m2);
    var tail1, tail2 := "-" + (r1 + e1), "-" + (r2 + e2);
    SafeFilenameParts(n1, m1, t1, x1);
    SafeFilenameParts(n2, m2, t2, x2);
    DropPrefix("bandeau-", d1 + tail1, d2 + tail2);
    SplitAfterDigits(d1, tail1, d2, tail2);
    NatToStringInjective(t1, t2);
    assert tail1[1..] == r1 + e1 && tail2[1..] == r2 + e2;
    RandomTokenHasNoDot(x1);
    RandomTokenHasNoDot(x2);
    SplitAtDot(r1, e1, r2, e2);
  }

  // ---------------------------------------------------------------------
  // The handler
  // ---------------------------------------------------------------------

  /** `formData.get(..)`: no entry (`null`), a text field, or a file with
      its name, MIME type and size in bytes. */
  datatype FormEntry = Absent | Text(text: string) | Blob(name: string, mimeType: string, size: nat)

  /** `!!entry`: a text field is truthy when non-empty, a file always. */
  predicate EntryTruthy(e: FormEntry) {
    match e
    case Absent => false
    case Text(t) => t != ""
    case Blob(_, _, _) => true
  }

  /** `!file || !file.name || !file.type || typeof file.size !== 'number'`:
      only a file with a non-empty name and type passes (a text field has
      no name). */
  predicate UsableFile(e: FormEntry) {
    e.Blob? && e.name != "" && e.mimeType != ""
  }

  datatype Form = Form(file: FormEntry, accessCode: FormEntry)

  /** A request as the handler sees it; `form` is `None` when
      `req.formData()` throws. */
  datatype UploadRequest = UploadRequest(verb: string, form: Option<Form>)

  /** What the blob store reports for the `put`. */
  datatype PutOutcome = Stored(url: string) | PutFailed

  /** The `put` the handler issues: the generated name, public access, the
      file's own content type. */
  datatype Put = Put(pathname: string, contentType: string)

  datatype UploadResult = UploadResult(response: Response, put: Option<Put>)

  const UploadFailed: Response := Plain(500, InternalError("Une erreur est survenue lors de l'upload de l'image"))

  /** The code matches ACCESS_CODE strictly: a text field equal to it (an
      unset secret matches nothing). */
  predicate CodeMatches(code: FormEntry, secret: Option<string>) {
    secret.Some? && code == Text(secret.value)
  }

  function Messages(errors: seq<FileError>): (m: seq<string>)
    ensures |m| == |errors| && forall i :: 0 <= i < |errors| ==> m[i] == errors[i].Message()
  {
    if errors == [] then [] else [errors[0].Message()] + Messages(errors[1..])
  }

  /** The part of the handler after the access check: the file's shape, then
      `validateFile`, then the name and the `put`. */
  function HandleFile(file: FormEntry, timestamp: nat, randomText: string, outcome: PutOutcome): (r: UploadResult)
    ensures r.put.Some? <==> UsableFile(file) && FileErrors(file.mimeType, file.size) == []
    ensures r.put.Some? ==>
      r.put.value == Put(SafeFilename(file.name, file.mimeType, timestamp, randomText), file.mimeType)
    ensures r.response.status == 200 <==> r.put.Some? && outcome.Stored?
    ensures r.response.status == 200 ==> r.response.body == Uploaded(outcome.url, r.put.value.pathname)
    ensures !UsableFile(file) ==>
      r.response == Plain(400, ErrorDetail("Aucun fichier fourni",
        if !EntryTruthy(file) then "Pas de fichier dans la requête" else "Le fichier n'est pas valide"))
    ensures UsableFile(file) && FileErrors(file.mimeType, file.size) != [] ==>
      r.response == Plain(400, ErrorList("Validation failed", Messages(FileErrors(file.mimeType, file.size))))
  {
    if !EntryTruthy(file) || !file.Blob? || file.name == "" || file.mimeType == "" then
      UploadResult(Plain(400, ErrorDetail("Aucun fichier fourni",
        if !EntryTruthy(file) then "Pas de fichier dans la requête" else "Le fichier n'est pas valide")), None)
    else
      var errors := FileErrors(file.mimeType, file.size);
      if errors != [] then
        UploadResult(Plain(400, ErrorList("Validation failed", Messages(errors))), None)
      else
        var filename := SafeFilename(file.name, file.mimeType, timestamp, randomText);
        var put := Put(filename, file.mimeType);
        match outcome
        case Stored(url) => UploadResult(Plain(200, Uploaded(url, filename)), Some(put))
        case PutFailed => UploadResult(UploadFailed, Some(put))
  }

  /** The handler: 405 for any verb but POST, then the access code (403),
      then the file. `timestamp` is `Date.now()`, `randomText` the base-36
      rendering of `Math.random()`. */
  function HandleUpload(req: UploadRequest, secret: Option<string>, timestamp: nat, randomText: string,
                        outcome: PutOutcome): (r: UploadResult)
    ensures req.verb != "POST" ==> r == UploadResult(MethodNotAllowed("POST"), None)
    ensures req.verb == "POST" && req.form.None? ==> r == UploadResult(UploadFailed, None)
    ensures (req.verb == "POST" && req.form.Some?
             && (!EntryTruthy(req.form.value.accessCode) || !CodeMatches(req.form.value.accessCode, secret))) ==>
      r == UploadResult(Plain(403, ErrorDetail("Code d'accès incorrect ou manquant",
        if !EntryTruthy(req.form.value.accessCode) then "Code manquant" else "Code incorrect")), None)
    ensures r.put.Some? ==>
      && req.verb == "POST" && req.form.Some?
      && CodeMatches(req.form.value.accessCode, secret)
      && UsableFile(req.form.value.file)
      && FileErrors(req.form.value.file.mimeType, req.form.value.file.size) == []
    ensures r.response.status == 200 <==> r.put.Some? && outcome.Stored?
    ensures (req.verb == "POST" && req.form.Some?
             && EntryTruthy(req.form.value.accessCode) && CodeMatches(req.form.value.accessCode, secret)) ==>
      r == HandleFile(req.form.value.file, timestamp, randomText, outcome)
  {
    if req.verb != "POST" then UploadResult(MethodNotAllowed("POST"), None)
    else if req.form.None? then UploadResult(UploadFailed, None)
    else
      var code := req.form.value.accessCode;
      if !EntryTruthy(code) || !CodeMatches(code, secret) then
        UploadResult(Plain(403, ErrorDetail("Code d'accès incorrect ou manquant",
          if !EntryTruthy(code) then "Code manquant" else "Code incorrect")), None)
      else
        HandleFile(req.form.value.file, timestamp, randomText, outcome)
  }

  /** The access code is checked before the file is looked at: with a
      missing or wrong code, any two files get the same 403. */
  lemma AccessCheckedBeforeFile(f1: FormEntry, f2: FormEntry, code: FormEntry, secret: Option<string>,
                                t: nat, x: string, o: PutOutcome)
    requires !CodeMatches(code, secret)
    ensures HandleUpload(UploadRequest("POST", Some(Form(f1, code))), secret, t, x, o)
         == HandleUpload(UploadRequest("POST", Some(Form(f2, code))), secret, t, x, o)
    ensures HandleUpload(UploadRequest("POST", Some(Form(f1, code))), secret, t, x, o).response.status == 403
  {
  }

  /** A successful upload answers with the name the file was stored
      under: the generated name of that very file, from the timestamp and
      the random text of the request, stored with the file's own type. */
  lemma UploadReturnsStoredName(req: UploadRequest, secret: Option<string>, t: nat, x: string, url: string)
    requires HandleUpload(req, secret, t, x, Stored(url)).response.status == 200
    ensures req.form.Some? && req.form.value.file.Blob?
    ensures var r := HandleUpload(req, secret, t, x, Stored(url));
      var file := req.form.value.file;
      && r.put == Some(Put(SafeFilename(file.name, file.mimeType, t, x), file.mimeType))
      && r.response == Plain(200, Uploaded(url, SafeFilename(file.name, file.mimeType, t, x)))
      && file.mimeType in AllowedMimeTypes
      && StartsWith(r.put.value.pathname, "bandeau-")
  {
    var file := req.form.value.file;
    FileErrorsIff(file.mimeType, file.size);
  }

  /** The converse: a POST with the configured code and a usable file that
      passes `validateFile` is stored under its generated name, and the
      answer is 200 with that name exactly when the store takes it. */
  lemma ValidUploadIsStored(name: string, mimeType: string, size: nat, secret: string, t: nat, x: string,
                            outcome: PutOutcome)
    requires secret != "" && name != "" && mimeType in AllowedMimeTypes && 1 <= size <= MaxFileSize
    ensures var r := HandleUpload(UploadRequest("POST", Some(Form(Blob(name, mimeType, size), Text(secret)))),
                                  Some(secret), t, x, outcome);
      && r.put == Some(Put(SafeFilename(name, mimeType, t, x), mimeType))
      && (outcome.Stored? ==> r.response == Plain(200, Uploaded(outcome.url, SafeFilename(name, mimeType, t, x))))
      && (outcome.PutFailed? ==> r.response == UploadFailed)
  {
    FileErrorsIff(mimeType, size);
  }

  /** A file refused at the handler level: with the right code, a file
      that is missing, nameless or typeless, or that fails `validateFile`,
      gets 400 and nothing is stored. */
  lemma InvalidFileIsRefused(file: FormEntry, secret: string, t: nat, x: string, outcome: PutOutcome)
    requires secret != ""
    requires !UsableFile(file) || FileErrors(file.mimeType, file.size) != []
    ensures var r := HandleUpload(UploadRequest("POST", Some(Form(file, Text(secret)))), Some(secret), t, x, outcome);
      && r.put.None? && r.response.status == 400
  {
  }
}
