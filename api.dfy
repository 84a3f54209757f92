/** The decisions of the backend's HTTP handlers (backend/main.py): format
    detection from the MIME type with a fall-back to the file name's suffix, the
    validation and routing of a conversion request, how exceptions become HTTP
    responses, and the advertised conversion matrix. The MIME type reported by
    libmagic, the upload's file system writes and the converters' library work
    come in as parameters. */
module Api {
  import opened Common
  import opened PyStr
  import opened Rules

  /** `MIME_TO_EXT`. */
  const MimeToExt: map<string, string> := map[
    "application/pdf" := "pdf",
    "application/vnd.openxmlformats-officedocument.wordprocessingml.document" := "docx",
    "application/vnd.openxmlformats-officedocument.presentationml.presentation" := "pptx",
    "text/plain" := "txt",
    "image/png" := "png",
    "image/jpeg" := "jpg",
    "image/webp" := "webp"
  ]

  // ---------------------------------------------------------------------------
  // Format detection
  // ---------------------------------------------------------------------------

  /** `Path(filename).name`: what follows the last '/'. */
  function BaseName(path: string): (name: string)
    ensures '/' !in name
    ensures '/' !in path ==> name == path
  {
    path[LastIndexOf(path, '/') + 1..]
  }

  /** `Path(filename).suffix`: the name from its last '.', provided that dot is
      neither the first nor the last character of the name; otherwise ''. */
  function Suffix(filename: string): (suffix: string)
    ensures suffix == "" || (|suffix| >= 2 && suffix[0] == '.' && '.' !in suffix[1..])
  {
    var name := BaseName(filename);
    var i := LastIndexOf(name, '.');
    if 0 < i < |name| - 1 then name[i..] else ""
  }

  /** The input format both handlers derive: `MIME_TO_EXT.get(mime)`, or, when
      that is missing or empty, `Path(filename).suffix.lower().replace('.', '')`.
      The result is always lower case and never holds a dot. */
  function DetectExtension(mime: string, filename: string): (ext: string)
    ensures IsLower(ext) && '.' !in ext
  {
    var known := if mime in MimeToExt then MimeToExt[mime] else "";
    if known != "" then known
    else
      var suffix := Lower(Suffix(filename));
      LowerIsLower(Suffix(filename));
      ReplaceKeepsLower(suffix, '.', "");
      ReplaceRemoves(suffix, '.', "");
      ReplaceChar(suffix, '.', "")
  }

  /** A MIME type libmagic recognises decides the format, whatever the name. */
  lemma KnownMimeDecides(mime: string, filename: string)
    requires mime in MimeToExt
    ensures DetectExtension(mime, filename) == MimeToExt[mime]
  {
    assert |MimeToExt[mime]| >= 3 by {
      assert mime in MimeToExt.Keys;
    }
  }

  /** The suffix of `stem.ext`, for a dot-free extension, is `.ext`. */
  lemma {:induction false} SuffixOfExtension(stem: string, ext: string)
    requires stem != "" && ext != ""
    requires '/' !in stem && '/' !in ext && '.' !in ext
    ensures Suffix(stem + "." + ext) == "." + ext
  {
    var name := stem + "." + ext;
    assert '/' !in name by {
      assert forall k :: 0 <= k < |name| ==> name[k] == (if k < |stem| then stem[k] else if k == |stem| then '.' else ext[k - |stem| - 1]);
    }
    assert BaseName(name) == name;
    var i := LastIndexOf(name, '.');
    assert name[|stem|] == '.';
    assert i == |stem|;
    assert name[i..] == "." + ext;
  }

  /** For any other MIME type the format is the name's extension, lower-cased:
      a file `stem.ext` is taken to be `ext.lower()`. */
  lemma {:induction false} SuffixFallback(mime: string, stem: string, ext: string)
    requires mime !in MimeToExt
    requires stem != "" && ext != ""
    requires '/' !in stem && '/' !in ext && '.' !in ext
    ensures DetectExtension(mime, stem + "." + ext) == Lower(ext)
  {
    calc {
      DetectExtension(mime, stem + "." + ext);
      ReplaceChar(Lower(Suffix(stem + "." + ext)), '.', "");
      { SuffixOfExtension(stem, ext); }
      ReplaceChar(Lower("." + ext), '.', "");
      { LowerAppend(".", ext); LowerOfLower("."); }
      ReplaceChar("." + Lower(ext), '.', "");
      { assert ("." + Lower(ext))[1..] == Lower(ext); }
      "" + ReplaceChar(Lower(ext), '.', "");
      { LowerKeepsAbsent(ext, '.'); ReplaceAbsent(Lower(ext), '.', ""); }
      Lower(ext);
    }
  }

  /** The response of `/api/detect-format`. */
  datatype DetectResponse =
    | FormatInfo(inputFormat: string, validOutputFormats: seq<string>, filename: string)
    | DetectError(status: int, detail: string)

  /** `detect_file_format`. `probe` is the MIME type libmagic reports for the
      saved upload, or the exception saving or probing raised. An unknown format
      is not an error: it is reported with an empty list of outputs. */
  function DetectFileFormat(probe: Outcome<string>, filename: string): (r: DetectResponse)
    ensures r.FormatInfo? <==> probe.Done?
    ensures r.FormatInfo? ==>
              && r.filename == filename
              && r.inputFormat == DetectExtension(probe.value, filename)
              && r.validOutputFormats == ValidOutputs(r.inputFormat)
    ensures r.DetectError? ==> r.status == 400 && r.detail == "Error detecting file format: " + probe.message
  {
    match probe
    case Raised(message) => DetectError(400, "Error detecting file format: " + message)
    case Done(mime) =>
      var ext := DetectExtension(mime, filename);
      FormatInfo(ext, ValidOutputs(ext), filename)
  }

  // ---------------------------------------------------------------------------
  // Conversion
  // ---------------------------------------------------------------------------

  /** The branch of `convert_file`'s if/elif chain an input format takes. */
  datatype Route = Routed(dispatch: Dispatch) | UnsupportedInput

  /** The if/elif chain names exactly the input formats the rules know, and a
      router that accepts hands the file to a converter for the requested output. */
  function RouteInput(inputFormat: string, outputFormat: string): (r: Route)
    ensures r.UnsupportedInput? <==> inputFormat !in ConversionRules
    ensures r.Routed? && r.dispatch.Handled? ==> Target(r.dispatch.converter) == outputFormat
  {
    if inputFormat == "pdf" then Routed(ConvertPdfToFormat(outputFormat))
    else if inputFormat == "docx" then Routed(ConvertDocxToFormat(outputFormat))
    else if inputFormat == "pptx" then Routed(ConvertPptxToFormat(outputFormat))
    else if inputFormat == "txt" then Routed(ConvertTxtToFormat(outputFormat))
    else if inputFormat in ImageFormats then Routed(ConvertImageToFormat(outputFormat))
    else UnsupportedInput
  }

  /** Every conversion the rules allow for a lower-case input format is routed to
      a converter for exactly the requested output: neither the "Unsupported
      input format" branch nor a router's `ValueError` can be reached. */
  lemma {:induction false} RoutingIsTotal(inputFormat: string, outputFormat: string)
    requires IsLower(inputFormat) && outputFormat in ValidOutputs(inputFormat)
    ensures RouteInput(inputFormat, outputFormat).Routed?
    ensures RouteInput(inputFormat, outputFormat).dispatch.Handled?
    ensures Target(RouteInput(inputFormat, outputFormat).dispatch.converter) == outputFormat
  {
    LowerOfLower(inputFormat);
    assert inputFormat in ConversionRules;
    if inputFormat in ImageFormats {
      ImageRouterCoversImageRules(inputFormat, outputFormat);
    }
  }

  /** An exception raised inside a handler. */
  datatype Exception = HTTPException(status: int, detail: string) | OtherException(message: string)

  /** How a handler's body ends: with a value, or by raising. */
  datatype Flow<+T> = Return(value: T) | Throw(exception: Exception)

  /** The response of `/api/convert`: the converter's output file, served under
      `filename`, or an error status with its detail. */
  datatype ConvertResponse =
    | FileResponse(converter: Converter, filename: string)
    | ErrorResponse(status: int, detail: string)

  /** The part of `convert_file`'s `try` block that follows detection: the
      check against the rules, the routing, and the converter's own run, whose
      exception, if it raised one, is `converterError`. */
  function ConvertDetected(inputFormat: string, outputFormat: string,
                           converterError: Option<string>): (r: Flow<ConvertResponse>)
    ensures r.Return? ==> outputFormat in ValidOutputs(inputFormat) && converterError.None?
    ensures r.Return? ==> && r.value.FileResponse?
                          && r.value.filename == "converted." + outputFormat
                          && Target(r.value.converter) == outputFormat
    ensures r.Throw? && r.exception.HTTPException? ==> r.exception.status == 400
  {
    if outputFormat !in ValidOutputs(inputFormat) then
      Throw(HTTPException(400, "Cannot convert " + inputFormat + " to " + outputFormat))
    else match RouteInput(inputFormat, outputFormat)
      case UnsupportedInput => Throw(HTTPException(400, "Unsupported input format: " + inputFormat))
      case Routed(ValueError(message)) => Throw(OtherException(message))
      case Routed(Handled(converter)) =>
        match converterError
        case Some(message) => Throw(OtherException(message))
        case None => Return(FileResponse(converter, "converted." + outputFormat))
  }

  /** The `try` block of `convert_file`. `probe` is the MIME type libmagic
      reports for the saved upload, or the exception saving or probing raised. */
  function ConvertFileBody(probe: Outcome<string>, filename: string, outputFormat: string,
                           converterError: Option<string>): (r: Flow<ConvertResponse>)
    ensures r.Return? ==> probe.Done? && outputFormat in ValidOutputs(DetectExtension(probe.value, filename))
    ensures r.Return? ==> && r.value.FileResponse?
                          && r.value.filename == "converted." + outputFormat
                          && Target(r.value.converter) == outputFormat
    ensures r.Throw? && r.exception.HTTPException? ==> r.exception.status == 400
  {
    match probe
    case Raised(message) => Throw(OtherException(message))
    case Done(mime) => ConvertDetected(DetectExtension(mime, filename), outputFormat, converterError)
  }

  /** `except HTTPException: raise` / `except Exception as e: raise
      HTTPException(500, ...)`. */
  function HandleErrors(flow: Flow<ConvertResponse>): ConvertResponse
  {
    match flow
    case Return(response) => response
    case Throw(HTTPException(status, detail)) => ErrorResponse(status, detail)
    case Throw(OtherException(message)) => ErrorResponse(500, "Conversion error: " + message)
  }

  /** `convert_file`. */
  function ConvertFile(probe: Outcome<string>, filename: string, outputFormat: string,
                       converterError: Option<string>): (r: ConvertResponse)
    ensures r.FileResponse? ==> r.filename == "converted." + outputFormat && Target(r.converter) == outputFormat
    ensures r.FileResponse? ==> probe.Done? && outputFormat in ValidOutputs(DetectExtension(probe.value, filename))
    ensures r.ErrorResponse? ==> r.status == 400 || r.status == 500
  {
    HandleErrors(ConvertFileBody(probe, filename, outputFormat, converterError))
  }

  /** After detection, for a lower-case input format (the only kind detection
      yields): the only `HTTPException` raised is the "Cannot convert" refusal,
      raised exactly when the rules do not allow the output; the only other
      exception is the converter's own; and an allowed conversion whose
      converter runs is served under the name `converted.<format>`. */
  lemma {:induction false} DetectedOutcomes(inputFormat: string, outputFormat: string,
                                            converterError: Option<string>)
    requires IsLower(inputFormat)
    ensures var flow := ConvertDetected(inputFormat, outputFormat, converterError);
      && (flow.Throw? && flow.exception.HTTPException? <==> outputFormat !in ValidOutputs(inputFormat))
      && (flow.Throw? && flow.exception.HTTPException? ==>
            flow.exception == HTTPException(400, "Cannot convert " + inputFormat + " to " + outputFormat))
      && (flow.Throw? && flow.exception.OtherException? <==>
            outputFormat in ValidOutputs(inputFormat) && converterError.Some?)
      && (flow.Return? <==> outputFormat in ValidOutputs(inputFormat) && converterError.None?)
  {
    if outputFormat in ValidOutputs(inputFormat) {
      RoutingIsTotal(inputFormat, outputFormat);
    }
  }

  /** A request is refused with 400 exactly when the rules do not allow the
      requested output for the detected input format. */
  lemma ConvertRejectsExactlyDisallowed(mime: string, filename: string, outputFormat: string,
                                        converterError: Option<string>)
    ensures var r := ConvertFile(Done(mime), filename, outputFormat, converterError);
      (r.ErrorResponse? && r.status == 400) <==> outputFormat !in ValidOutputs(DetectExtension(mime, filename))
  {
    DetectedOutcomes(DetectExtension(mime, filename), outputFormat, converterError);
  }

  /** A file is never converted to the format it already has: the request is
      refused with 400 by the rules before the image router, which would accept
      it, is reached. */
  lemma SameFormatRefused(mime: string, filename: string, converterError: Option<string>)
    ensures var ext := DetectExtension(mime, filename);
      ConvertFile(Done(mime), filename, ext, converterError) == ErrorResponse(400, "Cannot convert " + ext + " to " + ext)
  {
    var ext := DetectExtension(mime, filename);
    NoSelfConversion(ext);
    DetectedOutcomes(ext, ext, converterError);
  }

  /** The three routes to an image format from a document: a PDF goes to
      `pdf_to_image`, a Word file to `pdf_to_image` over its PDF rendering, and a
      presentation to `pptx_to_images`. All three are served under the name
      `converted.<image format>`, whatever the artifact. */
  lemma DocumentImageRoutes(inputFormat: string, outputFormat: string)
    requires inputFormat in ["pdf", "docx", "pptx"] && outputFormat in ["png", "jpg", "webp"]
    requires outputFormat in ValidOutputs(inputFormat)
    ensures RouteInput(inputFormat, outputFormat).Routed?
    ensures RouteInput(inputFormat, outputFormat).dispatch
            == Handled(if inputFormat == "pdf" then PdfToImage(outputFormat)
                       else if inputFormat == "docx" then DocxToImage(outputFormat)
                       else PptxToImages(outputFormat))
  {
    LowerOfLower(inputFormat);
  }

  /** A 500 comes only from a failing foreign call (saving or probing the
      upload, or the converter's library work); an allowed conversion whose
      calls succeed is always served. */
  lemma ServerErrorsComeFromForeignCalls(probe: Outcome<string>, filename: string,
                                         outputFormat: string, converterError: Option<string>)
    ensures var r := ConvertFile(probe, filename, outputFormat, converterError);
      (r.ErrorResponse? && r.status == 500) <==>
        (probe.Raised? || (outputFormat in ValidOutputs(DetectExtension(probe.value, filename)) && converterError.Some?))
    ensures probe.Done? && converterError.None? && outputFormat in ValidOutputs(DetectExtension(probe.value, filename))
      ==> ConvertFile(probe, filename, outputFormat, converterError).FileResponse?
  {
    if probe.Done? {
      DetectedOutcomes(DetectExtension(probe.value, filename), outputFormat, converterError);
    }
  }

  /** A MIME type libmagic does not recognise (any string outside `MIME_TO_EXT`). */
  const UnknownMime: string := "application/octet-stream"

  lemma UnknownMimeIsUnknown()
    ensures UnknownMime !in MimeToExt
  {
  }

  /** Each key of the rules can be the extension of a file name. */
  lemma RuleKeysAreExtensions()
    ensures forall k :: k in ConversionRules ==> k != "" && '/' !in k && '.' !in k && IsLower(k)
  {
    RulesAreLowerCase();
  }

  /** Every branch of the routing is reachable: for every input format of the
      rules, including 'jpeg', which only a file name can produce, and every
      output it allows, a file named `upload.<format>` is served. */
  lemma EveryRouteReachable(inputFormat: string, outputFormat: string)
    requires inputFormat in ConversionRules && outputFormat in ConversionRules[inputFormat]
    ensures ConvertFile(Done(UnknownMime), "upload" + "." + inputFormat, outputFormat, None)
            == FileResponse(RouteInput(inputFormat, outputFormat).dispatch.converter, "converted." + outputFormat)
  {
    UnknownMimeIsUnknown();
    RuleKeysAreExtensions();
    SuffixFallback(UnknownMime, "upload", inputFormat);
    LowerOfLower(inputFormat);
    assert Lower(inputFormat) == inputFormat;
    RoutingIsTotal(inputFormat, outputFormat);
  }

  // ---------------------------------------------------------------------------
  // The advertised matrix
  // ---------------------------------------------------------------------------

  datatype SupportedFormats = SupportedFormats(
    inputFormats: seq<string>, outputFormats: seq<string>, conversionMatrix: map<string, seq<string>>)

  /** The body of `/api/supported-formats`. */
  function GetSupportedFormats(): SupportedFormats
  {
    SupportedFormats(
      ["pdf", "docx", "pptx", "txt", "png", "jpg", "webp"],
      ["pdf", "docx", "png", "jpg", "webp", "txt", "html"],
      map[
        "pdf"  := ["png", "jpg", "webp", "txt", "html", "docx"],
        "docx" := ["pdf", "txt", "html", "png", "jpg"],
        "pptx" := ["pdf", "png", "jpg"],
        "txt"  := ["pdf", "docx", "html"],
        "png"  := ["txt", "pdf", "jpg", "webp"],
        "jpg"  := ["txt", "pdf", "png", "webp"],
        "webp" := ["png", "jpg", "txt", "pdf"]
      ])
  }

  /** The advertised matrix agrees with the rules the converter enforces: its
      seven keys are the advertised input formats, every rule key but the alias
      'jpeg', and each lists exactly `get_valid_output_formats` of its key. */
  lemma SupportedFormatsMatchRules()
    ensures var s := GetSupportedFormats();
      && s.conversionMatrix.Keys == ConversionRules.Keys - {"jpeg"}
      && (forall k :: k in s.conversionMatrix ==> s.conversionMatrix[k] == ValidOutputs(k))
      && (forall f :: f in s.inputFormats <==> f in s.conversionMatrix)
  {
    var s := GetSupportedFormats();
    RulesAreLowerCase();
    forall k | k in s.conversionMatrix
      ensures s.conversionMatrix[k] == ValidOutputs(k)
    {
      LowerOfLower(k);
    }
  }

  /** The advertised output formats are exactly the outputs some rule allows. */
  lemma SupportedOutputsMatchRules(f: string)
    ensures f in GetSupportedFormats().outputFormats <==> exists k :: k in ConversionRules && f in ConversionRules[k]
  {
    if f in GetSupportedFormats().outputFormats {
      assert f in ConversionRules["pdf"] || f in ConversionRules["docx"];
    }
  }
}
