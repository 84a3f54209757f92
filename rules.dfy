/** The backend's conversion rules: which output formats each input format may be
    converted to, and the five routers that pick a converter for an output format
    or raise `ValueError` (backend/converters.py). */
module Rules {
  import opened PyStr

  /** The `conversion_rules` dictionary of `get_valid_output_formats`. */
  const ConversionRules: map<string, seq<string>> := map[
    "pdf"  := ["png", "jpg", "webp", "txt", "html", "docx"],
    "docx" := ["pdf", "txt", "html", "png", "jpg"],
    "pptx" := ["pdf", "png", "jpg"],
    "txt"  := ["pdf", "docx", "html"],
    "png"  := ["txt", "pdf", "jpg", "webp"],
    "jpg"  := ["txt", "pdf", "png", "webp"],
    "jpeg" := ["txt", "pdf", "png", "webp"],
    "webp" := ["png", "jpg", "txt", "pdf"]
  ]

  /** `get_valid_output_formats`: the rule for the lower-cased input format, or
      `[]` for a format the table does not know. */
  function ValidOutputs(inputFormat: string): (r: seq<string>)
    ensures r != [] <==> Lower(inputFormat) in ConversionRules
  {
    var key := Lower(inputFormat);
    if key in ConversionRules then ConversionRules[key] else []
  }

  /** The lookup ignores case: `f(s) == f(s.lower())`. */
  lemma ValidOutputsIgnoresCase(s: string)
    ensures ValidOutputs(s) == ValidOutputs(Lower(s))
  {
    LowerIdempotent(s);
  }

  /** A key the table does not hold, in any capitalisation, has no outputs. */
  lemma UnknownFormatHasNoOutputs(s: string)
    requires Lower(s) !in ConversionRules
    ensures ValidOutputs(s) == []
  {
  }

  /** Every format the table names, as key or as output, is lower case. */
  lemma RulesAreLowerCase()
    ensures forall k :: k in ConversionRules ==> IsLower(k)
    ensures forall k, o :: k in ConversionRules && o in ConversionRules[k] ==> IsLower(o)
  {
  }

  /** Every output the rules offer is a real format name, never empty. */
  lemma OfferedOutputIsNamed(s: string, o: string)
    requires o in ValidOutputs(s)
    ensures o != ""
  {
    var key := Lower(s);
    assert key in ConversionRules && o in ConversionRules[key];
    assert |o| >= 3 by {
      assert key in {"pdf", "docx", "pptx", "txt", "png", "jpg", "jpeg", "webp"};
    }
  }

  /** No format converts to itself, whatever its capitalisation. */
  lemma {:induction false} NoSelfConversion(s: string)
    ensures s !in ValidOutputs(s)
  {
    var key := Lower(s);
    if key in ConversionRules && s in ConversionRules[key] {
      RulesAreLowerCase();
      LowerOfLower(s);
      assert false;
    }
  }

  /** 'jpeg' is an alias of 'jpg'. */
  lemma JpegIsJpg(s: string)
    requires Lower(s) == "jpeg"
    ensures ValidOutputs(s) == ValidOutputs("jpg")
  {
    LowerOfLower("jpg");
  }

  // ---------------------------------------------------------------------------
  // The convert_*_to_format routers
  // ---------------------------------------------------------------------------

  /** The converter a router hands the file to. */
  datatype Converter =
    | PdfToImage(imageFormat: string) | PdfToTxt | PdfToHtml | PdfToDocx
    | DocxToPdf | DocxToTxt | DocxToHtml | DocxToImage(imageFormat: string)
    | PptxToPdf | PptxToImages(imageFormat: string)
    | TxtToPdf | TxtToDocx | TxtToHtml
    | ImageToTxtOcr | ImageToPdf | ImageToImage(outputFormat: string)

  /** The format a converter is asked to produce. */
  function Target(c: Converter): string
  {
    match c
    case PdfToImage(f) => f
    case PdfToTxt => "txt"
    case PdfToHtml => "html"
    case PdfToDocx => "docx"
    case DocxToPdf => "pdf"
    case DocxToTxt => "txt"
    case DocxToHtml => "html"
    case DocxToImage(f) => f
    case PptxToPdf => "pdf"
    case PptxToImages(f) => f
    case TxtToPdf => "pdf"
    case TxtToDocx => "docx"
    case TxtToHtml => "html"
    case ImageToTxtOcr => "txt"
    case ImageToPdf => "pdf"
    case ImageToImage(f) => f
  }

  /** A router either hands the file to a converter or raises `ValueError`. */
  datatype Dispatch = Handled(converter: Converter) | ValueError(message: string)

  function ConvertPdfToFormat(outputFormat: string): (r: Dispatch)
    ensures r.Handled? <==> outputFormat in ConversionRules["pdf"]
    ensures r.Handled? ==> Target(r.converter) == outputFormat
    ensures r.ValueError? ==> r.message == "Unsupported conversion: PDF to " + outputFormat
  {
    if outputFormat in ["png", "jpg", "webp"] then Handled(PdfToImage(outputFormat))
    else if outputFormat == "txt" then Handled(PdfToTxt)
    else if outputFormat == "html" then Handled(PdfToHtml)
    else if outputFormat == "docx" then Handled(PdfToDocx)
    else ValueError("Unsupported conversion: PDF to " + outputFormat)
  }

  function ConvertDocxToFormat(outputFormat: string): (r: Dispatch)
    ensures r.Handled? <==> outputFormat in ConversionRules["docx"]
    ensures r.Handled? ==> Target(r.converter) == outputFormat
    ensures r.ValueError? ==> r.message == "Unsupported conversion: DOCX to " + outputFormat
  {
    if outputFormat == "pdf" then Handled(DocxToPdf)
    else if outputFormat == "txt" then Handled(DocxToTxt)
    else if outputFormat == "html" then Handled(DocxToHtml)
    else if outputFormat in ["png", "jpg"] then Handled(DocxToImage(outputFormat))
    else ValueError("Unsupported conversion: DOCX to " + outputFormat)
  }

  function ConvertPptxToFormat(outputFormat: string): (r: Dispatch)
    ensures r.Handled? <==> outputFormat in ConversionRules["pptx"]
    ensures r.Handled? ==> Target(r.converter) == outputFormat
    ensures r.ValueError? ==> r.message == "Unsupported conversion: PPTX to " + outputFormat
  {
    if outputFormat == "pdf" then Handled(PptxToPdf)
    else if outputFormat in ["png", "jpg"] then Handled(PptxToImages(outputFormat))
    else ValueError("Unsupported conversion: PPTX to " + outputFormat)
  }

  function ConvertTxtToFormat(outputFormat: string): (r: Dispatch)
    ensures r.Handled? <==> outputFormat in ConversionRules["txt"]
    ensures r.Handled? ==> Target(r.converter) == outputFormat
    ensures r.ValueError? ==> r.message == "Unsupported conversion: TXT to " + outputFormat
  {
    if outputFormat == "pdf" then Handled(TxtToPdf)
    else if outputFormat == "docx" then Handled(TxtToDocx)
    else if outputFormat == "html" then Handled(TxtToHtml)
    else ValueError("Unsupported conversion: TXT to " + outputFormat)
  }

  /** The image router serves png, jpg, jpeg and webp alike. It accepts every
      output that any of the four rules lists, so it also accepts a conversion of
      an image to its own format (png to png), which no rule allows. */
  function ConvertImageToFormat(outputFormat: string): (r: Dispatch)
    ensures r.Handled? <==> outputFormat in ConversionRules["png"] + ConversionRules["jpg"]
    ensures r.Handled? ==> Target(r.converter) == outputFormat
    ensures r.ValueError? ==> r.message == "Unsupported conversion: Image to " + outputFormat
  {
    if outputFormat == "txt" then Handled(ImageToTxtOcr)
    else if outputFormat == "pdf" then Handled(ImageToPdf)
    else if outputFormat in ["png", "jpg", "webp"] then Handled(ImageToImage(outputFormat))
    else ValueError("Unsupported conversion: Image to " + outputFormat)
  }

  /** The image formats that share the image router. */
  const ImageFormats: seq<string> := ["png", "jpg", "jpeg", "webp"]

  /** Every output an image rule lists is handled by the image router, and the
      router refuses every output outside the union of the image rules. */
  lemma ImageRouterCoversImageRules(inputFormat: string, outputFormat: string)
    requires inputFormat in ImageFormats
    ensures outputFormat in ConversionRules[inputFormat] ==> ConvertImageToFormat(outputFormat).Handled?
    ensures outputFormat !in ConversionRules[inputFormat] && outputFormat != inputFormat
            && !(inputFormat == "jpeg" && outputFormat == "jpg")
            ==> ConvertImageToFormat(outputFormat).ValueError?
  {
  }

  /** The image router's extra tolerance: each image format it writes is one it
      accepts as output for an image of that same format, which no rule allows. */
  lemma ImageRouterAcceptsSameFormat(f: string)
    requires f in ["png", "jpg", "webp"]
    ensures f !in ValidOutputs(f)
    ensures ConvertImageToFormat(f) == Handled(ImageToImage(f))
  {
    NoSelfConversion(f);
  }
}
