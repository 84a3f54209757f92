# Universal File Converter — a Dafny model of its core

The Universal File Converter is a web application. A browser component
(`ConverterFeature`) lets the user drop a file. It asks the backend which
format the file is and what it can be converted to. Once the user picks an
output format, it uploads the file again for conversion, shows a progress bar
and downloads the result. The backend is a FastAPI service that handles three
jobs:
- it detects the format from the MIME type libmagic reports, falling back to
  the file name's suffix;
- it checks the requested conversion against a fixed rules table and routes it
  to one of five per-input routers;
- it converts the file with document and image libraries.

A background task deletes uploaded and converted files older than an hour.

This project models that core and proves properties of it:

- `Common` (common.dfy) and `PyStr` (pystr.dfy) hold shared datatypes and the
  Python `str` semantics the backend relies on: `lower`, `split`, `join`,
  `replace`, `rfind`, `str(int)`, `isspace` and slicing.
- `Rules` (rules.dfy) holds `get_valid_output_formats` and the five
  `convert_*_to_format` routers.
- `Converters` (converters.dfy) models how the converters assemble what the
  libraries give them:
  - zip archives of numbered images;
  - text joined from pages and paragraphs;
  - HTML wrapping;
  - the y-cursor pagination of `txt_to_pdf`;
  - the slide layout of `pptx_to_pdf`.
- `Api` (api.dfy) covers the request handlers of `main.py`:
  - format detection;
  - validation, routing and the exception-to-status mapping of `convert_file`;
  - the advertised conversion matrix.
- `Cleanup` (cleanup.dfy) holds the age predicate and one sweep of the cleanup
  task, as a `Storage` class over the two directories.
- `Workflow` (workflow.dfy) holds the `ConverterFeature` class: its seven
  pieces of state, with one method per handler and timer step.
  - Each `fetch` is split at its `await`. The reply comes in as a parameter of
    the second half.
  - The 200 ms progress interval and the 1500 ms reset are methods the
    environment calls.
- `EndToEnd` (endtoend.dfy) connects the two tiers: the backend's responses
  drive the client's workflow.

Everything the libraries compute is a parameter. This covers libmagic's MIME
type, the page images and page texts, docx paragraphs, slide shapes and
reportlab's line wrapping. The clock and directory listings are parameters
too. An exception a foreign call raises is an `Outcome.Raised` or an
`Option.Some` message.

Where the design documentation and the code disagree, the model follows
the code:
- **Selection outside the list.** The documentation says a selection is always
  a member of the valid list. The selector (`FormatSelector`) offers only the
  listed formats, so a click keeps that true
  (`Workflow.ConverterFeature.SelectFormat`). Two paths still break it:
  - A pinned output format stays selected even when detection does not list
    it: neither the upload nor the detection reply clears it. The convert
    button is then enabled, and the backend refuses the request with 400
    (`EndToEnd.PinnedUploadAndConvert`, `EndToEnd.UnofferedFormatIsRefused`).
    No page in the repository passes pinned formats: the home page renders
    `<ConverterFeature />` without props (frontend/app/page.tsx:46), and the
    tool pages import the component without rendering it.
  - Nothing discards a detection reply that arrives after its file was removed
    or replaced. The reply is applied whenever it arrives: `DetectionReceived`
    has no precondition beyond the class invariant. A choice made from a late
    reply's list survives the current file's reply, and the conversion ends
    in the backend's 400 (`EndToEnd.LateDetectionReply`).
- **Shared error message.** An empty converted file and a failed request
  produce the same message, "Conversion failed. Please try again." The
  documentation lists them as distinct errors.
- **Unknown formats.** Detection does not fail for an unknown format. It
  returns the suffix with an empty list of outputs (`Api.DetectFileFormat`).
  The documentation promises a non-empty list on success.
- **Failed detection.** A failed detection leaves the valid formats as they
  were rather than emptying them.

## Model

| member | source | states |
|---|---|---|
| PyStr.LowerIdempotent | backend/converters.py:35 | lower-casing an already lower-cased key changes nothing |
| PyStr.LastIndexOf | backend/main.py:144 | `rfind` returns the index of the last occurrence, with no later occurrence, or -1 when the character is absent |
| PyStr.JoinSplit | backend/converters.py:379 | joining the pieces of `s.split(c)` with `c` gives `s` back |
| PyStr.SplitJoin | backend/converters.py:205 | splitting a join of separator-free pieces gives the pieces back |
| PyStr.ReplaceIsJoinOfSplit | backend/converters.py:396 | `s.replace(c, r)` equals `r.join(s.split(c))` |
| PyStr.ReplaceRemoves | backend/main.py:144 | after `replace('.', '')` no dot is left |
| PyStr.DecimalInjective | backend/converters.py:78 | different numbers are spelled differently by `str(i)` |
| PyStr.Truncate | backend/converters.py:281 | `s[:n]` is a prefix of `s` of length `min(n, len(s))` |
| Rules.ValidOutputs | backend/converters.py:21-35 | the list is non-empty exactly when the lower-cased format is a key of the rules table |
| Rules.ValidOutputsIgnoresCase | backend/converters.py:35 | the lookup gives the same list for `s` and `s.lower()` |
| Rules.UnknownFormatHasNoOutputs | backend/converters.py:35 | a format the table does not know, in any case, gets `[]` |
| Rules.RulesAreLowerCase | backend/converters.py:25-34 | every key and every output of the table is lower case |
| Rules.NoSelfConversion | backend/converters.py:25-34 | no format, in any capitalisation, lists itself as an output |
| Rules.JpegIsJpg | backend/converters.py:31-32 | 'jpeg' in any case has the same outputs as 'jpg' |
| Rules.ConvertPdfToFormat | backend/converters.py:42-55 | handles exactly the outputs the 'pdf' rule lists, each with a converter producing that format; any other output raises `ValueError` with the "PDF to" message |
| Rules.ConvertDocxToFormat | backend/converters.py:154-169 | handles exactly the 'docx' rule's outputs, each with a converter producing that format; any other output raises the "DOCX to" `ValueError` |
| Rules.ConvertPptxToFormat | backend/converters.py:248-257 | handles exactly the 'pptx' rule's outputs, each with a converter producing that format; any other output raises the "PPTX to" `ValueError` |
| Rules.ConvertTxtToFormat | backend/converters.py:316-327 | handles exactly the 'txt' rule's outputs, each with a converter producing that format; any other output raises the "TXT to" `ValueError` |
| Rules.ConvertImageToFormat | backend/converters.py:422-433 | handles exactly the outputs of the union of the image rules; any other output raises the "Image to" `ValueError` |
| Rules.ImageRouterCoversImageRules | backend/converters.py:422-433 | for png, jpg, jpeg and webp, every output the rule lists is handled; every other output except the image's own format (and 'jpg' for 'jpeg') is refused |
| Rules.ImageRouterAcceptsSameFormat | backend/converters.py:430-431 | for png, jpg and webp the image router accepts the image's own format, although no rule lists it |
| Converters.EntryNamesDistinct | backend/converters.py:78 | entries with different numbers get different names |
| Converters.NumberedEntriesDistinct | backend/converters.py:75-78 | the names of a numbered archive are pairwise different |
| Converters.PdfToImage | backend/converters.py:58-79 | one page gives a single image file; any other count gives a zip of `page_1.<fmt>` to `page_n.<fmt>` in page order, with distinct names |
| Converters.PptxToImages | backend/converters.py:290-309 | always a zip of `slide_1.<fmt>` to `slide_n.<fmt>`, one per slide, each holding the placeholder image, with distinct names |
| Converters.PdfToTxt | backend/converters.py:82-98 | the non-empty page texts, in page order, joined by "\n\n" |
| Converters.PdfToHtml | backend/converters.py:101-133 | the HTML head, one `<div class='page'>` per non-empty page in page order, and the tail |
| Converters.PageDivHasNoNewline | backend/converters.py:113 | a page's div holds no raw line break |
| Converters.DocxToTxt | backend/converters.py:192-207 | every paragraph, in order, joined by "\n" |
| Converters.TxtToDocx | backend/converters.py:368-383 | one paragraph per line of `text.split('\n')` |
| Converters.TxtDocxTxtRoundTrip | backend/converters.py:379-380 | a text converted to paragraphs and joined back by "\n" is unchanged |
| Converters.DocxTxtDocxRoundTrip | backend/converters.py:201-205 | paragraphs without line breaks survive a join and a split; no paragraphs come back as one empty one |
| Converters.DocxToHtml | backend/converters.py:210-241 | one `<p>` per paragraph whose stripped text is non-empty, in order, inside the document's head and tail |
| Converters.TxtToHtmlBreaksEveryLine | backend/converters.py:386-415 | of `TxtToHtml`, txt_to_html: the page holds every line of the text in order, with `<br>` and a line break between consecutive lines |
| Converters.BreakPageIfFull | backend/converters.py:351-353 | a page is ended exactly when the cursor is below 50, and the cursor is then back at the top, 742 |
| Converters.DrawLine | backend/converters.py:358-362 | one wrapped piece is drawn at the cursor, after ending a full page, keeping the layout invariant |
| Converters.DrawWrapped | backend/converters.py:356-362 | the wrapped pieces of one line are drawn in order, keeping the layout invariant |
| Converters.TxtToPdf | backend/converters.py:330-365 | every string is drawn at x = 50 with 50 <= y <= 742 at the cursor, a page ends only once the cursor is below 50, and the drawn texts are all wrapped lines in order |
| Converters.CursorCountsLines | backend/converters.py:348-362 | the cursor is 742 minus 15 for every line drawn since the last page break |
| Converters.TxtPageCapacity | backend/converters.py:348-362 | a page holds at most 47 lines, and every ended page holds exactly 47 |
| Converters.DrawShapes | backend/converters.py:279-282 | one line per shape that has a `text` attribute, from y = 700 down in steps of 20 |
| Converters.PptxToPdf | backend/converters.py:260-287 | the heading "Slide i" at (100, 750) and the shape lines for every slide, each slide ending its page |
| Converters.ShapeTextsTruncated | backend/converters.py:279-282 | every shape line is in the body column, at most 80 characters long, and a prefix of the text of one of the slide's shapes |
| Converters.PresentationLayout | backend/converters.py:275-284 | one page per slide; every line below the heading holds at most 80 characters |
| Api.BaseName | backend/main.py:144 | the name holds no '/', and a path without '/' is its own name |
| Api.Suffix | backend/main.py:144 | the suffix is empty or a dot followed by at least one non-dot character |
| Api.DetectExtension | backend/main.py:140-144 | the detected format is always lower case and never holds a dot |
| Api.KnownMimeDecides | backend/main.py:140 | a MIME type of `MIME_TO_EXT` decides the format whatever the file name |
| Api.SuffixFallback | backend/main.py:142-144 | for any other MIME type, a file `stem.ext` is detected as `ext` lower-cased |
| Api.DetectFileFormat | backend/main.py:122-161 | detection fails with 400 exactly when saving or probing raised; otherwise it returns the detected format, `get_valid_output_formats` of it (possibly empty) and the file name |
| Api.RouteInput | backend/main.py:207-218 | the if/elif chain falls through to "Unsupported input format" exactly for formats the rules do not know; a router that accepts targets the requested output |
| Api.RoutingIsTotal | backend/main.py:207-218 | every allowed conversion of a lower-case format reaches a router branch, is handled, and targets the requested output |
| Api.ConvertDetected | backend/main.py:195-226 | the check, routing and conversion after detection: only an allowed output whose converter ran is returned, named `converted.<output>` and produced for it; every `HTTPException` is 400 |
| Api.ConvertFileBody | backend/main.py:178-226 | the `try` block: a returned file comes from a successful probe and an allowed output, is named `converted.<output>` and was produced for it; every `HTTPException` is 400 |
| Api.ConvertFile | backend/main.py:164-237 | a served file is named `converted.<output>`, was produced for that output and was allowed by the rules for the detected input; every error is 400 or 500 |
| Api.DetectedOutcomes | backend/main.py:195-229 | after detection, the only `HTTPException` is the "Cannot convert" refusal, raised exactly when the output is not allowed; the only other exception is the converter's own; an allowed conversion whose converter runs is served |
| Api.ConvertRejectsExactlyDisallowed | backend/main.py:196-201 | a request is answered 400 exactly when the output is not in the detected format's valid list |
| Api.SameFormatRefused | backend/main.py:196-201 | converting a file to its own detected format is refused with 400 before the image router, which would accept it, is reached |
| Api.DocumentImageRoutes | backend/main.py:207-212 | a PDF, Word file or presentation converted to an image goes to `pdf_to_image`, to `pdf_to_image` over its PDF, or to `pptx_to_images` |
| Api.ServerErrorsComeFromForeignCalls | backend/main.py:228-234 | through `HandleErrors`, the `except` clauses: a 500 comes exactly from a failing save or probe, or from an allowed conversion whose converter raised |
| Api.EveryRouteReachable | backend/main.py:207-216 | for every input format of the rules, 'jpeg' included, and every output it allows, a file `upload.<format>` is served |
| Api.SupportedFormatsMatchRules | backend/main.py:240-260 | of `GetSupportedFormats`, the body of `/api/supported-formats`: the matrix's keys are the advertised inputs, every rule key but 'jpeg', each listing exactly `get_valid_output_formats` of the key |
| Api.SupportedOutputsMatchRules | backend/main.py:249 | the advertised outputs are exactly the outputs some rule allows |
| Cleanup.SweepDirectory | backend/main.py:86-92 | the loop over one directory keeps exactly the survivors and unlinks exactly the expired files, in listing order |
| Cleanup.SurvivorsExact | backend/main.py:88-91 | with `Expired` the age test of lines 88-90: an entry survives exactly when it is not a regular file more than an hour old, and is deleted exactly when it is |
| Cleanup.SweepPartitions | backend/main.py:87-91 | the kept and the deleted entries together are the listing, as a multiset |
| Cleanup.SweepIdempotent | backend/main.py:83-97 | a second pass at the same time deletes nothing |
| Cleanup.LaterSweepSubsumes | backend/main.py:83-97 | a pass at `now` followed by one at a later time leaves what the later pass alone leaves |
| Cleanup.Storage.CleanupPass | backend/main.py:84-92 | both directories keep exactly their survivors, and afterwards neither holds a file more than an hour old |
| Workflow.ProgressAfterTicks | frontend/components/ConverterFeature.tsx:78-86 | of `NextProgress`, the interval's functional update: after n ticks from 0 the bar shows 10n, and 90 from the ninth tick on |
| Workflow.ProgressMonotone | frontend/components/ConverterFeature.tsx:78-86 | the bar never moves back while the request is in flight and never passes 90 |
| Workflow.ConverterFeature.constructor | frontend/components/ConverterFeature.tsx:16-26 | no file, the props' formats, no valid formats, not converting, progress 0, no error |
| Workflow.ConverterFeature.HandleFileUpload | frontend/components/ConverterFeature.tsx:28-33 | the file is stored, the error cleared, and the selection cleared unless the output is pinned; nothing else changes |
| Workflow.ConverterFeature.DetectionReceived | frontend/components/ConverterFeature.tsx:53-65 | on success the detected format and list are stored and a pinned output is selected only if listed; on failure only the detection error is set; without a pinned output, a reply to an unchosen selection leaves it offered |
| Workflow.ConverterFeature.SelectFormat | frontend/components/FormatSelector.tsx:39-42 | a click on one of the offered formats selects it, so the selection is offered; nothing else changes |
| Workflow.ConverterFeature.StartConvert | frontend/components/ConverterFeature.tsx:68-95 | nothing changes without a file or a selection; otherwise converting, progress 0, no error, ticking, and the request captures the current file and format |
| Workflow.ConverterFeature.Tick | frontend/components/ConverterFeature.tsx:78-86 | the bar moves by 10 up to 90, never back, and the interval stops on the tick that finds 90 |
| Workflow.ConverterFeature.FinishConvert | frontend/components/ConverterFeature.tsx:97-136 | a non-empty reply downloads `converted.<captured format>`, shows 100 and arms the reset; anything else shows the conversion error and resets progress; either way the interval stops and file, format, input format and list are kept |
| Workflow.ConverterFeature.ResetAfterSuccess | frontend/components/ConverterFeature.tsx:121-128 | not converting, progress 0, no file, no valid formats, and input and output formats cleared unless pinned |
| Workflow.ConverterFeature.RemoveFile | frontend/components/ConverterFeature.tsx:165-170 | no file, no valid formats, input and output formats cleared unless pinned; nothing else changes |
| EndToEnd.DetectionReplyMatchesBackend | frontend/components/ConverterFeature.tsx:42-60 | the client shows a detected format exactly when the backend's probe succeeded, with the backend's format and `get_valid_output_formats` of it, which never lists the format itself |
| EndToEnd.ConversionReplyMatchesBackend | frontend/components/ConverterFeature.tsx:92-108 | the client receives a payload exactly when the probe succeeded, the rules allow the chosen format for the detected input, and the converter ran |
| EndToEnd.OfferedFormatIsServed | backend/main.py:196-229 | every format the client is offered after detection is converted and served as `converted.<format>` |
| EndToEnd.UnofferedFormatIsRefused | backend/main.py:196-201 | a format outside the offered list, such as an unlisted pinned output, is refused with 400 |
| EndToEnd.ConvertSelection | frontend/components/ConverterFeature.tsx:68-137 | from the convert click on, the download happens exactly when the backend's save and probe succeeded, it allows the selected format for the detected input, the converter ran and the file is not empty, and is named `converted.<format>`; a 400 or a 500 shows the conversion error |
| EndToEnd.UploadAndConvert | frontend/components/ConverterFeature.tsx:28-137 | after upload, detection and a click on an offered format, the client's list is the backend's, and the chosen format is served exactly when saving the second upload and the converter succeed and the file is not empty |
| EndToEnd.PinnedUploadAndConvert | frontend/components/ConverterFeature.tsx:28-137 | on a page that pins the output, the download happens exactly when the pinned format is listed and the backend's foreign calls succeed; an unlisted pin is refused by the backend with the "Cannot convert" 400 and the conversion error shows |
| EndToEnd.LateDetectionReply | frontend/components/ConverterFeature.tsx:28-66 | a reply for a removed PDF, a png chosen from its list, then the text file's reply: the selection is not offered, the backend answers "Cannot convert txt to png" with 400, and although every foreign call succeeds and the payload would not be empty, the conversion ends in the error |

## Left out

- The libraries are not modelled. This covers pdf2image, pdfplumber, pdf2docx, python-docx, python-pptx, Pillow, pytesseract, pdfkit/wkhtmltopdf and reportlab's font metrics. Their results are parameters. Five converters appear only as `Rules.Converter` values, and the exception that escapes one of them, if any, is the parameter `converterError` of `Api.ConvertFile`:
  - `pdf_to_docx`, `image_to_pdf` and `image_to_image` do nothing but call the libraries;
  - `docx_to_pdf` (backend/converters.py:172-189) runs `docx_to_html` (modelled as `Converters.DocxToHtml`) and then pdfkit, retrying pdfkit without its configuration after an `OSError`; the retry is not modelled;
  - `image_to_txt_ocr` (backend/converters.py:436-456) catches every exception of the OCR.
- Api.ServerErrorsComeFromForeignCalls: for image to txt, `converterError` can only be a failure to write the output file. A failed OCR raises nothing: its message, "OCR Error: …" followed by "Make sure Tesseract is installed.", is written as the text and served with status 200 as `converted.txt`. The model does not represent the content of that file.
- Converters.PdfToTxt: a page whose `extract_text()` returns `None` is given as the empty string, which the truth test treats alike.
- Converters.TxtToPdf: reportlab's `simpleSplit` is the parameter `wrap`; the width it wraps to is not modelled.
- File system and process I/O are not modelled: the temporary and unique file names (`uuid4`), writing the upload, unlinking the temporary file, and `print` logging.
- HTTP plumbing is not modelled: the rate limiter, CORS, caching headers, the `/` health endpoint and `FileResponse`'s media type.
- PyStr.Lower: lower-cases ASCII letters only; Python's full Unicode `str.lower` is not modelled.
- Api.BaseName: takes what follows the last '/'; pathlib's normalisation (trailing slashes, `.` components, a missing file name) is not modelled.
- Api.DetectFileFormat: an exception raised before `temp_path` is bound, which would make the handler's own `except` block fail, is not modelled.
- Cleanup.Storage.CleanupPass: an exception part-way through a pass, which ends that pass early, is not modelled; neither is the ten-minute `asyncio.sleep` between passes.
- Cleanup.Expired: times are integer microseconds; the float `st_mtime` and its rounding by `fromtimestamp` are not modelled.
- Workflow.ConverterFeature.StartConvert: requires that no conversion runs. The convert button is rendered only then, so overlapping conversions of one component, with two intervals, are not modelled.
- Workflow.ConverterFeature.DetectionReceived: the model does not track which upload a reply belongs to. Any reply may arrive at any time, which includes every real interleaving.
- The component's rendering is not modelled (the KB size display, `toUpperCase`, the progress component), nor the object URL of the download.
- Three routes produce a zip archive, yet `convert_file` serves each under the name `converted.<image format>` (backend/main.py:226, `Api.DocumentImageRoutes`). The model records the names and the artifacts but does not judge the mismatch. The three routes are:
  - a PDF of other than one page to png, jpg or webp (`Converters.PdfToImage`);
  - a presentation to png or jpg, which is always a zip (`Converters.PptxToImages`, backend/converters.py:290-309);
  - a Word file to png or jpg, which goes through `pdf_to_image` on its PDF rendering (backend/converters.py:164-166) and so is a zip unless that rendering has one page.
- `docx_to_pdf` is a library call, so the page count of a Word file's PDF rendering is a parameter of `Converters.PdfToImage`, not derived from the paragraphs.
- The selector's rendering is not modelled beyond its buttons: it renders nothing for an empty list, and `Workflow.ConverterFeature.SelectFormat` accepts only listed formats, which an empty list has none of.
