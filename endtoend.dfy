/** The client and the backend together: the replies the backend's handlers
    produce drive the client's workflow. A format the client offers after
    detection is one the backend converts, and a format outside that list,
    such as a tool page's pinned output that the file does not support, is
    refused and ends in the client's conversion error. */
module EndToEnd {
  import opened Common
  import opened PyStr
  import opened Rules
  import opened Api
  import opened Workflow

  /** How the client reads `/api/detect-format`'s response: a 400 is not `ok`. */
  function ToDetectionReply(r: DetectResponse): (reply: DetectionReply)
    ensures reply.Detected? <==> r.FormatInfo?
    ensures reply.Detected? ==> reply.inputFormat == r.inputFormat && reply.validOutputFormats == r.validOutputFormats
  {
    match r
    case FormatInfo(inputFormat, outputs, _) => Detected(inputFormat, outputs)
    case DetectError(_, _) => DetectFailed
  }

  /** How the client reads `/api/convert`'s response, where `size` is the number
      of bytes of the converted file the backend serves. */
  function ToConversionReply(r: ConvertResponse, size: nat): (reply: ConversionReply)
    ensures reply.Payload? <==> r.FileResponse?
    ensures reply.Payload? ==> reply.size == size
  {
    match r
    case FileResponse(_, _) => Payload(size)
    case ErrorResponse(_, _) => ConvertFailed
  }

  /** Every format the client offers after a successful detection is converted
      by the backend for the same upload, once the converter's own work succeeds. */
  lemma OfferedFormatIsServed(mime: string, filename: string, choice: string)
    requires choice in DetectFileFormat(Done(mime), filename).validOutputFormats
    ensures ConvertFile(Done(mime), filename, choice, None).FileResponse?
    ensures ConvertFile(Done(mime), filename, choice, None).filename == "converted." + choice
  {
    ServerErrorsComeFromForeignCalls(Done(mime), filename, choice, None);
  }

  /** A format outside the offered list is refused with 400 before any
      converter runs. */
  lemma UnofferedFormatIsRefused(mime: string, filename: string, choice: string, converterError: Option<string>)
    requires choice !in DetectFileFormat(Done(mime), filename).validOutputFormats
    ensures ConvertFile(Done(mime), filename, choice, converterError)
            == ErrorResponse(400, "Cannot convert " + DetectExtension(mime, filename) + " to " + choice)
  {
    DetectedOutcomes(DetectExtension(mime, filename), choice, converterError);
  }

  /** What the client sees of detection is what the backend decided: the
      upload is shown as detected exactly when probing it succeeded, with the
      backend's format and the rules' outputs for it, which never include the
      detected format itself. */
  lemma DetectionReplyMatchesBackend(probe: Outcome<string>, filename: string)
    ensures var reply := ToDetectionReply(DetectFileFormat(probe, filename));
      && (reply.Detected? <==> probe.Done?)
      && (reply.Detected? ==>
            && reply.inputFormat == DetectExtension(probe.value, filename)
            && reply.validOutputFormats == ValidOutputs(reply.inputFormat)
            && reply.inputFormat !in reply.validOutputFormats)
  {
    if probe.Done? {
      NoSelfConversion(DetectExtension(probe.value, filename));
    }
  }

  /** What the client sees of a conversion is what the backend decided: a
      payload arrives exactly when probing succeeded, the rules allow the
      requested format for the detected input, and the converter ran. */
  lemma ConversionReplyMatchesBackend(probe: Outcome<string>, filename: string, choice: string,
                                      converterError: Option<string>, size: nat)
    ensures ToConversionReply(ConvertFile(probe, filename, choice, converterError), size).Payload?
            <==> && probe.Done?
                 && choice in ValidOutputs(DetectExtension(probe.value, filename))
                 && converterError.None?
  {
    ServerErrorsComeFromForeignCalls(probe, filename, choice, converterError);
    if probe.Done? {
      ConvertRejectsExactlyDisallowed(probe.value, filename, choice, converterError);
    }
  }

  /** The part of a session from the convert click on: the request leaves with
      the selection as it stands, the interval fires `ticks` times while it is
      in flight, and the backend's reply comes in. `probe` is what saving and
      probing the uploaded copy gave the backend, and `converterError` the
      exception the converter raised, if any. The download happens exactly when
      the probe succeeded, the backend allows the selected format for the
      detected input, the converter ran and the converted file is not empty;
      a 400 and a 500 alike end in the client's conversion error. */
  method ConvertSelection(feature: ConverterFeature, probe: Outcome<string>, converterError: Option<string>,
                          ticks: nat, size: nat) returns (download: Option<string>)
    requires feature.Valid() && !feature.isConverting
    requires feature.uploadedFile.Some? && feature.selectedFormat != ""
    modifies feature
    ensures feature.Valid()
    ensures feature.uploadedFile == old(feature.uploadedFile) && feature.selectedFormat == old(feature.selectedFormat)
    ensures feature.inputFormat == old(feature.inputFormat) && feature.validFormats == old(feature.validFormats)
    ensures download.Some? <==>
              && probe.Done?
              && feature.selectedFormat in ValidOutputs(DetectExtension(probe.value, feature.uploadedFile.value.name))
              && converterError.None?
              && size > 0
    ensures download.Some? ==> download.value == "converted." + feature.selectedFormat && feature.resetScheduled
    ensures download.None? ==> feature.error == ConvertErrorMessage && !feature.isConverting
  {
    var file := feature.uploadedFile.value;
    var choice := feature.selectedFormat;
    var started := feature.StartConvert();
    assert started;
    var t := 0;
    while t < ticks
      invariant 0 <= t <= ticks
      invariant feature.Valid() && feature.pending == Some(Request(file, choice))
      invariant feature.progress == ProgressAfter(t)
      invariant feature.ticking <==> t < 10
      invariant feature.uploadedFile == Some(file) && feature.selectedFormat == choice
      invariant feature.inputFormat == old(feature.inputFormat) && feature.validFormats == old(feature.validFormats)
    {
      ProgressAfterTicks(t);
      if feature.ticking {
        feature.Tick();
      }
      t := t + 1;
      ProgressAfterTicks(t);
    }
    var response := ConvertFile(probe, file.name, choice, converterError);
    ConversionReplyMatchesBackend(probe, file.name, choice, converterError, size);
    download := feature.FinishConvert(ToConversionReply(response, size));
  }

  /** What the backend's save and probe of the uploaded copy give: the file's
      MIME type, or the exception saving raised. */
  function ProbeOf(mime: string, saveError: Option<string>): (probe: Outcome<string>)
    ensures probe.Done? <==> saveError.None?
    ensures probe.Done? ==> probe.value == mime
  {
    match saveError
    case None => Done(mime)
    case Some(message) => Raised(message)
  }

  /** A whole session on a fresh file: upload, detection, a click on one of the
      offered formats, the conversion and its reply. The offered formats are
      the backend's; the chosen one is served unless saving the second upload
      or the converter raises, or the converted file is empty. */
  method UploadAndConvert(feature: ConverterFeature, file: File, mime: string, choice: string,
                          saveError: Option<string>, converterError: Option<string>,
                          ticks: nat, size: nat) returns (download: Option<string>)
    requires feature.Valid() && feature.uploadedFile.None?
    requires choice in ValidOutputs(DetectExtension(mime, file.name))
    modifies feature
    ensures feature.Valid()
    ensures feature.validFormats == ValidOutputs(DetectExtension(mime, file.name))
    ensures feature.selectedFormat == choice && feature.SelectionOffered()
    ensures download == (if saveError.None? && converterError.None? && size > 0
                         then Some("converted." + choice) else None)
    ensures download.None? ==> feature.error == ConvertErrorMessage && !feature.isConverting
  {
    var offered := ValidOutputs(DetectExtension(mime, file.name));
    var reply := ToDetectionReply(DetectFileFormat(Done(mime), file.name));
    DetectionReplyMatchesBackend(Done(mime), file.name);
    assert reply == Detected(DetectExtension(mime, file.name), offered);
    feature.HandleFileUpload(file);
    feature.DetectionReceived(reply);
    feature.SelectFormat(choice);
    OfferedOutputIsNamed(DetectExtension(mime, file.name), choice);
    download := ConvertSelection(feature, ProbeOf(mime, saveError), converterError, ticks, size);
  }

  /** A session on a tool page that pins the output format, where the user
      leaves it as it is. The download happens exactly when the pinned format
      is among the offered ones and the backend's foreign calls succeed. An
      unlisted pin is still sent, the backend refuses it with 400, and the
      client shows its conversion error. */
  method PinnedUploadAndConvert(feature: ConverterFeature, file: File, mime: string,
                                saveError: Option<string>, converterError: Option<string>,
                                ticks: nat, size: nat) returns (download: Option<string>)
    requires feature.Valid() && feature.uploadedFile.None?
    requires feature.initialOutputFormat != "" && feature.selectedFormat == feature.initialOutputFormat
    modifies feature
    ensures feature.Valid()
    ensures feature.validFormats == ValidOutputs(DetectExtension(mime, file.name))
    ensures feature.selectedFormat == feature.initialOutputFormat
    ensures download.Some? <==>
              feature.initialOutputFormat in feature.validFormats && saveError.None? && converterError.None? && size > 0
    ensures download.Some? ==> download.value == "converted." + feature.initialOutputFormat
    ensures download.None? ==> feature.error == ConvertErrorMessage && !feature.isConverting
    ensures feature.initialOutputFormat !in feature.validFormats ==>
              ConvertFile(Done(mime), file.name, feature.initialOutputFormat, converterError)
              == ErrorResponse(400, "Cannot convert " + DetectExtension(mime, file.name) + " to " + feature.initialOutputFormat)
  {
    var reply := ToDetectionReply(DetectFileFormat(Done(mime), file.name));
    DetectionReplyMatchesBackend(Done(mime), file.name);
    feature.HandleFileUpload(file);
    feature.DetectionReceived(reply);
    download := ConvertSelection(feature, ProbeOf(mime, saveError), converterError, ticks, size);
    if feature.initialOutputFormat !in feature.validFormats {
      UnofferedFormatIsRefused(mime, file.name, feature.initialOutputFormat, converterError);
    }
  }

  /** The race a late detection reply opens on the home page: a PDF is
      uploaded and removed before its reply arrives, a text file is uploaded,
      the PDF's reply arrives and the user picks png from its list, then the
      text file's reply arrives. The selection is no longer offered, the
      convert button sends png for the text file, and although every foreign
      call succeeds and the reply would not be empty, the backend's 400 ends
      in the client's conversion error. */
  method LateDetectionReply() returns (feature: ConverterFeature, download: Option<string>)
    ensures feature.Valid() && feature.initialOutputFormat == ""
    ensures feature.uploadedFile == Some(File("notes.txt", 100))
    ensures feature.validFormats == ValidOutputs("txt") && feature.selectedFormat == "png"
    ensures !feature.SelectionOffered()
    ensures ConvertFile(Done("text/plain"), "notes.txt", "png", None) == ErrorResponse(400, "Cannot convert txt to png")
    ensures download.None? && feature.error == ConvertErrorMessage
  {
    var scan := File("scan.pdf", 1000);
    var notes := File("notes.txt", 100);
    feature := new ConverterFeature("", "");
    feature.HandleFileUpload(scan);
    feature.RemoveFile();
    feature.HandleFileUpload(notes);
    KnownMimeDecides("application/pdf", scan.name);
    KnownMimeDecides("text/plain", notes.name);
    LowerOfLower("pdf");
    LowerOfLower("txt");
    feature.DetectionReceived(ToDetectionReply(DetectFileFormat(Done("application/pdf"), scan.name)));
    feature.SelectFormat("png");
    feature.DetectionReceived(ToDetectionReply(DetectFileFormat(Done("text/plain"), notes.name)));
    UnofferedFormatIsRefused("text/plain", notes.name, "png", None);
    download := ConvertSelection(feature, Done("text/plain"), None, 10, 100);
  }
}
