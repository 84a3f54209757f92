/** The client's conversion workflow (frontend/components/ConverterFeature.tsx):
    the component's seven pieces of state and the handlers that change them.
    The two `fetch` calls are split at their `await`: a handler's first part runs
    when the user acts, and its second part runs when the reply comes in, with the
    reply as a parameter. The 200 ms progress interval and the 1500 ms reset
    timer become step methods that the environment calls. */
module Workflow {
  import opened Common

  /** The browser `File` the user dropped: its name and its size in bytes. */
  datatype File = File(name: string, size: nat)

  /** What `handleFileUpload` gets back from `/api/detect-format`: the parsed
      body of an OK response, or a failure (a non-OK status, a network error or
      a body that does not parse). */
  datatype DetectionReply = Detected(inputFormat: string, validOutputFormats: seq<string>) | DetectFailed

  /** What `handleConvert` gets back from `/api/convert`: an OK response whose
      body holds `size` bytes, or a failure (a non-OK status or a network error). */
  datatype ConversionReply = Payload(size: nat) | ConvertFailed

  /** The values `handleConvert` captured when the user clicked: the request in flight. */
  datatype Request = Request(file: File, format: string)

  const DetectErrorMessage: string := "Error detecting file format. Please check console for details."
  const ConvertErrorMessage: string := "Conversion failed. Please try again."

  /** The progress interval's functional update: 10 more, until it reaches 90. */
  function NextProgress(prev: int): int
  {
    if prev >= 90 then 90 else prev + 10
  }

  /** The progress bar after `n` ticks of the interval, from 0. */
  function ProgressAfter(n: nat): int
  {
    if n == 0 then 0 else NextProgress(ProgressAfter(n - 1))
  }

  /** The bar moves by 10 per tick and stops at 90 after the ninth tick. */
  lemma {:induction false} ProgressAfterTicks(n: nat)
    ensures ProgressAfter(n) == if n >= 9 then 90 else 10 * n
  {
    if n > 0 {
      ProgressAfterTicks(n - 1);
    }
  }

  /** The bar never moves back while a request is in flight, and never passes 90. */
  lemma ProgressMonotone(m: nat, n: nat)
    requires m <= n
    ensures ProgressAfter(m) <= ProgressAfter(n) <= 90
  {
    ProgressAfterTicks(m);
    ProgressAfterTicks(n);
  }

  /** The `ConverterFeature` component. `initialInputFormat` and
      `initialOutputFormat` are its props: a tool page pins them, the home page
      leaves them empty. Besides the component's state, the class records the
      pending timers and the request in flight. */
  class ConverterFeature {
    const initialInputFormat: string
    const initialOutputFormat: string

    var uploadedFile: Option<File>
    var inputFormat: string
    var validFormats: seq<string>
    var selectedFormat: string
    var isConverting: bool
    var progress: int
    var error: string

    /** The conversion request in flight, as `handleConvert` captured it. */
    var pending: Option<Request>
    /** The 200 ms progress interval is armed. */
    var ticking: bool
    /** The 1500 ms reset after a successful download is armed. */
    var resetScheduled: bool

    /** The states the handlers keep: the bar is on screen exactly while a
        conversion runs or its success is being shown, moves in steps of 10 up
        to 90 while the request is in flight, and is full while the reset waits. */
    predicate Valid()
      reads this
    {
      && (ticking ==> pending.Some?)
      && (pending.Some? ==> isConverting && !resetScheduled && 0 <= progress <= 90 && progress % 10 == 0)
      && (resetScheduled ==> isConverting && progress == 100)
      && (isConverting ==> (pending.Some? || resetScheduled) && uploadedFile.Some?)
      && (!isConverting ==> progress == 0)
    }

    /** The chosen output format is none or one of the offered buttons. */
    predicate SelectionOffered()
      reads this
    {
      selectedFormat == "" || selectedFormat in validFormats
    }

    constructor (initialInputFormat: string, initialOutputFormat: string)
      ensures Valid()
      ensures this.initialInputFormat == initialInputFormat && this.initialOutputFormat == initialOutputFormat
      ensures uploadedFile.None? && inputFormat == initialInputFormat && validFormats == []
      ensures selectedFormat == initialOutputFormat && !isConverting && progress == 0 && error == ""
      ensures pending.None? && !ticking && !resetScheduled
    {
      this.initialInputFormat := initialInputFormat;
      this.initialOutputFormat := initialOutputFormat;
      uploadedFile := None;
      inputFormat := initialInputFormat;
      validFormats := [];
      selectedFormat := initialOutputFormat;
      isConverting := false;
      progress := 0;
      error := "";
      pending := None;
      ticking := false;
      resetScheduled := false;
    }

    /** `handleFileUpload` up to its `await`: the file is taken and shown at
        once, the old error is cleared, and the chosen format is forgotten
        unless the page pins one. The uploader is on screen only while no file
        is. */
    method HandleFileUpload(file: File)
      requires Valid() && uploadedFile.None?
      modifies this
      ensures Valid()
      ensures uploadedFile == Some(file) && error == ""
      ensures selectedFormat == (if initialOutputFormat == "" then "" else old(selectedFormat))
      ensures initialOutputFormat == "" ==> SelectionOffered()
      ensures inputFormat == old(inputFormat) && validFormats == old(validFormats)
      ensures isConverting == old(isConverting) && progress == old(progress)
      ensures pending == old(pending) && ticking == old(ticking) && resetScheduled == old(resetScheduled)
    {
      uploadedFile := Some(file);
      error := "";
      if initialOutputFormat == "" {
        selectedFormat := "";
      }
    }

    /** `handleFileUpload` after its `await`. A reply may come in at any time
        after the upload, even after the file was removed or a conversion
        started, and is applied as it is. On success the detected format and
        its outputs are shown, and a pinned output is selected only if it is
        among them; on failure only the error changes. Without a pinned output
        a reply keeps the selection among the offered formats when nothing was
        chosen before it; a late reply for an earlier upload, applied after a
        choice was made from its list, breaks that. */
    method DetectionReceived(reply: DetectionReply)
      requires Valid()
      modifies this
      ensures Valid()
      ensures reply.Detected? ==>
                && inputFormat == reply.inputFormat
                && validFormats == reply.validOutputFormats
                && selectedFormat == (if initialOutputFormat != "" && initialOutputFormat in reply.validOutputFormats
                                      then initialOutputFormat else old(selectedFormat))
                && error == old(error)
      ensures reply.DetectFailed? ==>
                && error == DetectErrorMessage
                && inputFormat == old(inputFormat) && validFormats == old(validFormats)
                && selectedFormat == old(selectedFormat)
      ensures initialOutputFormat == "" && old(selectedFormat) == "" ==> SelectionOffered()
      ensures reply.Detected? && initialOutputFormat != "" && initialOutputFormat in reply.validOutputFormats
              ==> SelectionOffered()
      ensures reply.DetectFailed? && old(SelectionOffered()) ==> SelectionOffered()
      ensures uploadedFile == old(uploadedFile) && isConverting == old(isConverting) && progress == old(progress)
      ensures pending == old(pending) && ticking == old(ticking) && resetScheduled == old(resetScheduled)
    {
      match reply
      case Detected(detectedFormat, outputs) =>
        inputFormat := detectedFormat;
        validFormats := outputs;
        if initialOutputFormat != "" && initialOutputFormat in outputs {
          selectedFormat := initialOutputFormat;
        }
      case DetectFailed =>
        error := DetectErrorMessage;
    }

    /** `onSelectFormat={setSelectedFormat}`: the selector is on screen only
        while a file is shown and no conversion runs, and its buttons are the
        offered formats. */
    method SelectFormat(format: string)
      requires Valid() && uploadedFile.Some? && !isConverting
      requires format in validFormats
      modifies this
      ensures Valid()
      ensures selectedFormat == format && SelectionOffered()
      ensures uploadedFile == old(uploadedFile) && inputFormat == old(inputFormat) && validFormats == old(validFormats)
      ensures isConverting == old(isConverting) && progress == old(progress) && error == old(error)
      ensures pending == old(pending) && ticking == old(ticking) && resetScheduled == old(resetScheduled)
    {
      selectedFormat := format;
    }

    /** `handleConvert` up to its `await`: without a file or a chosen format
        nothing happens; otherwise the bar appears at 0, the error is cleared,
        the interval is armed and the request leaves with the file and the
        format as they are now. The convert button is on screen only while no
        conversion runs. */
    method StartConvert() returns (started: bool)
      requires Valid() && !isConverting
      modifies this
      ensures Valid()
      ensures started <==> old(uploadedFile).Some? && old(selectedFormat) != ""
      ensures !started ==> unchanged(this)
      ensures started ==>
                && isConverting && progress == 0 && error == "" && ticking && !resetScheduled
                && pending == Some(Request(old(uploadedFile).value, old(selectedFormat)))
                && uploadedFile == old(uploadedFile) && selectedFormat == old(selectedFormat)
                && inputFormat == old(inputFormat) && validFormats == old(validFormats)
    {
      if uploadedFile.None? || selectedFormat == "" {
        return false;
      }
      isConverting := true;
      progress := 0;
      error := "";
      ticking := true;
      pending := Some(Request(uploadedFile.value, selectedFormat));
      started := true;
    }

    /** One firing of the 200 ms interval: the functional update of the bar;
        the firing that finds the bar at 90 clears the interval. */
    method Tick()
      requires Valid() && ticking
      modifies this
      ensures Valid()
      ensures progress == NextProgress(old(progress)) && old(progress) <= progress <= 90
      ensures ticking <==> old(progress) < 90
      ensures uploadedFile == old(uploadedFile) && inputFormat == old(inputFormat) && validFormats == old(validFormats)
      ensures selectedFormat == old(selectedFormat) && isConverting == old(isConverting) && error == old(error)
      ensures pending == old(pending) && resetScheduled == old(resetScheduled)
    {
      if progress >= 90 {
        ticking := false;
        progress := 90;
      } else {
        progress := progress + 10;
      }
    }

    /** `handleConvert` after its `await`. The interval is cleared either way.
        A non-empty file is downloaded as `converted.<format>` for the format
        captured at the click, the bar shows 100 and the reset is armed. A
        failed request or an empty file shows the error and hides the bar, and
        keeps the file and the format so that the user can try again. */
    method FinishConvert(reply: ConversionReply) returns (download: Option<string>)
      requires Valid() && pending.Some?
      modifies this
      ensures Valid()
      ensures pending.None? && !ticking
      ensures (reply.Payload? && reply.size > 0) ==>
                && download == Some("converted." + old(pending).value.format)
                && progress == 100 && isConverting && resetScheduled && error == old(error)
      ensures !(reply.Payload? && reply.size > 0) ==>
                && download.None?
                && error == ConvertErrorMessage && !isConverting && progress == 0 && !resetScheduled
      ensures uploadedFile == old(uploadedFile) && selectedFormat == old(selectedFormat)
      ensures inputFormat == old(inputFormat) && validFormats == old(validFormats)
    {
      var request := pending.value;
      ticking := false;
      pending := None;
      if reply.Payload? && reply.size > 0 {
        progress := 100;
        download := Some("converted." + request.format);
        resetScheduled := true;
      } else {
        error := ConvertErrorMessage;
        isConverting := false;
        progress := 0;
        download := None;
      }
    }

    /** The 1500 ms timer after a download: the bar goes, the file goes, the
        detected formats go, and the input and output formats are cleared
        unless the page pins them. */
    method ResetAfterSuccess()
      requires Valid() && resetScheduled
      modifies this
      ensures Valid()
      ensures !isConverting && progress == 0 && !resetScheduled
      ensures uploadedFile.None? && validFormats == []
      ensures inputFormat == (if initialInputFormat == "" then "" else old(inputFormat))
      ensures selectedFormat == (if initialOutputFormat == "" then "" else old(selectedFormat))
      ensures initialOutputFormat == "" ==> SelectionOffered()
      ensures error == old(error) && pending == old(pending) && ticking == old(ticking)
    {
      isConverting := false;
      progress := 0;
      resetScheduled := false;
      ClearFile();
    }

    /** The remove button, shown with the file while no conversion runs. */
    method RemoveFile()
      requires Valid() && uploadedFile.Some? && !isConverting
      modifies this
      ensures Valid()
      ensures uploadedFile.None? && validFormats == []
      ensures inputFormat == (if initialInputFormat == "" then "" else old(inputFormat))
      ensures selectedFormat == (if initialOutputFormat == "" then "" else old(selectedFormat))
      ensures initialOutputFormat == "" ==> SelectionOffered()
      ensures isConverting == old(isConverting) && progress == old(progress) && error == old(error)
      ensures pending == old(pending) && ticking == old(ticking) && resetScheduled == old(resetScheduled)
    {
      ClearFile();
    }

    /** The four updates the reset timer and the remove button share. */
    method ClearFile()
      modifies this
      ensures uploadedFile.None? && validFormats == []
      ensures inputFormat == (if initialInputFormat == "" then "" else old(inputFormat))
      ensures selectedFormat == (if initialOutputFormat == "" then "" else old(selectedFormat))
      ensures isConverting == old(isConverting) && progress == old(progress) && error == old(error)
      ensures pending == old(pending) && ticking == old(ticking) && resetScheduled == old(resetScheduled)
    {
      uploadedFile := None;
      if initialInputFormat == "" {
        inputFormat := "";
      }
      validFormats := [];
      if initialOutputFormat == "" {
        selectedFormat := "";
      }
    }
  }
}
