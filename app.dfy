/** The `/process` endpoint of the phase simulator service: validate an
    uploaded image's declared content type, decode it, pick one of two fixed
    filters from the phase label, encode the result as PNG and describe the
    response, or stop at the first failure with an HTTP error.

    Decoding, the two filters and PNG encoding are library calls on pixel
    data; they enter the model as the decode outcome and as function
    parameters. The filters are taken as total: an exception in one of them
    is not modelled. */
module App {
  import opened Wrappers
  import opened Text
  import opened Header

  /** The two accepted phases, one filter each. */
  datatype Phase = Arterial | Venous

  /** The four ways a request can fail. `EncodeError` is anything raised in
      the block that encodes the PNG and builds the response: the encoder
      itself, or a `Content-Disposition` header that is not Latin-1. */
  datatype ErrorKind = InvalidInput | DecodeError | InvalidPhase | EncodeError

  /** What `HTTPException` carries: a status code and a detail message. */
  datatype HttpError = HttpError(kind: ErrorKind, status: int, detail: string)

  /** The successful streaming response: media type, `Content-Disposition`
      header, the phase whose filter was applied and the encoded bytes. */
  datatype Response<Png> = Response(mediaType: string, contentDisposition: string, phase: Phase, body: Png)

  const ImagePrefix := "image/"
  const PngMediaType := "image/png"
  const InvalidTypeDetail := "Invalid file type. Please upload a valid image (JPG/PNG)."
  const DecodeDetailPrefix := "Invalid image file. Could not process: "
  const InvalidPhaseDetail := "Invalid phase. Must be 'arterial' or 'venous'."
  const EncodeDetailPrefix := "Error processing image: "

  /** The phase label as it appears after normalisation. */
  function PhaseName(p: Phase): string
  {
    match p
    case Arterial => "arterial"
    case Venous => "venous"
  }

  /** Client errors are 400; only a failure to encode the result or its
      header is 500. */
  function StatusOf(kind: ErrorKind): int
  {
    if kind == EncodeError then 500 else 400
  }

  function Fail(kind: ErrorKind, detail: string): HttpError
  {
    HttpError(kind, StatusOf(kind), detail)
  }

  /** The content-type guard: present, non-empty, and starting with "image/".
      Only the declared metadata is looked at. */
  predicate AcceptsContentType(contentType: Option<string>)
  {
    contentType.Some? && contentType.value != "" && StartsWith(contentType.value, ImagePrefix)
  }

  /** Phase dispatch: normalise, then compare with the two names exactly. */
  function SelectPhase(phase: string): Option<Phase>
  {
    var phaseLower := Normalise(phase);
    if phaseLower == PhaseName(Arterial) then Some(Arterial)
    else if phaseLower == PhaseName(Venous) then Some(Venous)
    else None
  }

  /** The filter the chosen phase applies: contrast for arterial, blur for
      venous. */
  function ApplyFilter<Img>(p: Phase, image: Img, arterial: Img -> Img, venous: Img -> Img): Img
  {
    match p
    case Arterial => arterial(image)
    case Venous => venous(image)
  }

  /** The `Content-Disposition` header of a successful response. */
  function Disposition(phaseLower: string, filename: string): string
  {
    "inline; filename=processed_" + phaseLower + "_" + filename
  }

  /** The whole handler. `decoded` is the outcome of opening the uploaded
      bytes and converting them to RGB (an error message on failure);
      `arterial`, `venous` and `encode` are the contrast filter, the blur
      filter and PNG encoding. The response can only be built when its
      header is Latin-1, which comes down to the filename. */
  function Process<Img, Png>(
    contentType: Option<string>, decoded: Result<Img, string>, phase: string, filename: string,
    arterial: Img -> Img, venous: Img -> Img, encode: Img -> Result<Png, string>
  ): (r: Result<Response<Png>, HttpError>)
    ensures r.Failure? ==> r.error.status == (if r.error.kind == EncodeError then 500 else 400)
    ensures r.Success? <==>
      && AcceptsContentType(contentType)
      && decoded.Success?
      && SelectPhase(phase).Some?
      && encode(ApplyFilter(SelectPhase(phase).value, decoded.value, arterial, venous)).Success?
      && Latin1(filename)
    ensures r.Success? ==>
      && Some(r.value.phase) == SelectPhase(phase)
      && r.value.mediaType == PngMediaType
      && r.value.contentDisposition == Disposition(PhaseName(r.value.phase), filename)
      && Success(r.value.body) == encode(ApplyFilter(r.value.phase, decoded.value, arterial, venous))
  {
    if !AcceptsContentType(contentType) then
      Failure(Fail(InvalidInput, InvalidTypeDetail))
    else match decoded
      case Failure(e) => Failure(Fail(DecodeError, DecodeDetailPrefix + e))
      case Success(image) =>
        match SelectPhase(phase)
        case None => Failure(Fail(InvalidPhase, InvalidPhaseDetail))
        case Some(p) =>
          DispositionLatin1(p, filename);
          Finish(p, ApplyFilter(p, image, arterial, venous), filename, encode)
  }

  /** The tail of the handler once a filter has run: encode to PNG, then
      build the response, whose header the framework encodes as Latin-1.
      A failure of either step is reported with the same prefix. */
  function Finish<Img, Png>(p: Phase, processed: Img, filename: string,
                            encode: Img -> Result<Png, string>): Result<Response<Png>, HttpError>
  {
    match encode(processed)
    case Failure(e) => Failure(Fail(EncodeError, EncodeDetailPrefix + e))
    case Success(png) =>
      var header := Disposition(PhaseName(p), filename);
      if Latin1(header) then Success(Response(PngMediaType, header, p, png))
      else Failure(Fail(EncodeError, EncodeDetailPrefix + EncodeErrorText(header)))
  }

  /** The HTTP status of the handler's outcome (a streaming response is 200). */
  function Status<Png>(r: Result<Response<Png>, HttpError>): int
  {
    match r
    case Success(_) => 200
    case Failure(e) => e.status
  }

  // ---------------------------------------------------------------------
  // Content-type guard

  /** A missing or non-image content type is rejected with 400 before the
      bytes are decoded or the phase is looked at: the outcome is the same
      whatever the decode outcome, phase, filename, filters and encoder. */
  lemma BadContentTypeRejected<Img, Png>(
    contentType: Option<string>, decoded: Result<Img, string>, phase: string, filename: string,
    arterial: Img -> Img, venous: Img -> Img, encode: Img -> Result<Png, string>)
    requires !AcceptsContentType(contentType)
    ensures Process(contentType, decoded, phase, filename, arterial, venous, encode)
         == Failure(HttpError(InvalidInput, 400, InvalidTypeDetail))
  {
  }

  /** Acceptance is a pure, case-sensitive prefix test: a content type passes
      exactly when it is "image/" followed by anything at all; the emptiness
      test in front of it never decides anything on its own. */
  lemma ContentTypePrefixOnly(contentType: string)
    ensures AcceptsContentType(Some(contentType)) <==> StartsWith(contentType, ImagePrefix)
    ensures AcceptsContentType(Some(contentType)) <==> exists rest :: contentType == ImagePrefix + rest
  {
    if StartsWith(contentType, ImagePrefix) {
      assert contentType == ImagePrefix + contentType[|ImagePrefix|..];
    }
  }

  lemma ContentTypeExamples()
    ensures !AcceptsContentType(None)
    ensures !AcceptsContentType(Some(""))
    ensures !AcceptsContentType(Some("IMAGE/PNG"))
    ensures !AcceptsContentType(Some("text/plain"))
    ensures AcceptsContentType(Some("image/"))
    ensures AcceptsContentType(Some("image/x-not-really-an-image"))
  {
    assert "IMAGE/PNG"[..|ImagePrefix|][0] != ImagePrefix[0];
    ContentTypePrefixOnly("image/");
    ContentTypePrefixOnly("image/x-not-really-an-image");
  }

  // ---------------------------------------------------------------------
  // Decoding

  /** Once the content type passes, a decode failure is a 400 naming the
      decoder's error, whatever the phase: decoding comes before dispatch, so
      a bad image outranks a bad phase. */
  lemma DecodeErrorPrecedence<Img, Png>(
    contentType: Option<string>, e: string, phase: string, filename: string,
    arterial: Img -> Img, venous: Img -> Img, encode: Img -> Result<Png, string>)
    requires AcceptsContentType(contentType)
    ensures Process(contentType, Failure(e), phase, filename, arterial, venous, encode)
         == Failure(HttpError(DecodeError, 400, DecodeDetailPrefix + e))
  {
  }

  // ---------------------------------------------------------------------
  // Phase dispatch

  /** Dispatch is exact string equality after normalisation, so the two
      branches exclude each other. */
  lemma SelectPhaseExact(phase: string, p: Phase)
    ensures SelectPhase(phase) == Some(p) <==> Normalise(phase) == PhaseName(p)
  {
  }

  lemma PhaseNamesStripped(p: Phase)
    ensures IsStripped(PhaseName(p))
  {
  }

  /** A phase label selects `p` exactly when it is the name of `p` in any
      mix of upper and lower case, with only whitespace around it. */
  lemma {:induction false} SelectPhaseMatches(phase: string, p: Phase)
    ensures SelectPhase(phase) == Some(p) <==>
      exists i: nat, j: nat :: PaddedVariant(phase, i, j, PhaseName(p))
  {
    PhaseNamesStripped(p);
    NormaliseMatches(phase, PhaseName(p));
  }

  /** Feeding an already normalised label back in selects the same phase. */
  lemma {:induction false} SelectPhaseNormalised(phase: string)
    ensures SelectPhase(Normalise(phase)) == SelectPhase(phase)
  {
    NormaliseIdempotent(phase);
  }

  /** Case and surrounding whitespace do not matter: " ArteriaL " is the
      arterial phase. */
  lemma {:induction false} MixedCaseArterial()
    ensures SelectPhase(" ArteriaL ") == Some(Arterial)
  {
    ArteriaLLowered();
    assert Normalise(" ArteriaL ") == Lower("ArteriaL") by {
      NormaliseAt(" ArteriaL ", 1, 9);
    }
  }

  lemma {:induction false} ArteriaLLowered()
    ensures Lower("ArteriaL") == "arterial"
  {
    var s := "ArteriaL";
    assert Lower(s)[0] == 'a' && Lower(s)[7] == 'l';
    assert forall i :: 1 <= i < 7 ==> Lower(s)[i] == s[i];
  }

  lemma {:induction false} VenousLowered()
    ensures Lower("VENOUS") == "venous"
  {
    var s := "VENOUS";
    assert Lower(s)[0] == 'v' && Lower(s)[1] == 'e' && Lower(s)[2] == 'n';
    assert Lower(s)[3] == 'o' && Lower(s)[4] == 'u' && Lower(s)[5] == 's';
  }

  /** "VENOUS" between a tab and a newline is the venous phase. */
  lemma {:induction false} UpperCaseVenous()
    ensures SelectPhase("\tVENOUS\n") == Some(Venous)
  {
    VenousLowered();
    assert Normalise("\tVENOUS\n") == Lower("VENOUS") by {
      NormaliseAt("\tVENOUS\n", 1, 7);
    }
  }

  /** A label with no upper case and no surrounding whitespace is its own
      normal form, so it selects a phase only if it is one of the two names:
      no prefix ("art"), no longer phrase ("arterial phase"), not the empty
      string. */
  lemma {:induction false} OtherNormalLabelRejected(name: string)
    requires forall i :: 0 <= i < |name| ==> !IsUpper(name[i])
    requires IsStripped(name)
    requires name != PhaseName(Arterial) && name != PhaseName(Venous)
    ensures SelectPhase(name) == None
  {
    NormaliseNormal(name);
  }

  /** A label made of whitespace only, the empty one included, is no phase. */
  lemma {:induction false} BlankPhaseRejected(phase: string)
    requires AllSpace(phase)
    ensures SelectPhase(phase) == None
  {
    NormaliseAt(phase, 0, 0);
  }

  /** With a good content type and a decodable image, a label that is no
      phase is a 400 and nothing is encoded. */
  lemma InvalidPhaseRejected<Img, Png>(
    contentType: Option<string>, image: Img, phase: string, filename: string,
    arterial: Img -> Img, venous: Img -> Img, encode: Img -> Result<Png, string>)
    requires AcceptsContentType(contentType)
    requires SelectPhase(phase) == None
    ensures Process(contentType, Success(image), phase, filename, arterial, venous, encode)
         == Failure(HttpError(InvalidPhase, 400, InvalidPhaseDetail))
  {
  }

  /** On success exactly one filter ran, the one the label names: contrast
      for arterial, blur for venous, and the body is its encoding. */
  lemma ExactlyOneFilter<Img, Png>(
    contentType: Option<string>, image: Img, phase: string, filename: string,
    arterial: Img -> Img, venous: Img -> Img, encode: Img -> Result<Png, string>)
    requires Process(contentType, Success(image), phase, filename, arterial, venous, encode).Success?
    ensures var resp := Process(contentType, Success(image), phase, filename, arterial, venous, encode).value;
      && (resp.phase == Arterial <==> Normalise(phase) == PhaseName(Arterial))
      && (resp.phase == Venous <==> Normalise(phase) == PhaseName(Venous))
      && Success(resp.body) == encode(if resp.phase == Arterial then arterial(image) else venous(image))
  {
  }

  // ---------------------------------------------------------------------
  // Encoding and status codes

  /** After a good upload and a valid phase, an encoder failure is a 500
      naming the encoder's error. */
  lemma EncodeErrorIsServerError<Img, Png>(
    contentType: Option<string>, image: Img, phase: string, filename: string,
    arterial: Img -> Img, venous: Img -> Img, encode: Img -> Result<Png, string>, e: string)
    requires AcceptsContentType(contentType)
    requires SelectPhase(phase).Some?
    requires encode(ApplyFilter(SelectPhase(phase).value, image, arterial, venous)) == Failure(e)
    ensures Process(contentType, Success(image), phase, filename, arterial, venous, encode)
         == Failure(HttpError(EncodeError, 500, EncodeDetailPrefix + e))
  {
  }

  /** Client and server errors are kept apart in the model: 500 comes only
      from the encode-and-respond block (the encoder, or a header that is not
      Latin-1), every other failure is 400, and success is 200. */
  lemma StatusClasses<Img, Png>(
    contentType: Option<string>, decoded: Result<Img, string>, phase: string, filename: string,
    arterial: Img -> Img, venous: Img -> Img, encode: Img -> Result<Png, string>)
    ensures var r := Process(contentType, decoded, phase, filename, arterial, venous, encode);
      && (Status(r) == 200 <==> r.Success?)
      && (Status(r) == 500 <==> r.Failure? && r.error.kind == EncodeError)
      && (Status(r) == 400 <==> r.Failure? && r.error.kind != EncodeError)
  {
  }

  // ---------------------------------------------------------------------
  // Response header

  /** On success the header names the normalised phase, never the raw label,
      then the upload's filename. */
  lemma SuccessHeader<Img, Png>(
    contentType: Option<string>, decoded: Result<Img, string>, phase: string, filename: string,
    arterial: Img -> Img, venous: Img -> Img, encode: Img -> Result<Png, string>)
    requires Process(contentType, decoded, phase, filename, arterial, venous, encode).Success?
    ensures var resp := Process(contentType, decoded, phase, filename, arterial, venous, encode).value;
      && resp.mediaType == "image/png"
      && resp.contentDisposition == "inline; filename=processed_" + Normalise(phase) + "_" + filename
      && (Normalise(phase) == PhaseName(Arterial) || Normalise(phase) == PhaseName(Venous))
  {
  }

  /** The header is Latin-1 exactly when the filename is, since the rest
      of it is ASCII; the first character the framework cannot encode is the
      filename's, moved along by the fixed text in front of it. */
  lemma {:induction false} DispositionLatin1(p: Phase, filename: string)
    ensures Latin1(Disposition(PhaseName(p), filename)) <==> Latin1(filename)
    ensures FirstWide(Disposition(PhaseName(p), filename), 0)
         == |"inline; filename=processed_"| + |PhaseName(p)| + 1 + FirstWide(filename, 0)
  {
    var front := "inline; filename=processed_" + PhaseName(p) + "_";
    assert Disposition(PhaseName(p), filename) == front + filename;
    assert Latin1(front);
    FirstWideAfter(front, filename);
    FirstWideFound(filename);
    FirstWideFound(front + filename);
  }

  /** With a good upload, a valid phase and a successful encoding, a
      filename with a character above U+00FF still fails: building the
      response raises inside the `try`, and the handler answers 500 with
      the codec's message, which points into the filename. */
  lemma WideFilenameIsServerError<Img, Png>(
    contentType: Option<string>, image: Img, phase: string, filename: string,
    arterial: Img -> Img, venous: Img -> Img, encode: Img -> Result<Png, string>, p: Phase, png: Png)
    requires AcceptsContentType(contentType)
    requires SelectPhase(phase) == Some(p)
    requires encode(ApplyFilter(p, image, arterial, venous)) == Success(png)
    requires !Latin1(filename)
    ensures !Latin1(Disposition(PhaseName(p), filename))
    ensures Process(contentType, Success(image), phase, filename, arterial, venous, encode)
         == Failure(HttpError(EncodeError, 500,
                              EncodeDetailPrefix + EncodeErrorText(Disposition(PhaseName(p), filename))))
    ensures FirstWide(Disposition(PhaseName(p), filename), 0)
         == |"inline; filename=processed_"| + |PhaseName(p)| + 1 + FirstWide(filename, 0)
  {
    DispositionLatin1(p, filename);
  }

  /** A screenshot name with a narrow no-break space (U+202F) before "AM"
      cannot go into the header: the arterial response fails with 500, and
      the codec names that one character at position 40 of the header. */
  lemma {:induction false} NarrowSpaceFilename()
    ensures !Latin1(Disposition("arterial", "scan\U{202F}AM.png"))
    ensures EncodeErrorText(Disposition("arterial", "scan\U{202F}AM.png"))
         == "'latin-1' codec can't encode character '" + "\\u202f" + "' in position " + "40" + ": "
            + "ordinal not in range(256)"
  {
    var header := Disposition("arterial", "scan\U{202F}AM.png");
    NarrowSpaceRun();
    FirstWideFound(header);
    NarrowSpaceEscape();
    assert Decimal(40) == "40";
  }

  /** The codec writes U+202F as `\u202f`. */
  lemma {:induction false} NarrowSpaceEscape()
    ensures Escape('\U{202F}') == "\\u202f"
  {
    assert HexPad(0x2, 1) == "2";
    assert HexPad(0x20, 2) == "20";
    assert HexPad(0x202, 3) == "202";
  }

  /** Where the narrow no-break space sits in that header. */
  lemma {:induction false} NarrowSpaceRun()
    ensures var header := Disposition("arterial", "scan\U{202F}AM.png");
      && FirstWide(header, 0) == 40 && WideRunEnd(header, 40) == 41
      && header[40] == '\U{202F}'
  {
    var f := "scan\U{202F}AM.png";
    var header := Disposition("arterial", f);
    assert FirstWide(f, 0) == 4 by {
      assert FirstWide(f, 4) == 4;
      assert FirstWide(f, 3) == 4;
      assert FirstWide(f, 2) == 4;
      assert FirstWide(f, 1) == 4;
    }
    DispositionLatin1(Arterial, f);
    assert header[40] == '\U{202F}' && header[41] == 'A';
    assert WideRunEnd(header, 41) == 41;
  }

  /** Two Chinese characters in a row are reported together, by the
      positions of the first and the last. */
  lemma {:induction false} ChineseFilename()
    ensures !Latin1(Disposition("venous", "x\U{4E2D}\U{6587}y"))
    ensures EncodeErrorText(Disposition("venous", "x\U{4E2D}\U{6587}y"))
         == "'latin-1' codec can't encode characters in position " + "35" + "-" + "36" + ": "
            + "ordinal not in range(256)"
  {
    var header := Disposition("venous", "x\U{4E2D}\U{6587}y");
    ChineseRun();
    FirstWideFound(header);
    assert Decimal(35) == "35";
    assert Decimal(36) == "36";
  }

  /** Where the two Chinese characters sit in that header. */
  lemma {:induction false} ChineseRun()
    ensures var header := Disposition("venous", "x\U{4E2D}\U{6587}y");
      && FirstWide(header, 0) == 35 && WideRunEnd(header, 35) == 37
  {
    var f := "x\U{4E2D}\U{6587}y";
    assert FirstWide(f, 0) == 1 by {
      assert FirstWide(f, 1) == 1;
    }
    DispositionLatin1(Venous, f);
    ChineseRunEnd();
  }

  lemma {:induction false} ChineseRunEnd()
    ensures WideRunEnd(Disposition("venous", "x\U{4E2D}\U{6587}y"), 35) == 37
  {
    var header := Disposition("venous", "x\U{4E2D}\U{6587}y");
    assert header[35] == '\U{4E2D}' && header[36] == '\U{6587}' && header[37] == 'y';
    assert WideRunEnd(header, 37) == 37;
    assert WideRunEnd(header, 36) == 37;
  }

  /** A success header can be read back: it determines both the phase and
      the original filename. */
  lemma {:induction false} DispositionInjective(p: Phase, filename: string, q: Phase, other: string)
    requires Disposition(PhaseName(p), filename) == Disposition(PhaseName(q), other)
    ensures p == q && filename == other
  {
    var h := Disposition(PhaseName(p), filename);
    var k := |"inline; filename=processed_"|;
    assert h[k] == PhaseName(p)[0];
    assert h[k] == PhaseName(q)[0];
    var n := k + |PhaseName(p)| + 1;
    assert h[n..] == filename;
    assert Disposition(PhaseName(q), other)[n..] == other;
  }
}
