/**
  Converting one stored object: download its bytes, convert them to WebP
  along the raster or the PDF path, and upload the result under the
  destination key. The object store and the image codecs are collaborators,
  given as functions of their inputs; `None` from one of them stands for the
  exception (or the `null` / `false` result) that makes that step fail.
 */
module Conversion {
  import opened Results
  import opened Keys

  type Bytes = seq<bv8>

  /** A decoded raster image, as produced by the image reader or the PDF renderer. */
  datatype Raster = Raster(width: nat, height: nat, pixels: seq<bv8>)

  /** The content type every upload declares. */
  const WebpContentType := "image/webp"
  /** The pixel formats the PDF renderer can produce. */
  datatype ImageType = Binary | Gray | Rgb | Argb | Bgr

  /** Only the first page of a PDF is rendered, at this resolution, in RGB. */
  const FirstPage := 0
  const RenderDpi := 300
  const RenderImageType := Rgb

  /** A write to the object store: the key, its declared content type and the body. */
  datatype PutRequest = PutRequest(key: string, contentType: string, body: Bytes)

  /** The external collaborators of the service. */
  datatype Collaborators = Collaborators(
    getObject: string -> Option<Bytes>,              // download of an object's full content
    readImage: Bytes -> Option<Raster>,              // raster decoding; `None` when the reader gives null
    renderPdfPage: (Bytes, nat, nat, ImageType) -> Option<Raster>,  // load a PDF, render (page, dpi, type)
    writeWebp: Raster -> Option<Bytes>,              // WebP encoding; `None` when the writer refuses
    putObject: PutRequest -> bool)                   // upload; false when it fails

  /** Why the conversion of one object failed. */
  datatype Failure =
    | DownloadError     // the download failed
    | DecodeError       // the bytes could not be read as an image or a PDF
    | EncodeError       // the WebP encoder refused the image
    | IndexOutOfBounds  // the key has no `.`, so no destination key can be cut from it
    | UploadError       // the upload failed

  /** One call the service makes on its collaborators, in the order it makes them. */
  datatype Call =
    | GetObject(key: string)
    | Convert(key: string, kind: SourceKind)
    | PutObject(request: PutRequest)

  /** How converting one object ends. */
  datatype Completion = Done | Failed(failure: Failure)

  /** The completion of one conversion together with the calls it made. */
  datatype Run = Run(completion: Completion, calls: seq<Call>)

  /** Encode a decoded image as WebP. */
  function EncodeWebp(env: Collaborators, image: Raster): (r: Result<Bytes, Failure>)
    ensures r.Failure? <==> env.writeWebp(image).None?
    ensures r.Failure? ==> r.error == EncodeError
    ensures r.Success? ==> r.value == env.writeWebp(image).value
  {
    match env.writeWebp(image)
    case None => Failure(EncodeError)
    case Some(webp) => Success(webp)
  }

  /** The raster path: read the image, then encode it. */
  function ConvertImageToWebp(env: Collaborators, imageBytes: Bytes): (r: Result<Bytes, Failure>)
    // an unreadable image is a decoding error, whatever the encoder would do
    ensures env.readImage(imageBytes).None? ==> r == Failure(DecodeError)
    // a readable image succeeds exactly when the encoder accepts it, with the encoder's bytes
    ensures env.readImage(imageBytes).Some? ==>
      (r.Success? <==> env.writeWebp(env.readImage(imageBytes).value).Some?) &&
      (r.Success? ==> r.value == env.writeWebp(env.readImage(imageBytes).value).value) &&
      (r.Failure? ==> r.error == EncodeError)
  {
    match env.readImage(imageBytes)
    case None => Failure(DecodeError)
    case Some(image) => EncodeWebp(env, image)
  }

  /** The PDF path: render the first page at 300 DPI in RGB, then encode it. */
  function ConvertPdfToWebp(env: Collaborators, pdfBytes: Bytes): (r: Result<Bytes, Failure>)
    // a document that cannot be loaded or rendered is a decoding error
    ensures env.renderPdfPage(pdfBytes, 0, 300, Rgb).None? ==> r == Failure(DecodeError)
    // a rendered first page succeeds exactly when the encoder accepts it, with the encoder's bytes
    ensures env.renderPdfPage(pdfBytes, 0, 300, Rgb).Some? ==>
      (r.Success? <==> env.writeWebp(env.renderPdfPage(pdfBytes, 0, 300, Rgb).value).Some?) &&
      (r.Success? ==> r.value == env.writeWebp(env.renderPdfPage(pdfBytes, 0, 300, Rgb).value).value) &&
      (r.Failure? ==> r.error == EncodeError)
  {
    match env.renderPdfPage(pdfBytes, FirstPage, RenderDpi, RenderImageType)
    case None => Failure(DecodeError)
    case Some(image) => EncodeWebp(env, image)
  }

  /**
    Convert the downloaded bytes of `key` along the path its suffix selects:
    the PDF path when the key's extension is `pdf` in some case, the raster
    path for every other key, eligible or not.
   */
  function ConvertToWebp(env: Collaborators, key: string, inputBytes: Bytes): (r: Result<Bytes, Failure>)
    ensures r == if Classify(key) == Some(PdfDocument) then ConvertPdfToWebp(env, inputBytes)
                 else ConvertImageToWebp(env, inputBytes)
    ensures r.Failure? ==> r.error == DecodeError || r.error == EncodeError
  {
    match ConverterFor(key)
    case PdfDocument => ConvertPdfToWebp(env, inputBytes)
    case RasterImage => ConvertImageToWebp(env, inputBytes)
  }

  /**
    Convert one object: download, then convert, then upload to the derived key.
    A step runs only when every step before it succeeded, and the first failing
    step decides the failure.
   */
  function ProcessImage(env: Collaborators, key: string): (r: Run)
    // the download always comes first, and at most the three steps are made
    ensures 1 <= |r.calls| <= 3 && r.calls[0] == GetObject(key)
    // conversion is attempted, with the dispatched converter, exactly when the download succeeded
    ensures |r.calls| >= 2 <==> env.getObject(key).Some?
    ensures |r.calls| >= 2 ==> r.calls[1] == Convert(key, ConverterFor(key))
    // an upload is attempted exactly when download, conversion and key derivation all succeeded,
    // and it writes the converted bytes, as image/webp, under the derived key
    ensures |r.calls| == 3 <==>
      env.getObject(key).Some? && ConvertToWebp(env, key, env.getObject(key).value).Success? && '.' in key
    ensures |r.calls| == 3 ==>
      r.calls[2] == PutObject(PutRequest(DestKey(key).value, WebpContentType,
                                         ConvertToWebp(env, key, env.getObject(key).value).value))
    // success means every step succeeded, the upload included
    ensures r.completion == Done <==> |r.calls| == 3 && env.putObject(r.calls[2].request)
    // a failure is reported by the step where the calls stop
    ensures r.completion == Failed(DownloadError) <==> |r.calls| == 1
    ensures r.completion == Failed(UploadError) <==> |r.calls| == 3 && !env.putObject(r.calls[2].request)
    ensures r.completion.Failed? && |r.calls| == 2 ==> r.completion.failure in {DecodeError, EncodeError, IndexOutOfBounds}
    // a run that stops after the conversion reports the converter's own error, or else the missing `.`
    ensures |r.calls| == 2 ==>
      r.completion == (if ConvertToWebp(env, key, env.getObject(key).value).Failure?
                       then Failed(ConvertToWebp(env, key, env.getObject(key).value).error)
                       else Failed(IndexOutOfBounds))
  {
    match env.getObject(key)
    case None => Run(Failed(DownloadError), [GetObject(key)])
    case Some(bytes) =>
      var converting := [GetObject(key), Convert(key, ConverterFor(key))];
      match ConvertToWebp(env, key, bytes)
      case Failure(f) => Run(Failed(f), converting)
      case Success(webpBytes) =>
        match Substring(key, 0, LastIndexOf(key, '.'))
        case None => Run(Failed(IndexOutOfBounds), converting)
        case Some(keyWithoutExtension) =>
          var request := PutRequest(WebpPrefix + keyWithoutExtension + WebpSuffix, WebpContentType, webpBytes);
          Run(if env.putObject(request) then Done else Failed(UploadError), converting + [PutObject(request)])
  }

  /** Converting succeeds exactly when each of the three steps succeeds. */
  lemma ProcessImageSucceedsIff(env: Collaborators, key: string)
    ensures ProcessImage(env, key).completion == Done <==>
      && env.getObject(key).Some?
      && ConvertToWebp(env, key, env.getObject(key).value).Success?
      && DestKey(key).Some?
      && env.putObject(PutRequest(DestKey(key).value, WebpContentType,
                                  ConvertToWebp(env, key, env.getObject(key).value).value))
  {
  }

  /**
    Called directly with a key that has no `.`, the conversion still downloads
    and converts, then fails while deriving the destination, before any upload.
   */
  lemma DotlessKeyFailsBeforeUpload(env: Collaborators, key: string)
    requires '.' !in key
    requires env.getObject(key).Some? && ConvertToWebp(env, key, env.getObject(key).value).Success?
    ensures ProcessImage(env, key).completion == Failed(IndexOutOfBounds)
    ensures ProcessImage(env, key).calls == [GetObject(key), Convert(key, RasterImage)]
  {
    if EndsWith(LowerKey(key), ".pdf") {
      SuffixGivesExtension(key, "pdf");
      assert false;
    }
  }

  /** Converting an object downloads that object and no other. */
  lemma DownloadsOwnKey(env: Collaborators, key: string, other: string)
    ensures GetObject(other) in ProcessImage(env, key).calls <==> other == key
  {
    var calls := ProcessImage(env, key).calls;
    if GetObject(other) in calls {
      var i :| 0 <= i < |calls| && calls[i] == GetObject(other);
      assert i != 1 && i != 2;
    }
  }

  /** An object the batch filter admits never fails for want of a destination key. */
  lemma EligibleNeverIndexOutOfBounds(env: Collaborators, key: string)
    requires Eligible(key)
    ensures ProcessImage(env, key).completion != Failed(IndexOutOfBounds)
  {
    EligibleHasDestination(key);
  }

  /**
    Every upload the conversion makes is image/webp content under a key that
    the batch filter rejects.
   */
  lemma UploadIsWebp(env: Collaborators, key: string, request: PutRequest)
    requires PutObject(request) in ProcessImage(env, key).calls
    ensures request.contentType == WebpContentType
    ensures DestKey(key) == Some(request.key)
    ensures !Eligible(request.key)
  {
    var calls := ProcessImage(env, key).calls;
    var i :| 0 <= i < |calls| && calls[i] == PutObject(request);
    assert i == 2;
    DestinationNotEligible(key);
  }
}
