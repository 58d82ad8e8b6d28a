/** The resize and re-encoding policy of `compress_image`
    (backend/services/image_processor.py). Decoding, resampling, compositing,
    encoding and the size of the written file belong to the image library; the
    model hands them to two caller-supplied oracles, `decode` and `encode`,
    and captures every decision the code itself takes. */
module Transcoder {
  import opened Results
  import opened Formats
  import Config

  /** A decoded raster as the library reports it: its mode name (`RGB`,
      `RGBA`, `LA`, `P`, `L`, ...) and its size. */
  datatype Image = Image(mode: string, width: nat, height: nat)

  /** The two decoders the code calls: the HEIF reader for HEIC sources and
      the generic raster opener for everything else. */
  datatype Decoder = HeifReader | RasterOpen

  datatype Dims = Dims(width: nat, height: nat)

  /** How a JPEG-bound image is turned into an opaque one before encoding:
      an `RGBA` image is pasted onto white through its alpha band; a palette
      image is first converted to `RGBA` and then pasted the same way; an `LA`
      image is pasted with no mask at all, because only `RGBA` gets one. */
  datatype Flatten = NoFlatten | MaskedPaste | ConvertThenMaskedPaste | UnmaskedPaste

  /** The encoder settings: quality 85 with optimisation for JPEG,
      optimisation with compression level 6 for PNG. */
  datatype Encoding = JpegEncoding(quality: nat, optimize: bool) | PngEncoding(optimize: bool, compressLevel: nat)

  /** Everything the code asks of the library after decoding: resize (when
      `resized`) to `width` x `height`, flatten, and encode the result in mode
      `mode` with `encoding`. */
  datatype EncodeRequest = EncodeRequest(
    source: Image,
    resized: bool,
    width: nat,
    height: nat,
    flatten: Flatten,
    mode: string,
    encoding: Encoding)

  /** What `compress_image` returns: the size of the written file and the
      dimensions it computed. */
  datatype Compressed = Compressed(size: nat, width: nat, height: nat)

  const FailurePrefix: string := "Image compression failed: "

  lemma FloorDivision(a: nat, b: nat)
    requires b > 0
    ensures (a / b) * b <= a < (a / b) * b + b
  {
  }

  /** The target size: an image wider than 1920 pixels is scaled to width
      1920 and its height multiplied by 1920/width, then truncated to an
      integer; a narrower image keeps its size. */
  function ResizeDims(width: nat, height: nat): (d: Dims)
    ensures width <= Config.MaxWidth ==> d == Dims(width, height)
    ensures width > Config.MaxWidth ==> d.width == Config.MaxWidth
    ensures width > Config.MaxWidth ==> d.height * width <= height * Config.MaxWidth < d.height * width + width
  {
    if width > Config.MaxWidth then
      FloorDivision(height * Config.MaxWidth, width);
      Dims(Config.MaxWidth, height * Config.MaxWidth / width)
    else
      Dims(width, height)
  }

  /** The output is never wider than 1920, never taller than the input and
      never upscaled. */
  lemma ResizeBounds(width: nat, height: nat)
    ensures ResizeDims(width, height).width <= Config.MaxWidth
    ensures ResizeDims(width, height).width <= width
    ensures ResizeDims(width, height).height <= height
  {
    var d := ResizeDims(width, height);
    if width > Config.MaxWidth {
      assert d.height * width <= height * Config.MaxWidth;
    }
  }

  /** Resizing an already resized image changes nothing. */
  lemma ResizeIdempotent(width: nat, height: nat)
    ensures ResizeDims(ResizeDims(width, height).width, ResizeDims(width, height).height) == ResizeDims(width, height)
  {
    ResizeBounds(width, height);
  }

  /** The aspect ratio is kept exactly whenever the scaled height is whole. */
  lemma ResizeKeepsExactAspect(width: nat, height: nat)
    requires width > Config.MaxWidth
    requires (height * Config.MaxWidth) % width == 0
    ensures ResizeDims(width, height).height * width == height * Config.MaxWidth
  {
  }

  /** 3840x2160 becomes 1920x1080; 1000x800 is left alone; a 3841x1 strip is
      truncated to height 0. */
  lemma ResizeExamples()
    ensures ResizeDims(3840, 2160) == Dims(1920, 1080)
    ensures ResizeDims(1000, 800) == Dims(1000, 800)
    ensures ResizeDims(3841, 1) == Dims(1920, 0)
  {
  }

  /** `image.mode in ('RGBA', 'LA', 'P')`. */
  predicate NeedsFlatten(mode: string) {
    mode == "RGBA" || mode == "LA" || mode == "P"
  }

  /** The modes with an alpha band or a palette are flattened; plain RGB,
      greyscale and CMYK are not. */
  lemma NeedsFlattenModes()
    ensures NeedsFlatten("RGBA") && NeedsFlatten("LA") && NeedsFlatten("P")
    ensures !NeedsFlatten("RGB") && !NeedsFlatten("L") && !NeedsFlatten("CMYK")
  {
  }

  /** The flattening a JPEG-bound image of mode `mode` receives. */
  function FlattenFor(mode: string): (f: Flatten)
    ensures f != NoFlatten <==> NeedsFlatten(mode)
    ensures f == MaskedPaste <==> mode == "RGBA"
    ensures f == ConvertThenMaskedPaste <==> mode == "P"
    ensures f == UnmaskedPaste <==> mode == "LA"
  {
    if mode == "RGBA" then MaskedPaste
    else if mode == "P" then ConvertThenMaskedPaste
    else if mode == "LA" then UnmaskedPaste
    else NoFlatten
  }

  /** The encoder a source format ends up with: HEIC is re-encoded as JPEG. */
  function OutputEncoding(fileFormat: Format): (e: Encoding)
    ensures e.JpegEncoding? <==> fileFormat != PNG
  {
    if fileFormat == PNG then PngEncoding(true, Config.PngCompressLevel)
    else JpegEncoding(Config.JpegQuality, true)
  }

  /** The request the code makes of the library for a decoded image. */
  function PlanEncoding(fileFormat: Format, img: Image): (req: EncodeRequest)
    ensures req.source == img
    ensures Dims(req.width, req.height) == ResizeDims(img.width, img.height)
    ensures req.resized <==> img.width > Config.MaxWidth
    ensures req.encoding.JpegEncoding? <==> fileFormat != PNG
    ensures req.encoding.JpegEncoding? ==> req.encoding == JpegEncoding(Config.JpegQuality, true)
    ensures req.encoding.PngEncoding? ==> req.encoding == PngEncoding(true, Config.PngCompressLevel)
    ensures req.flatten != NoFlatten <==> req.encoding.JpegEncoding? && NeedsFlatten(img.mode)
    ensures req.encoding.JpegEncoding? ==> req.flatten == FlattenFor(img.mode)
    ensures req.mode == (if req.flatten == NoFlatten then img.mode else "RGB")
  {
    var d := ResizeDims(img.width, img.height);
    var encoding := OutputEncoding(fileFormat);
    var flatten := if encoding.JpegEncoding? then FlattenFor(img.mode) else NoFlatten;
    EncodeRequest(img, img.width > Config.MaxWidth, d.width, d.height, flatten,
                  if flatten == NoFlatten then img.mode else "RGB", encoding)
  }

  /** Nothing with an alpha band or a palette reaches the JPEG encoder, and
      any other mode reaches it unchanged. */
  lemma JpegNeverSeesAlphaOrPalette(fileFormat: Format, img: Image)
    requires fileFormat != PNG
    ensures !NeedsFlatten(PlanEncoding(fileFormat, img).mode)
    ensures !NeedsFlatten(img.mode) ==> PlanEncoding(fileFormat, img).mode == img.mode
  {
  }

  /** A HEIC source is always encoded as JPEG, flattened exactly like a JPEG
      source. */
  lemma HeicEncodedAsJpeg(img: Image)
    ensures PlanEncoding(HEIC, img).encoding == JpegEncoding(Config.JpegQuality, true)
    ensures PlanEncoding(HEIC, img) == PlanEncoding(JPEG, img)
  {
  }

  /** The PNG path never flattens: the mode goes to the encoder untouched. */
  lemma PngNeverFlattens(img: Image)
    ensures PlanEncoding(PNG, img).flatten == NoFlatten
    ensures PlanEncoding(PNG, img).mode == img.mode
  {
  }

  /** The HEIF reader serves HEIC sources and only those. */
  function DecoderFor(fileFormat: Format): (d: Decoder)
    ensures d == HeifReader <==> fileFormat == HEIC
  {
    if fileFormat == HEIC then HeifReader else RasterOpen
  }

  /** The text of the exception `compress_image` raises when the library
      fails with `cause`. */
  function FailureText(cause: string): string {
    FailurePrefix + cause
  }

  /** `compress_image(input_path, output_path, file_format)`: decode with the
      decoder for the format, plan the request, let the library carry it out,
      and report the file size with the computed dimensions. A library
      failure is reported with the library's own text as its message; the
      exception the code raises from it reads `FailureText(message)`. */
  function CompressImage(fileFormat: Format, decode: Decoder -> Result<Image>, encode: EncodeRequest -> Result<nat>): (r: Result<Compressed>)
    ensures r.Ok? <==> decode(DecoderFor(fileFormat)).Ok? && encode(PlanEncoding(fileFormat, decode(DecoderFor(fileFormat)).value)).Ok?
    ensures r.Ok? ==>
      var img := decode(DecoderFor(fileFormat)).value;
      r.value == Compressed(encode(PlanEncoding(fileFormat, img)).value,
                            ResizeDims(img.width, img.height).width,
                            ResizeDims(img.width, img.height).height)
    ensures r.Err? && decode(DecoderFor(fileFormat)).Err? ==> r.message == decode(DecoderFor(fileFormat)).message
    ensures r.Err? && decode(DecoderFor(fileFormat)).Ok? ==>
      r.message == encode(PlanEncoding(fileFormat, decode(DecoderFor(fileFormat)).value)).message
  {
    match decode(DecoderFor(fileFormat))
    case Err(e) => Err(e)
    case Ok(img) =>
      match encode(PlanEncoding(fileFormat, img))
      case Err(e) => Err(e)
      case Ok(size) =>
        var d := ResizeDims(img.width, img.height);
        Ok(Compressed(size, d.width, d.height))
  }

  /** A HEIC source that compresses was read by the HEIF reader and sent to
      the JPEG encoder. */
  lemma HeicCompressionDecodesWithHeifReader(decode: Decoder -> Result<Image>, encode: EncodeRequest -> Result<nat>)
    requires CompressImage(HEIC, decode, encode).Ok?
    ensures decode(HeifReader).Ok?
    ensures PlanEncoding(HEIC, decode(HeifReader).value).encoding == JpegEncoding(Config.JpegQuality, true)
  {
    assert DecoderFor(HEIC) == HeifReader;
  }
}
