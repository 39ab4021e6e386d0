/** The image library as the pipeline uses it: load the bytes, resize when the
    guard says so, save as JPEG. Pixels are opaque; only dimensions are modelled. */
module Imaging {
  import opened Common
  import opened ImageSizes

  /** A decoded raster image: its dimensions and its (opaque) pixel data. */
  datatype Image = Image(width: int32, height: int32, pixels: Bytes)

  /** The three library operations the resize step calls:
      `load` is `Image.Load` (None when it throws on undecodable bytes),
      `resize` is `Mutate(x => x.Resize(w, h))` (None when it throws),
      `saveJpeg` is `Save(stream, new JpegEncoder())` (None when it throws). */
  datatype Codec = Codec(
    load: Bytes -> Option<Image>,
    resize: (Image, int32, int32) -> Option<Image>,
    saveJpeg: Image -> Option<Bytes>)

  /** The library's promise for `Resize(w, h)` with a positive target: it succeeds
      and the image then has exactly the target dimensions. */
  ghost predicate ResizesExactly(codec: Codec)
  {
    forall img: Image, w: int32, h: int32 :: 0 < w && 0 < h ==>
      codec.resize(img, w, h).Some? &&
      codec.resize(img, w, h).value.width == w &&
      codec.resize(img, w, h).value.height == h
  }

  /** The largest side the JPEG format can record, plus one: the encoder refuses
      an image with a side of this length or more. */
  const JPEG_SIDE_LIMIT: int32 := 65535

  /** The image's sides are short enough for a JPEG file. */
  predicate FitsJpeg(img: Image)
  {
    img.width < JPEG_SIDE_LIMIT && img.height < JPEG_SIDE_LIMIT
  }

  /** The encoder's promise: it saves every image whose sides fit a JPEG file. */
  ghost predicate EncodesFitting(codec: Codec)
  {
    forall img: Image :: FitsJpeg(img) ==> codec.saveJpeg(img).Some?
  }

  /** The library's promises the success results rely on: resizing to a positive
      target works exactly, and encoding works for every image that fits. */
  ghost predicate WellBehaved(codec: Codec)
  {
    ResizesExactly(codec) && EncodesFitting(codec)
  }

  /** Bytes the library decodes into an image that fits a JPEG file. */
  predicate Processable(codec: Codec, bytes: Bytes)
  {
    codec.load(bytes).Some? && FitsJpeg(codec.load(bytes).value)
  }

  /** A saved JPEG loads back to an image of the same dimensions. */
  ghost predicate JpegKeepsDimensions(codec: Codec)
  {
    forall img: Image :: codec.saveJpeg(img).Some? ==>
      codec.load(codec.saveJpeg(img).value).Some? &&
      codec.load(codec.saveJpeg(img).value).value.width == img.width &&
      codec.load(codec.saveJpeg(img).value).value.height == img.height
  }

  /** The resize guard: a resize happens only when BOTH the width and the height
      differ from the target; when either side already matches, nothing is resized. */
  predicate NeedsResize(img: Image, size: SizeSpec)
  {
    img.width != size.width && img.height != size.height
  }

  /** The image after the guarded resize step, or None when the library throws. */
  function Transform(codec: Codec, img: Image, size: SizeSpec): (out: Option<Image>)
  {
    if NeedsResize(img, size) then codec.resize(img, size.width, size.height) else Some(img)
  }

  /** The dimension rule: for a positive target, the image ends up exactly at the
      target when both sides differed, and keeps its own dimensions otherwise, even
      when only one side matched. */
  lemma TransformDimensions(codec: Codec, img: Image, size: SizeSpec)
    requires ResizesExactly(codec) && 0 < size.width && 0 < size.height
    ensures Transform(codec, img, size).Some?
    ensures var out := Transform(codec, img, size).value;
      (out.width, out.height) ==
        if img.width != size.width && img.height != size.height
        then (size.width, size.height)
        else (img.width, img.height)
  {
  }

  /** When one side already matches, the image is passed through untouched
      (pixels included), whatever the library would have done. */
  lemma OneSideMatchingSkipsResize(codec: Codec, img: Image, size: SizeSpec)
    requires img.width == size.width || img.height == size.height
    ensures Transform(codec, img, size) == Some(img)
  {
  }

  /** After the step at least one side equals the target, and both do only if the
      image was resized or already had the target dimensions. */
  lemma TransformMatchesSomeSide(codec: Codec, img: Image, size: SizeSpec)
    requires ResizesExactly(codec) && 0 < size.width && 0 < size.height
    ensures var out := Transform(codec, img, size).value;
      && (out.width == size.width || out.height == size.height)
      && ((out.width == size.width && out.height == size.height) <==>
          (NeedsResize(img, size) || (img.width == size.width && img.height == size.height)))
  {
    TransformDimensions(codec, img, size);
  }
}
