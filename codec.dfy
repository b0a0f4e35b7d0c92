/**
 * The image codec the post-processing step relies on (the `sharp` library).
 * Its behaviour is not modelled: a codec is a record of total functions that
 * every operation receives as a parameter, and the few facts the code relies
 * on are stated as predicates that lemmas may require.
 */
module Codec {
  import opened Wrappers

  type byte = x: int | 0 <= x < 256
  type Bytes = seq<byte>

  /** A decoded image: interleaved R, G, B, A bytes, row-major, no padding. */
  datatype RawImage = RawImage(width: nat, height: nat, data: Bytes)

  /** The result of `metadata()`; only the width is consulted, and it may be undefined. */
  datatype Metadata = Metadata(width: Option<nat>)

  /** The ways a codec call can throw, observed by the caller as a rejected promise. */
  datatype CodecError = DecodeFailed | MetadataFailed

  datatype ImageCodec = ImageCodec(
    /** `sharp(bytes).ensureAlpha().raw().toBuffer({ resolveWithObject: true })` */
    decodeRgba: Bytes -> Option<RawImage>,
    /** `sharp(raw, { raw: {width, height, channels: 4} }).png({ compressionLevel: 9, palette: true })` */
    encodePalette: RawImage -> Bytes,
    /** `sharp(bytes).metadata()` */
    metadata: Bytes -> Option<Metadata>,
    /** `sharp(bytes).resize({ width, withoutEnlargement: true }).png({ compressionLevel: 9, palette: true, quality: 70 })` */
    resizePalette: (Bytes, nat) -> Bytes)

  /** The width an encoded image reports, if it reports one. */
  function WidthOf(c: ImageCodec, png: Bytes): Option<nat> {
    match c.metadata(png)
    case Some(meta) => meta.width
    case None => None
  }

  /** Every successful decode yields exactly `width * height` four-byte pixels. */
  ghost predicate DecodesToRgba(c: ImageCodec) {
    forall png :: c.decodeRgba(png).Some? ==>
      |c.decodeRgba(png).value.data| == c.decodeRgba(png).value.width * c.decodeRgba(png).value.height * 4
  }

  /**
   * `withoutEnlargement`: a resized image reports a width that is at most the
   * requested width and at most the width of the image it was made from.
   */
  ghost predicate ResizeNeverEnlarges(c: ImageCodec) {
    forall png, w ::
      && WidthOf(c, c.resizePalette(png, w)).Some?
      && WidthOf(c, c.resizePalette(png, w)).value <= w
      && (WidthOf(c, png).Some? ==> WidthOf(c, c.resizePalette(png, w)).value <= WidthOf(c, png).value)
  }
}
