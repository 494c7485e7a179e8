/**
  The per-image normalisation decision (main.py lines 78-83 and 144-149). Pixel
  data is not modelled: an image is its Pillow mode name and its size, and the
  model records which layer is pasted onto which canvas under which mask.
*/
module Image {
  import opened Options

  datatype Size = Size(width: nat, height: nat)

  /** A decoded image: Pillow mode name ("RGB", "RGBA", "LA", "P", "L", "CMYK", ...) and size. */
  datatype Raster = Raster(mode: string, size: Size)

  /** The colour `(255, 255, 255)` the worker fills the new canvas with. */
  datatype Rgb = Rgb(r: nat, g: nat, b: nat)

  const White := Rgb(255, 255, 255)

  /** The `mask=` argument of `paste`: the layer's last band, or `None`. */
  datatype Mask = AlphaBand | NoMask

  /** A paste of `layer` onto a fresh canvas of colour `fill`, through `mask`. */
  datatype Composite = Composite(fill: Rgb, layer: Raster, mask: Mask)

  /** What the worker saves as the page: `page`, produced by `composite` when one was needed. */
  datatype Normalized = Normalized(page: Raster, composite: Option<Composite>)

  /** The modes that carry transparency or a palette and are flattened. */
  predicate NeedsFlattening(mode: string) {
    mode == "RGBA" || mode == "LA" || mode == "P"
  }

  /** Palette images are converted to RGBA before pasting; other images are pasted as they are. */
  function PasteLayer(img: Raster): (r: Raster)
    ensures r.size == img.size
  {
    if img.mode == "P" then Raster("RGBA", img.size) else img
  }

  /** The paste mask: the layer's alpha band when the layer is RGBA or LA, and no mask otherwise. */
  function PasteMask(layer: Raster): Mask {
    if layer.mode == "RGBA" || layer.mode == "LA" then AlphaBand else NoMask
  }

  /**
    RGBA, LA and P images become an RGB canvas of the same size filled white,
    with the image pasted through its alpha band (palette images are expanded
    to RGBA first, so the `None` mask is never chosen); every other image is
    saved as it is.
  */
  function Normalize(img: Raster): (r: Normalized)
    ensures r.page.size == img.size
    ensures r.composite.Some? <==> NeedsFlattening(img.mode)
    ensures r.composite.Some? ==> r.page.mode == "RGB" && r.composite.value.fill == White
    ensures r.composite.Some? ==> r.composite.value.mask == AlphaBand
    ensures r.composite.Some? ==> r.composite.value.layer.size == img.size
    ensures r.composite.None? ==> r.page == img
  {
    if NeedsFlattening(img.mode) then
      var layer := PasteLayer(img);
      Normalized(Raster("RGB", img.size), Some(Composite(White, layer, PasteMask(layer))))
    else
      Normalized(img, None)
  }

  /** A normalised page needs no further flattening: normalising it again changes nothing. */
  lemma NormalizeIdempotent(img: Raster)
    ensures Normalize(Normalize(img).page) == Normalized(Normalize(img).page, None)
  {
  }

  /** The page that is saved is never in RGBA, LA or P mode: the modes the flattening handles. */
  lemma NormalizedPageIsOpaque(img: Raster)
    ensures !NeedsFlattening(Normalize(img).page.mode)
  {
  }
}
