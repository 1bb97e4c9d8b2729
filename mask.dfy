/**
 * `process_and_save_mask`: rebuild a full-size selection mask from a cropped one.
 * The "nomask" sentinel gives a canvas that is entirely selected (255); otherwise the
 * decoded crop is pasted, as a straight overwrite clipped to the canvas, at
 * `(left, top)` on a canvas that is entirely unselected (0). The result is stored
 * under the given file name, replacing any earlier file of that name.
 */
module Mask {
  import opened Wrappers
  import opened Pixels

  const NoMask: string := "nomask"
  const Selected: int := 255
  const Unselected: int := 0

  /** Why the save raised instead of writing a file. */
  datatype MaskError =
    | DecodeFailed   // base64 or image decoding of the crop failed
    | MissingBounds  // the request carried no source bounds (`mask_data[2]`)
    | NegativeSize   // `Image.new` refuses a negative width or height
    | EmptyCanvas    // the PNG encoder refuses an image with no pixels, after the file is opened

  /** The `left, top, right, bottom` entries of `mask_data[2]`. */
  datatype Offsets = Offsets(left: int, top: int, right: int, bottom: int)

  /** `mask_data`: the crop (or the sentinel), the target size and the source bounds. */
  datatype MaskRequest = MaskRequest(mask: string, targetWidth: int, targetHeight: int, bounds: Option<Offsets>)

  /** Base64 decoding followed by image decoding and conversion to one channel. */
  type MaskDecoder = string -> Option<Image>

  /** Canvas pixel (x, y) lies under the crop pasted at (left, top). */
  predicate UnderCrop(crop: Image, left: int, top: int, x: int, y: int) {
    left <= x < left + crop.width && top <= y < top + crop.height
  }

  /** The value of canvas pixel (x, y) after pasting `crop` at (left, top) on a blank canvas. */
  function PastedPixel(crop: Image, left: int, top: int, x: int, y: int): int {
    if UnderCrop(crop, left, top, x, y) then crop.px[y - top][x - left] else Unselected
  }

  /** A width-by-height image every pixel of which holds v. */
  function Filled(width: nat, height: nat, v: int): (img: Image)
  {
    Raster(width, height, seq(height, y => seq(width, x => v)))
  }

  /** The blank canvas of the target size with `crop` pasted at (left, top). */
  function PastedOnBlank(width: nat, height: nat, crop: Image, left: int, top: int): (img: Image)
  {
    Raster(width, height, seq(height, y => seq(width, x => PastedPixel(crop, left, top, x, y))))
  }

  /** The image `process_and_save_mask` writes, or the error it raises, in the order it checks. */
  function Composite(req: MaskRequest, decode: MaskDecoder): (r: Result<Image, MaskError>)
    ensures r.Success? ==> r.value.width == req.targetWidth > 0 && r.value.height == req.targetHeight > 0
    ensures r.Failure? <==>
      || req.targetWidth <= 0 || req.targetHeight <= 0
      || (req.mask != NoMask && (decode(req.mask).None? || req.bounds.None?))
    ensures req.mask != NoMask && decode(req.mask).None? ==> r == Failure(DecodeFailed)
    ensures req.mask != NoMask && decode(req.mask).Some? && req.bounds.None? ==> r == Failure(MissingBounds)
    ensures ((req.mask == NoMask || (decode(req.mask).Some? && req.bounds.Some?))
             && (req.targetWidth < 0 || req.targetHeight < 0)) ==> r == Failure(NegativeSize)
    ensures ((req.mask == NoMask || (decode(req.mask).Some? && req.bounds.Some?))
             && req.targetWidth >= 0 && req.targetHeight >= 0
             && (req.targetWidth == 0 || req.targetHeight == 0)) ==> r == Failure(EmptyCanvas)
  {
    if req.mask == NoMask then
      if req.targetWidth < 0 || req.targetHeight < 0 then Failure(NegativeSize)
      else if req.targetWidth == 0 || req.targetHeight == 0 then Failure(EmptyCanvas)
      else Success(Filled(req.targetWidth, req.targetHeight, Selected))
    else
      match decode(req.mask)
      case None => Failure(DecodeFailed)
      case Some(crop) =>
        match req.bounds
        case None => Failure(MissingBounds)
        case Some(b) =>
          if req.targetWidth < 0 || req.targetHeight < 0 then Failure(NegativeSize)
          else if req.targetWidth == 0 || req.targetHeight == 0 then Failure(EmptyCanvas)
          else Success(PastedOnBlank(req.targetWidth, req.targetHeight, crop, b.left, b.top))
  }

  /**
   * The sentinel yields an all-selected canvas of exactly the target size whenever that
   * size has pixels to encode; bounds are not read.
   */
  lemma NoMaskIsAllSelected(req: MaskRequest, decode: MaskDecoder)
    requires req.mask == NoMask && req.targetWidth >= 0 && req.targetHeight >= 0
    ensures Composite(req, decode).Success? <==> req.targetWidth > 0 && req.targetHeight > 0
    ensures Composite(req, decode).Success? ==> var img := Composite(req, decode).value;
      && img.width == req.targetWidth && img.height == req.targetHeight
      && forall y, x :: 0 <= y < img.height && 0 <= x < img.width ==> img.px[y][x] == Selected
    ensures forall b :: Composite(req.(bounds := b), decode) == Composite(req, decode)
  {
  }

  /**
   * Mask mode: the image has exactly the target size; a pixel under the pasted crop
   * holds the crop's value and every other pixel is unselected.
   */
  lemma MaskModePixels(req: MaskRequest, decode: MaskDecoder, x: int, y: int)
    requires req.mask != NoMask && Composite(req, decode).Success?
    requires 0 <= x < req.targetWidth && 0 <= y < req.targetHeight
    ensures var img := Composite(req, decode).value;
      var crop := decode(req.mask).value;
      var b := req.bounds.value;
      && img.width == req.targetWidth && img.height == req.targetHeight
      && img.px[y][x] == if UnderCrop(crop, b.left, b.top, x, y) then crop.px[y - b.top][x - b.left] else Unselected
  {
  }

  /** Only `left`, `top` and the crop's own size place the crop: `right` and `bottom` are never used. */
  lemma PlacementIgnoresRightBottom(req: MaskRequest, decode: MaskDecoder, right: int, bottom: int)
    requires req.bounds.Some?
    ensures Composite(req.(bounds := Some(req.bounds.value.(right := right, bottom := bottom))), decode)
         == Composite(req, decode)
  {
  }

  /**
   * When the crop matches its bounds and lies inside the canvas, the region
   * `[left, right) x [top, bottom)` equals the crop and everything else is unselected.
   */
  lemma CropRegionRestored(req: MaskRequest, decode: MaskDecoder)
    requires req.mask != NoMask && req.targetWidth >= 0 && req.targetHeight >= 0
    requires decode(req.mask).Some? && req.bounds.Some?
    requires var crop, b := decode(req.mask).value, req.bounds.value;
      && crop.width == b.right - b.left && crop.height == b.bottom - b.top
      && 0 <= b.left && b.right <= req.targetWidth && 0 <= b.top && b.bottom <= req.targetHeight
    ensures Composite(req, decode).Success? <==> req.targetWidth > 0 && req.targetHeight > 0
    ensures Composite(req, decode).Success? ==>
      var img, crop, b := Composite(req, decode).value, decode(req.mask).value, req.bounds.value;
      && (forall y, x :: b.top <= y < b.bottom && b.left <= x < b.right ==> img.px[y][x] == crop.px[y - b.top][x - b.left])
      && (forall y, x :: 0 <= y < img.height && 0 <= x < img.width && !(b.top <= y < b.bottom && b.left <= x < b.right)
            ==> img.px[y][x] == Unselected)
  {
  }

  /** The canvas read back as an image: row y is `canvas[y, 0..width]`. */
  function Snapshot(canvas: array2<int>): (img: Image)
    reads canvas
  {
    Raster(canvas.Length1, canvas.Length0,
      seq(canvas.Length0, y requires 0 <= y < canvas.Length0 reads canvas =>
        seq(canvas.Length1, x requires 0 <= x < canvas.Length1 reads canvas => canvas[y, x])))
  }

  /** A canvas holding img's values pixel for pixel reads back as img. */
  lemma SnapshotIs(canvas: array2<int>, img: Image)
    requires canvas.Length0 == img.height && canvas.Length1 == img.width
    requires forall y, x :: 0 <= y < img.height && 0 <= x < img.width ==> canvas[y, x] == img.px[y][x]
    ensures Snapshot(canvas) == img
  {
    var snap := Snapshot(canvas);
    forall y | 0 <= y < img.height
      ensures snap.px[y] == img.px[y]
    {
      assert |snap.px[y]| == |img.px[y]|;
      forall x | 0 <= x < img.width
        ensures snap.px[y][x] == img.px[y][x]
      {
      }
    }
    assert snap.px == img.px;
  }

  /** `Image.new("L", (width, height), color=fill)` */
  method NewCanvas(width: nat, height: nat, fill: int) returns (canvas: array2<int>)
    ensures fresh(canvas) && canvas.Length0 == height && canvas.Length1 == width
    ensures forall y, x :: 0 <= y < height && 0 <= x < width ==> canvas[y, x] == fill
    ensures Snapshot(canvas) == Filled(width, height, fill)
  {
    canvas := new int[height, width]((y, x) => fill);
    SnapshotIs(canvas, Filled(width, height, fill));
  }

  /** `canvas.paste(crop, (left, top))`: overwrite the pixels under the crop, clipped to the canvas. */
  method Paste(canvas: array2<int>, crop: Image, left: int, top: int)
    modifies canvas
    ensures forall y, x :: 0 <= y < canvas.Length0 && 0 <= x < canvas.Length1 ==>
      canvas[y, x] == if UnderCrop(crop, left, top, x, y) then crop.px[y - top][x - left] else old(canvas[y, x])
  {
    for cy := 0 to crop.height
      invariant forall y, x :: 0 <= y < canvas.Length0 && 0 <= x < canvas.Length1 ==>
        canvas[y, x] == if left <= x < left + crop.width && top <= y < top + cy
                        then crop.px[y - top][x - left] else old(canvas[y, x])
    {
      for cx := 0 to crop.width
        invariant forall y, x :: 0 <= y < canvas.Length0 && 0 <= x < canvas.Length1 ==>
          canvas[y, x] == if (left <= x < left + crop.width && top <= y < top + cy)
                             || (y == top + cy && left <= x < left + cx)
                          then crop.px[y - top][x - left] else old(canvas[y, x])
      {
        var x, y := left + cx, top + cy;
        if 0 <= y < canvas.Length0 && 0 <= x < canvas.Length1 {
          canvas[y, x] := crop.px[cy][cx];
        }
      }
    }
  }

  /** The image input folder: file name to the mask image last written under it. */
  class MaskStore {
    var files: map<string, Image>

    constructor ()
      ensures files == map[]
    {
      files := map[];
    }

    /**
     * Build the mask and write it under `filename`. On success the file is replaced
     * (last write wins) and nothing else changes. An error raised before the save
     * writes nothing; an empty canvas fails inside the save, after the file was opened
     * for writing, so no image is left under that name.
     */
    method ProcessAndSaveMask(req: MaskRequest, filename: string, decode: MaskDecoder)
      returns (outcome: Result<(), MaskError>)
      modifies this
      ensures Composite(req, decode).Success? ==>
        outcome == Success(()) && files == old(files)[filename := Composite(req, decode).value]
      ensures Composite(req, decode).Failure? ==>
        && outcome == Failure(Composite(req, decode).error)
        && files == if outcome.error == EmptyCanvas then old(files) - {filename} else old(files)
    {
      if req.mask == NoMask {
        if req.targetWidth < 0 || req.targetHeight < 0 {
          return Failure(NegativeSize);
        }
        var white := NewCanvas(req.targetWidth, req.targetHeight, Selected);
        if req.targetWidth == 0 || req.targetHeight == 0 {
          files := files - {filename};
          return Failure(EmptyCanvas);
        }
        files := files[filename := Snapshot(white)];
        return Success(());
      }
      var decoded := decode(req.mask);
      if decoded.None? {
        return Failure(DecodeFailed);
      }
      if req.bounds.None? {
        return Failure(MissingBounds);
      }
      var b := req.bounds.value;
      if req.targetWidth < 0 || req.targetHeight < 0 {
        return Failure(NegativeSize);
      }
      var canvas := NewCanvas(req.targetWidth, req.targetHeight, Unselected);
      Paste(canvas, decoded.value, b.left, b.top);
      if req.targetWidth == 0 || req.targetHeight == 0 {
        files := files - {filename};
        return Failure(EmptyCanvas);
      }
      var img := Snapshot(canvas);
      ghost var want := PastedOnBlank(req.targetWidth, req.targetHeight, decoded.value, b.left, b.top);
      assert forall y, x :: 0 <= y < want.height && 0 <= x < want.width ==> canvas[y, x] == want.px[y][x];
      SnapshotIs(canvas, want);
      files := files[filename := img];
      return Success(());
    }
  }
}
