/** Segmentation helpers: applying a mask to a frame. */
module Utils {
  import opened Frames

  /** np.where(mask == 0, 0, img): the frame with every pixel outside the
      mask set to 0. The result is a new frame; img and mask are values and
      stay as they were. */
  function MaskFrame(img: Image, mask: Image): (r: Image)
    requires SameShape(img, mask)
    ensures SameShape(r, img)
    ensures forall i, j :: 0 <= i < |r| && 0 <= j < |r[i]| && mask[i][j] == 0.0 ==> r[i][j] == 0.0
    ensures forall i, j :: 0 <= i < |r| && 0 <= j < |r[i]| && mask[i][j] != 0.0 ==> r[i][j] == img[i][j]
  {
    seq(|img|, i requires 0 <= i < |img| =>
      seq(|img[i]|, j requires 0 <= j < |img[i]| => if mask[i][j] == 0.0 then 0.0 else img[i][j]))
  }

  /** Masking twice with the same mask is masking once. */
  lemma MaskFrameIdempotent(img: Image, mask: Image)
    requires SameShape(img, mask)
    ensures MaskFrame(MaskFrame(img, mask), mask) == MaskFrame(img, mask)
  {
    var once := MaskFrame(img, mask);
    var twice := MaskFrame(once, mask);
    forall i | 0 <= i < |once| ensures twice[i] == once[i] {
      forall j | 0 <= j < |once[i]| ensures twice[i][j] == once[i][j] {
      }
    }
  }

  /** A mask without a zero pixel leaves the frame as it is. */
  lemma MaskFrameFullMask(img: Image, mask: Image)
    requires SameShape(img, mask) && NoZeroPixel(mask)
    ensures MaskFrame(img, mask) == img
  {
    var r := MaskFrame(img, mask);
    forall i | 0 <= i < |img| ensures r[i] == img[i] {
      forall j | 0 <= j < |img[i]| ensures r[i][j] == img[i][j] {
      }
    }
  }
}
