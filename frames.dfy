/** Frames: the two-dimensional pixel arrays every stage of the correction
    pipeline consumes and produces, with the elementwise and aggregate
    arithmetic (numpy's subtract, true_divide, where, sum and mean) the stages
    are built from. Pixel values are reals: there is no NaN, no infinity and
    no rounding in this model. */
module Frames {

  /** A frame as rows of pixel intensities, indexed img[row][column]. */
  type Image = seq<seq<real>>

  /** img has `rows` rows of `cols` pixels each. */
  predicate HasShape(img: Image, rows: nat, cols: nat) {
    |img| == rows && forall i :: 0 <= i < rows ==> |img[i]| == cols
  }

  /** a and b can be combined pixel by pixel. */
  predicate SameShape(a: Image, b: Image) {
    |a| == |b| && forall i :: 0 <= i < |a| ==> |a[i]| == |b[i]|
  }

  /** Every pixel of img is `value`. */
  predicate IsConstant(img: Image, value: real) {
    forall i, j :: 0 <= i < |img| && 0 <= j < |img[i]| ==> img[i][j] == value
  }

  /** Every pixel of img is at least lo. */
  predicate AllAtLeast(img: Image, lo: real) {
    forall i, j :: 0 <= i < |img| && 0 <= j < |img[i]| ==> img[i][j] >= lo
  }

  /** Every pixel of img is strictly positive. */
  predicate AllPositive(img: Image) {
    forall i, j :: 0 <= i < |img| && 0 <= j < |img[i]| ==> img[i][j] > 0.0
  }

  /** No pixel of img is zero, so dividing by img is defined everywhere. */
  predicate NoZeroPixel(img: Image) {
    forall i, j :: 0 <= i < |img| && 0 <= j < |img[i]| ==> img[i][j] != 0.0
  }

  /** A rows x cols frame whose every pixel is `value`. */
  function Constant(rows: nat, cols: nat, value: real): (r: Image)
    ensures HasShape(r, rows, cols) && IsConstant(r, value)
    ensures PixelCount(r) == rows * cols
  {
    var r := seq(rows, i => seq(cols, j => value));
    ShapePixelCount(r, rows, cols);
    r
  }

  /** np.subtract on two frames of one shape. */
  function Subtract(a: Image, b: Image): (r: Image)
    requires SameShape(a, b)
    ensures SameShape(r, a) && PixelCount(r) == PixelCount(a)
    ensures forall i, j :: 0 <= i < |r| && 0 <= j < |r[i]| ==> r[i][j] == a[i][j] - b[i][j]
  {
    var r := seq(|a|, i requires 0 <= i < |a| =>
      seq(|a[i]|, j requires 0 <= j < |a[i]| => a[i][j] - b[i][j]));
    PixelCountSameShape(r, a);
    r
  }

  /** np.true_divide of a frame by a frame of the same shape without zero pixels. */
  function Divide(a: Image, b: Image): (r: Image)
    requires SameShape(a, b) && NoZeroPixel(b)
    ensures SameShape(r, a)
    ensures forall i, j :: 0 <= i < |r| && 0 <= j < |r[i]| ==> r[i][j] * b[i][j] == a[i][j]
  {
    seq(|a|, i requires 0 <= i < |a| =>
      seq(|a[i]|, j requires 0 <= j < |a[i]| => a[i][j] / b[i][j]))
  }

  /** np.divide of a frame by a non-zero scalar. */
  function DivideBy(a: Image, c: real): (r: Image)
    requires c != 0.0
    ensures SameShape(r, a)
    ensures forall i, j :: 0 <= i < |r| && 0 <= j < |r[i]| ==> r[i][j] * c == a[i][j]
  {
    seq(|a|, i requires 0 <= i < |a| =>
      seq(|a[i]|, j requires 0 <= j < |a[i]| => a[i][j] / c))
  }

  /** np.where(a < floor, floor, a): every pixel below `floor` is raised to it. */
  function RaiseTo(a: Image, floor: real): (r: Image)
    ensures SameShape(r, a)
    ensures forall i, j :: 0 <= i < |r| && 0 <= j < |r[i]| ==>
      r[i][j] >= floor && r[i][j] >= a[i][j] && (r[i][j] == floor || r[i][j] == a[i][j])
  {
    seq(|a|, i requires 0 <= i < |a| =>
      seq(|a[i]|, j requires 0 <= j < |a[i]| => if a[i][j] < floor then floor else a[i][j]))
  }

  // ---------------------------------------------------------------------
  // Sums and means

  /** Sum of a sequence of pixel values. */
  function Sum(s: seq<real>): real {
    if s == [] then 0.0 else s[0] + Sum(s[1..])
  }

  /** np.mean of a non-empty sequence. */
  function Mean(s: seq<real>): real
    requires |s| > 0
  {
    Sum(s) / |s| as real
  }

  /** Sum of every pixel of a frame. */
  function Total(img: Image): real {
    if img == [] then 0.0 else Sum(img[0]) + Total(img[1..])
  }

  /** Number of pixels of a frame. */
  function PixelCount(img: Image): nat {
    if img == [] then 0 else |img[0]| + PixelCount(img[1..])
  }

  /** np.mean of a whole frame that has at least one pixel. */
  function FrameMean(img: Image): real
    requires PixelCount(img) > 0
  {
    Total(img) / PixelCount(img) as real
  }

  /** Division by c distributes over a sum. */
  lemma DivideSum(x: real, y: real, c: real)
    requires c != 0.0
    ensures x / c + y / c == (x + y) / c
  {
  }

  /** Dividing every element by c divides the sum by c. */
  lemma {:induction false} SumDivided(r: seq<real>, a: seq<real>, c: real)
    requires c != 0.0 && |r| == |a|
    requires forall k :: 0 <= k < |r| ==> r[k] == a[k] / c
    ensures Sum(r) == Sum(a) / c
  {
    if r != [] {
      SumDivided(r[1..], a[1..], c);
      DivideSum(a[0], Sum(a[1..]), c);
    }
  }

  /** Dividing every pixel by c divides the frame total by c. */
  lemma {:induction false} TotalDivided(r: Image, a: Image, c: real)
    requires c != 0.0 && SameShape(r, a)
    requires forall i, j :: 0 <= i < |r| && 0 <= j < |r[i]| ==> r[i][j] == a[i][j] / c
    ensures Total(r) == Total(a) / c
  {
    if r != [] {
      assert |r[0]| == |a[0]|;
      forall k | 0 <= k < |r[0]| ensures r[0][k] == a[0][k] / c {
      }
      SumDivided(r[0], a[0], c);
      var r', a' := r[1..], a[1..];
      forall i, j | 0 <= i < |r'| && 0 <= j < |r'[i]| ensures r'[i][j] == a'[i][j] / c {
        assert r'[i] == r[i + 1] && a'[i] == a[i + 1];
      }
      TotalDivided(r', a', c);
      DivideSum(Sum(a[0]), Total(a'), c);
    }
  }

  /** Frames of the same shape have the same number of pixels. */
  lemma {:induction false} PixelCountSameShape(a: Image, b: Image)
    requires SameShape(a, b)
    ensures PixelCount(a) == PixelCount(b)
  {
    if a != [] {
      PixelCountSameShape(a[1..], b[1..]);
    }
  }

  /** A rows x cols frame has rows * cols pixels. */
  lemma {:induction false} ShapePixelCount(img: Image, rows: nat, cols: nat)
    requires HasShape(img, rows, cols)
    ensures PixelCount(img) == rows * cols
  {
    if img != [] {
      ShapePixelCount(img[1..], rows - 1, cols);
    }
  }

  /** A sum of values between lo and hi lies between |s|*lo and |s|*hi. */
  lemma {:induction false} SumBounds(s: seq<real>, lo: real, hi: real)
    requires forall k :: 0 <= k < |s| ==> lo <= s[k] <= hi
    ensures |s| as real * lo <= Sum(s) <= |s| as real * hi
  {
    if s != [] {
      SumBounds(s[1..], lo, hi);
    }
  }

  /** The mean of values between lo and hi lies between lo and hi. */
  lemma MeanBounds(s: seq<real>, lo: real, hi: real)
    requires |s| > 0
    requires forall k :: 0 <= k < |s| ==> lo <= s[k] <= hi
    ensures lo <= Mean(s) <= hi
  {
    SumBounds(s, lo, hi);
    var n := |s| as real;
    assert n * lo <= Sum(s) <= n * hi;
    assert (n * lo) / n == lo && (n * hi) / n == hi;
  }
}
