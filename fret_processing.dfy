/** The per-pixel correction arithmetic of the FRET pipeline: flatfield
    conditioning, dark-current and flatfield correction of a data frame,
    background subtraction with a floor of 1, and the ratio of two channels. */
module FretProcessing {
  import opened Frames

  // ---------------------------------------------------------------------
  // correct_flatfield_image (without the median filter)

  /** The flatfield frame with the darkfield subtracted and, when
      `normalization` is set, divided by its own mean. */
  function CorrectFlatfieldImage(flatfield: Image, darkfield: Image, normalization: bool): (r: Image)
    requires SameShape(flatfield, darkfield)
    requires normalization ==>
      PixelCount(flatfield) > 0 && FrameMean(Subtract(flatfield, darkfield)) != 0.0
    ensures SameShape(r, flatfield)
    ensures !normalization ==>
      forall i, j :: 0 <= i < |r| && 0 <= j < |r[i]| ==> r[i][j] == flatfield[i][j] - darkfield[i][j]
    ensures normalization ==>
      var m := FrameMean(Subtract(flatfield, darkfield));
      forall i, j :: 0 <= i < |r| && 0 <= j < |r[i]| ==> r[i][j] * m == flatfield[i][j] - darkfield[i][j]
  {
    var corrected := Subtract(flatfield, darkfield);
    if normalization then ScaledBack(corrected, flatfield, darkfield, FrameMean(corrected))
    else corrected
  }

  /** The dark-subtracted frame divided by m, stated against the frames it
      came from. */
  function ScaledBack(corrected: Image, flatfield: Image, darkfield: Image, m: real): (r: Image)
    requires m != 0.0 && SameShape(corrected, flatfield) && SameShape(flatfield, darkfield)
    requires forall i, j :: 0 <= i < |corrected| && 0 <= j < |corrected[i]| ==>
      corrected[i][j] == flatfield[i][j] - darkfield[i][j]
    ensures SameShape(r, flatfield)
    ensures forall i, j :: 0 <= i < |r| && 0 <= j < |r[i]| ==> r[i][j] * m == flatfield[i][j] - darkfield[i][j]
  {
    DivideBy(corrected, m)
  }

  /** With normalization on, the conditioned flatfield has mean exactly 1. */
  lemma NormalizedFlatfieldMeanIsOne(flatfield: Image, darkfield: Image)
    requires SameShape(flatfield, darkfield)
    requires PixelCount(flatfield) > 0 && FrameMean(Subtract(flatfield, darkfield)) != 0.0
    ensures PixelCount(CorrectFlatfieldImage(flatfield, darkfield, true)) > 0
    ensures FrameMean(CorrectFlatfieldImage(flatfield, darkfield, true)) == 1.0
  {
    var d := Subtract(flatfield, darkfield);
    var r := CorrectFlatfieldImage(flatfield, darkfield, true);
    var m := FrameMean(d);
    QuotientFrame(r, d, m);
    MeanOfNormalized(Total(d), PixelCount(d) as real);
  }

  /** A frame r with r * m == d pixel by pixel totals Total(d) / m over as
      many pixels as d. */
  lemma QuotientFrame(r: Image, d: Image, m: real)
    requires m != 0.0 && SameShape(r, d)
    requires forall i, j :: 0 <= i < |r| && 0 <= j < |r[i]| ==> r[i][j] * m == d[i][j]
    ensures PixelCount(r) == PixelCount(d) && Total(r) == Total(d) / m
  {
    PixelCountSameShape(r, d);
    forall i, j | 0 <= i < |r| && 0 <= j < |r[i]| ensures r[i][j] == d[i][j] / m {
      DivideBack(r[i][j], m, d[i][j]);
    }
    TotalDivided(r, d, m);
  }

  /** q * c == x with c != 0 means q == x / c. */
  lemma DivideBack(q: real, c: real, x: real)
    requires c != 0.0 && q * c == x
    ensures q == x / c
  {
  }

  /** Dividing a total t by its own mean t / n and averaging over n gives 1. */
  lemma MeanOfNormalized(t: real, n: real)
    requires n > 0.0 && t / n != 0.0
    ensures (t / (t / n)) / n == 1.0
  {
    assert t != 0.0;
    assert t / (t / n) == n;
  }

  // ---------------------------------------------------------------------
  // flatfield_correction

  /** The dark-current-subtracted intermediate of flatfield_correction:
      img - darkCurrent, floored at 0 when `clipImage` is set. */
  function DarkSubtracted(img: Image, darkCurrent: Image, clipImage: bool): (r: Image)
    requires SameShape(img, darkCurrent)
    ensures SameShape(r, img)
    ensures clipImage ==>
      forall i, j :: 0 <= i < |r| && 0 <= j < |r[i]| ==>
        r[i][j] >= 0.0 && r[i][j] >= img[i][j] - darkCurrent[i][j] &&
        (r[i][j] == 0.0 || r[i][j] == img[i][j] - darkCurrent[i][j])
    ensures !clipImage ==>
      forall i, j :: 0 <= i < |r| && 0 <= j < |r[i]| ==> r[i][j] == img[i][j] - darkCurrent[i][j]
  {
    var corrected := Subtract(img, darkCurrent);
    if clipImage then RaiseTo(corrected, 0.0) else corrected
  }

  /** Where every quotient times a positive divisor gives a non-negative
      dividend, every quotient is non-negative. */
  lemma QuotientsNonNegative(r: Image, dividend: Image, divisor: Image)
    requires SameShape(r, dividend) && SameShape(r, divisor)
    requires AllPositive(divisor) && AllAtLeast(dividend, 0.0)
    requires forall i, j :: 0 <= i < |r| && 0 <= j < |r[i]| ==> r[i][j] * divisor[i][j] == dividend[i][j]
    ensures AllAtLeast(r, 0.0)
  {
    forall i, j | 0 <= i < |r| && 0 <= j < |r[i]| ensures r[i][j] >= 0.0 {
      var q, d := r[i][j], divisor[i][j];
      assert d > 0.0 && q * d >= 0.0;
    }
  }

  /** The data frame corrected for dark current and flatfield: the
      (optionally clipped) dark-subtracted frame divided pixel by pixel by
      the flatfield. With clipping and a positive flatfield no pixel is
      negative; without clipping the correction can be undone exactly. */
  function FlatfieldCorrection(img: Image, flatfield: Image, darkCurrent: Image, clipImage: bool): (r: Image)
    requires SameShape(img, flatfield) && SameShape(img, darkCurrent) && NoZeroPixel(flatfield)
    ensures SameShape(r, img)
    ensures forall i, j :: 0 <= i < |r| && 0 <= j < |r[i]| ==>
      r[i][j] * flatfield[i][j] == DarkSubtracted(img, darkCurrent, clipImage)[i][j]
    ensures clipImage && AllPositive(flatfield) ==> AllAtLeast(r, 0.0)
    ensures !clipImage ==>
      forall i, j :: 0 <= i < |r| && 0 <= j < |r[i]| ==>
        r[i][j] * flatfield[i][j] == img[i][j] - darkCurrent[i][j]
  {
    var subtracted := DarkSubtracted(img, darkCurrent, clipImage);
    var r := Divide(subtracted, flatfield);
    CorrectedPixels(r, img, flatfield, darkCurrent, clipImage);
    r
  }

  /** What dividing the dark-subtracted frame by the flatfield gives, pixel
      by pixel. */
  lemma CorrectedPixels(r: Image, img: Image, flatfield: Image, darkCurrent: Image, clipImage: bool)
    requires SameShape(img, flatfield) && SameShape(img, darkCurrent) && NoZeroPixel(flatfield)
    requires r == Divide(DarkSubtracted(img, darkCurrent, clipImage), flatfield)
    ensures clipImage && AllPositive(flatfield) ==> AllAtLeast(r, 0.0)
    ensures !clipImage ==>
      forall i, j :: 0 <= i < |r| && 0 <= j < |r[i]| ==>
        r[i][j] * flatfield[i][j] == img[i][j] - darkCurrent[i][j]
  {
    var subtracted := DarkSubtracted(img, darkCurrent, clipImage);
    if clipImage && AllPositive(flatfield) {
      QuotientsNonNegative(r, subtracted, flatfield);
    }
  }

  // ---------------------------------------------------------------------
  // subtract_bg

  /** The background handed to subtract_bg: one level for the whole frame,
      or one level per pixel. */
  datatype Background = Scalar(level: real) | PerPixel(levels: array2<real>)

  /** The background level that applies at pixel (i, j). */
  function LevelAt(bg: Background, i: int, j: int): real
    reads if bg.PerPixel? then {bg.levels} else {}
    requires bg.PerPixel? ==> 0 <= i < bg.levels.Length0 && 0 <= j < bg.levels.Length1
  {
    match bg
    case Scalar(level) => level
    case PerPixel(levels) => levels[i, j]
  }

  /** A background of the right shape for a rows x cols frame. */
  predicate Fits(bg: Background, rows: nat, cols: nat) {
    bg.PerPixel? ==> bg.levels.Length0 == rows && bg.levels.Length1 == cols
  }

  /** Subtracts the background into a new array and then, when
      `clipValues` is set, overwrites every pixel below 1 with 1 in place.
      The input frame is not modified (the method may modify nothing that
      existed before the call). */
  method SubtractBg(img: array2<real>, bg: Background, clipValues: bool) returns (corrected: array2<real>)
    requires Fits(bg, img.Length0, img.Length1)
    ensures fresh(corrected)
    ensures corrected.Length0 == img.Length0 && corrected.Length1 == img.Length1
    ensures !clipValues ==>
      forall i, j :: 0 <= i < img.Length0 && 0 <= j < img.Length1 ==>
        corrected[i, j] + LevelAt(bg, i, j) == img[i, j]
    ensures clipValues ==>
      forall i, j :: 0 <= i < img.Length0 && 0 <= j < img.Length1 ==>
        corrected[i, j] >= 1.0
    ensures clipValues ==>
      forall i, j :: 0 <= i < img.Length0 && 0 <= j < img.Length1 ==>
        if img[i, j] - LevelAt(bg, i, j) >= 1.0 then corrected[i, j] + LevelAt(bg, i, j) == img[i, j]
        else corrected[i, j] == 1.0
  {
    corrected := SubtractLevels(img, bg);
    if clipValues {
      ClipBelowOne(corrected);
    }
  }

  /** np.subtract(img, bg) into a new array. */
  method SubtractLevels(img: array2<real>, bg: Background) returns (corrected: array2<real>)
    requires Fits(bg, img.Length0, img.Length1)
    ensures fresh(corrected)
    ensures corrected.Length0 == img.Length0 && corrected.Length1 == img.Length1
    ensures forall i, j :: 0 <= i < img.Length0 && 0 <= j < img.Length1 ==>
      corrected[i, j] == img[i, j] - LevelAt(bg, i, j)
  {
    var rows, cols := img.Length0, img.Length1;
    corrected := new real[rows, cols];
    var i := 0;
    while i < rows
      invariant 0 <= i <= rows
      invariant forall r, c :: 0 <= r < i && 0 <= c < cols ==> corrected[r, c] == img[r, c] - LevelAt(bg, r, c)
    {
      var j := 0;
      while j < cols
        invariant 0 <= j <= cols
        invariant forall r, c :: 0 <= r < i && 0 <= c < cols ==> corrected[r, c] == img[r, c] - LevelAt(bg, r, c)
        invariant forall c :: 0 <= c < j ==> corrected[i, c] == img[i, c] - LevelAt(bg, i, c)
      {
        corrected[i, j] := img[i, j] - LevelAt(bg, i, j);
        j := j + 1;
      }
      i := i + 1;
    }
  }

  /** a[a < 1] = 1, in place: every element below 1 becomes 1, the others
      stay. */
  method ClipBelowOne(a: array2<real>)
    modifies a
    ensures forall i, j :: 0 <= i < a.Length0 && 0 <= j < a.Length1 ==>
      a[i, j] == if old(a[i, j]) < 1.0 then 1.0 else old(a[i, j])
  {
    var i := 0;
    while i < a.Length0
      invariant 0 <= i <= a.Length0
      invariant forall r, c :: 0 <= r < a.Length0 && 0 <= c < a.Length1 ==>
        a[r, c] == if r < i && old(a[r, c]) < 1.0 then 1.0 else old(a[r, c])
    {
      var j := 0;
      while j < a.Length1
        invariant 0 <= j <= a.Length1
        invariant forall r, c :: 0 <= r < a.Length0 && 0 <= c < a.Length1 ==>
          a[r, c] == if (r < i || (r == i && c < j)) && old(a[r, c]) < 1.0 then 1.0 else old(a[r, c])
      {
        if a[i, j] < 1.0 {
          a[i, j] := 1.0;
        }
        j := j + 1;
      }
      i := i + 1;
    }
  }

  // ---------------------------------------------------------------------
  // calculate_ratio

  /** The value np.true_divide produces for one pixel: a real quotient, or
      NaN for 0/0. (x/0 with x != 0 is outside the model.) */
  datatype Quotient = Finite(value: real) | NotANumber

  function TrueDivide(n: real, d: real): (q: Quotient)
    requires d != 0.0 || n == 0.0
    ensures q.NotANumber? <==> d == 0.0
    ensures q.Finite? ==> q.value * d == n
  {
    if d == 0.0 then NotANumber else Finite(n / d)
  }

  /** np.nan_to_num on one pixel: NaN becomes 0, a finite value is kept. */
  function NanToNum(q: Quotient): real {
    match q
    case Finite(v) => v
    case NotANumber => 0.0
  }

  /** A pixel calculate_ratio can compute in this model: a non-zero
      denominator, or 0/0 when NaN is replaced afterwards. */
  predicate RatioDefined(n: real, d: real, replaceNanAndInf: bool) {
    d != 0.0 || (replaceNanAndInf && n == 0.0)
  }

  /** One pixel of calculate_ratio: the quotient, passed through
      np.nan_to_num when `replaceNanAndInf` is set. */
  function RatioPixel(n: real, d: real, replaceNanAndInf: bool): (r: real)
    requires RatioDefined(n, d, replaceNanAndInf)
    ensures d != 0.0 ==> r * d == n
    ensures d == 0.0 ==> r == 0.0
  {
    var q := TrueDivide(n, d);
    if replaceNanAndInf then NanToNum(q) else q.value
  }

  /** The ratio image numerator / denominator; with `replaceNanAndInf` a
      0/0 pixel yields 0. */
  function CalculateRatio(numerator: Image, denominator: Image, replaceNanAndInf: bool): (r: Image)
    requires SameShape(numerator, denominator)
    requires forall i, j :: 0 <= i < |numerator| && 0 <= j < |numerator[i]| ==>
      RatioDefined(numerator[i][j], denominator[i][j], replaceNanAndInf)
    ensures SameShape(r, numerator)
    ensures forall i, j :: 0 <= i < |r| && 0 <= j < |r[i]| && denominator[i][j] != 0.0 ==>
      r[i][j] * denominator[i][j] == numerator[i][j]
    ensures forall i, j :: 0 <= i < |r| && 0 <= j < |r[i]| && denominator[i][j] == 0.0 ==>
      r[i][j] == 0.0
  {
    seq(|numerator|, i requires 0 <= i < |numerator| =>
      seq(|numerator[i]|, j requires 0 <= j < |numerator[i]| =>
        RatioPixel(numerator[i][j], denominator[i][j], replaceNanAndInf)))
  }

  // ---------------------------------------------------------------------
  // The pipeline on uniform frames

  /** Uniform frames through the pipeline: a flatfield of `flat` over a
      darkfield of `dark` (flat != dark) normalises to all ones. */
  lemma UniformFlatfieldNormalizesToOnes(rows: nat, cols: nat, flat: real, dark: real)
    requires rows > 0 && cols > 0 && flat != dark
    ensures FrameMean(Subtract(Constant(rows, cols, flat), Constant(rows, cols, dark))) == flat - dark
    ensures CorrectFlatfieldImage(Constant(rows, cols, flat), Constant(rows, cols, dark), true)
      == Constant(rows, cols, 1.0)
  {
    var flatFrame, darkFrame := Constant(rows, cols, flat), Constant(rows, cols, dark);
    var d := Subtract(flatFrame, darkFrame);
    assert IsConstant(d, flat - dark);
    UniformMean(d, flat - dark);
    var conditioned := CorrectFlatfieldImage(flatFrame, darkFrame, true);
    AllOnes(conditioned, flatFrame, darkFrame, rows, cols, flat, dark);
  }

  /** A frame that the uniform darkfield and flatfield relation forces to 1
      at every pixel is the all-ones frame. */
  lemma AllOnes(c: Image, flatFrame: Image, darkFrame: Image, rows: nat, cols: nat, flat: real, dark: real)
    requires flat != dark && HasShape(c, rows, cols)
    requires flatFrame == Constant(rows, cols, flat) && darkFrame == Constant(rows, cols, dark)
    requires forall i, j :: 0 <= i < |c| && 0 <= j < |c[i]| ==>
      c[i][j] * (flat - dark) == flatFrame[i][j] - darkFrame[i][j]
    ensures c == Constant(rows, cols, 1.0)
  {
    var ones := Constant(rows, cols, 1.0);
    forall i | 0 <= i < rows ensures c[i] == ones[i] {
      forall j | 0 <= j < cols ensures c[i][j] == 1.0 {
        assert darkFrame[i][j] == dark && flatFrame[i][j] == flat;
        UnitFactor(c[i][j], flat, dark);
      }
    }
  }

  /** c * (f - d) == f - d with f != d forces c == 1. */
  lemma UnitFactor(c: real, f: real, d: real)
    requires f != d && c * (f - d) == f - d
    ensures c == 1.0
  {
    var k := f - d;
    assert (c - 1.0) * k == 0.0;
    assert ((c - 1.0) * k) / k == c - 1.0;
  }

  /** A uniform raw frame of `raw`, corrected with a dark current of `dark`
      and the all-ones flatfield, becomes max(raw - dark, 0) everywhere. */
  lemma UniformFrameCorrection(rows: nat, cols: nat, raw: real, dark: real)
    ensures FlatfieldCorrection(Constant(rows, cols, raw), Constant(rows, cols, 1.0), Constant(rows, cols, dark), true)
      == Constant(rows, cols, if raw > dark then raw - dark else 0.0)
  {
    var result := FlatfieldCorrection(Constant(rows, cols, raw), Constant(rows, cols, 1.0), Constant(rows, cols, dark), true);
    var subtracted := DarkSubtracted(Constant(rows, cols, raw), Constant(rows, cols, dark), true);
    var expected := Constant(rows, cols, if raw > dark then raw - dark else 0.0);
    forall i | 0 <= i < rows ensures result[i] == expected[i] {
      forall j | 0 <= j < cols ensures result[i][j] == expected[i][j] {
        assert result[i][j] * 1.0 == subtracted[i][j];
      }
    }
  }

  /** A frame whose pixels all equal v has mean v. */
  lemma {:induction false} UniformMean(img: Image, v: real)
    requires IsConstant(img, v) && PixelCount(img) > 0
    ensures FrameMean(img) == v
  {
    UniformTotal(img, v);
    var n := PixelCount(img) as real;
    assert n > 0.0 && Total(img) == n * v;
    CancelFactor(n, v);
  }

  /** (n * v) / n == v for non-zero n. */
  lemma CancelFactor(n: real, v: real)
    requires n != 0.0
    ensures (n * v) / n == v
  {
  }

  /** (a + b) * v == a * v + b * v. */
  lemma Distribute(a: real, b: real, v: real)
    ensures (a + b) * v == a * v + b * v
  {
  }

  /** A frame whose pixels all equal v totals v times its pixel count. */
  lemma {:induction false} UniformTotal(img: Image, v: real)
    requires IsConstant(img, v)
    ensures Total(img) == PixelCount(img) as real * v
  {
    if img != [] {
      var rest := img[1..];
      ConstantTail(img, v);
      var row := img[0];
      assert forall k :: 0 <= k < |row| ==> row[k] == v;
      UniformSum(row, v);
      UniformTotal(rest, v);
      var a, b := |row| as real, PixelCount(rest) as real;
      assert Total(img) == Sum(row) + Total(rest);
      assert PixelCount(img) as real == a + b;
      Distribute(a, b, v);
    } else {
      assert Total(img) == 0.0 && PixelCount(img) == 0;
    }
  }

  /** Dropping the first row of a uniform frame leaves a uniform frame. */
  lemma ConstantTail(img: Image, v: real)
    requires img != [] && IsConstant(img, v)
    ensures IsConstant(img[1..], v)
  {
    var rest := img[1..];
    forall i, j | 0 <= i < |rest| && 0 <= j < |rest[i]| ensures rest[i][j] == v {
      assert rest[i] == img[i + 1];
    }
  }

  /** A sequence whose values all equal v sums to v times its length. */
  lemma {:induction false} UniformSum(s: seq<real>, v: real)
    requires forall k :: 0 <= k < |s| ==> s[k] == v
    ensures Sum(s) == |s| as real * v
  {
    if s != [] {
      UniformSum(s[1..], v);
      Distribute(1.0, |s[1..]| as real, v);
    }
  }
}
