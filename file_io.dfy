/** File-list ordering and array rebinning: the TIFF file names of a folder
    listing put in the order of the integer a pattern extracts from each, and
    a frame averaged down block by block. */
module FileIo {
  import opened Frames
  import opened StableSort

  datatype Option<T> = None | Some(value: T)

  /** The exceptions the two operations raise. */
  datatype Error =
    | NoMatch(name: string)  // the pattern finds no integer in a TIFF name
    | ZeroDivision           // a target dimension of 0 (floor division by zero)
    | ReshapeMismatch        // the blocks do not tile the frame (reshape fails)

  datatype Result<T> = Ok(value: T) | Err(error: Error)

  // ---------------------------------------------------------------------
  // sort_with_regex

  /** s ends with the characters of suffix. */
  predicate EndsWith(s: string, suffix: string) {
    |suffix| <= |s| && s[|s| - |suffix|..] == suffix
  }

  /** A name the listing keeps: it ends in ".tif" or ".tiff". */
  predicate IsTiff(name: string) {
    EndsWith(name, ".tif") || EndsWith(name, ".tiff")
  }

  /** The TIFF names of a listing, in listing order. */
  function TiffNames(names: seq<string>): seq<string> {
    if names == [] then []
    else
      var init, last := names[..|names| - 1], names[|names| - 1];
      TiffNames(init) + if IsTiff(last) then [last] else []
  }

  /** TiffNames keeps only TIFF names, each as often as the listing has it. */
  lemma {:induction false} TiffNamesCounts(names: seq<string>)
    ensures forall n :: n in TiffNames(names) ==> IsTiff(n)
    ensures forall n :: multiset(TiffNames(names))[n] == if IsTiff(n) then multiset(names)[n] else 0
  {
    if names != [] {
      var init, last := names[..|names| - 1], names[|names| - 1];
      assert names == init + [last];
      TiffNamesCounts(init);
    }
  }

  /** The integer of each name, in order, with `extract` standing for
      int(search(pattern, name).group(match_group_id)); or the first name
      for which there is none. */
  function ExtractKeys(names: seq<string>, extract: string -> Option<int>): (r: Result<seq<int>>)
    ensures r.Ok? <==> forall n :: n in names ==> extract(n).Some?
    ensures r.Ok? ==>
      |r.value| == |names| && forall m :: 0 <= m < |names| ==> extract(names[m]) == Some(r.value[m])
    ensures r.Err? ==>
      exists m :: 0 <= m < |names| && r.error == NoMatch(names[m]) && extract(names[m]).None? &&
        (forall p :: 0 <= p < m ==> extract(names[p]).Some?)
  {
    if names == [] then Ok([])
    else match extract(names[0])
      case None => Err(NoMatch(names[0]))
      case Some(k) =>
        match ExtractKeys(names[1..], extract)
        case Err(e) =>
          assert forall p :: 0 <= p < |names| - 1 ==> names[1..][p] == names[p + 1];
          Err(e)
        case Ok(keys) =>
          assert forall n :: n in names ==> n == names[0] || n in names[1..];
          Ok([k] + keys)
  }

  /** The extracted integer of a name; 0 stands in for names the pattern
      does not match, which never reach the sort. */
  function KeyOf(extract: string -> Option<int>, name: string): int {
    match extract(name)
    case Some(k) => k
    case None => 0
  }

  /** KeyOf as a sort key. */
  function NameKey(extract: string -> Option<int>): string -> int {
    name => KeyOf(extract, name)
  }

  /** list.index: the position of the first occurrence of k in s. Python
      raises ValueError when k is absent; this model returns |s| instead,
      a case sort_with_regex never reaches because every key it looks up
      occurs in the sorted keys (RankOrdersAsKeys). */
  function IndexOf(s: seq<int>, k: int): (r: nat)
    ensures r <= |s|
    ensures r < |s| ==> s[r] == k
    ensures forall m :: 0 <= m < r ==> s[m] != k
  {
    if s == [] then 0 else if s[0] == k then 0 else 1 + IndexOf(s[1..], k)
  }

  /** In a sorted sequence the first occurrences of two present values are
      in the order of the values: ranking by IndexOf orders as the values do. */
  lemma IndexOfOrdersAsValues(s: seq<int>, a: int, b: int)
    requires forall i, j :: 0 <= i < j < |s| ==> s[i] <= s[j]
    requires a in s && b in s
    ensures IndexOf(s, a) <= IndexOf(s, b) <==> a <= b
  {
    var pa, pb := IndexOf(s, a), IndexOf(s, b);
    assert pa < |s| by {
      var m :| 0 <= m < |s| && s[m] == a;
    }
    assert pb < |s| by {
      var m :| 0 <= m < |s| && s[m] == b;
    }
  }

  /** The pairs (names[m], keys[m]). */
  function Zip(names: seq<string>, keys: seq<int>): (r: seq<(string, int)>)
    requires |names| == |keys|
    ensures |r| == |names| && forall m :: 0 <= m < |r| ==> r[m] == (names[m], keys[m])
  {
    seq(|names|, m requires 0 <= m < |names| => (names[m], keys[m]))
  }

  /** The sort key of the source: a pair's rank is the position of the
      first occurrence of its key in the sorted keys. */
  function RankIn(sortedKeys: seq<int>): ((string, int)) -> int {
    (p: (string, int)) => IndexOf(sortedKeys, p.1)
  }

  /** The key of a (name, key) pair. */
  function KeyPart(p: (string, int)): int {
    p.1
  }

  /** The name of a (name, key) pair. */
  function NamePart(p: (string, int)): string {
    p.0
  }

  /** Every key of the pairs occurs in the sorted keys, and ranking the
      pairs orders them as their keys do. */
  lemma RankOrdersAsKeys(names: seq<string>, keys: seq<int>)
    requires |names| == |keys|
    ensures var sortedKeys := SortBy(keys, k => k);
      forall p, q :: p in Zip(names, keys) && q in Zip(names, keys) ==>
        (RankIn(sortedKeys)(p) <= RankIn(sortedKeys)(q) <==> KeyPart(p) <= KeyPart(q))
  {
    var sortedKeys := SortBy(keys, k => k);
    var pairs := Zip(names, keys);
    SortBySorted(keys, k => k);
    SortByPermutes(keys, k => k);
    assert forall i, j :: 0 <= i < j < |sortedKeys| ==> sortedKeys[i] <= sortedKeys[j];
    forall p | p in pairs ensures p.1 in sortedKeys {
      var m :| 0 <= m < |pairs| && pairs[m] == p;
      assert keys[m] in multiset(keys);
    }
    forall p, q | p in pairs && q in pairs
      ensures RankIn(sortedKeys)(p) <= RankIn(sortedKeys)(q) <==> KeyPart(p) <= KeyPart(q)
    {
      IndexOfOrdersAsValues(sortedKeys, p.1, q.1);
    }
  }

  /** Sorting the (name, key) pairs by rank, then keeping the names, sorts
      the names by key. */
  lemma RankSortIsKeySort(names: seq<string>, keys: seq<int>, extract: string -> Option<int>)
    requires |names| == |keys|
    requires forall m :: 0 <= m < |names| ==> extract(names[m]) == Some(keys[m])
    ensures MapSeq(SortBy(Zip(names, keys), RankIn(SortBy(keys, k => k))), NamePart)
      == SortBy(names, NameKey(extract))
  {
    var pairs := Zip(names, keys);
    RankOrdersAsKeys(names, keys);
    SortByCongruent(pairs, RankIn(SortBy(keys, k => k)), KeyPart);
    forall p | p in pairs ensures KeyPart(p) == NameKey(extract)(NamePart(p)) {
      var m :| 0 <= m < |pairs| && pairs[m] == p;
    }
    SortByMap(pairs, NamePart, KeyPart, NameKey(extract));
    assert MapSeq(pairs, NamePart) == names;
  }

  /** The names TiffNames keeps are exactly the TIFF names of the list. */
  lemma TiffMembership(imgList: seq<string>)
    ensures forall n :: n in TiffNames(imgList) <==> n in imgList && IsTiff(n)
  {
    var tiffs := TiffNames(imgList);
    TiffNamesCounts(imgList);
    forall n ensures n in tiffs <==> n in imgList && IsTiff(n) {
      assert n in tiffs <==> multiset(tiffs)[n] > 0;
      assert n in imgList <==> multiset(imgList)[n] > 0;
    }
  }

  /** Keeping the TIFF names of a listing with one more name. */
  lemma TiffNamesSnoc(init: seq<string>, x: string)
    ensures TiffNames(init + [x]) == TiffNames(init) + (if IsTiff(x) then [x] else [])
  {
    assert (init + [x])[..|init|] == init;
  }

  /** TiffNames keeps listing order: the TIFF names of a concatenation are
      the TIFF names of the first part followed by those of the second. */
  lemma {:induction false} TiffNamesAppend(a: seq<string>, b: seq<string>)
    ensures TiffNames(a + b) == TiffNames(a) + TiffNames(b)
  {
    if b == [] {
      assert a + b == a;
    } else {
      var init, x := b[..|b| - 1], b[|b| - 1];
      assert b == init + [x];
      TiffNamesAppend(a, init);
      TiffNamesAppendStep(a, init, x);
    }
  }

  /** One more name at the end keeps TiffNamesAppend true. */
  lemma TiffNamesAppendStep(a: seq<string>, init: seq<string>, x: string)
    requires TiffNames(a + init) == TiffNames(a) + TiffNames(init)
    ensures TiffNames(a + (init + [x])) == TiffNames(a) + TiffNames(init + [x])
  {
    assert a + (init + [x]) == (a + init) + [x];
    TiffNamesSnoc(a + init, x);
    TiffNamesSnoc(init, x);
  }

  /** Keeping the TIFF names and keeping the names of one key commute. */
  lemma {:induction false} TiffNamesWithKey(names: seq<string>, key: string -> int, k: int)
    ensures WithKey(TiffNames(names), key, k) == TiffNames(WithKey(names, key, k))
  {
    if names != [] {
      var init, x := names[..|names| - 1], names[|names| - 1];
      var tiffs, keyed := TiffNames(init), WithKey(init, key, k);
      TiffNamesWithKey(init, key, k);
      if IsTiff(x) {
        WithKeyAppend(tiffs, x, key, k);
      } else {
        assert tiffs + [] == tiffs;
      }
      if key(x) == k {
        TiffNamesSnoc(keyed, x);
      } else {
        assert keyed + [] == keyed;
      }
    }
  }

  /** sort_with_regex: the TIFF names of imgList, ordered by the integer
      `extract` finds in each (SortedNames states what that order is). A
      TIFF name without an integer is an error. The (name, key) pairs are
      sorted in place by the position of their key in the sorted keys, as
      the source does. */
  method SortWithRegex(imgList: seq<string>, extract: string -> Option<int>) returns (r: Result<seq<string>>)
    ensures r.Err? <==> exists n :: n in imgList && IsTiff(n) && extract(n).None?
    ensures r.Err? ==>
      r.error.NoMatch? && r.error.name in imgList && IsTiff(r.error.name) && extract(r.error.name).None?
    ensures r.Ok? ==> r.value == SortBy(TiffNames(imgList), NameKey(extract))
  {
    var tiffs := TiffNames(imgList);
    TiffMembership(imgList);
    var extracted := ExtractKeys(tiffs, extract);
    if extracted.Err? {
      return Err(extracted.error);
    }
    var keys := extracted.value;
    var sortedKeys := SortBy(keys, k => k);
    var pairs := new (string, int)[|tiffs|](m requires 0 <= m < |tiffs| => (tiffs[m], keys[m]));
    assert pairs[..] == Zip(tiffs, keys);
    SortInPlace(pairs, RankIn(sortedKeys));
    r := Ok(MapSeq(pairs[..], NamePart));
    RankSortIsKeySort(tiffs, keys, extract);
  }

  /** What sorting the TIFF names by their integers gives: the same names,
      in non-decreasing order of integer, equal integers in listing order. */
  lemma SortedNames(tiffs: seq<string>, extract: string -> Option<int>)
    requires forall n :: n in tiffs ==> extract(n).Some?
    ensures var sorted := SortBy(tiffs, NameKey(extract));
      && multiset(sorted) == multiset(tiffs)
      && (forall n :: n in sorted ==> n in tiffs)
      && (forall i, j :: 0 <= i < j < |sorted| ==> extract(sorted[i]).value <= extract(sorted[j]).value)
      && (forall k :: WithKey(sorted, NameKey(extract), k) == WithKey(tiffs, NameKey(extract), k))
  {
    var key := NameKey(extract);
    var sorted := SortBy(tiffs, key);
    SortByPermutes(tiffs, key);
    SortBySorted(tiffs, key);
    forall n | n in sorted ensures n in tiffs {
      assert n in multiset(sorted);
    }
    forall k ensures WithKey(sorted, key, k) == WithKey(tiffs, key, k) {
      SortByStable(tiffs, key, k);
    }
    forall i, j | 0 <= i < j < |sorted| ensures extract(sorted[i]).value <= extract(sorted[j]).value {
      assert sorted[i] in tiffs && sorted[j] in tiffs;
      assert key(sorted[i]) <= key(sorted[j]);
    }
  }

  /** sort_with_regex is stable against the listing itself: the names
      with integer k come out in the order they have in imgList. */
  lemma SortedNamesKeepListingOrder(imgList: seq<string>, extract: string -> Option<int>)
    ensures forall k ::
      WithKey(SortBy(TiffNames(imgList), NameKey(extract)), NameKey(extract), k)
        == TiffNames(WithKey(imgList, NameKey(extract), k))
  {
    var key := NameKey(extract);
    forall k ensures WithKey(SortBy(TiffNames(imgList), key), key, k) == TiffNames(WithKey(imgList, key, k)) {
      SortByStable(TiffNames(imgList), key, k);
      TiffNamesWithKey(imgList, key, k);
    }
  }

  // ---------------------------------------------------------------------
  // rebin

  /** A frame numpy can hold as a non-empty two-dimensional array. */
  predicate IsFrame(arr: Image) {
    |arr| > 0 && |arr[0]| > 0 && HasShape(arr, |arr|, |arr[0]|)
  }

  /** The f0 x f1 block of arr with top-left pixel (i * f0, j * f1) lies
      inside arr. */
  predicate BlockInside(arr: Image, i: nat, j: nat, f0: nat, f1: nat) {
    IsFrame(arr) && f0 > 0 && f1 > 0 && i * f0 + f0 <= |arr| && j * f1 + f1 <= |arr[0]|
  }

  /** Row a of that block. */
  function BlockRow(arr: Image, i: nat, j: nat, f0: nat, f1: nat, a: nat): (r: seq<real>)
    requires BlockInside(arr, i, j, f0, f1) && a < f0
    ensures |r| == f1
    ensures forall b :: 0 <= b < f1 ==> r[b] == arr[i * f0 + a][j * f1 + b]
  {
    arr[i * f0 + a][j * f1 .. j * f1 + f1]
  }

  /** The average of that block as numpy computes it in rebin: the mean of
      each block row (mean over the last axis), then the mean of those. */
  function BlockMean(arr: Image, i: nat, j: nat, f0: nat, f1: nat): real
    requires BlockInside(arr, i, j, f0, f1)
  {
    Mean(RowMeans(arr, i, j, f0, f1))
  }

  /** The mean of each row of that block. */
  function RowMeans(arr: Image, i: nat, j: nat, f0: nat, f1: nat): (r: seq<real>)
    requires BlockInside(arr, i, j, f0, f1)
    ensures |r| == f0
    ensures forall a :: 0 <= a < f0 ==> r[a] == Mean(BlockRow(arr, i, j, f0, f1, a))
  {
    seq(f0, a requires 0 <= a < f0 => Mean(BlockRow(arr, i, j, f0, f1, a)))
  }

  /** The sum of all pixels of that block. */
  function BlockSum(arr: Image, i: nat, j: nat, f0: nat, f1: nat): real
    requires BlockInside(arr, i, j, f0, f1)
  {
    Sum(RowSums(arr, i, j, f0, f1))
  }

  /** The sum of each row of that block. */
  function RowSums(arr: Image, i: nat, j: nat, f0: nat, f1: nat): (r: seq<real>)
    requires BlockInside(arr, i, j, f0, f1)
    ensures |r| == f0
    ensures forall a :: 0 <= a < f0 ==> r[a] == Sum(BlockRow(arr, i, j, f0, f1, a))
  {
    seq(f0, a requires 0 <= a < f0 => Sum(BlockRow(arr, i, j, f0, f1, a)))
  }

  /** The number of elements of the shape (n0, rows // n0, n1, cols // n1)
      that rebin reshapes to. */
  function ReshapeSize(rows: nat, cols: nat, n0: nat, n1: nat): nat
    requires n0 > 0 && n1 > 0
  {
    n0 * (rows / n0) * n1 * (cols / n1)
  }

  /** newRows x newCols blocks tile arr exactly. */
  predicate Tiles(arr: Image, newRows: int, newCols: int) {
    IsFrame(arr) && newRows > 0 && newCols > 0 && |arr| % newRows == 0 && |arr[0]| % newCols == 0
  }

  /** The block (i, j) of a tiling lies inside arr. */
  lemma {:induction false} TileInside(arr: Image, newRows: nat, newCols: nat, i: nat, j: nat)
    requires Tiles(arr, newRows, newCols) && i < newRows && j < newCols
    ensures BlockInside(arr, i, j, |arr| / newRows, |arr[0]| / newCols)
  {
    var f0, f1 := |arr| / newRows, |arr[0]| / newCols;
    assert |arr| == newRows * f0 && |arr[0]| == newCols * f1;
    TileFits(i, newRows, f0);
    TileFits(j, newCols, f1);
    assert f0 > 0 && f1 > 0;
  }

  /** Tile i of n tiles of size f ends within n * f. */
  lemma TileFits(i: nat, n: nat, f: nat)
    requires i < n
    ensures i * f + f <= n * f
  {
    assert i * f + f == (i + 1) * f;
  }

  /** The frame of block means of a tiling. */
  function Binned(arr: Image, newRows: nat, newCols: nat): (r: Image)
    requires Tiles(arr, newRows, newCols)
    ensures HasShape(r, newRows, newCols)
  {
    var f0, f1 := |arr| / newRows, |arr[0]| / newCols;
    seq(newRows, i requires 0 <= i < newRows =>
      seq(newCols, j requires 0 <= j < newCols =>
        TileInside(arr, newRows, newCols, i, j);
        BlockMean(arr, i, j, f0, f1)))
  }

  /** rebin(arr, (newRows, newCols)): arr averaged over blocks of
      (rows / newRows) x (cols / newCols) pixels. A zero target dimension
      fails the floor division; any other shape whose blocks do not tile
      arr fails the reshape. */
  function Rebin(arr: Image, newRows: int, newCols: int): (r: Result<Image>)
    requires IsFrame(arr)
    ensures r.Err? <==> !Tiles(arr, newRows, newCols)
    ensures r.Err? ==> (r.error == ZeroDivision <==> newRows == 0 || newCols == 0)
    ensures r.Err? ==> r.error == ZeroDivision || r.error == ReshapeMismatch
    ensures r.Ok? ==> HasShape(r.value, newRows, newCols)
  {
    var rows, cols := |arr|, |arr[0]|;
    if newRows == 0 || newCols == 0 then Err(ZeroDivision)
    else if newRows < 0 || newCols < 0 then Err(ReshapeMismatch)
    else
      ReshapeSizeTiles(rows, cols, newRows, newCols);
      if ReshapeSize(rows, cols, newRows, newCols) != rows * cols then Err(ReshapeMismatch)
      else Ok(Binned(arr, newRows, newCols))
  }

  /** The reshape succeeds exactly when both target dimensions divide the
      frame's dimensions. */
  lemma ReshapeSizeTiles(rows: nat, cols: nat, n0: nat, n1: nat)
    requires rows > 0 && cols > 0 && n0 > 0 && n1 > 0
    ensures ReshapeSize(rows, cols, n0, n1) == rows * cols <==> rows % n0 == 0 && cols % n1 == 0
  {
    var a, b := n0 * (rows / n0), n1 * (cols / n1);
    FloorMultiple(rows, n0);
    FloorMultiple(cols, n1);
    Reassociate(n0, rows / n0, n1, cols / n1);
    if rows % n0 != 0 || cols % n1 != 0 {
      ProductBelow(a, b, rows, cols);
    }
  }

  /** n * (x / n) is x less its remainder. */
  lemma FloorMultiple(x: nat, n: nat)
    requires n > 0
    ensures n * (x / n) == x - x % n && 0 <= x % n < n
  {
  }

  /** p * q * r * t == (p * q) * (r * t). */
  lemma Reassociate(p: int, q: int, r: int, t: int)
    ensures p * q * r * t == (p * q) * (r * t)
  {
  }

  /** a * b < x * y when a <= x, b <= y, one of them strictly, and x, y > 0. */
  lemma ProductBelow(a: nat, b: nat, x: nat, y: nat)
    requires a <= x && b <= y && (a < x || b < y) && x > 0 && y > 0
    ensures a * b < x * y
  {
    if a < x {
      assert a * b <= a * y;
      assert a * y < x * y;
    } else {
      assert a * b < a * y;
    }
  }

  /** Pixel (i, j) of a rebinned frame is the numpy mean of block (i, j). */
  lemma RebinAt(arr: Image, newRows: int, newCols: int, i: nat, j: nat)
    requires IsFrame(arr) && Tiles(arr, newRows, newCols) && i < newRows && j < newCols
    ensures BlockInside(arr, i, j, |arr| / newRows, |arr[0]| / newCols)
    ensures Rebin(arr, newRows, newCols).value[i][j]
      == BlockMean(arr, i, j, |arr| / newRows, |arr[0]| / newCols)
  {
    TileInside(arr, newRows, newCols, i, j);
    RebinIsBinned(arr, newRows, newCols);
  }

  /** On a tiling, rebin succeeds with the frame of block means. */
  lemma RebinIsBinned(arr: Image, newRows: int, newCols: int)
    requires IsFrame(arr) && Tiles(arr, newRows, newCols)
    ensures Rebin(arr, newRows, newCols) == Ok(Binned(arr, newRows, newCols))
  {
    ReshapeSizeTiles(|arr|, |arr[0]|, newRows, newCols);
  }


  /** numpy's mean of row means of a block is the block's sum divided by
      its pixel count. */
  lemma BlockMeanIsAverage(arr: Image, i: nat, j: nat, f0: nat, f1: nat)
    requires BlockInside(arr, i, j, f0, f1)
    ensures BlockMean(arr, i, j, f0, f1) == BlockSum(arr, i, j, f0, f1) / (f0 as real * f1 as real)
  {
    var means, sums := RowMeans(arr, i, j, f0, f1), RowSums(arr, i, j, f0, f1);
    forall k | 0 <= k < f0 ensures means[k] == sums[k] / f1 as real {
      var row := BlockRow(arr, i, j, f0, f1, k);
      assert means[k] == Mean(row) && sums[k] == Sum(row);
    }
    MeanOfMeans(means, sums, f0, f1);
    assert BlockMean(arr, i, j, f0, f1) == Mean(means);
    assert BlockSum(arr, i, j, f0, f1) == Sum(sums);
  }

  /** The mean of row means of equally long rows is the sum of the row sums
      divided by the number of values. */
  lemma MeanOfMeans(means: seq<real>, sums: seq<real>, count: nat, width: nat)
    requires width > 0 && count > 0 && |means| == |sums| == count
    requires forall k :: 0 <= k < count ==> means[k] == sums[k] / width as real
    ensures Mean(means) == Sum(sums) / (count as real * width as real)
  {
    SumDivided(means, sums, width as real);
    var n, w := count as real, width as real;
    assert Mean(means) == Sum(means) / n;
    DivideTwice(Sum(sums), w, n);
    assert n * w == count as real * width as real;
  }


  /** Each pixel of a rebinned frame is the sum of its block divided by the
      block's pixel count. */
  lemma RebinBlockMean(arr: Image, newRows: int, newCols: int, i: nat, j: nat)
    requires IsFrame(arr) && Rebin(arr, newRows, newCols).Ok?
    requires i < newRows && j < newCols
    ensures var f0, f1 := |arr| / newRows, |arr[0]| / newCols;
      BlockInside(arr, i, j, f0, f1) &&
      Rebin(arr, newRows, newCols).value[i][j] == BlockSum(arr, i, j, f0, f1) / (f0 as real * f1 as real)
  {
    RebinAt(arr, newRows, newCols, i, j);
    BlockMeanIsAverage(arr, i, j, |arr| / newRows, |arr[0]| / newCols);
  }

  /** (x / c) / d == x / (d * c). */
  lemma DivideTwice(x: real, c: real, d: real)
    requires c != 0.0 && d != 0.0
    ensures (x / c) / d == x / (d * c) == x / (c * d)
  {
  }

  /** The numpy mean of a block lies within any bounds of its pixels. */
  lemma BlockMeanWithin(arr: Image, i: nat, j: nat, f0: nat, f1: nat, lo: real, hi: real)
    requires BlockInside(arr, i, j, f0, f1)
    requires forall a, b :: 0 <= a < f0 && 0 <= b < f1 ==> lo <= BlockRow(arr, i, j, f0, f1, a)[b] <= hi
    ensures lo <= BlockMean(arr, i, j, f0, f1) <= hi
  {
    var means := RowMeans(arr, i, j, f0, f1);
    forall a | 0 <= a < f0 ensures lo <= means[a] <= hi {
      MeanBounds(BlockRow(arr, i, j, f0, f1, a), lo, hi);
    }
    MeanBounds(means, lo, hi);
  }

  /** Each pixel of a rebinned frame lies within any bounds of its block,
      in particular between the block's minimum and maximum. */
  lemma RebinWithinBlock(arr: Image, newRows: int, newCols: int, i: nat, j: nat, lo: real, hi: real)
    requires IsFrame(arr) && Rebin(arr, newRows, newCols).Ok?
    requires i < newRows && j < newCols
    requires var f0, f1 := |arr| / newRows, |arr[0]| / newCols;
      BlockInside(arr, i, j, f0, f1) &&
      forall y, x :: i * f0 <= y < i * f0 + f0 && j * f1 <= x < j * f1 + f1 ==> lo <= arr[y][x] <= hi
    ensures lo <= Rebin(arr, newRows, newCols).value[i][j] <= hi
  {
    RebinAt(arr, newRows, newCols, i, j);
    var f0, f1 := |arr| / newRows, |arr[0]| / newCols;
    BlockMeanWithin(arr, i, j, f0, f1, lo, hi);
  }

  /** A 1 x 1 block is its own mean. */
  lemma SinglePixelBlock(arr: Image, i: nat, j: nat)
    requires BlockInside(arr, i, j, 1, 1)
    ensures BlockMean(arr, i, j, 1, 1) == arr[i][j]
  {
    var row := BlockRow(arr, i, j, 1, 1, 0);
    assert row == [arr[i][j]];
    assert Sum(row) == arr[i][j] + Sum([]);
    var means := RowMeans(arr, i, j, 1, 1);
    assert means == [arr[i][j]];
    assert Sum(means) == arr[i][j] + Sum([]);
  }

  /** Rebinning a frame to its own shape returns it unchanged. */
  lemma RebinToOwnShape(arr: Image)
    requires IsFrame(arr)
    ensures Rebin(arr, |arr|, |arr[0]|) == Ok(arr)
  {
    var rows, cols := |arr|, |arr[0]|;
    assert rows / rows == 1 && cols / cols == 1;
    RebinIsBinned(arr, rows, cols);
    var out := Binned(arr, rows, cols);
    forall i, j | 0 <= i < rows && 0 <= j < cols ensures out[i][j] == arr[i][j] {
      RebinAt(arr, rows, cols, i, j);
      SinglePixelBlock(arr, i, j);
    }
    assert out == arr by {
      forall i | 0 <= i < rows ensures out[i] == arr[i] {
      }
    }
  }

  /** A uniform frame rebins to a uniform frame of the same value. */
  lemma RebinConstant(arr: Image, value: real, newRows: int, newCols: int)
    requires IsFrame(arr) && IsConstant(arr, value) && Rebin(arr, newRows, newCols).Ok?
    ensures IsConstant(Rebin(arr, newRows, newCols).value, value)
  {
    var out := Rebin(arr, newRows, newCols).value;
    var f0, f1 := |arr| / newRows, |arr[0]| / newCols;
    forall i, j | 0 <= i < |out| && 0 <= j < |out[i]| ensures out[i][j] == value {
      RebinAt(arr, newRows, newCols, i, j);
      BlockMeanWithin(arr, i, j, f0, f1, value, value);
    }
  }
}
