/** The 3x3 mean filter and binarisation at the mean threshold. */
module MeanFilter {
  import opened EdgeFilter
  import opened Quotients
  import Otsu

  // ---------------------------------------------------------------- the filter

  function Sum9(img: Image, h: nat, w: nat, i: nat, j: nat): int
    requires Rect(img, h, w) && Interior(h, w, i, j)
  {
    img[i - 1][j - 1] as int + img[i - 1][j] + img[i - 1][j + 1]
    + img[i][j - 1] + img[i][j] + img[i][j + 1]
    + img[i + 1][j - 1] + img[i + 1][j] + img[i + 1][j + 1]
  }

  /** The filtered image: border pixels as they were, interior ones the mean of their neighbourhood. */
  function MeanAt(img: Image, h: nat, w: nat, i: nat, j: nat): Pixel
    requires Rect(img, h, w) && i < h && j < w
  {
    if Interior(h, w, i, j) then Sum9(img, h, w, i, j) / 9 else img[i][j]
  }

  /** Pixel `(i, j)` is in the 3x3 neighbourhood of `(y, x)`. */
  predicate Near(i: int, j: int, y: int, x: int) { y - 1 <= i <= y + 1 && x - 1 <= j <= x + 1 }

  /** A filtered pixel lies between any bounds of its neighbourhood. */
  lemma MeanBetweenNeighbours(img: Image, h: nat, w: nat, y: nat, x: nat, lo: int, hi: int)
    requires Rect(img, h, w) && y < h && x < w
    requires forall i, j :: 0 <= i < h && 0 <= j < w && Near(i, j, y, x) ==> lo <= img[i][j] <= hi
    ensures lo <= MeanAt(img, h, w, y, x) <= hi
  {
    if Interior(h, w, y, x) {
      forall i, j | Near(i, j, y, x) ensures lo <= img[i][j] <= hi {}
    } else {
      assert Near(y, x, y, x);
    }
  }

  /** The sum of the first `n` of the nine pixels around (y, x), row by row. */
  function PatchSum(img: Image, h: nat, w: nat, y: nat, x: nat, n: nat): int
    requires Rect(img, h, w) && Interior(h, w, y, x) && n <= 9
  {
    if n == 0 then 0 else PatchSum(img, h, w, y, x, n - 1) + img[y - 1 + (n - 1) / 3][x - 1 + (n - 1) % 3]
  }

  function Three(img: Image, h: nat, w: nat, p: nat, x: nat): int
    requires Rect(img, h, w) && p < h && 0 < x < w - 1
  {
    img[p][x - 1] as int + img[p][x] + img[p][x + 1]
  }

  lemma PatchRow(img: Image, h: nat, w: nat, y: nat, x: nat, r: nat)
    requires Rect(img, h, w) && Interior(h, w, y, x) && r < 3
    ensures PatchSum(img, h, w, y, x, 3 * r + 3) == PatchSum(img, h, w, y, x, 3 * r) + Three(img, h, w, y - 1 + r, x)
  {
    var n := 3 * r;
    assert PatchSum(img, h, w, y, x, n + 1) == PatchSum(img, h, w, y, x, n) + img[y - 1 + r][x - 1];
    assert PatchSum(img, h, w, y, x, n + 2) == PatchSum(img, h, w, y, x, n + 1) + img[y - 1 + r][x];
    assert PatchSum(img, h, w, y, x, n + 3) == PatchSum(img, h, w, y, x, n + 2) + img[y - 1 + r][x + 1];
  }

  lemma PatchSumIs(img: Image, h: nat, w: nat, y: nat, x: nat)
    requires Rect(img, h, w) && Interior(h, w, y, x)
    ensures PatchSum(img, h, w, y, x, 9) == Sum9(img, h, w, y, x)
  {
    PatchRow(img, h, w, y, x, 0);
    PatchRow(img, h, w, y, x, 1);
    PatchRow(img, h, w, y, x, 2);
  }

  /** An interior pixel becomes the mean of the nine pixels around it, rounded down; a border pixel
      stays as it is. */
  lemma MeanIsFloor(img: Image, h: nat, w: nat, y: nat, x: nat)
    requires Rect(img, h, w) && y < h && x < w
    ensures var m := MeanAt(img, h, w, y, x);
            if Interior(h, w, y, x) then 9 * m <= PatchSum(img, h, w, y, x, 9) < 9 * m + 9 else m == img[y][x]
  {
    if Interior(h, w, y, x) {
      PatchSumIs(img, h, w, y, x);
    }
  }

  /** Every pixel of the neighbourhood has the same weight, a ninth, and no other pixel has any: raising
      one pixel by nine raises an interior mean by one if the pixel is near, and not at all if not. */
  lemma MeanWeighsEqually(a: Image, b: Image, h: nat, w: nat, y: nat, x: nat, i: nat, j: nat)
    requires Rect(a, h, w) && Rect(b, h, w) && Interior(h, w, y, x) && i < h && j < w
    requires b[i][j] as int == a[i][j] as int + 9
    requires forall p, q :: 0 <= p < h && 0 <= q < w && (p != i || q != j) ==> b[p][q] == a[p][q]
    ensures MeanAt(b, h, w, y, x) as int == MeanAt(a, h, w, y, x) as int + if Near(i, j, y, x) then 1 else 0
  {
    var d := if Near(i, j, y, x) then 9 else 0;
    RowShift(a, b, h, w, y - 1, x, i, j);
    RowShift(a, b, h, w, y, x, i, j);
    RowShift(a, b, h, w, y + 1, x, i, j);
    assert Sum9(b, h, w, y, x) == Sum9(a, h, w, y, x) + d;
  }

  /** What one row of three gains. */
  lemma RowShift(a: Image, b: Image, h: nat, w: nat, p: nat, x: nat, i: nat, j: nat)
    requires Rect(a, h, w) && Rect(b, h, w) && p < h && 0 < x < w - 1 && i < h && j < w
    requires b[i][j] as int == a[i][j] as int + 9
    requires forall p, q :: 0 <= p < h && 0 <= q < w && (p != i || q != j) ==> b[p][q] == a[p][q]
    ensures Three(b, h, w, p, x) == Three(a, h, w, p, x) + if p == i && x - 1 <= j <= x + 1 then 9 else 0
  {
  }

  /** Brightening pixels never darkens the filtered image. */
  lemma MeanMonotone(a: Image, b: Image, h: nat, w: nat, y: nat, x: nat)
    requires Rect(a, h, w) && Rect(b, h, w) && y < h && x < w
    requires forall i, j :: 0 <= i < h && 0 <= j < w ==> a[i][j] <= b[i][j]
    ensures MeanAt(a, h, w, y, x) <= MeanAt(b, h, w, y, x)
  {
    if Interior(h, w, y, x) {
      forall i, j | Near(i, j, y, x) ensures a[i][j] <= b[i][j] {}
    }
  }

  /** Filtering commutes with transposing and with mirroring the image. */
  lemma MeanCommutes(img: Image, h: nat, w: nat, y: nat, x: nat)
    requires Rect(img, h, w) && y < h && x < w
    ensures MeanAt(Transpose(img, h, w), w, h, x, y) == MeanAt(img, h, w, y, x)
    ensures MeanAt(Mirror(img, h, w), h, w, y, w - 1 - x) == MeanAt(img, h, w, y, x)
  {
    var t, m := Transpose(img, h, w), Mirror(img, h, w);
    if Interior(h, w, y, x) {
      assert Sum9(t, w, h, x, y) == Sum9(img, h, w, y, x);
      assert Sum9(m, h, w, y, w - 1 - x) == Sum9(img, h, w, y, x);
    }
  }

  /** A read of the input array as the loop makes it: past the last row or column it finds whatever
      lies there. */
  method ReadAt(img: array2<Pixel>, beyond: (int, int) -> Pixel, y: int, x: int) returns (p: int)
    requires 0 <= y && 0 <= x
    ensures p == if y < img.Length0 && x < img.Length1 then img[y, x] else beyond(y, x)
    ensures 0 <= p <= 255
  {
    if y < img.Length0 && x < img.Length1 {
      return img[y, x];
    }
    return beyond(y, x);
  }

  method MeanOf(img: array2<Pixel>, beyond: (int, int) -> Pixel, y: nat, x: nat) returns (mean: Pixel)
    requires 1 <= y < img.Length0 && 1 <= x < img.Length1
    ensures Interior(img.Length0, img.Length1, y, x) ==>
              mean == MeanAt(Rows(img), img.Length0, img.Length1, y, x)
  {
    var nw := ReadAt(img, beyond, y - 1, x - 1);
    var n := ReadAt(img, beyond, y - 1, x);
    var ne := ReadAt(img, beyond, y - 1, x + 1);
    var west := ReadAt(img, beyond, y, x - 1);
    var mid := ReadAt(img, beyond, y, x);
    var east := ReadAt(img, beyond, y, x + 1);
    var sw := ReadAt(img, beyond, y + 1, x - 1);
    var s := ReadAt(img, beyond, y + 1, x);
    var se := ReadAt(img, beyond, y + 1, x + 1);
    mean := (nw + n + ne + west + mid + east + sw + s + se) / 9;
  }

  /** The interior pixels of the output are filtered. */
  ghost predicate InteriorDone(imgOut: array2<Pixel>, pic: Image)
    requires Rect(pic, imgOut.Length0, imgOut.Length1)
    reads imgOut
  {
    forall y, x :: Interior(imgOut.Length0, imgOut.Length1, y, x) ==>
      imgOut[y, x] == MeanAt(pic, imgOut.Length0, imgOut.Length1, y, x)
  }

  /** The first loop: one row and one column too far, into the border, where it reads past the image. */
  method FilterInterior(img: array2<Pixel>, imgOut: array2<Pixel>, beyond: (int, int) -> Pixel)
    requires img != imgOut && img.Length0 == imgOut.Length0 > 0 && img.Length1 == imgOut.Length1 > 0
    modifies imgOut
    ensures InteriorDone(imgOut, Rows(img))
  {
    hide MeanAt;
    var height, width := img.Length0, img.Length1;
    ghost var pic := Rows(img);
    for countY := 1 to height
      invariant Rows(img) == pic
      invariant forall y, x :: y < countY && Interior(height, width, y, x) ==>
                  imgOut[y, x] == MeanAt(pic, height, width, y, x)
    {
      for countX := 1 to width
        invariant Rows(img) == pic
        invariant forall y, x :: Interior(height, width, y, x) && (y < countY || (y == countY && x < countX)) ==>
                    imgOut[y, x] == MeanAt(pic, height, width, y, x)
      {
        var mean := MeanOf(img, beyond, countY, countX);
        imgOut[countY, countX] := mean;
      }
    }
  }

  /** The other two loops: the top and bottom rows, then the side columns between them. */
  method CopyBorder(img: array2<Pixel>, imgOut: array2<Pixel>)
    requires img != imgOut && img.Length0 == imgOut.Length0 > 0 && img.Length1 == imgOut.Length1 > 0
    modifies imgOut
    ensures forall y, x :: 0 <= y < img.Length0 && 0 <= x < img.Length1 ==>
              imgOut[y, x] == if Interior(img.Length0, img.Length1, y, x) then old(imgOut[y, x]) else img[y, x]
  {
    var height, width := img.Length0, img.Length1;
    for countX := 0 to width
      invariant forall y, x :: 0 <= y < height && 0 <= x < width ==>
                  imgOut[y, x] == if (y == 0 || y == height - 1) && x < countX then img[y, x] else old(imgOut[y, x])
    {
      imgOut[0, countX] := img[0, countX];
      imgOut[height - 1, countX] := img[height - 1, countX];
    }
    var countY := 1;
    while countY < height - 1
      invariant 1 <= countY
      invariant forall y, x :: 0 <= y < height && 0 <= x < width ==>
                  imgOut[y, x] == if y == 0 || y == height - 1 || ((x == 0 || x == width - 1) && y < countY)
                                  then img[y, x] else old(imgOut[y, x])
    {
      imgOut[countY, 0] := img[countY, 0];
      imgOut[countY, width - 1] := img[countY, width - 1];
      countY := countY + 1;
    }
  }

  /** gray_mean_filter: whatever lies past the image, it never reaches the result. */
  method GrayMeanFilter(img: array2<Pixel>, imgOut: array2<Pixel>, beyond: (int, int) -> Pixel)
    requires img != imgOut && img.Length0 == imgOut.Length0 > 0 && img.Length1 == imgOut.Length1 > 0
    modifies imgOut
    ensures forall y, x :: 0 <= y < img.Length0 && 0 <= x < img.Length1 ==>
              imgOut[y, x] == MeanAt(Rows(img), img.Length0, img.Length1, y, x)
  {
    ghost var pic := Rows(img);
    FilterInterior(img, imgOut, beyond);
    assert Rows(img) == pic;
    CopyBorder(img, imgOut);
    assert Rows(img) == pic;
  }

  // ---------------------------------------------------------------- the mean threshold

  function RowSum(row: seq<Pixel>): nat {
    if row == [] then 0 else RowSum(row[..|row| - 1]) + row[|row| - 1]
  }

  function ImageSum(img: Image): nat {
    if img == [] then 0 else ImageSum(img[..|img| - 1]) + RowSum(img[|img| - 1])
  }

  /** The 32-bit sum. */
  function Wrapped(s: nat): (r: nat)
    ensures r <= s
  {
    s % 0x1_0000_0000
  }

  lemma WrappedAdds(s: nat, p: nat)
    ensures Wrapped(Wrapped(s) + p) == Wrapped(s + p)
  {
    assert s == Wrapped(s) + 0x1_0000_0000 * (s / 0x1_0000_0000);
  }

  function MeanThreshold(img: Image, h: nat, w: nat): int
    requires Rect(img, h, w) && h > 0 && w > 0
  {
    Wrapped(ImageSum(img)) / w / h * 7 / 10 + 10
  }

  lemma {:induction false} RowSumBound(row: seq<Pixel>)
    ensures RowSum(row) <= 255 * |row|
  {
    if row != [] { RowSumBound(row[..|row| - 1]); }
  }

  lemma {:induction false} ImageSumBound(img: Image, h: nat, w: nat)
    requires Rect(img, h, w)
    ensures ImageSum(img) <= 255 * h * w
  {
    if h > 0 {
      ImageSumBound(img[..h - 1], h - 1, w);
      RowSumBound(img[h - 1]);
      assert 255 * h * w == 255 * (h - 1) * w + 255 * w;
    }
  }

  /** The threshold is ten more than seven tenths of the mean grey value, both rounded down; the sum
      behind the mean is cut to 32 bits. */
  lemma MeanThresholdIs(img: Image, h: nat, w: nat) returns (mean: nat)
    requires Rect(img, h, w) && h > 0 && w > 0
    ensures var s := ImageSum(img) % 0x1_0000_0000; mean * (w * h) <= s < mean * (w * h) + w * h
    ensures var t := MeanThreshold(img, h, w) - 10; 10 * t <= 7 * mean < 10 * t + 10
  {
    var s := Wrapped(ImageSum(img));
    ProductPositive(w, h);
    DivideTwice(s, w, h);
    QuotientBounds(s, w * h);
    mean := Floor(s, w * h);
  }

  /** The threshold of any image lies in 10 .. 188, even where its sum does not fit 32 bits. */
  lemma MeanThresholdRange(img: Image, h: nat, w: nat)
    requires Rect(img, h, w) && h > 0 && w > 0
    ensures 10 <= MeanThreshold(img, h, w) <= 188
  {
    ImageSumBound(img, h, w);
    var s := Wrapped(ImageSum(img));
    QuotientBound(s, 255 * h, w);
    QuotientBound(s / w, 255, h);
  }

  lemma QuotientBound(s: nat, q: nat, d: nat)
    requires d > 0 && s <= q * d
    ensures 0 <= s / d <= q
  {
    var k := s / d;
    assert k > q ==> k * d >= (q + 1) * d;
  }

  function Binarised(img: Image, h: nat, w: nat, threshold: int): (r: Image)
    requires Rect(img, h, w)
    ensures Rect(r, h, w)
  {
    seq(h, i requires 0 <= i < h => seq(w, j requires 0 <= j < w => if img[i][j] > threshold then 255 else 0))
  }

  /** Binarising at the mean threshold a second time changes nothing. */
  lemma MeanBinarisationIdempotent(img: Image, h: nat, w: nat)
    requires Rect(img, h, w) && h > 0 && w > 0
    ensures var once := Binarised(img, h, w, MeanThreshold(img, h, w));
            Binarised(once, h, w, MeanThreshold(once, h, w)) == once
  {
    var once := Binarised(img, h, w, MeanThreshold(img, h, w));
    MeanThresholdRange(once, h, w);
    var twice := Binarised(once, h, w, MeanThreshold(once, h, w));
    forall i | 0 <= i < h ensures twice[i] == once[i] {
      assert forall j :: 0 <= j < w ==> twice[i][j] == once[i][j];
    }
  }

  // ---------------------------------------------------------------- summing by columns

  function DropColumn(img: Image, h: nat, w: nat): (r: Image)
    requires Rect(img, h, w) && w > 0
    ensures Rect(r, h, w - 1)
  {
    seq(h, i requires 0 <= i < h => img[i][..w - 1])
  }

  function Column(img: Image, h: nat, w: nat, x: nat): (c: seq<Pixel>)
    requires Rect(img, h, w) && x < w
    ensures |c| == h
  {
    seq(h, i requires 0 <= i < h => img[i][x])
  }

  lemma {:induction false} SumLastColumn(img: Image, h: nat, w: nat)
    requires Rect(img, h, w) && w > 0
    ensures ImageSum(img) == ImageSum(DropColumn(img, h, w)) + RowSum(Column(img, h, w, w - 1))
  {
    if h > 0 {
      var front := img[..h - 1];
      SumLastColumn(front, h - 1, w);
      assert DropColumn(img, h, w)[..h - 1] == DropColumn(front, h - 1, w);
      assert Column(img, h, w, w - 1)[..h - 1] == Column(front, h - 1, w, w - 1);
    }
  }

  lemma {:induction false} EmptyRowsSum(img: Image, h: nat)
    requires Rect(img, h, 0)
    ensures ImageSum(img) == 0
  {
    if h > 0 { EmptyRowsSum(img[..h - 1], h - 1); }
  }

  /** Summing an image by columns gives what summing it by rows gives. */
  lemma {:induction false} SumByColumns(img: Image, h: nat, w: nat)
    requires Rect(img, h, w)
    ensures ImageSum(Transpose(img, h, w)) == ImageSum(img)
    decreases w
  {
    if w == 0 {
      EmptyRowsSum(img, h);
    } else {
      var t, d := Transpose(img, h, w), DropColumn(img, h, w);
      SumByColumns(d, h, w - 1);
      SumLastColumn(img, h, w);
      assert t[..w - 1] == Transpose(d, h, w - 1) by {
        forall j | 0 <= j < w - 1 ensures t[j] == Transpose(d, h, w - 1)[j] {
          assert forall i :: 0 <= i < h ==> t[j][i] == Transpose(d, h, w - 1)[j][i];
        }
      }
      assert t[w - 1] == Column(img, h, w, w - 1);
    }
  }

  lemma RowSumMore(row: seq<Pixel>, j: nat)
    requires j < |row|
    ensures RowSum(row[..j + 1]) == RowSum(row[..j]) + row[j]
  {
    assert row[..j + 1][..j] == row[..j];
  }

  lemma ImageSumMore(img: Image, i: nat)
    requires i < |img|
    ensures ImageSum(img[..i + 1]) == ImageSum(img[..i]) + RowSum(img[i])
  {
    assert img[..i + 1][..i] == img[..i];
  }

  lemma NothingSums(img: Image, row: seq<Pixel>)
    ensures ImageSum(img[..0]) == 0 && RowSum(row[..0]) == 0
  {
  }

  /** mean_threshold, which walks the image column by column. */
  method MeanThresholdOf(img: array2<Pixel>) returns (threshold: int)
    requires img.Length0 > 0 && img.Length1 > 0
    ensures threshold == MeanThreshold(Rows(img), img.Length0, img.Length1)
  {
    hide Wrapped, ImageSum, RowSum;
    ghost var t := Transpose(Rows(img), img.Length0, img.Length1);
    var tv := 0;
    NothingSums(t, t[0]);
    for i := 0 to img.Length1
      invariant tv == Wrapped(ImageSum(t[..i]))
    {
      NothingSums(t, t[i]);
      for j := 0 to img.Length0
        invariant tv == Wrapped(ImageSum(t[..i]) + RowSum(t[i][..j]))
      {
        WrappedAdds(ImageSum(t[..i]) + RowSum(t[i][..j]), img[j, i]);
        RowSumMore(t[i], j);
        tv := Wrapped(tv + img[j, i]);
      }
      assert t[i][..img.Length0] == t[i];
      ImageSumMore(t, i);
    }
    assert t[..img.Length1] == t;
    SumByColumns(Rows(img), img.Length0, img.Length1);
    threshold := tv / img.Length1 / img.Length0;
    threshold := threshold * 7 / 10 + 10;
  }

  /** gray_to_binary. `histogram` is what the histogram array holds when Otsu's method is asked for. */
  method GrayToBinary(img: array2<Pixel>, imgOut: array2<Pixel>, mode: Pixel, histogram: Otsu.Histogram)
    returns (threshold: int)
    requires img != imgOut && img.Length0 == imgOut.Length0 > 0 && img.Length1 == imgOut.Length1 > 0
    modifies imgOut
    ensures mode != 0 ==> threshold == MeanThreshold(Rows(img), img.Length0, img.Length1)
    ensures mode == 0 ==> threshold >= 0 && Otsu.IsThreshold(histogram, threshold)
    ensures forall y, x :: 0 <= y < img.Length0 && 0 <= x < img.Length1 ==>
              imgOut[y, x] == if img[y, x] > threshold then 255 else 0
    ensures Rows(imgOut) == Binarised(Rows(img), img.Length0, img.Length1, threshold)
  {
    if mode != 0 {
      threshold := MeanThresholdOf(img);
    } else {
      threshold := Otsu.OstuThreshold(histogram);
    }
    ghost var pic := Rows(img);
    for i := 0 to img.Length0
      invariant Rows(img) == pic
      invariant forall y, x :: 0 <= y < i && 0 <= x < img.Length1 ==> imgOut[y, x] == if pic[y][x] > threshold then 255 else 0
    {
      for j := 0 to img.Length1
        invariant Rows(img) == pic
        invariant forall y, x :: 0 <= y <= i && 0 <= x < img.Length1 && (y < i || x < j) ==>
                    imgOut[y, x] == if pic[y][x] > threshold then 255 else 0
      {
        imgOut[i, j] := if img[i, j] > threshold then 255 else 0;
      }
    }
    ghost var b := Binarised(pic, img.Length0, img.Length1, threshold);
    forall y | 0 <= y < img.Length0 ensures Rows(imgOut)[y] == b[y] {
      assert forall x :: 0 <= x < img.Length1 ==> Rows(imgOut)[y][x] == b[y][x];
    }
  }
}
