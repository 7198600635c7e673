/** The four-direction edge detector: its loop over the interior of the image, and the symmetries
    that make it indifferent to how the image lies. */
module EdgeFilter {

  type Pixel = x: int | 0 <= x < 256

  /** Rows of equal length. */
  type Image = seq<seq<Pixel>>

  predicate Rect(img: Image, h: nat, w: nat) {
    |img| == h && forall i :: 0 <= i < h ==> |img[i]| == w
  }

  predicate Interior(h: nat, w: nat, i: int, j: int) {
    0 < i < h - 1 && 0 < j < w - 1
  }

  /** The interior pixels are those with all eight neighbours inside the image. */
  lemma InteriorExact(h: nat, w: nat, i: int, j: int)
    ensures Interior(h, w, i, j) <==>
              forall y, x :: i - 1 <= y <= i + 1 && j - 1 <= x <= j + 1 ==> InImage(h, w, y, x)
  {
    if forall y, x :: i - 1 <= y <= i + 1 && j - 1 <= x <= j + 1 ==> InImage(h, w, y, x) {
      assert InImage(h, w, i - 1, j - 1) && InImage(h, w, i + 1, j + 1);
    }
  }

  predicate InImage(h: nat, w: nat, y: int, x: int) { 0 <= y < h && 0 <= x < w }

  // ---------------------------------------------------------------- as the source computes it

  function Abs(x: int): nat { if x < 0 then -x else x }
  function Max(x: int, y: int): int { if x < y then y else x }

  /** The four gradients at an interior pixel, with the signs of the source's kernels. */
  function Gradient(img: Image, h: nat, w: nat, i: nat, j: nat, k: nat): int
    requires Rect(img, h, w) && Interior(h, w, i, j) && k < 4
  {
    var nw: int, n: int, ne: int := img[i - 1][j - 1], img[i - 1][j], img[i - 1][j + 1];
    var west: int, east: int := img[i][j - 1], img[i][j + 1];
    var sw: int, s: int, se: int := img[i + 1][j - 1], img[i + 1][j], img[i + 1][j + 1];
    if k == 0 then -nw + ne - west + east - sw + se
    else if k == 1 then -nw + sw - n + s - ne + se
    else if k == 2 then -n + west - east + s - ne + sw
    else -n + east - west + s - nw + se
  }

  /** The largest gradient magnitude, as the inner loop finds it. */
  function Strength(img: Image, h: nat, w: nat, i: nat, j: nat): int
    requires Rect(img, h, w) && Interior(h, w, i, j)
  {
    Max(Max(Max(Abs(Gradient(img, h, w, i, j, 0)), Abs(Gradient(img, h, w, i, j, 1))),
            Abs(Gradient(img, h, w, i, j, 2))), Abs(Gradient(img, h, w, i, j, 3)))
  }

  // ---------------------------------------------------------------- as a ring of neighbours

  /** The eight neighbours of a pixel, clockwise from the one above and to the left. */
  function Ring(img: Image, h: nat, w: nat, i: nat, j: nat, k: int): int
    requires Rect(img, h, w) && Interior(h, w, i, j)
  {
    match k % 8
    case 0 => img[i - 1][j - 1]
    case 1 => img[i - 1][j]
    case 2 => img[i - 1][j + 1]
    case 3 => img[i][j + 1]
    case 4 => img[i + 1][j + 1]
    case 5 => img[i + 1][j]
    case 6 => img[i + 1][j - 1]
    case _ => img[i][j - 1]
  }

  /** How much brighter the three neighbours around direction `k` are than the three opposite. */
  function Rise(img: Image, h: nat, w: nat, i: nat, j: nat, k: int): int
    requires Rect(img, h, w) && Interior(h, w, i, j)
  {
    Ring(img, h, w, i, j, k - 1) + Ring(img, h, w, i, j, k) + Ring(img, h, w, i, j, k + 1)
    - Ring(img, h, w, i, j, k + 3) - Ring(img, h, w, i, j, k + 4) - Ring(img, h, w, i, j, k + 5)
  }

  /** `m` is the largest rise over all directions. */
  ghost predicate LargestRise(img: Image, h: nat, w: nat, i: nat, j: nat, m: int)
    requires Rect(img, h, w) && Interior(h, w, i, j)
  {
    && (forall k :: Rise(img, h, w, i, j, k) <= m)
    && (exists k :: Rise(img, h, w, i, j, k) == m)
  }

  lemma RisePeriodic(img: Image, h: nat, w: nat, i: nat, j: nat, k: int)
    requires Rect(img, h, w) && Interior(h, w, i, j)
    ensures Rise(img, h, w, i, j, k) == Rise(img, h, w, i, j, k % 8)
  {
    hide Ring;
    var q := k - k % 8;
    RingPeriodic(img, h, w, i, j, k - 1, q);
    RingPeriodic(img, h, w, i, j, k, q);
    RingPeriodic(img, h, w, i, j, k + 1, q);
    RingPeriodic(img, h, w, i, j, k + 3, q);
    RingPeriodic(img, h, w, i, j, k + 4, q);
    RingPeriodic(img, h, w, i, j, k + 5, q);
  }

  lemma RingPeriodic(img: Image, h: nat, w: nat, i: nat, j: nat, k: int, q: int)
    requires Rect(img, h, w) && Interior(h, w, i, j) && q % 8 == 0
    ensures Ring(img, h, w, i, j, k) == Ring(img, h, w, i, j, k - q)
  {
    assert k % 8 == (k - q) % 8;
  }

  lemma RisesAreGradients(img: Image, h: nat, w: nat, i: nat, j: nat)
    requires Rect(img, h, w) && Interior(h, w, i, j)
    ensures Rise(img, h, w, i, j, 3) == Gradient(img, h, w, i, j, 0) == -Rise(img, h, w, i, j, 7)
    ensures Rise(img, h, w, i, j, 5) == Gradient(img, h, w, i, j, 1) == -Rise(img, h, w, i, j, 1)
    ensures Rise(img, h, w, i, j, 6) == Gradient(img, h, w, i, j, 2) == -Rise(img, h, w, i, j, 2)
    ensures Rise(img, h, w, i, j, 4) == Gradient(img, h, w, i, j, 3) == -Rise(img, h, w, i, j, 0)
  {
  }

  /** The four kernels together measure the steepest rise over all eight directions, at most 765. */
  lemma StrengthIsLargestRise(img: Image, h: nat, w: nat, i: nat, j: nat)
    requires Rect(img, h, w) && Interior(h, w, i, j)
    ensures LargestRise(img, h, w, i, j, Strength(img, h, w, i, j))
    ensures 0 <= Strength(img, h, w, i, j) <= 765
  {
    RisesAreGradients(img, h, w, i, j);
    forall k ensures Rise(img, h, w, i, j, k) <= Strength(img, h, w, i, j) {
      RisePeriodic(img, h, w, i, j, k);
      hide Rise, Ring, Gradient;
      var r := k % 8;
      assert r == 0 || r == 1 || r == 2 || r == 3 || r == 4 || r == 5 || r == 6 || r == 7;
    }
  }

  lemma LargestRiseUnique(img: Image, h: nat, w: nat, i: nat, j: nat, m: int, n: int)
    requires Rect(img, h, w) && Interior(h, w, i, j)
    requires LargestRise(img, h, w, i, j, m) && LargestRise(img, h, w, i, j, n)
    ensures m == n
  {
    var k :| Rise(img, h, w, i, j, k) == m;
    var l :| Rise(img, h, w, i, j, l) == n;
  }

  // ---------------------------------------------------------------- symmetries

  function Transpose(img: Image, h: nat, w: nat): (r: Image)
    requires Rect(img, h, w)
    ensures Rect(r, w, h)
  {
    seq(w, j requires 0 <= j < w => seq(h, i requires 0 <= i < h => img[i][j]))
  }

  function Mirror(img: Image, h: nat, w: nat): (r: Image)
    requires Rect(img, h, w)
    ensures Rect(r, h, w)
  {
    seq(h, i requires 0 <= i < h => seq(w, j requires 0 <= j < w => img[i][w - 1 - j]))
  }

  function Negative(img: Image, h: nat, w: nat): (r: Image)
    requires Rect(img, h, w)
    ensures Rect(r, h, w)
  {
    seq(h, i requires 0 <= i < h => seq(w, j requires 0 <= j < w => 255 - img[i][j]))
  }

  /** Two pixels whose rises agree, direction `k` of one with direction `c + k` or `c - k` of the other. */
  ghost predicate SameRises(a: Image, h: nat, w: nat, i: nat, j: nat, b: Image, h': nat, w': nat, i': nat, j': nat,
                            flip: bool, c: int)
    requires Rect(a, h, w) && Interior(h, w, i, j) && Rect(b, h', w') && Interior(h', w', i', j')
  {
    forall k :: Rise(b, h', w', i', j', k) == Rise(a, h, w, i, j, if flip then c - k else c + k)
  }

  lemma SameRisesSameStrength(a: Image, h: nat, w: nat, i: nat, j: nat, b: Image, h': nat, w': nat, i': nat, j': nat,
                              flip: bool, c: int)
    requires Rect(a, h, w) && Interior(h, w, i, j) && Rect(b, h', w') && Interior(h', w', i', j')
    requires SameRises(a, h, w, i, j, b, h', w', i', j', flip, c)
    ensures Strength(b, h', w', i', j') == Strength(a, h, w, i, j)
  {
    hide Rise, Strength, Ring, Gradient;
    StrengthIsLargestRise(a, h, w, i, j);
    StrengthIsLargestRise(b, h', w', i', j');
    var m := Strength(b, h', w', i', j');
    forall k ensures Rise(a, h, w, i, j, k) <= m {
      assert Rise(b, h', w', i', j', if flip then c - k else k - c) <= m;
    }
    LargestRiseUnique(a, h, w, i, j, m, Strength(a, h, w, i, j));
  }

  lemma TransposeRing(img: Image, h: nat, w: nat, i: nat, j: nat, k: int)
    requires Rect(img, h, w) && Interior(h, w, i, j)
    ensures Ring(Transpose(img, h, w), w, h, j, i, k) == Ring(img, h, w, i, j, -k)
  {
    assert (-k) % 8 == if k % 8 == 0 then 0 else 8 - k % 8;
  }

  lemma TransposeRise(img: Image, h: nat, w: nat, i: nat, j: nat, k: int)
    requires Rect(img, h, w) && Interior(h, w, i, j)
    ensures Rise(Transpose(img, h, w), w, h, j, i, k) == Rise(img, h, w, i, j, -k)
  {
    hide Ring;
    TransposeRing(img, h, w, i, j, k - 1);
    TransposeRing(img, h, w, i, j, k);
    TransposeRing(img, h, w, i, j, k + 1);
    TransposeRing(img, h, w, i, j, k + 3);
    TransposeRing(img, h, w, i, j, k + 4);
    TransposeRing(img, h, w, i, j, k + 5);
    RingPeriodic(img, h, w, i, j, -k + 3, 8);
    RingPeriodic(img, h, w, i, j, -k + 4, 8);
    RingPeriodic(img, h, w, i, j, -k + 5, 8);
  }

  /** Transposing the image transposes the strengths: direction k becomes direction -k. */
  lemma TransposeKeepsStrength(img: Image, h: nat, w: nat, i: nat, j: nat)
    requires Rect(img, h, w) && Interior(h, w, i, j)
    ensures Strength(Transpose(img, h, w), w, h, j, i) == Strength(img, h, w, i, j)
  {
    hide Rise, Strength;
    forall k ensures Rise(Transpose(img, h, w), w, h, j, i, k) == Rise(img, h, w, i, j, 0 - k) {
      TransposeRise(img, h, w, i, j, k);
    }
    SameRisesSameStrength(img, h, w, i, j, Transpose(img, h, w), w, h, j, i, true, 0);
  }

  lemma MirrorRing(img: Image, h: nat, w: nat, i: nat, j: nat, k: int)
    requires Rect(img, h, w) && Interior(h, w, i, j)
    ensures Ring(Mirror(img, h, w), h, w, i, w - 1 - j, k) == Ring(img, h, w, i, j, 2 - k)
  {
    assert (2 - k) % 8 == if k % 8 <= 2 then 2 - k % 8 else 10 - k % 8;
  }

  lemma MirrorRise(img: Image, h: nat, w: nat, i: nat, j: nat, k: int)
    requires Rect(img, h, w) && Interior(h, w, i, j)
    ensures Rise(Mirror(img, h, w), h, w, i, w - 1 - j, k) == Rise(img, h, w, i, j, 2 - k)
  {
    hide Ring;
    MirrorRing(img, h, w, i, j, k - 1);
    MirrorRing(img, h, w, i, j, k);
    MirrorRing(img, h, w, i, j, k + 1);
    MirrorRing(img, h, w, i, j, k + 3);
    MirrorRing(img, h, w, i, j, k + 4);
    MirrorRing(img, h, w, i, j, k + 5);
    RingPeriodic(img, h, w, i, j, 2 - k + 3, 8);
    RingPeriodic(img, h, w, i, j, 2 - k + 4, 8);
    RingPeriodic(img, h, w, i, j, 2 - k + 5, 8);
  }

  /** Mirroring the image left to right mirrors the strengths: direction k becomes direction 2 - k. */
  lemma MirrorKeepsStrength(img: Image, h: nat, w: nat, i: nat, j: nat)
    requires Rect(img, h, w) && Interior(h, w, i, j)
    ensures Strength(Mirror(img, h, w), h, w, i, w - 1 - j) == Strength(img, h, w, i, j)
  {
    hide Rise, Strength;
    var m, x := Mirror(img, h, w), w - 1 - j;
    forall k ensures Rise(m, h, w, i, x, k) == Rise(img, h, w, i, j, 2 - k) {
      MirrorRise(img, h, w, i, j, k);
    }
    SameRisesSameStrength(img, h, w, i, j, m, h, w, i, x, true, 2);
  }

  lemma NegativeRing(img: Image, h: nat, w: nat, i: nat, j: nat, k: int)
    requires Rect(img, h, w) && Interior(h, w, i, j)
    ensures Ring(Negative(img, h, w), h, w, i, j, k) == 255 - Ring(img, h, w, i, j, k)
  {
  }

  lemma NegativeRise(img: Image, h: nat, w: nat, i: nat, j: nat, k: int)
    requires Rect(img, h, w) && Interior(h, w, i, j)
    ensures Rise(Negative(img, h, w), h, w, i, j, k) == Rise(img, h, w, i, j, 4 + k)
  {
    hide Ring;
    NegativeRing(img, h, w, i, j, k - 1);
    NegativeRing(img, h, w, i, j, k);
    NegativeRing(img, h, w, i, j, k + 1);
    NegativeRing(img, h, w, i, j, k + 3);
    NegativeRing(img, h, w, i, j, k + 4);
    NegativeRing(img, h, w, i, j, k + 5);
    RingPeriodic(img, h, w, i, j, k + 7, 8);
    RingPeriodic(img, h, w, i, j, k + 8, 8);
    RingPeriodic(img, h, w, i, j, k + 9, 8);
  }

  /** Inverting the image leaves every strength as it was: direction k becomes its opposite. */
  lemma NegativeKeepsStrength(img: Image, h: nat, w: nat, i: nat, j: nat)
    requires Rect(img, h, w) && Interior(h, w, i, j)
    ensures Strength(Negative(img, h, w), h, w, i, j) == Strength(img, h, w, i, j)
  {
    hide Rise, Strength;
    forall k ensures Rise(Negative(img, h, w), h, w, i, j, k) == Rise(img, h, w, i, j, 4 + k) {
      NegativeRise(img, h, w, i, j, k);
    }
    SameRisesSameStrength(img, h, w, i, j, Negative(img, h, w), h, w, i, j, false, 4);
  }

  // ---------------------------------------------------------------- the filter in place

  ghost function Rows(a: array2<Pixel>): (r: Image)
    reads a
    ensures Rect(r, a.Length0, a.Length1)
  {
    seq(a.Length0, i requires 0 <= i < a.Length0 reads a => seq(a.Length1, j requires 0 <= j < a.Length1 reads a => a[i, j]))
  }

  /** The strength at one pixel: four gradients, their magnitudes, and the search for the largest. */
  method StrengthAt(imageIn: array2<Pixel>, i: nat, j: nat) returns (strength: int)
    requires Interior(imageIn.Length0, imageIn.Length1, i, j)
    ensures strength == Strength(Rows(imageIn), imageIn.Length0, imageIn.Length1, i, j)
  {
    var nw: int, n: int, ne: int := imageIn[i - 1, j - 1], imageIn[i - 1, j], imageIn[i - 1, j + 1];
    var west: int, east: int := imageIn[i, j - 1], imageIn[i, j + 1];
    var sw: int, s: int, se: int := imageIn[i + 1, j - 1], imageIn[i + 1, j], imageIn[i + 1, j + 1];
    var temp := new int[4];
    temp[0] := -nw + ne - west + east - sw + se;
    temp[1] := -nw + sw - n + s - ne + se;
    temp[2] := -n + west - east + s - ne + sw;
    temp[3] := -n + east - west + s - nw + se;
    strength := LargestMagnitude(temp);
  }

  method LargestMagnitude(temp: array<int>) returns (strength: int)
    requires temp.Length == 4
    modifies temp
    ensures strength == Max(Max(Max(Abs(old(temp[0])), Abs(old(temp[1]))), Abs(old(temp[2]))), Abs(old(temp[3])))
  {
    temp[0], temp[1], temp[2], temp[3] := Abs(temp[0]), Abs(temp[1]), Abs(temp[2]), Abs(temp[3]);
    ghost var t := temp[..];
    for k := 1 to 4
      invariant temp[1..] == t[1..]
      invariant temp[0] == if k == 1 then t[0] else if k == 2 then Max(t[0], t[1])
                           else if k == 3 then Max(Max(t[0], t[1]), t[2]) else Max(Max(Max(t[0], t[1]), t[2]), t[3])
    {
      if temp[0] < temp[k] {
        temp[0] := temp[k];
      }
    }
    return temp[0];
  }

  /** gray_sobel_filter: every interior pixel is marked exactly when some rise there exceeds the
      threshold, and the border of the output is left alone. */
  method GraySobelFilter(imageIn: array2<Pixel>, imageOut: array2<Pixel>, threshold: Pixel)
    requires imageIn != imageOut && imageIn.Length0 == imageOut.Length0 && imageIn.Length1 == imageOut.Length1
    modifies imageOut
    ensures forall i, j :: 0 <= i < imageOut.Length0 && 0 <= j < imageOut.Length1 ==>
              imageOut[i, j] == if Interior(imageOut.Length0, imageOut.Length1, i, j)
                                then (if Strength(Rows(imageIn), imageOut.Length0, imageOut.Length1, i, j) > threshold then 1 else 0)
                                else old(imageOut[i, j])
  {
    var height, width := imageOut.Length0, imageOut.Length1;
    ghost var img := Rows(imageIn);
    var i := 1;
    while i < height - 1
      invariant 1 <= i
      invariant Rows(imageIn) == img
      invariant forall y, x :: 0 <= y < height && 0 <= x < width ==>
                  imageOut[y, x] == if Interior(height, width, y, x) && y < i
                                    then (if Strength(img, height, width, y, x) > threshold then 1 else 0)
                                    else old(imageOut[y, x])
    {
      FilterRow(imageIn, imageOut, threshold, i);
      i := i + 1;
    }
  }

  method FilterRow(imageIn: array2<Pixel>, imageOut: array2<Pixel>, threshold: Pixel, i: nat)
    requires imageIn != imageOut && imageIn.Length0 == imageOut.Length0 && imageIn.Length1 == imageOut.Length1
    requires 0 < i < imageOut.Length0 - 1
    modifies imageOut
    ensures forall y, x :: 0 <= y < imageOut.Length0 && 0 <= x < imageOut.Length1 ==>
              imageOut[y, x] == if y == i && 0 < x < imageOut.Length1 - 1
                                then (if Strength(Rows(imageIn), imageOut.Length0, imageOut.Length1, y, x) > threshold then 1 else 0)
                                else old(imageOut[y, x])
  {
    var height, width := imageOut.Length0, imageOut.Length1;
    ghost var img := Rows(imageIn);
    var j := 1;
    while j < width - 1
      invariant 1 <= j
      invariant Rows(imageIn) == img
      invariant forall y, x :: 0 <= y < height && 0 <= x < width ==>
                  imageOut[y, x] == if y == i && 0 < x < width - 1 && x < j
                                    then (if Strength(img, height, width, y, x) > threshold then 1 else 0)
                                    else old(imageOut[y, x])
    {
      var strength := StrengthAt(imageIn, i, j);
      imageOut[i, j] := if strength > threshold then 1 else 0;
      j := j + 1;
    }
  }
}
