/** The image helpers of the NISE example plugin: bounding an image's size
    from above and from below before SIFT runs on it, and the conversion of
    an RGB or grey image to a single grey channel. */
module NiseImage {
  import opened Wrappers

  /** The width and height of a CImg. */
  datatype Dims = Dims(width: int, height: int)

  /** q is a * m / b rounded down: q * b <= a * m < (q + 1) * b. */
  predicate Floor(q: int, a: int, m: int, b: int) {
    q * b <= a * m < (q + 1) * b
  }

  /** A product with a positive factor has the other factor's sign. */
  lemma SignOf(x: int, b: int)
    requires b > 0
    ensures x * b > 0 ==> x > 0
    ensures x * b <= 0 ==> x <= 0
  {
  }

  /** a * m / b in C++ integer arithmetic on non-negative operands, where
      division truncates, which is the floor here.  It stays at most m when
      a <= b and reaches m when a >= b. */
  function Scale(a: int, m: int, b: int): (q: int)
    requires a >= 0 && m >= 0 && b > 0
    ensures Floor(q, a, m, b)
    ensures q >= 0
    ensures a <= b ==> q <= m
    ensures a >= b ==> q >= m
  {
    QuotientBounds(a, m, b, a * m, a * m / b);
    a * m / b
  }

  lemma QuotientBounds(a: int, m: int, b: int, p: int, q: int)
    requires a >= 0 && m >= 0 && b > 0 && p == a * m && q == p / b
    ensures Floor(q, a, m, b) && q >= 0
    ensures a <= b ==> q <= m
    ensures a >= b ==> q >= m
  {
    QuotientFloor(p, b, q);
    if a <= b {
      ProductAtMost(a, m, b, p);
      QuotientAtMost(p, b, q, m);
    }
    if a >= b {
      ProductAtLeast(a, m, b, p);
      QuotientAtLeast(p, b, q, m);
    }
  }

  lemma QuotientFloor(p: int, b: int, q: int)
    requires p >= 0 && b > 0 && q == p / b
    ensures q * b <= p < (q + 1) * b && q >= 0
  {
    SignOf(q + 1, b);
  }

  lemma ProductAtMost(a: int, m: int, b: int, p: int)
    requires 0 <= a <= b && m >= 0 && p == a * m
    ensures p <= b * m
  {
  }

  lemma ProductAtLeast(a: int, m: int, b: int, p: int)
    requires a >= b > 0 && m >= 0 && p == a * m
    ensures p >= b * m
  {
  }

  lemma QuotientAtMost(p: int, b: int, q: int, m: int)
    requires b > 0 && q * b <= p <= b * m
    ensures q <= m
  {
    assert (q - m) * b == q * b - m * b;
    SignOf(q - m, b);
  }

  lemma QuotientAtLeast(p: int, b: int, q: int, m: int)
    requires b > 0 && b * m <= p < (q + 1) * b
    ensures q >= m
  {
    assert (q + 1 - m) * b == (q + 1) * b - m * b;
    SignOf(q + 1 - m, b);
  }

  predicate Within(d: Dims, max: int) {
    d.width <= max && d.height <= max
  }

  predicate AtLeast(d: Dims, min: int) {
    d.width >= min && d.height >= min
  }

  /** CImgLimitSize: an image with a side over max is resized so that its
      longer side (the height when strictly taller, else the width) is max and
      the other side is scaled by the same factor, rounded down. */
  function LimitSize(d: Dims, max: int): (r: Dims)
    requires d.width >= 0 && d.height >= 0 && max >= 0
    ensures Within(r, max) && r.width >= 0 && r.height >= 0
    ensures Within(d, max) ==> r == d
    ensures !Within(d, max) && d.width < d.height ==>
              r.height == max && Floor(r.width, d.width, max, d.height)
    ensures !Within(d, max) && d.width >= d.height ==>
              r.width == max && Floor(r.height, d.height, max, d.width)
  {
    if Within(d, max) then d
    else if d.width < d.height then
      Dims(Scale(d.width, max, d.height), max)
    else
      Dims(max, Scale(d.height, max, d.width))
  }

  /** Limiting twice is limiting once. */
  lemma LimitSizeIdempotent(d: Dims, max: int)
    requires d.width >= 0 && d.height >= 0 && max >= 0
    ensures LimitSize(LimitSize(d, max), max) == LimitSize(d, max)
  {
  }

  /** CImgLimitSizeBelow divides by the shorter side when it resizes. */
  predicate BelowDefined(d: Dims, min: int) {
    d.width >= 0 && d.height >= 0 &&
    (AtLeast(d, min) || (if d.width > d.height then d.height > 0 else d.width > 0))
  }

  /** CImgLimitSizeBelow: an image with a side under min is resized so that
      its shorter side (the height when strictly wider, else the width) is
      min and the other side is scaled by the same factor, rounded down. */
  function LimitSizeBelow(d: Dims, min: int): (r: Dims)
    requires BelowDefined(d, min)
    ensures AtLeast(r, min) && r.width >= 0 && r.height >= 0
    ensures AtLeast(d, min) ==> r == d
    ensures !AtLeast(d, min) && d.width > d.height ==>
              r.height == min && Floor(r.width, d.width, min, d.height)
    ensures !AtLeast(d, min) && d.width <= d.height ==>
              r.width == min && Floor(r.height, d.height, min, d.width)
  {
    if AtLeast(d, min) then d
    else if d.width > d.height then
      Dims(Scale(d.width, min, d.height), min)
    else
      Dims(min, Scale(d.height, min, d.width))
  }

  lemma LimitSizeBelowIdempotent(d: Dims, min: int)
    requires BelowDefined(d, min)
    ensures BelowDefined(LimitSizeBelow(d, min), min)
    ensures LimitSizeBelow(LimitSizeBelow(d, min), min) == LimitSizeBelow(d, min)
  {
  }

  /** A CImg: width x height x depth voxels in `spectrum` channels, stored
      one channel after the other. */
  datatype Image = Image(width: nat, height: nat, depth: nat, spectrum: nat, data: seq<real>)

  function Voxels(img: Image): nat {
    img.width * img.height * img.depth
  }

  predicate WellFormed(img: Image) {
    |img.data| == Voxels(img) * img.spectrum
  }

  /** The grey value of an RGB voxel. */
  function Luma(r: real, g: real, b: real): real {
    0.299 * r + 0.587 * g + 0.114 * b
  }

  /** The grey value of voxel j of an RGB image of n voxels. */
  function GreyAt(data: seq<real>, n: nat, j: nat): real
    requires |data| == 3 * n && j < n
  {
    Luma(data[j], data[n + j], data[2 * n + j])
  }

  /** The grey values of the first k voxels of an RGB image of n voxels. */
  function Mixed(data: seq<real>, n: nat, k: nat): (r: seq<real>)
    requires |data| == 3 * n && k <= n
    ensures |r| == k
    ensures forall j :: 0 <= j < k ==> r[j] == GreyAt(data, n, j)
  {
    if k == 0 then [] else Mixed(data, n, k - 1) + [GreyAt(data, n, k - 1)]
  }

  /** CImgToGray on values: an RGB image is mixed into one channel, a grey
      image is copied, and any other channel count is a PluginError. */
  function Gray(img: Image): (res: Result<Image>)
    requires WellFormed(img)
    ensures res.Ok? <==> img.spectrum == 1 || img.spectrum == 3
    ensures res.Ok? ==> WellFormed(res.value) && res.value.spectrum == 1
    ensures res.Ok? ==> res.value.width == img.width && res.value.height == img.height && res.value.depth == img.depth
    ensures img.spectrum == 1 ==> res == Ok(img)
    ensures res.Err? ==> res.error.PluginError?
  {
    var n := Voxels(img);
    if img.spectrum == 3 then
      Ok(Image(img.width, img.height, img.depth, 1, Mixed(img.data, n, n)))
    else if img.spectrum == 1 then
      Ok(Image(img.width, img.height, img.depth, 1, img.data))
    else
      Err(PluginError("image is not a RGB or gray image."))
  }

  /** Converting a converted image changes nothing. */
  lemma GrayIdempotent(img: Image)
    requires WellFormed(img) && Gray(img).Ok?
    ensures Gray(Gray(img).value) == Gray(img)
  {
  }

  /** A grey copy of an RGB image holds the mix of each voxel's channels. */
  lemma GrayMix(img: Image, i: nat)
    requires WellFormed(img) && img.spectrum == 3 && i < Voxels(img)
    ensures Gray(img).value.data[i] == Luma(img.data[i], img.data[Voxels(img) + i], img.data[2 * Voxels(img) + i])
  {
    assert Gray(img).value.data[i] == GreyAt(img.data, Voxels(img), i);
  }

  /** The RGB branch of CImgToGray: voxel i of the result mixes voxel i of
      the three channels. */
  method MixLoop(data: seq<real>, n: nat) returns (r: seq<real>)
    requires |data| == 3 * n
    ensures r == Mixed(data, n, n)
  {
    var result := new real[n];
    var i := 0;
    while i < n
      invariant 0 <= i <= n
      invariant forall j :: 0 <= j < i ==> result[j] == GreyAt(data, n, j)
    {
      result[i] := Luma(data[i], data[n + i], data[2 * n + i]);
      i := i + 1;
    }
    r := result[..];
    var m := Mixed(data, n, n);
    assert |r| == |m|;
    forall j | 0 <= j < n
      ensures r[j] == m[j]
    {
      assert r[j] == result[j];
    }
  }

  /** The grey branch of CImgToGray: the values are copied one by one. */
  method CopyLoop(data: seq<real>) returns (r: seq<real>)
    ensures r == data
  {
    var result := new real[|data|];
    var i := 0;
    while i < |data|
      invariant 0 <= i <= |data|
      invariant forall j :: 0 <= j < i ==> result[j] == data[j]
    {
      result[i] := data[i];
      i := i + 1;
    }
    r := result[..];
  }

  /** CImgToGray: the spectrum decides between mixing, copying and a
      PluginError. */
  method ToGray(img: Image) returns (res: Result<Image>)
    requires WellFormed(img)
    ensures res == Gray(img)
  {
    if img.spectrum == 3 {
      var data := MixLoop(img.data, Voxels(img));
      res := Ok(Image(img.width, img.height, img.depth, 1, data));
    } else if img.spectrum == 1 {
      var data := CopyLoop(img.data);
      res := Ok(Image(img.width, img.height, img.depth, 1, data));
    } else {
      res := Err(PluginError("image is not a RGB or gray image."));
    }
  }
}
