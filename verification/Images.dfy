/** Camera frames and RGB images of the synchronome: the YUYV conversion and the distance
    between two images, as the tick detector computes them. */
module Images {

  const BUFFER_SIZE := 640 * 480 * 3

  type Byte = x: int | 0 <= x < 256

  // A camera frame: groups Y U Y V of four bytes, at most as large as an RGB buffer holds.
  type Frame = f: seq<Byte> | |f| % 4 == 0 && |f| / 4 * 6 <= BUFFER_SIZE
  type Image = seq<Byte>

  datatype Pixel = Pixel(r: Byte, g: Byte, b: Byte)

  function Clip(x: int): Byte {
    if x > 255 then 255 else if x < 0 then 0 else x
  }

  // One colour from its weighted sum; the shift by eight rounds towards minus infinity, as
  // the division does.
  function Channel(sum: int): Byte {
    Clip((sum + 128) / 256)
  }

  function Yuv2Rgb(y: Byte, u: Byte, v: Byte): Pixel {
    var c, d, e := y - 16, u - 128, v - 128;
    Pixel(Channel(298 * c + 409 * e), Channel(298 * c - 100 * d - 208 * e), Channel(298 * c + 516 * d))
  }

  function Gap(x: int, y: int): nat {
    if x > y then x - y else y - x
  }

  // The byte c is as near to x / 256 as t is, and not below it at the same distance.
  predicate NearerThan(c: Byte, t: Byte, x: int) {
    var dc, dt := if 256 * c >= x then 256 * c - x else x - 256 * c, if 256 * t >= x then 256 * t - x else x - 256 * t;
    dc < dt || (dc == dt && t <= c)
  }

  // Clipping after the rounded shift picks the byte nearest to the weighted sum / 256, of two
  // equally near ones the greater.
  lemma NearestByte(x: int, t: Byte)
    ensures NearerThan(Channel(x), t, x)
  {
  }

  lemma ChannelsAreNearest(y: Byte, u: Byte, v: Byte, t: Byte)
    ensures var p := Yuv2Rgb(y, u, v);
      && NearerThan(p.r, t, 298 * (y - 16) + 409 * (v - 128))
      && NearerThan(p.g, t, 298 * (y - 16) - 100 * (u - 128) - 208 * (v - 128))
      && NearerThan(p.b, t, 298 * (y - 16) + 516 * (u - 128))
  {
    hide Channel, NearerThan;
    NearestByte(298 * (y - 16) + 409 * (v - 128), t);
    NearestByte(298 * (y - 16) - 100 * (u - 128) - 208 * (v - 128), t);
    NearestByte(298 * (y - 16) + 516 * (u - 128), t);
  }

  // The colour of pixel k: two pixels share U and V.
  function PixelAt(f: Frame, k: nat): Pixel
    requires k < |f| / 2
  {
    var g := k / 2 * 4;
    Yuv2Rgb(f[g + k % 2 * 2], f[g + 1], f[g + 3])
  }

  function Component(f: Frame, j: nat): Byte
    requires j < |f| / 4 * 6
  {
    var p := PixelAt(f, j / 3);
    if j % 3 == 0 then p.r else if j % 3 == 1 then p.g else p.b
  }

  function Convert(f: Frame): (img: Image)
    ensures |img| == |f| / 4 * 6 <= BUFFER_SIZE
  {
    seq(|f| / 4 * 6, j requires 0 <= j < |f| / 4 * 6 => Component(f, j))
  }

  // The six bytes that four bytes of the frame become.
  lemma GroupOf(f: Frame, k: nat)
    requires 4 * k < |f|
    ensures var p := Yuv2Rgb(f[4 * k], f[4 * k + 1], f[4 * k + 3]);
      var q := Yuv2Rgb(f[4 * k + 2], f[4 * k + 1], f[4 * k + 3]);
      && 6 * k + 6 <= |Convert(f)|
      && Convert(f)[6 * k..6 * k + 6] == [p.r, p.g, p.b, q.r, q.g, q.b]
  {
    hide Yuv2Rgb;
    var j := 6 * k;
    assert PixelAt(f, 2 * k) == Yuv2Rgb(f[4 * k], f[4 * k + 1], f[4 * k + 3]);
    assert PixelAt(f, 2 * k + 1) == Yuv2Rgb(f[4 * k + 2], f[4 * k + 1], f[4 * k + 3]);
    assert j / 3 == (j + 1) / 3 == (j + 2) / 3 == 2 * k && (j + 3) / 3 == (j + 4) / 3 == (j + 5) / 3 == 2 * k + 1;
  }

  // ---------- distance ----------

  // The sum of the differences of the first n bytes.
  function DistanceTo(a: Image, b: Image, n: nat): nat
    requires n <= |a| && n <= |b|
  {
    if n == 0 then 0 else DistanceTo(a, b, n - 1) + Gap(a[n - 1], b[n - 1])
  }

  function Distance(a: Image, b: Image): nat
    requires |a| == |b|
  {
    DistanceTo(a, b, |a|)
  }

  lemma {:induction false} DistanceBound(a: Image, b: Image, n: nat)
    requires n <= |a| && n <= |b|
    ensures DistanceTo(a, b, n) <= 255 * n
  {
    if n > 0 {
      DistanceBound(a, b, n - 1);
    }
  }

  // A sum over an RGB buffer stays in 32 bits.
  lemma SumDoesNotWrap(a: Image, b: Image, n: nat)
    requires n <= |a| && n <= |b| && n <= BUFFER_SIZE
    ensures DistanceTo(a, b, n) <= 255 * n < 0x1_0000_0000
  {
    DistanceBound(a, b, n);
  }

  lemma {:induction false} DistancePrefix(a: Image, b: Image, a': Image, b': Image, n: nat)
    requires n <= |a| && n <= |b| && n <= |a'| && n <= |b'|
    requires forall i :: 0 <= i < n ==> a[i] == a'[i] && b[i] == b'[i]
    ensures DistanceTo(a, b, n) == DistanceTo(a', b', n)
  {
    if n > 0 {
      DistancePrefix(a, b, a', b', n - 1);
    }
  }

  function Sum(img: Image, n: nat): nat
    requires n <= |img|
  {
    if n == 0 then 0 else Sum(img, n - 1) + img[n - 1]
  }

  // The sum is the total of the picture of the differences.
  lemma {:induction false} DistanceIsTotal(a: Image, b: Image, n: nat)
    requires |a| == |b| && n <= |a|
    ensures DistanceTo(a, b, n) == Sum(Difference(a, b), n)
  {
    if n > 0 {
      DistanceIsTotal(a, b, n - 1);
    }
  }

  // Where one image is the brighter one, the sum is what it has more of.
  lemma {:induction false} DistanceOfBrighter(a: Image, b: Image, n: nat)
    requires n <= |a| && n <= |b| && forall j :: 0 <= j < n ==> a[j] >= b[j]
    ensures DistanceTo(a, b, n) == Sum(a, n) - Sum(b, n) == DistanceTo(b, a, n)
  {
    if n > 0 {
      DistanceOfBrighter(a, b, n - 1);
    }
  }

  // The sum is a distance: zero exactly for equal images, symmetric, and no detour is shorter.
  lemma {:induction false} DistanceLaws(a: Image, b: Image, c: Image, n: nat)
    requires n <= |a| && n <= |b| && n <= |c|
    ensures DistanceTo(a, b, n) == 0 <==> a[..n] == b[..n]
    ensures DistanceTo(a, b, n) == DistanceTo(b, a, n)
    ensures DistanceTo(a, c, n) <= DistanceTo(a, b, n) + DistanceTo(b, c, n)
  {
    if n > 0 {
      DistanceLaws(a, b, c, n - 1);
      assert a[..n] == a[..n - 1] + [a[n - 1]] && b[..n] == b[..n - 1] + [b[n - 1]];
    }
  }

  // The picture of the differences, byte by byte.
  function Difference(a: Image, b: Image): (d: Image)
    requires |a| == |b|
    ensures |d| == |a|
    ensures forall j :: 0 <= j < |a| ==> d[j] == if a[j] >= b[j] then a[j] - b[j] else b[j] - a[j]
  {
    seq(|a|, j requires 0 <= j < |a| => GapByte(a[j], b[j]))
  }

  function GapByte(x: Byte, y: Byte): Byte { Gap(x, y) }
}
