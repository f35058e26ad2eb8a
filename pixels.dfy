/** BGRA pixels with 8-bit channels and the alpha-limited compositing rule
    that the Droste effect uses to fill transparent regions from deeper
    layers. */
module Pixels {

  /** One 8-bit channel value. */
  type Byte = x: int | 0 <= x <= 255

  /** The alpha value of a fully opaque pixel. */
  const MaxAlpha: Byte := 255

  /** A colour with blue, green, red and alpha channels, as the host's
      ColorBgra stores them. Colour channels are not premultiplied by alpha. */
  datatype Bgra = Bgra(b: Byte, g: Byte, r: Byte, a: Byte)

  /** ColorBgra.Zero: transparent black. */
  const Zero := Bgra(0, 0, 0, 0)

  function Min(x: int, y: int): int { if x <= y then x else y }

  function Max(x: int, y: int): int { if x <= y then y else x }

  /** The channel clamp of ColorBgra.FromBgraClamped: the byte nearest to v. */
  function ClampToByte(v: int): (r: Byte)
    ensures 0 <= v <= 255 ==> r == v
    ensures v < 0 ==> r == 0
    ensures 255 < v ==> r == 255
  {
    if v < 0 then 0 else if 255 < v then 255 else v
  }

  /** ColorBgra.FromBgraClamped: every channel clamped into a byte. */
  function FromBgraClamped(b: int, g: int, r: int, a: int): (c: Bgra)
    ensures 0 <= b <= 255 ==> c.b == b
    ensures 0 <= g <= 255 ==> c.g == g
    ensures 0 <= r <= 255 ==> c.r == r
    ensures 0 <= a <= 255 ==> c.a == a
    ensures (b < 0 ==> c.b == 0) && (255 < b ==> c.b == 255)
    ensures (g < 0 ==> c.g == 0) && (255 < g ==> c.g == 255)
    ensures (r < 0 ==> c.r == 0) && (255 < r ==> c.r == 255)
    ensures (a < 0 ==> c.a == 0) && (255 < a ==> c.a == 255)
  {
    Bgra(ClampToByte(b), ClampToByte(g), ClampToByte(r), ClampToByte(a))
  }

  /** If lo * t <= n <= hi * t with t > 0, then lo <= n / t <= hi. */
  lemma DivBetween(n: int, t: int, lo: int, hi: int)
    requires 0 < t
    requires lo * t <= n <= hi * t
    ensures lo <= n / t <= hi
  {
    var q, m := n / t, n % t;
    assert n == q * t + m && 0 <= m < t;
    assert (q + 1 - lo) * t > 0 by {
      assert (q + 1 - lo) * t == q * t + t - lo * t;
    }
    assert (hi - q) * t >= 0 by {
      assert (hi - q) * t == hi * t - q * t;
    }
  }

  /** Multiplying by a non-negative factor keeps the order. */
  lemma MulLe(x: int, y: int, k: int)
    requires x <= y && 0 <= k
    ensures x * k <= y * k
  {
  }

  /** n / t is the largest q with q * t <= n. */
  lemma DivFloor(n: int, t: int)
    requires 0 < t
    ensures (n / t) * t <= n < (n / t + 1) * t
  {
  }

  /** One blended colour channel: the weighted mean of oc (weight ow) and ac
      (weight aw), rounded down (AddColorBlend states the rounding). Every
      weight is an alpha value, hence not negative. */
  function BlendChannel(oc: Byte, ow: nat, ac: Byte, aw: nat): (r: int)
    requires 0 < ow + aw
    ensures Min(oc, ac) <= r <= Max(oc, ac)
  {
    var n, t, lo, hi := oc * ow + ac * aw, ow + aw, Min(oc, ac), Max(oc, ac);
    MulLe(lo, oc, ow);
    MulLe(oc, hi, ow);
    MulLe(lo, ac, aw);
    MulLe(ac, hi, aw);
    assert lo * t == lo * ow + lo * aw;
    assert hi * t == hi * ow + hi * aw;
    DivBetween(n, t, lo, hi);
    n / t
  }

  /** The alpha actually taken from the addition: never more than what is
      left before full opacity. */
  function AddedAlpha(original: Bgra, addition: Bgra): (addAlpha: Byte)
    ensures addAlpha <= addition.a && original.a + addAlpha <= MaxAlpha
    ensures addAlpha == addition.a || original.a + addAlpha == MaxAlpha
  {
    Min(addition.a, MaxAlpha - original.a)
  }

  /** AddColor: combines the accumulated colour `original` with a new sample.
      An opaque original is kept, a transparent one is replaced; otherwise
      the alpha taken from the addition is limited so that the sum stays a
      byte, and each colour channel is the alpha-weighted mean of the two. */
  function AddColor(original: Bgra, addition: Bgra): (result: Bgra)
    ensures original.a == MaxAlpha ==> result == original
    ensures original.a == 0 ==> result == addition
    ensures result.a == Min(MaxAlpha, original.a + addition.a)
    ensures 0 < original.a ==>
      Min(original.b, addition.b) <= result.b <= Max(original.b, addition.b) &&
      Min(original.g, addition.g) <= result.g <= Max(original.g, addition.g) &&
      Min(original.r, addition.r) <= result.r <= Max(original.r, addition.r)
  {
    if original.a == MaxAlpha then
      original
    else if original.a == 0 then
      addition
    else
      var addAlpha := AddedAlpha(original, addition);
      var total := original.a + addAlpha;
      FromBgraClamped(
        BlendChannel(original.b, original.a, addition.b, addAlpha),
        BlendChannel(original.g, original.a, addition.g, addAlpha),
        BlendChannel(original.r, original.a, addition.r, addAlpha),
        total)
  }

  /** In the blending case every channel is the alpha-weighted mean of the
      two inputs rounded down, so the clamp of FromBgraClamped never moves a
      value. */
  lemma AddColorBlend(original: Bgra, addition: Bgra)
    requires 0 < original.a < MaxAlpha
    ensures var addAlpha := Min(addition.a, MaxAlpha - original.a);
      var total := original.a + addAlpha;
      var result := AddColor(original, addition);
      result.a == total &&
      result.b * total <= original.b * original.a + addition.b * addAlpha < (result.b + 1) * total &&
      result.g * total <= original.g * original.a + addition.g * addAlpha < (result.g + 1) * total &&
      result.r * total <= original.r * original.a + addition.r * addAlpha < (result.r + 1) * total
  {
    var addAlpha := AddedAlpha(original, addition);
    var total := original.a + addAlpha;
    var b := BlendChannel(original.b, original.a, addition.b, addAlpha);
    var g := BlendChannel(original.g, original.a, addition.g, addAlpha);
    var r := BlendChannel(original.r, original.a, addition.r, addAlpha);
    assert AddColor(original, addition) == Bgra(b, g, r, total);
    DivFloor(original.b * original.a + addition.b * addAlpha, total);
    DivFloor(original.g * original.a + addition.g * addAlpha, total);
    DivFloor(original.r * original.a + addition.r * addAlpha, total);
  }

  /** (c * t) / t == c for t > 0. */
  lemma MulDivCancel(c: int, t: int)
    requires 0 < t
    ensures (c * t) / t == c
  {
    DivBetween(c * t, t, c, c);
  }

  /** Adding a fully transparent sample changes nothing. */
  lemma TransparentAdditionIsIdentity(original: Bgra, addition: Bgra)
    requires addition.a == 0
    requires 0 < original.a
    ensures AddColor(original, addition) == original
  {
    if original.a < MaxAlpha {
      assert AddedAlpha(original, addition) == 0;
      MulDivCancel(original.b, original.a);
      MulDivCancel(original.g, original.a);
      MulDivCancel(original.r, original.a);
    }
  }
}
