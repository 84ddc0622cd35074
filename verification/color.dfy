/** The controller's HSV-to-RGB conversion (`hsv_to_rgb`), over real numbers. */
module Color {
  import opened Common

  /** Python's `%` on floats with a positive modulus: the result takes the sign of
      the modulus, i.e. `x - m * floor(x / m)`. */
  function RealMod(x: real, m: real): (r: real)
    requires m > 0.0
    ensures 0.0 <= r < m
  {
    var q := (x / m).Floor;
    FloorScaled(x, m, q);
    x - m * (q as real)
  }

  lemma MulMonotone(m: real, a: real, b: real)
    requires m > 0.0 && a <= b
    ensures m * a <= m * b
  {
    assert m * b - m * a == m * (b - a);
  }

  lemma MulStrict(m: real, a: real, b: real)
    requires m > 0.0 && a < b
    ensures m * a < m * b
  {
    assert m * b - m * a == m * (b - a);
  }

  lemma FloorScaled(x: real, m: real, q: int)
    requires m > 0.0 && q == (x / m).Floor
    ensures m * (q as real) <= x < m * (q as real) + m
  {
    assert q as real <= x / m < q as real + 1.0;
    MulMonotone(m, q as real, x / m);
    var y := x / m;
    var qr := q as real;
    MulStrict(m, y, qr + 1.0);
    assert m * y == x;
    assert m * (qr + 1.0) == m * qr + m;
    assert m * y < m * (qr + 1.0);
    assert x < m * qr + m;
  }

  /** A real already in `[0, m)` is its own remainder. */
  lemma RealModSmall(x: real, m: real)
    requires m > 0.0 && 0.0 <= x < m
    ensures RealMod(x, m) == x
  {
    var k := 1.0 / m;
    assert k > 0.0;
    MulMonotone(k, 0.0, x);
    MulStrict(k, x, m);
    assert x / m == k * x;
    assert k * m == 1.0;
    assert (x / m).Floor == 0;
  }

  /** Adding one period does not change the remainder. */
  lemma RealModShift(x: real, m: real)
    requires m > 0.0
    ensures RealMod(x + m, m) == RealMod(x, m)
  {
    assert (x + m) / m == x / m + m / m;
    assert m / m == 1.0;
    assert ((x + m) / m).Floor == (x / m).Floor + 1;
  }

  function AbsReal(x: real): real { if x < 0.0 then -x else x }

  function MaxChannel(p: Pixel): int { Max(p.r, Max(p.g, p.b)) }

  function MinChannel(p: Pixel): int { Min(p.r, Min(p.g, p.b)) }

  /** One output channel: `int((y + m) * 255)` for a component `y + m` in [0, 1]. */
  function Channel(y: real): (b: byte)
    requires 0.0 <= y <= 1.0
  {
    assert 0.0 <= y * 255.0 <= 255.0;
    Trunc(y * 255.0)
  }

  lemma ChannelMonotone(y1: real, y2: real)
    requires 0.0 <= y1 <= y2 <= 1.0
    ensures Channel(y1) <= Channel(y2)
  {
    assert y1 * 255.0 <= y2 * 255.0;
  }

  lemma ScaleBounds(a: real, f: real)
    requires 0.0 <= a && 0.0 <= f <= 1.0
    ensures 0.0 <= a * f <= a
  {
    assert a - a * f == a * (1.0 - f);
  }

  /** Places the brightest, middle and dimmest channel values according to the
      60-degree sector the hue falls in. */
  function Arrange(hh: real, hi: byte, mid: byte, lo: byte): (p: Pixel)
    requires lo <= mid <= hi
    ensures MaxChannel(p) == hi && MinChannel(p) == lo
  {
    if hh < 60.0 then Pixel(hi, mid, lo)
    else if hh < 120.0 then Pixel(mid, hi, lo)
    else if hh < 180.0 then Pixel(lo, hi, mid)
    else if hh < 240.0 then Pixel(lo, mid, hi)
    else if hh < 300.0 then Pixel(mid, lo, hi)
    else Pixel(hi, lo, mid)
  }

  /** The middle component `c * (1 - |(h / 60) mod 2 - 1|)` lies in [0, c]. */
  function MidComponent(hh: real, c: real): (x: real)
    requires 0.0 <= c
    ensures 0.0 <= x <= c
  {
    var t := RealMod(hh / 60.0, 2.0);
    ScaleBounds(c, 1.0 - AbsReal(t - 1.0));
    c * (1.0 - AbsReal(t - 1.0))
  }

  /** `hsv_to_rgb(h, s, v)`: the value `v` fixes the brightest channel and the
      saturation `s` the dimmest one, whatever the hue. */
  function HsvToRgb(h: real, s: real, v: real): (p: Pixel)
    requires 0.0 <= s <= 1.0 && 0.0 <= v <= 1.0
    ensures MaxChannel(p) == Trunc(v * 255.0)
    ensures MinChannel(p) == Trunc((v - v * s) * 255.0)
  {
    var hh := RealMod(h, 360.0);
    ScaleBounds(v, s);
    var c := v * s;
    var x := MidComponent(hh, c);
    var m := v - c;
    ChannelMonotone(m, x + m);
    ChannelMonotone(x + m, c + m);
    Arrange(hh, Channel(c + m), Channel(x + m), Channel(m))
  }

  /** Hue is an angle: one full turn gives the same colour. */
  lemma HsvPeriodic(h: real, s: real, v: real)
    requires 0.0 <= s <= 1.0 && 0.0 <= v <= 1.0
    ensures HsvToRgb(h + 360.0, s, v) == HsvToRgb(h, s, v)
  {
    RealModShift(h, 360.0);
  }

  /** Zero saturation gives a grey whose level is the value. */
  lemma HsvGrey(h: real, v: real)
    requires 0.0 <= v <= 1.0
    ensures HsvToRgb(h, 0.0, v) == Grey(Trunc(v * 255.0))
  {
  }

  /** The three primaries at full saturation and value. */
  lemma HsvPrimaries()
    ensures HsvToRgb(0.0, 1.0, 1.0) == Pixel(255, 0, 0)
    ensures HsvToRgb(120.0, 1.0, 1.0) == Pixel(0, 255, 0)
    ensures HsvToRgb(240.0, 1.0, 1.0) == Pixel(0, 0, 255)
  {
    RealModSmall(0.0, 360.0);
    RealModSmall(120.0, 360.0);
    RealModSmall(240.0, 360.0);
    RealModSmall(0.0, 2.0);
    RealModShift(0.0, 2.0);
    RealModShift(2.0, 2.0);
    assert RealMod(4.0, 2.0) == 0.0;
  }
}
