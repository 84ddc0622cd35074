/** The remaining per-strip renderers: the music-reactive flat colours, rainbow,
    wave, breathing, chase and aurora. The sine samples of wave, breathing and
    aurora and aurora's colour jitter are parameters. */
module Patterns {
  import opened Common
  import opened Color
  import opened Feathering

  /** `int(base * brightness)` for a brightness in [0, 1]: never brighter than the
      base channel. */
  function ScaleChannel(base: byte, br: real): (c: byte)
    requires 0.0 <= br <= 1.0
    ensures c <= base
  {
    var x := base as real * br;
    ScaleBounds(base as real, br);
    assert 0.0 <= x <= base as real;
    Trunc(x)
  }

  lemma ScaleChannelMonotone(base: byte, b1: real, b2: real)
    requires 0.0 <= b1 <= b2 <= 1.0
    ensures ScaleChannel(base, b1) <= ScaleChannel(base, b2)
  {
    MulMonotoneNonNeg(base as real, b1, b2);
  }

  lemma MulMonotoneNonNeg(m: real, a: real, b: real)
    requires 0.0 <= m && a <= b
    ensures m * a <= m * b
  {
    assert m * b - m * a == m * (b - a);
    MulNonNegative(m, b - a);
  }

  function Scale(p: Pixel, br: real): Pixel
    requires 0.0 <= br <= 1.0
  {
    Pixel(ScaleChannel(p.r, br), ScaleChannel(p.g, br), ScaleChannel(p.b, br))
  }

  /** `p` dimmed to between 30% (rounded down) and 100% of `base`, channel by channel. */
  predicate DimmedWithin(p: Pixel, base: Pixel)
  {
    && ScaleChannel(base.r, 0.3) <= p.r <= base.r
    && ScaleChannel(base.g, 0.3) <= p.g <= base.g
    && ScaleChannel(base.b, 0.3) <= p.b <= base.b
  }

  /** One music-reactive pixel: the base colour scaled by the LED's feathered brightness. */
  function ReactivePixel(n: nat, i: int, base: Pixel, lv: Levels): (p: Pixel)
    requires NonNegative(lv)
    ensures p == Scale(base, FrequencyBrightness(n, i, lv))
    ensures DimmedWithin(p, base)
  {
    var br := FrequencyBrightness(n, i, lv);
    ScaleChannelMonotone(base.r, 0.3, br);
    ScaleChannelMonotone(base.g, 0.3, br);
    ScaleChannelMonotone(base.b, 0.3, br);
    Scale(base, br)
  }

  /** `mode_color_reactive`: a flat colour, or with music mode on that colour
      dimmed per LED by the feathered band brightness. */
  function ColorReactive(n: nat, base: Pixel, music: bool, lv: Levels): (px: seq<Pixel>)
    requires NonNegative(lv)
    ensures |px| == n
    ensures !music ==> forall i :: 0 <= i < n ==> px[i] == base
    ensures music ==> forall i :: 0 <= i < n ==> px[i] == Scale(base, FrequencyBrightness(n, i, lv))
    ensures music ==> forall i :: 0 <= i < n ==> DimmedWithin(px[i], base)
  {
    if music then seq(n, i => ReactivePixel(n, i, base, lv)) else seq(n, _ => base)
  }

  function WhitePixel(n: nat, i: int, lv: Levels): (p: Pixel)
    requires NonNegative(lv)
    ensures p == ReactivePixel(n, i, White, lv)
    ensures p.r == p.g == p.b && 76 <= p.r
  {
    assert ScaleChannel(255, 0.3) == 76;
    ReactivePixel(n, i, White, lv)
  }

  /** `mode_white`: `int(255 * brightness)` on all three channels is the reactive
      colour mode with a white base. */
  function ModeWhite(n: nat, music: bool, lv: Levels): (px: seq<Pixel>)
    requires NonNegative(lv)
    ensures |px| == n
    ensures forall i :: 0 <= i < n ==> px[i].r == px[i].g == px[i].b
    ensures forall i :: 0 <= i < n ==> (if music then 76 <= px[i].r else px[i] == White)
    ensures music ==> forall i :: 0 <= i < n ==> px[i] == Scale(White, FrequencyBrightness(n, i, lv))
  {
    assert ScaleChannel(255, 0.3) == 76;
    var px := if music then seq(n, i => WhitePixel(n, i, lv)) else seq(n, _ => White);
    assert forall i :: 0 <= i < n ==> px[i] == ColorReactive(n, White, music, lv)[i];
    px
  }

  /** `mode_solid_color`: the reactive colour mode with the fully saturated colour of
      the current hue as its base. */
  function SolidColor(n: nat, hue: int, music: bool, lv: Levels): (px: seq<Pixel>)
    requires NonNegative(lv)
    ensures |px| == n
    ensures !music ==> forall i :: 0 <= i < n ==> px[i] == HsvToRgb(hue as real, 1.0, 1.0)
    ensures music ==> forall i :: 0 <= i < n ==>
      px[i] == Scale(HsvToRgb(hue as real, 1.0, 1.0), FrequencyBrightness(n, i, lv))
    ensures forall i :: 0 <= i < n ==> DimmedWithin(px[i], HsvToRgb(hue as real, 1.0, 1.0))
  {
    var base := HsvToRgb(hue as real, 1.0, 1.0);
    ScaleChannelMonotone(base.r, 0.3, 1.0);
    ScaleChannelMonotone(base.g, 0.3, 1.0);
    ScaleChannelMonotone(base.b, 0.3, 1.0);
    ColorReactive(n, base, music, lv)
  }

  /** At full brightness a pixel is shown unchanged. */
  lemma ScaleFull(p: Pixel)
    ensures Scale(p, 1.0) == p
  {
    assert p.r as real * 1.0 == p.r as real;
    assert p.g as real * 1.0 == p.g as real;
    assert p.b as real * 1.0 == p.b as real;
  }

  /** With music on and only bass playing at full level, an 800-LED strip shows
      the base colour unchanged across the bass section's interior (LEDs
      240..559) and at 30 % in the outer high sections (LEDs 0..59, 740..799). */
  lemma BassOnlyReactive(base: Pixel, i: int)
    requires 240 <= i < 560 || 0 <= i < 60 || 740 <= i < 800
    ensures var px := ColorReactive(800, base, true, Levels(1.0, 0.0, 0.0));
      && (240 <= i < 560 ==> px[i] == base)
      && ((i < 60 || 740 <= i) ==> px[i] == Scale(base, 0.3))
  {
    BassOnlyScenario(i);
    ScaleFull(base);
  }

  /** The hue of rainbow pixel `i`: `(hue + i * 360 / n) % 360`. */
  function RainbowHue(n: nat, hue: int, i: int): real
    requires n > 0
  {
    RealMod(hue as real + (i * 360) as real / n as real, 360.0)
  }

  /** `mode_rainbow`: one full hue cycle spread over the strip, every pixel fully
      saturated at full value. */
  function Rainbow(n: nat, hue: int): (px: seq<Pixel>)
    requires n > 0
    ensures |px| == n
    ensures forall i :: 0 <= i < n ==>
      px[i] == HsvToRgb(RealMod(hue as real + (i * 360) as real / n as real, 360.0), 1.0, 1.0)
    ensures forall i :: 0 <= i < n ==> MaxChannel(px[i]) == 255 && MinChannel(px[i]) == 0
  {
    seq(n, i requires 0 <= i < n => HsvToRgb(RainbowHue(n, hue, i), 1.0, 1.0))
  }

  /** With hue 0 the rainbow starts at pure red. */
  lemma RainbowStartsRed(n: nat)
    requires n > 0
    ensures Rainbow(n, 0)[0] == Pixel(255, 0, 0)
  {
    RealModSmall(0.0, 360.0);
    assert RainbowHue(n, 0, 0) == 0.0;
    HsvPrimaries();
  }

  /** The rainbow spreads one full hue turn over the strip: on a strip whose
      length is a multiple of three, starting from hue 0, the pixels a third and
      two thirds of the way along are pure green and pure blue. */
  lemma RainbowThirds(n: nat)
    requires n > 0 && n % 3 == 0
    ensures Rainbow(n, 0)[n / 3] == Pixel(0, 255, 0)
    ensures Rainbow(n, 0)[2 * n / 3] == Pixel(0, 0, 255)
  {
    var k := n / 3;
    assert n == 3 * k && 2 * n / 3 == 2 * k;
    assert (k * 360) as real / n as real == 120.0 by {
      assert (k * 360) as real == 120.0 * (3 * k) as real;
    }
    assert (2 * k * 360) as real / n as real == 240.0 by {
      assert (2 * k * 360) as real == 240.0 * (3 * k) as real;
    }
    RealModSmall(120.0, 360.0);
    RealModSmall(240.0, 360.0);
    assert RainbowHue(n, 0, k) == 120.0;
    assert RainbowHue(n, 0, 2 * k) == 240.0;
    HsvPrimaries();
  }

  /** `int(127 * (1 + sin(x)))` for some angle `x`; the model takes the sample. */
  predicate SineSample(w: int)
  {
    0 <= w <= 254
  }

  lemma SampleValue(w: int)
    requires SineSample(w)
    ensures Trunc(w as real / 255.0 * 255.0) == w
  {
    assert w as real / 255.0 * 255.0 == w as real;
  }

  /** `mode_wave`: pixel `i` has hue `(hue + 2i) % 360` and the brightness of its
      sine sample. */
  function Wave(n: nat, hue: int, waves: seq<int>): (px: seq<Pixel>)
    requires |waves| == n && forall i :: 0 <= i < n ==> SineSample(waves[i])
    ensures |px| == n
    ensures forall i :: 0 <= i < n ==> MaxChannel(px[i]) == waves[i] && MinChannel(px[i]) == 0
  {
    seq(n, i requires 0 <= i < n =>
      SampleValue(waves[i]);
      HsvToRgb(((hue + i * 2) % 360) as real, 1.0, waves[i] as real / 255.0))
  }

  /** `mode_breathing`: the whole strip shows one colour at the breath sample's level. */
  function Breathing(n: nat, hue: int, breath: int): (px: seq<Pixel>)
    requires SineSample(breath)
    ensures |px| == n
    ensures forall i :: 0 <= i < n ==> px[i] == px[0] && MaxChannel(px[i]) == breath
  {
    SampleValue(breath);
    var p := HsvToRgb(hue as real, 1.0, breath as real / 255.0);
    seq(n, _ => p)
  }

  /** Head position of the chase: it moves one pixel every second frame. */
  function ChasePos(n: nat, step: nat): (pos: nat)
    requires n > 0
    ensures pos < n
  {
    (step / 2) % n
  }

  lemma ChaseAdvances(n: nat, step: nat)
    requires n > 0
    ensures ChasePos(n, step + 2) == (ChasePos(n, step) + 1) % n
  {
    assert (step + 2) / 2 == step / 2 + 1;
    ModSucc(step / 2, n);
  }

  /** Is pixel `i` one of the three lit chase pixels? */
  predicate ChaseLit(n: nat, pos: nat, i: int)
    requires n > 0
  {
    i == pos || i == (pos + 1) % n || i == (pos + 2) % n
  }

  lemma ChaseNeighbours(n: nat, pos: nat)
    requires pos < n
    ensures n >= 3 ==> pos != (pos + 1) % n && pos != (pos + 2) % n && (pos + 1) % n != (pos + 2) % n
  {
    if n >= 3 {
      ModBelowTwice(pos + 1, n);
      ModBelowTwice(pos + 2, n);
    }
  }

  /** `mode_chase`: a full-brightness head with half and quarter-brightness trailing
      pixels; exactly those three positions are lit. */
  function Chase(n: nat, step: nat, hue: int): (px: seq<Pixel>)
    requires n > 0
    ensures |px| == n
    ensures forall i :: 0 <= i < n ==> (px[i] != Black <==> ChaseLit(n, ChasePos(n, step), i))
    ensures px[ChasePos(n, step)] == HsvToRgb(hue as real, 1.0, 1.0)
    ensures var pos := ChasePos(n, step);
      (pos + 1) % n != pos ==> px[(pos + 1) % n] == HsvToRgb(hue as real, 1.0, 0.5)
    ensures var pos := ChasePos(n, step);
      (pos + 2) % n != pos && (pos + 2) % n != (pos + 1) % n ==> px[(pos + 2) % n] == HsvToRgb(hue as real, 1.0, 0.25)
    ensures n >= 3 ==> MaxChannel(px[(ChasePos(n, step) + 1) % n]) == 127
    ensures n >= 3 ==> MaxChannel(px[(ChasePos(n, step) + 2) % n]) == 63
  {
    var pos := ChasePos(n, step);
    var head := HsvToRgb(hue as real, 1.0, 1.0);
    var mid := HsvToRgb(hue as real, 1.0, 0.5);
    var tail := HsvToRgb(hue as real, 1.0, 0.25);
    assert MaxChannel(head) == 255 && MaxChannel(mid) == 127 && MaxChannel(tail) == 63;
    ChaseNeighbours(n, pos);
    seq(n, i requires 0 <= i < n =>
      if i == pos then head
      else if i == (pos + 1) % n then mid
      else if i == (pos + 2) % n then tail
      else Black)
  }

  /** The three-stop aurora gradient: green, purple, pink. */
  const Stops: seq<Pixel> := [Pixel(96, 200, 120), Pixel(192, 100, 200), Pixel(224, 100, 150)]

  /** `int(a + (b - a) * f)` for `f` in [0, 1): a value between the two stops. */
  function Lerp(a: byte, b: byte, f: real): (c: byte)
    requires 0.0 <= f < 1.0
    ensures Min(a, b) <= c <= Max(a, b)
    ensures a == b ==> c == a
  {
    Trunc(a as real + LerpOffset(a, b, f))
  }

  /** `(b - a) * f`, computed on the magnitude of the difference so that its
      bounds need only the non-negative case. */
  function LerpOffset(a: byte, b: byte, f: real): (t: real)
    requires 0.0 <= f <= 1.0
    ensures t == (b - a) as real * f
    ensures Min(a, b) as real <= a as real + t <= Max(a, b) as real
  {
    if a <= b then Scaled((b - a) as real, f)
    else
      var d := (a - b) as real;
      assert (b - a) as real == -d;
      assert (-d) * f == -(d * f);
      -Scaled(d, f)
  }

  /** `d * f` for `d >= 0` and a factor in [0, 1] lies between zero and `d`. */
  function Scaled(d: real, f: real): (t: real)
    requires 0.0 <= d && 0.0 <= f <= 1.0
    ensures 0.0 <= t <= d
  {
    ScaleBounds(d, f);
    d * f
  }

  function LerpPixel(p: Pixel, q: Pixel, f: real): Pixel
    requires 0.0 <= f < 1.0
  {
    Pixel(Lerp(p.r, q.r, f), Lerp(p.g, q.g, f), Lerp(p.b, q.b, f))
  }

  /** The gradient colour for a combined wave intensity: position `intensity / 255`
      over the stops, linearly interpolated between the two stops around it. */
  function Gradient(intensity: int): (p: Pixel)
    requires 0 <= intensity <= 255
    ensures intensity == 0 ==> p == Stops[0]
    ensures intensity == 255 ==> p == Stops[2]
  {
    var pos := intensity as real / 255.0;
    var idx := Trunc(pos * 2.0);
    assert 0 <= idx <= 2;
    if idx < 2 then
      LerpPixel(Stops[idx], Stops[idx + 1], pos * 2.0 - idx as real)
    else
      Stops[idx]
  }

  /** The samples and jitter one aurora pixel consumes: three sine samples and a
      `randint(-12, 12)` per channel. */
  datatype AuroraDraw = AuroraDraw(w1: int, w2: int, w3: int, jr: int, jg: int, jb: int)

  predicate ValidAuroraDraw(d: AuroraDraw)
  {
    && 0 <= d.w1 <= 255 && 0 <= d.w2 <= 255 && 0 <= d.w3 <= 255
    && -12 <= d.jr <= 12 && -12 <= d.jg <= 12 && -12 <= d.jb <= 12
  }

  predicate ValidAuroraDraws(ds: seq<AuroraDraw>, n: nat)
  {
    |ds| == n && forall i :: 0 <= i < n ==> ValidAuroraDraw(ds[i])
  }

  /** `(wave1 * 2 + wave2 + wave3) // 4`. */
  function Combined(d: AuroraDraw): (c: int)
    requires ValidAuroraDraw(d)
    ensures 0 <= c <= 255
  {
    (d.w1 * 2 + d.w2 + d.w3) / 4
  }

  function Jitter(c: byte, j: int): (r: byte)
    requires -12 <= j <= 12
    ensures c - 12 <= r <= c + 12
  {
    Clamp(0, 255, c + j)
  }

  datatype AuroraFrame = AuroraFrame(intensity: seq<int>, pixels: seq<Pixel>)

  /** `mode_aurora`: stores each pixel's combined intensity and shows the gradient
      colour for it, each channel moved by at most its jitter. */
  function Aurora(n: nat, ds: seq<AuroraDraw>): (f: AuroraFrame)
    requires ValidAuroraDraws(ds, n)
    ensures |f.intensity| == n && |f.pixels| == n
    ensures forall i :: 0 <= i < n ==> 0 <= f.intensity[i] <= 255
    ensures forall i :: 0 <= i < n ==>
      var g := Gradient(f.intensity[i]);
      && g.r - 12 <= f.pixels[i].r <= g.r + 12
      && g.g - 12 <= f.pixels[i].g <= g.g + 12
      && g.b - 12 <= f.pixels[i].b <= g.b + 12
  {
    var intensity := seq(n, i requires 0 <= i < n => Combined(ds[i]));
    AuroraFrame(intensity, seq(n, i requires 0 <= i < n =>
      var g := Gradient(intensity[i]);
      Pixel(Jitter(g.r, ds[i].jr), Jitter(g.g, ds[i].jg), Jitter(g.b, ds[i].jb))))
  }
}
