/** Twinkle mode (`mode_twinkle`): each pixel either sparks to a random hue or
    lets its stored level decay by 20 per frame, shown as grey. */
module Twinkle {
  import opened Common
  import opened Color

  /** The random draws one pixel consumes in one frame. `level` and `hue` are only
      drawn (and only matter) when `roll < 20`. */
  datatype TwinkleDraw = TwinkleDraw(roll: int, level: int, hue: int)

  predicate ValidDraw(d: TwinkleDraw)
  {
    0 <= d.roll <= 255 && 0 <= d.level <= 255 && 0 <= d.hue <= 360
  }

  predicate ValidDraws(ds: seq<TwinkleDraw>, n: nat)
  {
    |ds| == n && forall i :: 0 <= i < n ==> ValidDraw(ds[i])
  }

  predicate LevelsInRange(t: seq<int>)
  {
    forall i :: 0 <= i < |t| ==> 0 <= t[i] <= 255
  }

  datatype Cell = Cell(level: int, pixel: Pixel)

  const Decay := 20

  /** One pixel for one frame. A spark stores a random level but shows a fully
      bright random hue; otherwise a lit pixel decays and is shown as grey at its
      new level, and a dark pixel stays dark. */
  function TwinkleCell(level: int, d: TwinkleDraw): (c: Cell)
    requires 0 <= level <= 255 && ValidDraw(d)
    ensures 0 <= c.level <= 255
    ensures d.roll >= 20 ==> c.level <= level && (level > 0 ==> c.level == Max(0, level - Decay))
    ensures d.roll >= 20 ==> c.pixel == Grey(c.level)
    ensures d.roll < 20 ==> c.level == d.level && c.pixel == HsvToRgb(d.hue as real, 1.0, 1.0)
  {
    if d.roll < 20 then
      Cell(d.level, HsvToRgb(d.hue as real, 1.0, 1.0))
    else if level > 0 then
      var next := Max(0, level - Decay);
      var p := HsvToRgb(0.0, 0.0, next as real / 255.0);
      HsvGreyLevel(next);
      Cell(next, p)
    else
      Cell(level, Black)
  }

  /** `hsv_to_rgb(0, 0, t / 255)` is the grey of level `t` (exact over the reals). */
  lemma HsvGreyLevel(t: int)
    requires 0 <= t <= 255
    ensures HsvToRgb(0.0, 0.0, t as real / 255.0) == Grey(t)
  {
    HsvGrey(0.0, t as real / 255.0);
    assert t as real / 255.0 * 255.0 == t as real;
  }

  datatype Frame = Frame(levels: seq<int>, pixels: seq<Pixel>)

  function TwinkleFrame(t: seq<int>, ds: seq<TwinkleDraw>): (f: Frame)
    requires LevelsInRange(t) && ValidDraws(ds, |t|)
    ensures |f.levels| == |t| && |f.pixels| == |t| && LevelsInRange(f.levels)
    ensures forall i :: 0 <= i < |t| ==> Cell(f.levels[i], f.pixels[i]) == TwinkleCell(t[i], ds[i])
  {
    var cells := seq(|t|, i requires 0 <= i < |t| => TwinkleCell(t[i], ds[i]));
    Frame(seq(|t|, i requires 0 <= i < |t| => cells[i].level),
          seq(|t|, i requires 0 <= i < |t| => cells[i].pixel))
  }

  /** A pixel that does not spark for `k` frames has decayed to `level - 20k`
      (or zero), whatever was drawn for it. */
  lemma {:induction false} QuietDecay(level: int, ds: seq<TwinkleDraw>)
    requires 0 <= level <= 255
    requires forall j :: 0 <= j < |ds| ==> ValidDraw(ds[j]) && ds[j].roll >= 20
    ensures QuietRun(level, ds) == Max(0, level - Decay * |ds|)
  {
    if |ds| > 0 {
      QuietDecay(level, ds[..|ds| - 1]);
    }
  }

  /** The level after running a pixel through `ds` frame by frame. */
  function QuietRun(level: int, ds: seq<TwinkleDraw>): (r: int)
    requires 0 <= level <= 255
    requires forall j :: 0 <= j < |ds| ==> ValidDraw(ds[j])
    ensures 0 <= r <= 255
  {
    if |ds| == 0 then level
    else TwinkleCell(QuietRun(level, ds[..|ds| - 1]), ds[|ds| - 1]).level
  }

  /** Thirteen quiet frames darken any pixel: 13 * 20 > 255. */
  lemma DarkAfterThirteen(level: int, ds: seq<TwinkleDraw>)
    requires 0 <= level <= 255 && |ds| == 13
    requires forall j :: 0 <= j < |ds| ==> ValidDraw(ds[j]) && ds[j].roll >= 20
    ensures QuietRun(level, ds) == 0
  {
    QuietDecay(level, ds);
  }
}
