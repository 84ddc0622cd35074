/** Music-mode brightness: the strip is split into frequency sections (`get_frequency_sections`)
    and each LED's brightness follows its section's band level, feathered across
    the section boundaries (`get_frequency_brightness`). */
module Feathering {
  import opened Common

  /** The LED-index boundaries of the five sections: high, mid, bass, mid, high. */
  datatype Sections = Sections(
    highStart: int, highEnd: int,
    midStart: int, midEnd: int,
    bassStart: int, bassEnd: int,
    mid2Start: int, mid2End: int,
    high2Start: int, high2End: int)

  /** `k == int(n * p)` for a non-negative `n * p`. */
  ghost predicate IsFloorOf(k: int, n: nat, p: real)
  {
    k as real <= n as real * p < k as real + 1.0
  }

  /** `get_frequency_sections`: the percentages 0.125, 0.25, 0.75 and 0.875 are
      exact binary fractions, so each boundary is the floor of that fraction of
      the strip length, and consecutive sections share their boundary. */
  function FrequencySections(n: nat): (s: Sections)
    ensures s.highStart == 0 && s.high2End == n
    ensures s.highStart <= s.highEnd <= s.midEnd <= s.bassEnd <= s.mid2End <= s.high2End
    ensures s.midStart == s.highEnd && s.bassStart == s.midEnd
    ensures s.mid2Start == s.bassEnd && s.high2Start == s.mid2End
    ensures IsFloorOf(s.highEnd, n, 0.125) && IsFloorOf(s.midEnd, n, 0.25)
    ensures IsFloorOf(s.bassEnd, n, 0.75) && IsFloorOf(s.mid2End, n, 0.875)
  {
    assert n == 8 * (n / 8) + n % 8;
    assert n == 4 * (n / 4) + n % 4;
    assert 3 * n == 4 * ((3 * n) / 4) + (3 * n) % 4;
    assert 7 * n == 8 * ((7 * n) / 8) + (7 * n) % 8;
    Sections(0, n / 8, n / 8, n / 4, n / 4, (3 * n) / 4, (3 * n) / 4, (7 * n) / 8, (7 * n) / 8, n)
  }

  /** Half-width of each feathered transition: `max(1, int(n * 0.05))`, taken as `n / 20`. */
  function FeatherZone(n: nat): (fz: nat)
    ensures 1 <= fz
  {
    Max(1, n / 20)
  }

  datatype Band = Bass | Mid | High

  /** The three band levels the music-reactive modes read from the animation state. */
  datatype Levels = Levels(bass: real, mid: real, high: real)

  predicate NonNegative(lv: Levels)
  {
    0.0 <= lv.bass && 0.0 <= lv.mid && 0.0 <= lv.high
  }

  function LevelOf(b: Band, lv: Levels): real
  {
    match b
    case Bass => lv.bass
    case Mid => lv.mid
    case High => lv.high
  }

  /** The section an LED primarily belongs to. */
  function PrimaryBand(s: Sections, i: int): Band
  {
    if i < s.highEnd || i >= s.high2Start then High
    else if i < s.midEnd || (i >= s.mid2Start && i < s.mid2End) then Mid
    else Bass
  }

  /** Base brightness 0.3 plus 0.7 times the band level. */
  function Lum(level: real): real
  {
    0.3 + level * 0.7
  }

  function Blend(a: real, b: real, f: real): real
  {
    a * (1.0 - f) + b * f
  }

  /** A blend with a factor in [0, 1] lies between its two ends. */
  lemma BlendBetween(a: real, b: real, f: real, lo: real)
    requires 0.0 <= f <= 1.0 && lo <= a && lo <= b
    ensures lo <= Blend(a, b, f)
  {
    assert Blend(a, b, f) - lo == (a - lo) * (1.0 - f) + (b - lo) * f;
    MulNonNegative(a - lo, 1.0 - f);
    MulNonNegative(b - lo, f);
  }

  lemma MulNonNegative(x: real, y: real)
    requires 0.0 <= x && 0.0 <= y
    ensures 0.0 <= x * y
  {
  }

  lemma RatioBelowOne(a: real, b: real)
    requires 0.0 <= a < b
    ensures 0.0 <= a / b < 1.0
  {
    var y := a / b;
    assert y * b == a;
    assert (1.0 - y) * b == b - a;
    if y >= 1.0 {
      MulNonNegative(y - 1.0, b);
    }
  }

  lemma BlendSame(a: real, f: real)
    ensures Blend(a, a, f) == a
  {
  }

  /** Position across a feather window of width `2 * fz`, as a fraction in [0, 1). */
  function Factor(distance: int, fz: nat): (f: real)
    requires 0 <= distance < 2 * fz
    ensures 0.0 <= f < 1.0
  {
    RatioBelowOne(distance as real, (fz * 2) as real);
    distance as real / (fz * 2) as real
  }

  predicate InWindow(i: int, boundary: int, fz: nat)
  {
    boundary - fz <= i < boundary + fz
  }

  /** Brightness before the final `min(1.0, _)`: the primary section's brightness,
      blended toward the next section's inside the first feather window that
      contains `i`. */
  function Feathered(n: nat, i: int, lv: Levels): real
  {
    var s := FrequencySections(n);
    var fz := FeatherZone(n);
    var primary := Lum(LevelOf(PrimaryBand(s, i), lv));
    if InWindow(i, s.highEnd, fz) then
      Blend(primary, Lum(lv.mid), Factor(i - (s.highEnd - fz), fz))
    else if InWindow(i, s.midEnd, fz) then
      Blend(primary, Lum(lv.bass), Factor(i - (s.midEnd - fz), fz))
    else if InWindow(i, s.bassEnd, fz) then
      Blend(primary, Lum(lv.mid), Factor(i - (s.bassEnd - fz), fz))
    else if InWindow(i, s.mid2End, fz) then
      Blend(primary, Lum(lv.high), Factor(i - (s.mid2End - fz), fz))
    else
      primary
  }

  /** `get_frequency_brightness`: never above full brightness, and never below the
      0.3 floor while the band levels are non-negative (FFT magnitudes are). */
  function FrequencyBrightness(n: nat, i: int, lv: Levels): (r: real)
    ensures r <= 1.0
    ensures NonNegative(lv) ==> 0.3 <= r
    ensures lv.bass == lv.mid == lv.high ==> r == MinReal(1.0, Lum(lv.bass))
  {
    FeatheredFloor(n, i, lv);
    FeatheredUniform(n, i, lv);
    MinReal(1.0, Feathered(n, i, lv))
  }

  lemma FeatheredFloor(n: nat, i: int, lv: Levels)
    ensures NonNegative(lv) ==> 0.3 <= Feathered(n, i, lv)
  {
    if !NonNegative(lv) {
      return;
    }
    var s := FrequencySections(n);
    var fz := FeatherZone(n);
    var primary := Lum(LevelOf(PrimaryBand(s, i), lv));
    if InWindow(i, s.highEnd, fz) {
      BlendBetween(primary, Lum(lv.mid), Factor(i - (s.highEnd - fz), fz), 0.3);
    } else if InWindow(i, s.midEnd, fz) {
      BlendBetween(primary, Lum(lv.bass), Factor(i - (s.midEnd - fz), fz), 0.3);
    } else if InWindow(i, s.bassEnd, fz) {
      BlendBetween(primary, Lum(lv.mid), Factor(i - (s.bassEnd - fz), fz), 0.3);
    } else if InWindow(i, s.mid2End, fz) {
      BlendBetween(primary, Lum(lv.high), Factor(i - (s.mid2End - fz), fz), 0.3);
    }
  }

  lemma FeatheredUniform(n: nat, i: int, lv: Levels)
    ensures lv.bass == lv.mid == lv.high ==> Feathered(n, i, lv) == Lum(lv.bass)
  {
    var s := FrequencySections(n);
    var fz := FeatherZone(n);
    var a := Lum(lv.bass);
    if InWindow(i, s.highEnd, fz) {
      BlendSame(a, Factor(i - (s.highEnd - fz), fz));
    } else if InWindow(i, s.midEnd, fz) {
      BlendSame(a, Factor(i - (s.midEnd - fz), fz));
    } else if InWindow(i, s.bassEnd, fz) {
      BlendSame(a, Factor(i - (s.bassEnd - fz), fz));
    } else if InWindow(i, s.mid2End, fz) {
      BlendSame(a, Factor(i - (s.mid2End - fz), fz));
    }
  }

  /** Away from every feather window an LED shows exactly its own section's level:
      the middle of the strip follows the bass, its two ends the highs. */
  lemma SectionInterior(n: nat, i: int, lv: Levels)
    requires 0 <= i < n
    requires var s := FrequencySections(n); var fz := FeatherZone(n);
      !InWindow(i, s.highEnd, fz) && !InWindow(i, s.midEnd, fz)
      && !InWindow(i, s.bassEnd, fz) && !InWindow(i, s.mid2End, fz)
    ensures var s := FrequencySections(n);
      && (s.midEnd <= i < s.bassEnd ==> FrequencyBrightness(n, i, lv) == MinReal(1.0, Lum(lv.bass)))
      && ((i < s.highEnd || s.mid2End <= i) ==> FrequencyBrightness(n, i, lv) == MinReal(1.0, Lum(lv.high)))
      && ((s.highEnd <= i < s.midEnd || s.bassEnd <= i < s.mid2End) ==>
            FrequencyBrightness(n, i, lv) == MinReal(1.0, Lum(lv.mid)))
  {
  }

  /** The feathering is one-sided: from each boundary upward for `fz` LEDs the
      brightness is already the next section's own level, so the blend below the
      boundary reaches only half-way and then steps. Shown for the first boundary. */
  lemma FeatherUpperHalfIsFlat(n: nat, i: int, lv: Levels)
    requires var s := FrequencySections(n);
      s.highEnd <= i < s.highEnd + FeatherZone(n) && i < s.midEnd
    ensures FrequencyBrightness(n, i, lv) == MinReal(1.0, Lum(lv.mid))
  {
    var s := FrequencySections(n);
    var fz := FeatherZone(n);
    BlendSame(Lum(lv.mid), Factor(i - (s.highEnd - fz), fz));
  }

  /** The scenario of a bass-only sound on an 800-LED strip: the bass section's
      interior is at full brightness and the high sections' interiors at the 0.3 floor. */
  lemma BassOnlyScenario(i: int)
    requires 240 <= i < 560 || 0 <= i < 60 || 740 <= i < 800
    ensures 240 <= i < 560 ==> FrequencyBrightness(800, i, Levels(1.0, 0.0, 0.0)) == 1.0
    ensures (i < 60 || 740 <= i) ==> FrequencyBrightness(800, i, Levels(1.0, 0.0, 0.0)) == 0.3
  {
    var s := FrequencySections(800);
    assert s.highEnd == 100 && s.midEnd == 200 && s.bassEnd == 600 && s.mid2End == 700;
    assert FeatherZone(800) == 40;
    SectionInterior(800, i, Levels(1.0, 0.0, 0.0));
  }
}
