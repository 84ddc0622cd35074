/** Fire mode (`mode_fire`): a one-dimensional heat automaton stepped once per
    frame, then mapped to colours through a three-band ramp. */
module Fire {
  import opened Common

  /** The random draws one fire frame consumes, taken as parameters. */
  datatype FireDraws = FireDraws(
    cooling: seq<int>,     // per cell, randint(0, 2)
    reheatRoll: seq<int>,  // per cell, randint(0, 255); reheat when below 50
    reheat: seq<int>,      // per cell, randint(0, 10)
    sparkRoll: int,        // randint(0, 255); spark when below 120
    sparkPos: int,         // randint(0, n - 1)
    spark: int)            // randint(160, 255)

  predicate ValidDraws(d: FireDraws, n: nat)
  {
    && |d.cooling| == n && |d.reheatRoll| == n && |d.reheat| == n
    && (forall i :: 0 <= i < n ==> 0 <= d.cooling[i] <= 2)
    && (forall i :: 0 <= i < n ==> 0 <= d.reheatRoll[i] <= 255)
    && (forall i :: 0 <= i < n ==> 0 <= d.reheat[i] <= 10)
    && 0 <= d.sparkRoll <= 255
    && 0 <= d.sparkPos < n
    && 160 <= d.spark <= 255
  }

  /** Every heat value lies in [0, 255]. */
  predicate HeatInRange(h: seq<int>)
  {
    forall i :: 0 <= i < |h| ==> 0 <= h[i] <= 255
  }

  /** Each cell loses its cooling draw, never dropping below zero. */
  function Cool(h: seq<int>, cooling: seq<int>): (h': seq<int>)
    requires |cooling| == |h|
    requires forall i :: 0 <= i < |h| ==> 0 <= cooling[i]
    requires HeatInRange(h)
    ensures |h'| == |h| && HeatInRange(h')
    ensures forall i :: 0 <= i < |h| ==> h'[i] <= h[i]
  {
    seq(|h|, i requires 0 <= i < |h| => Max(0, h[i] - cooling[i]))
  }

  function Left(h: seq<int>, i: int): int
    requires 0 <= i < |h|
  {
    if i > 0 then h[i - 1] else 0
  }

  function Right(h: seq<int>, i: int): int
    requires 0 <= i < |h|
  {
    if i < |h| - 1 then h[i + 1] else 0
  }

  /** One diffused cell: the floor of the mean of itself and its two neighbours
      (missing neighbours count as zero), plus an occasional capped reheat. */
  function DiffuseCell(h: seq<int>, i: int, roll: int, reheat: int): (v: int)
    requires 0 <= i < |h| && HeatInRange(h)
    requires 0 <= reheat
    ensures 0 <= v <= 255
    ensures roll >= 50 ==> 3 * v <= Left(h, i) + h[i] + Right(h, i)
  {
    var avg := (Left(h, i) + h[i] + Right(h, i)) / 3;
    if roll < 50 then Min(255, avg + reheat) else avg
  }

  function Diffuse(h: seq<int>, roll: seq<int>, reheat: seq<int>): (h': seq<int>)
    requires |roll| == |h| && |reheat| == |h| && HeatInRange(h)
    requires forall i :: 0 <= i < |h| ==> 0 <= reheat[i]
    ensures |h'| == |h| && HeatInRange(h')
  {
    seq(|h|, i requires 0 <= i < |h| => DiffuseCell(h, i, roll[i], reheat[i]))
  }

  /** With probability 120/256 one cell gains a strong spark, capped at 255. */
  function Spark(h: seq<int>, d: FireDraws): (h': seq<int>)
    requires HeatInRange(h) && 0 <= d.sparkPos < |h| && 0 <= d.spark
    ensures |h'| == |h| && HeatInRange(h')
    ensures forall i :: 0 <= i < |h| && (d.sparkRoll >= 120 || i != d.sparkPos) ==> h'[i] == h[i]
    ensures d.sparkRoll < 120 ==> h'[d.sparkPos] >= h[d.sparkPos]
  {
    if d.sparkRoll < 120 then h[d.sparkPos := Min(255, h[d.sparkPos] + d.spark)] else h
  }

  /** One frame of the heat automaton: cool, diffuse (with reheat), spark. */
  function FireStep(h: seq<int>, d: FireDraws): (h': seq<int>)
    requires HeatInRange(h) && ValidDraws(d, |h|)
    ensures |h'| == |h| && HeatInRange(h')
  {
    var cooled := Cool(h, d.cooling);
    var diffused := Diffuse(cooled, d.reheatRoll, d.reheat);
    Spark(diffused, d)
  }

  /** The black-red-orange-white ramp: channels never exceed a byte, red leads
      green leads blue, and the channel sum is exactly three times the heat, so
      distinct heats give distinct colours. */
  function HeatColor(heat: int): (p: Pixel)
    requires 0 <= heat <= 255
    ensures p.r >= p.g >= p.b
    ensures p.r + p.g + p.b == 3 * heat
  {
    if heat < 85 then Pixel(heat * 3, 0, 0)
    else if heat < 170 then Pixel(255, (heat - 85) * 3, 0)
    else Pixel(255, 255, (heat - 170) * 3)
  }

  /** The ramp is monotone in every channel. */
  lemma HeatColorMonotone(h1: int, h2: int)
    requires 0 <= h1 <= h2 <= 255
    ensures HeatColor(h1).r <= HeatColor(h2).r
    ensures HeatColor(h1).g <= HeatColor(h2).g
    ensures HeatColor(h1).b <= HeatColor(h2).b
  {
  }

  /** The ends and the first band of the ramp. */
  lemma HeatColorEnds(heat: int)
    requires 0 <= heat < 85
    ensures HeatColor(0) == Black
    ensures HeatColor(255) == White
    ensures HeatColor(heat) == Pixel(3 * heat, 0, 0)
  {
  }

  function HeatColors(h: seq<int>): (px: seq<Pixel>)
    requires HeatInRange(h)
    ensures |px| == |h|
    ensures forall i :: 0 <= i < |h| ==> px[i].r + px[i].g + px[i].b == 3 * h[i]
  {
    seq(|h|, i requires 0 <= i < |h| => HeatColor(h[i]))
  }

  function Sum(h: seq<int>): int
  {
    if |h| == 0 then 0 else Sum(h[..|h| - 1]) + h[|h| - 1]
  }

  /** Sum of the three-cell windows of a prefix: each cell is counted at most
      three times. */
  function WindowSum(h: seq<int>, k: nat): int
    requires k <= |h|
  {
    if k == 0 then 0 else WindowSum(h, k - 1) + Left(h, k - 1) + h[k - 1] + Right(h, k - 1)
  }

  lemma {:induction false} WindowSumPrefix(h: seq<int>, k: nat)
    requires 1 <= k <= |h| && HeatInRange(h)
    ensures WindowSum(h, k) + h[k - 1] <= 3 * Sum(h[..k]) + (if k < |h| then h[k] else 0)
  {
    if k == 1 {
      assert h[..1] == [h[0]];
      assert Sum(h[..1]) == Sum(h[..0]) + h[0];
    } else {
      WindowSumPrefix(h, k - 1);
      assert h[..k][..k - 1] == h[..k - 1];
      assert Sum(h[..k]) == Sum(h[..k - 1]) + h[k - 1];
    }
  }

  lemma {:induction false} DiffusedSumBelowWindows(h: seq<int>, roll: seq<int>, reheat: seq<int>, k: nat)
    requires |roll| == |h| && |reheat| == |h| && HeatInRange(h) && k <= |h|
    requires forall i :: 0 <= i < |h| ==> 0 <= reheat[i] && roll[i] >= 50
    ensures 3 * Sum(Diffuse(h, roll, reheat)[..k]) <= WindowSum(h, k)
  {
    var d := Diffuse(h, roll, reheat);
    if k > 0 {
      DiffusedSumBelowWindows(h, roll, reheat, k - 1);
      assert d[..k][..k - 1] == d[..k - 1];
      assert Sum(d[..k]) == Sum(d[..k - 1]) + d[k - 1];
    }
  }

  /** Without reheat, diffusion never adds heat: the strip's total heat can only
      fall (heat leaks out at both ends and through the floor division). */
  lemma DiffusionDoesNotHeat(h: seq<int>, roll: seq<int>, reheat: seq<int>)
    requires |roll| == |h| && |reheat| == |h| && HeatInRange(h)
    requires forall i :: 0 <= i < |h| ==> 0 <= reheat[i] && roll[i] >= 50
    ensures Sum(Diffuse(h, roll, reheat)) <= Sum(h)
  {
    var d := Diffuse(h, roll, reheat);
    assert d[..|h|] == d;
    assert h[..|h|] == h;
    DiffusedSumBelowWindows(h, roll, reheat, |h|);
    if |h| > 0 {
      WindowSumPrefix(h, |h|);
    }
  }
}
