/** Shared vocabulary of the LED controller model: octets, RGB pixels, optional
    values and the integer conversions Python performs implicitly. */
module Common {

  /** One octet. Python's `bytes([r, g, b])` and `bytearray.append` raise for any
      value outside this range, so a value of this type is one they accept. */
  type byte = x: int | 0 <= x < 256

  /** One RGB triple, as produced by `rgb_to_bytes` and stored in `leds[i]`. */
  datatype Pixel = Pixel(r: byte, g: byte, b: byte)

  const Black := Pixel(0, 0, 0)
  const White := Pixel(255, 255, 255)

  datatype Option<+T> = None | Some(value: T)

  function Min(a: int, b: int): int { if a <= b then a else b }

  function Max(a: int, b: int): int { if a <= b then b else a }

  function MinReal(a: real, b: real): real { if a <= b then a else b }

  /** `max(lo, min(hi, x))`, the clamp the source writes out at each use. */
  function Clamp(lo: int, hi: int, x: int): (r: int)
    requires lo <= hi
    ensures lo <= r <= hi
    ensures lo <= x <= hi ==> r == x
    ensures x < lo ==> r == lo
    ensures hi < x ==> r == hi
  {
    Max(lo, Min(hi, x))
  }

  /** Python's `int(x)` on a float: truncation toward zero. */
  function Trunc(x: real): (n: int)
    ensures x >= 0.0 ==> n as real <= x < n as real + 1.0
    ensures x <= 0.0 ==> n as real - 1.0 < x <= n as real
  {
    if x >= 0.0 then x.Floor else -((-x).Floor)
  }

  /** A pixel whose three channels are equal. */
  function Grey(v: byte): Pixel { Pixel(v, v, v) }

  predicate AllBlack(px: seq<Pixel>)
  {
    forall i :: 0 <= i < |px| ==> px[i] == Black
  }

  function BlackStrip(n: nat): (px: seq<Pixel>)
    ensures |px| == n && AllBlack(px)
  {
    seq(n, _ => Black)
  }

  /** Integer division and remainder are unique: the facts the modular arithmetic
      of the chase and the mode counter rest on. */
  lemma MulSign(n: int, d: int)
    requires n > 0
    ensures d >= 1 ==> n * d >= n
    ensures d <= -1 ==> n * d <= -n
  {
    if d >= 1 {
      assert n * d - n == n * (d - 1);
    } else if d <= -1 {
      assert n * d + n == n * (d + 1);
      assert n * (-(d + 1)) >= 0;
    }
  }

  lemma DivModUnique(a: int, n: int, k: int, r: int)
    requires n > 0 && a == n * k + r && 0 <= r < n
    ensures a % n == r && a / n == k
  {
    var q := a / n;
    var m := a % n;
    assert a == n * q + m;
    assert n * (k - q) == m - r;
    MulSign(n, k - q);
  }

  /** A non-negative value below twice the modulus wraps at most once. */
  lemma ModBelowTwice(a: int, n: int)
    requires n > 0 && 0 <= a < 2 * n
    ensures a % n == (if a < n then a else a - n)
  {
    if a < n {
      DivModUnique(a, n, 0, a);
    } else {
      DivModUnique(a, n, 1, a - n);
    }
  }

  /** Adding one before or after reducing modulo `n` is the same. */
  lemma ModSucc(q: int, n: int)
    requires n > 0
    ensures (q + 1) % n == (q % n + 1) % n
  {
    var k := q / n;
    var r := q % n;
    assert q == n * k + r;
    if r + 1 < n {
      DivModUnique(q + 1, n, k, r + 1);
      DivModUnique(r + 1, n, 0, r + 1);
    } else {
      DivModUnique(q + 1, n, k + 1, 0);
      DivModUnique(r + 1, n, 1, 0);
    }
  }
}
