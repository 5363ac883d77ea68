/** Integer helpers of Math.ts: `mod` and `clamp`, and JavaScript's `%`. */
module Math {

  function Abs(x: int): (r: int)
    ensures r >= 0
  {
    if x < 0 then -x else x
  }

  function Min(a: int, b: int): int
  {
    if a <= b then a else b
  }

  function Max(a: int, b: int): int
  {
    if a >= b then a else b
  }

  /** JavaScript's `%` on integers: the remainder of the division truncated
      toward zero, so it takes the sign of the dividend (-1 % 5 is -1). */
  function JsRem(n: int, d: int): (r: int)
    requires d != 0
    ensures 0 <= n ==> 0 <= r < Abs(d)
    ensures n < 0 ==> -Abs(d) < r <= 0
  {
    if n >= 0 then n % d else -((-n) % d)
  }

  /**
   * `mod(n, m)` is `((n % m) + m) % m` with JavaScript's `%`. For a positive
   * modulus it is the true modulo, in [0, m) for every n, negative n included.
   */
  function Mod(n: int, m: int): (r: int)
    requires m != 0
    ensures m > 0 ==> 0 <= r < m
  {
    JsRem(JsRem(n, m) + m, m)
  }

  lemma {:induction false} MulAtLeast(t: int, m: int)
    requires m > 0
    ensures t >= 1 ==> t * m >= m
    decreases if t < 0 then 0 else t
  {
    if t > 1 {
      MulAtLeast(t - 1, m);
      assert t * m == (t - 1) * m + m;
    }
  }

  /** Multiplying by a positive number keeps a strict order, with a gap of at least that number. */
  lemma MulStrict(a: int, b: int, m: int)
    requires m > 0
    ensures a < b ==> a * m + m <= b * m
  {
    MulAtLeast(b - a, m);
    assert (b - a) * m == b * m - a * m;
  }

  /** Euclidean division is unique: a == q * m + b with 0 <= b < m fixes q and b. */
  lemma DivModUnique(a: int, q: int, b: int, m: int)
    requires m > 0 && 0 <= b < m && a == q * m + b
    ensures a % m == b && a / m == q
  {
    var p, r := a / m, a % m;
    assert a == p * m + r;
    MulAtLeast(p - q, m);
    MulAtLeast(q - p, m);
    assert (p - q) * m == b - r;
  }

  /** For a positive modulus `mod` is the Euclidean remainder, negative `n` included. */
  lemma ModIsEuclidean(n: int, m: int)
    requires m > 0
    ensures Mod(n, m) == n % m
  {
    if n >= 0 {
      DivModUnique(n % m + m, 1, n % m, m);
    } else {
      var s := (-n) % m;
      var q := (-n) / m;
      DivModUnique(-n, q, s, m);
      if s == 0 {
        DivModUnique(n, -q, 0, m);
        DivModUnique(m, 1, 0, m);
      } else {
        assert n == (-q - 1) * m + (m - s);
        DivModUnique(n, -q - 1, m - s, m);
        DivModUnique(m - s, 0, m - s, m);
      }
    }
  }

  /** Adding any multiple of the modulus, negative ones too, leaves `mod` unchanged. */
  lemma ModShift(n: int, k: int, m: int)
    requires m > 0
    ensures Mod(n + k * m, m) == Mod(n, m)
  {
    var q, r := n / m, n % m;
    assert n == q * m + r;
    assert n + k * m == (q + k) * m + r;
    DivModUnique(n + k * m, q + k, r, m);
    ModIsEuclidean(n, m);
    ModIsEuclidean(n + k * m, m);
  }

  /** `mod` leaves values already in [0, m) alone and sends -1 to m - 1. */
  lemma ModExamples(n: int, m: int)
    requires m > 0
    ensures 0 <= n < m ==> Mod(n, m) == n
    ensures Mod(-1, m) == m - 1
  {
    ModIsEuclidean(n, m);
    ModIsEuclidean(-1, m);
    if 0 <= n < m {
      DivModUnique(n, 0, n, m);
    }
    DivModUnique(-1, -1, m - 1, m);
  }

  /** `clamp(x, min, max)` is `Math.min(Math.max(x, min), max)`. */
  function Clamp(x: int, min: int, max: int): (r: int)
    ensures min <= max ==> min <= r <= max
    ensures min <= x <= max ==> r == x
    ensures x < min <= max ==> r == min
    ensures min <= max < x ==> r == max
  {
    Min(Max(x, min), max)
  }
}
