/** SM2 curve arithmetic of Project-5/sm2.py (the same `point_add` and
    `scalar_mult` appear verbatim in Project-5/sm2_optimization.py). Points
    are pairs of unbounded integers, like Python tuples; `(0, 0)` stands
    for the point at infinity. */
module Sm2 {
  import opened Wrappers

  // The curve y^2 = x^3 + a x + b over F_p recommended by GB/T 32918.5-2017.
  const P: int := 0xFFFFFFFEFFFFFFFFFFFFFFFFFFFFFFFFFFFFFFFF00000000FFFFFFFFFFFFFFFF
  const A: int := 0xFFFFFFFEFFFFFFFFFFFFFFFFFFFFFFFFFFFFFFFF00000000FFFFFFFFFFFFFFFC
  const B: int := 0x28E9FA9E9D9F5E344D5A9E4BCF6509A7F39789F515AB8F92DDBCBD414D940E93
  const N: int := 0xFFFFFFFEFFFFFFFFFFFFFFFFFFFFFFFF7203DF6B21C6052B53BBF40939D54123
  const GX: int := 0x32C4AE2C1F1981195F9904466A39C9948FE30BBFF2660BE1715A4589334C74C7
  const GY: int := 0xBC3736A2F4F6779C59BDCEE36B692153D0A9877CC62A474002DF32E52139F0A0

  datatype Point = Point(x: int, y: int)

  /** The sentinel `(0, 0)`. */
  const O: Point := Point(0, 0)
  const G: Point := Point(GX, GY)

  // ---------------------------------------------------------------
  // Modular arithmetic (Euclidean `%`, which agrees with Python's `%`
  // for a positive modulus).
  // ---------------------------------------------------------------

  lemma ModUnique(x: int, q: int, r: int, m: int)
    requires m > 0 && 0 <= r < m && x == q * m + r
    ensures x % m == r
  {
    var q0, r0 := x / m, x % m;
    assert x == q0 * m + r0;
    assert (q - q0) * m == r0 - r;
    if q - q0 >= 1 { assert false; }
    else if q - q0 <= -1 { assert false; }
  }

  lemma ModAddMultiple(c: int, k: int, m: int)
    requires m > 0
    ensures (c + k * m) % m == c % m
  {
    ModUnique(c + k * m, c / m + k, c % m, m);
  }

  lemma ModMulLeft(a: int, b: int, m: int)
    requires m > 0
    ensures (a * b) % m == ((a % m) * b) % m
  {
    var q := a / m;
    assert a * b == (a % m) * b + (q * b) * m;
    ModAddMultiple((a % m) * b, q * b, m);
  }

  /** A product with a factor of at least 2 is never 1. */
  lemma NotUnit(g: int, e: int)
    requires g >= 2
    ensures g * e != 1
  {
    if e >= 1 { assert g * e >= 2 * e; }
    else { assert g * e <= 0; }
  }

  /** Extended Euclid: the gcd of a and b with its Bezout coefficients s, t. */
  function ExtGcd(a: nat, b: nat): (r: (nat, int, int))
    decreases b
    ensures r.0 == a * r.1 + b * r.2
    ensures a > 0 || b > 0 ==> r.0 > 0
  {
    if b == 0 then (a, 1, 0)
    else
      var e := ExtGcd(b, a % b);
      BezoutStep(a, b, e.0, e.1, e.2);
      (e.0, e.2, e.1 - (a / b) * e.2)
  }

  lemma BezoutStep(a: nat, b: nat, g: int, s: int, t: int)
    requires b > 0 && g == b * s + (a % b) * t
    ensures g == a * t + b * (s - (a / b) * t)
  {
    var q := a / b;
    assert a % b == a - q * b;
    assert (a - q * b) * t == a * t - b * (q * t);
  }

  /** The gcd divides both arguments: a == g * ca and b == g * cb. */
  lemma {:induction false} GcdDivides(a: nat, b: nat) returns (ca: int, cb: int)
    decreases b
    ensures a == ExtGcd(a, b).0 * ca && b == ExtGcd(a, b).0 * cb
  {
    if b == 0 {
      ca, cb := 1, 0;
    } else {
      var c1, c2 := GcdDivides(b, a % b);
      var q, r := a / b, a % b;
      ca, cb := q * c1 + c2, c1;
      DivMod(a, b);
      CommonFactor(a, b, q, r, ExtGcd(b, r).0, c1, c2);
    }
  }

  lemma DivMod(a: int, b: int)
    requires b > 0
    ensures a == (a / b) * b + a % b
  {
  }

  lemma CommonFactor(a: int, b: int, q: int, r: int, g: int, c1: int, c2: int)
    requires a == q * b + r && b == g * c1 && r == g * c2
    ensures a == g * (q * c1 + c2)
  {
    assert q * b == g * (q * c1);
  }

  predicate IsInverse(x: int, v: int, m: int)
    requires m > 0
  {
    (x * v) % m == 1
  }

  /** Python's `pow(x, -1, m)`: the inverse of x modulo m in [0, m), or a
      ValueError when x has none. */
  function ModInverse(x: int, m: int): (r: Result<int, PyError>)
    requires m > 1
    ensures r.Ok? ==> 0 <= r.value < m && IsInverse(x, r.value, m)
    ensures r.Err? <==> forall v :: !IsInverse(x, v, m)
    ensures r.Err? ==> r.error == ValueError
    ensures x % m == 0 ==> r.Err?
  {
    var e := ExtGcd(x % m, m);
    if e.0 == 1 then
      InverseFound(x, m, e.1, e.2);
      Ok(e.1 % m)
    else
      NoInverse(x, m);
      Err(ValueError)
  }

  lemma InverseFound(x: int, m: int, s: int, t: int)
    requires m > 1 && 1 == (x % m) * s + m * t
    ensures IsInverse(x, s % m, m)
    ensures x % m != 0
  {
    var r, u := x % m, s % m;
    if r == 0 {
      assert m * t == 1;
      NotUnit(m, t);
    }
    ModMulLeft(x, u, m);
    ModMulLeft(s, r, m);
    InverseArith(r, s, t, u, m);
  }

  lemma InverseArith(r: int, s: int, t: int, u: int, m: int)
    requires m > 1 && 1 == r * s + m * t
    requires (u * r) % m == (s * r) % m
    ensures (r * u) % m == 1
  {
    assert r * u == u * r && s * r == 1 + (-t) * m;
    ModAddMultiple(1, -t, m);
  }

  lemma NoInverse(x: int, m: int)
    requires m > 1 && ExtGcd(x % m, m).0 != 1
    ensures forall v :: !IsInverse(x, v, m)
  {
    var g := ExtGcd(x % m, m).0;
    var ca, cb := GcdDivides(x % m, m);
    forall v
      ensures !IsInverse(x, v, m)
    {
      ModMulLeft(x, v, m);
      SharedFactor(x % m, v, m, g, ca, cb);
    }
  }

  /** A multiple of a common factor g >= 2 of r and m is never 1 modulo m. */
  lemma SharedFactor(r: int, v: int, m: int, g: int, ca: int, cb: int)
    requires m > 0 && g >= 2 && r == g * ca && m == g * cb
    ensures (r * v) % m != 1
  {
    if (r * v) % m == 1 {
      var j := (r * v) / m;
      assert r * v == j * m + 1;
      assert r * v == g * (ca * v);
      assert j * m == g * (cb * j);
      assert g * (ca * v - cb * j) == 1;
      NotUnit(g, ca * v - cb * j);
    }
  }

  // ---------------------------------------------------------------
  // point_add
  // ---------------------------------------------------------------

  /** The numerator of the slope: the tangent's 3x^2 + a when P == Q,
      the chord's Qy - Py otherwise. */
  function SlopeNumerator(p: Point, q: Point): int
  {
    if p == q then 3 * p.x * p.x + A else q.y - p.y
  }

  /** The denominator of the slope: 2y for the tangent, Qx - Px for the chord. */
  function SlopeDenominator(p: Point, q: Point): int
  {
    if p == q then 2 * p.y else q.x - p.x
  }

  /** lam is the slope: lam * denominator == numerator modulo p. */
  predicate IsSlope(lam: int, p: Point, q: Point)
  {
    (lam * SlopeDenominator(p, q)) % P == SlopeNumerator(p, q) % P
  }

  /** The sum of p and q along the line of slope lam, coordinates reduced. */
  function Chord(lam: int, p: Point, q: Point): Point
  {
    var x := (lam * lam - p.x - q.x) % P;
    Point(x, (lam * (p.x - x) - p.y) % P)
  }

  lemma SlopeOf(num: int, inv: int, den: int, m: int)
    requires m > 0 && IsInverse(den, inv, m)
    ensures (((num * inv) % m) * den) % m == num % m
  {
    calc {
      (((num * inv) % m) * den) % m;
      { ModMulLeft(num * inv, den, m); }
      ((num * inv) * den) % m;
      { assert (num * inv) * den == (inv * den) * num; assert den * inv == inv * den; }
      ((inv * den) * num) % m;
      { ModMulLeft(inv * den, num, m); }
      (1 * num) % m;
    }
  }

  /** `point_add(P, Q)` of Project-5/sm2.py. */
  function PointAdd(p: Point, q: Point): (r: Result<Point, PyError>)
    ensures p == O ==> r == Ok(q)
    ensures p != O && q == O ==> r == Ok(p)
    ensures p != O && q != O ==>
      (r.Err? <==> forall v :: !IsInverse(SlopeDenominator(p, q), v, P))
    ensures p != O && q != O && SlopeDenominator(p, q) % P == 0 ==> r == Err(ValueError)
    ensures p != O && q != O && r.Ok? ==>
      0 <= r.value.x < P && 0 <= r.value.y < P &&
      exists lam {:trigger IsSlope(lam, p, q)} :: 0 <= lam < P && IsSlope(lam, p, q) && r.value == Chord(lam, p, q)
  {
    if p == O then Ok(q)
    else if q == O then Ok(p)
    else
      var num, den := SlopeNumerator(p, q), SlopeDenominator(p, q);
      var inv := ModInverse(den, P);
      if inv.Err? then Err(ValueError)
      else
        var lam := (num * inv.value) % P;
        SlopeOf(num, inv.value, den, P);
        assert IsSlope(lam, p, q);
        Ok(Chord(lam, p, q))
  }

  // ---------------------------------------------------------------
  // scalar_mult
  // ---------------------------------------------------------------

  /** Python's `k.bit_length()`: the number of passes of the loop. */
  function BitLength(k: nat): nat
  {
    if k == 0 then 0 else 1 + BitLength(k / 2)
  }

  /** The double-and-add loop from accumulator r and addend p, for any
      addition that may fail: each pass adds p when the low bit of k is
      set, then doubles p, then shifts k right. */
  function DoubleAndAdd<T>(add: (T, T) -> Result<T, PyError>, k: nat, r: T, p: T): Result<T, PyError>
    decreases k
  {
    if k == 0 then Ok(r)
    else
      var r1 := if k % 2 == 1 then add(r, p) else Ok(r);
      if r1.Err? then r1
      else
        var p1 := add(p, p);
        if p1.Err? then p1
        else DoubleAndAdd(add, k / 2, r1.value, p1.value)
  }

  /** `scalar_mult(k, P)` of Project-5/sm2.py, for k >= 0 (for k < 0
      `k >>= 1` stops at -1 and the loop never ends). */
  method ScalarMult(k0: nat, p0: Point) returns (res: Result<Point, PyError>, ghost passes: nat)
    ensures res == DoubleAndAdd(PointAdd, k0, O, p0)
    ensures res.Ok? ==> passes == BitLength(k0)
  {
    var r := O;
    var p := p0;
    var k := k0;
    passes := 0;
    while k != 0
      invariant DoubleAndAdd(PointAdd, k, r, p) == DoubleAndAdd(PointAdd, k0, O, p0)
      invariant passes + BitLength(k) == BitLength(k0)
      decreases k
    {
      if k % 2 == 1 {
        var s := PointAdd(r, p);
        if s.Err? {
          return s, passes;
        }
        r := s.value;
      }
      var d := PointAdd(p, p);
      if d.Err? {
        return d, passes;
      }
      p := d.value;
      k := k / 2;
      passes := passes + 1;
    }
    return Ok(r), passes;
  }

  /** k = 0 gives the sentinel without touching P. */
  lemma ScalarMultZero(p: Point)
    ensures DoubleAndAdd(PointAdd, 0, O, p) == Ok(O)
  {
  }

  /** k = 1 gives P itself, but the loop still doubles P on its only pass,
      so it raises ValueError when P cannot be doubled. */
  lemma ScalarMultOne(p: Point)
    ensures DoubleAndAdd(PointAdd, 1, O, p) == (if PointAdd(p, p).Ok? then Ok(p) else Err(ValueError))
  {
    assert 1 / 2 == 0;
    if p != O && !PointAdd(p, p).Ok? {
      assert PointAdd(p, p) == Err(ValueError);
    }
  }

  /** Addition of integers, the group the scalars live in: i * G written as i. */
  function IntAdd(a: int, b: int): Result<int, PyError>
  {
    Ok(a + b)
  }

  /** Over the integers the double-and-add loop computes r + k * p: the
      loop is scalar multiplication wherever additions succeed. */
  lemma {:induction false} DoubleAndAddScales(k: nat, r: int, p: int)
    decreases k
    ensures DoubleAndAdd(IntAdd, k, r, p) == Ok(r + k * p)
  {
    if k > 0 {
      var r1 := if k % 2 == 1 then r + p else r;
      DoubleAndAddScales(k / 2, r1, p + p);
      HalfStep(k, r, p, r1);
    }
  }

  lemma HalfStep(k: nat, r: int, p: int, r1: int)
    requires r1 == if k % 2 == 1 then r + p else r
    ensures r1 + (k / 2) * (p + p) == r + k * p
  {
    var h := k / 2;
    assert k == 2 * h + k % 2;
    assert h * (p + p) == (2 * h) * p;
  }
}
