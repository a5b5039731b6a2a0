/** The 4-bit window scalar multiplication of Project-5/sm2_optimization.py:
    the table `precomputed_G` and `scalar_mult_optimized`. */
module Sm2Window {
  import opened Wrappers
  import opened Sm2

  // ---------------------------------------------------------------
  // precomputed_G
  // ---------------------------------------------------------------

  /** `[scalar_mult(i, base) for i in range(1, n + 1)]`, in order; the
      first failing entry raises. */
  function Table<T>(add: (T, T) -> Result<T, PyError>, zero: T, base: T, n: nat): (r: Result<seq<T>, PyError>)
    ensures r.Ok? ==> |r.value| == n
    ensures r.Ok? ==> forall j :: 1 <= j <= n ==> DoubleAndAdd(add, j, zero, base) == Ok(r.value[j - 1])
    ensures r.Err? <==> exists j :: 1 <= j <= n && DoubleAndAdd(add, j, zero, base).Err?
  {
    if n == 0 then Ok([])
    else
      var t := Table(add, zero, base, n - 1);
      if t.Err? then
        assert exists j :: 1 <= j <= n - 1 && DoubleAndAdd(add, j, zero, base).Err?;
        t
      else
        var e := DoubleAndAdd(add, n, zero, base);
        if e.Err? then
          assert 1 <= n <= n && DoubleAndAdd(add, n, zero, base).Err?;
          Err(e.error)
        else Ok(t.value + [e.value])
  }

  /** `precomputed_G`: the multiples 1 * G .. 16 * G. */
  function PrecomputedG(): Result<seq<Point>, PyError>
  {
    Table(PointAdd, O, G, 16)
  }

  // ---------------------------------------------------------------
  // bin(k)[2:] and int(s, 2)
  // ---------------------------------------------------------------

  /** The digits of k > 0, most significant first; true stands for '1'. */
  function Digits(k: nat): (d: seq<bool>)
    requires k > 0
    decreases k
    ensures |d| == BitLength(k) && d[0]
  {
    if k == 1 then [true] else Digits(k / 2) + [k % 2 == 1]
  }

  /** `bin(k)[2:]` for k >= 0: "0" for zero. */
  function Bin(k: nat): seq<bool>
  {
    if k == 0 then [false] else Digits(k)
  }

  /** `int(s, 2)` of a non-empty string of binary digits. */
  function Value(s: seq<bool>): nat
  {
    if s == [] then 0 else 2 * Value(s[..|s| - 1]) + (if s[|s| - 1] then 1 else 0)
  }

  function Pow2(n: nat): nat
  {
    if n == 0 then 1 else 2 * Pow2(n - 1)
  }

  lemma {:induction false} BinValue(k: nat)
    ensures Value(Bin(k)) == k
  {
    if k > 0 {
      DigitsValue(k);
    }
  }

  lemma {:induction false} DigitsValue(k: nat)
    requires k > 0
    decreases k
    ensures Value(Digits(k)) == k
  {
    if k > 1 {
      DigitsValue(k / 2);
      var d := Digits(k);
      assert d[..|d| - 1] == Digits(k / 2);
    }
  }

  /** The value of a concatenation: the high part shifted past the low one. */
  lemma {:induction false} ValueAppend(a: seq<bool>, b: seq<bool>)
    decreases |b|
    ensures Value(a + b) == Value(a) * Pow2(|b|) + Value(b)
  {
    if b == [] {
      assert a + b == a;
    } else {
      var b0 := b[..|b| - 1];
      assert (a + b)[..|a + b| - 1] == a + b0;
      ValueAppend(a, b0);
      var low := if b[|b| - 1] then 1 else 0;
      assert Value(a + b) == 2 * (Value(a) * Pow2(|b0|) + Value(b0)) + low;
      assert Value(b) == 2 * Value(b0) + low;
      assert Pow2(|b|) == 2 * Pow2(|b0|);
      Twice(Value(a), Pow2(|b0|));
    }
  }

  lemma Twice(x: int, y: int)
    ensures 2 * (x * y) == x * (2 * y)
  {
  }

  /** A digit string that starts with '1' is at least 2^(n-1) and below 2^n. */
  lemma {:induction false} ValueBounds(s: seq<bool>)
    requires |s| > 0 && s[0]
    decreases |s|
    ensures Pow2(|s| - 1) <= Value(s) < Pow2(|s|)
  {
    if |s| > 1 {
      var s0 := s[..|s| - 1];
      assert s0[0] == s[0];
      ValueBounds(s0);
    }
  }

  /** The window value `digit` of a window that starts with '1' and is at
      most four digits wide lies in [1, 15], so `precomputed_G[digit - 1]`
      is in range. */
  lemma WindowDigit(s: seq<bool>)
    requires 1 <= |s| <= 4 && s[0]
    ensures 1 <= Value(s) <= 15
  {
    ValueBounds(s);
    assert Pow2(|s|) <= 16 by {
      assert Pow2(1) == 2 && Pow2(2) == 4 && Pow2(3) == 8 && Pow2(4) == 16;
    }
  }

  // ---------------------------------------------------------------
  // scalar_mult_optimized
  // ---------------------------------------------------------------

  /** `while width > 1 and k_bin[i:i+width][0] == '0': width -= 1`. */
  function Shrink(bits: seq<bool>, i: nat, width: nat): (w: nat)
    requires i < |bits|
    ensures w <= width
    ensures bits[i] ==> w == width
  {
    if width > 1 && !bits[i] then Shrink(bits, i, width - 1) else width
  }

  /** The window width chosen at a '1' digit: `min(4, len(k_bin) - i)`,
      after the shrink loop, which never shrinks it because the window
      starts with '1'. */
  function Width(bits: seq<bool>, i: nat): (w: nat)
    requires i < |bits| && bits[i]
    ensures w == if 4 < |bits| - i then 4 else |bits| - i
    ensures 1 <= w <= 4 && i + w <= |bits|
  {
    Shrink(bits, i, if 4 < |bits| - i then 4 else |bits| - i)
  }

  /** `for _ in range(n): R = point_add(R, R)`. */
  function Doubled<T>(add: (T, T) -> Result<T, PyError>, r: T, n: nat): Result<T, PyError>
  {
    if n == 0 then Ok(r)
    else
      var d := add(r, r);
      if d.Err? then d else Doubled(add, d.value, n - 1)
  }

  /** The body of the else branch at a '1' digit: add the window's table
      entry, then double once per digit of the window. */
  function WindowStep<T>(add: (T, T) -> Result<T, PyError>, bits: seq<bool>, i: nat, r: T, table: seq<T>): Result<T, PyError>
    requires i < |bits| && bits[i] && |table| == 16
  {
    var w := Width(bits, i);
    WindowDigit(bits[i..i + w]);
    var s := add(r, table[Value(bits[i..i + w]) - 1]);
    if s.Err? then s else Doubled(add, s.value, w)
  }

  /** The loop of `scalar_mult_optimized` from digit i with accumulator r,
      for any addition: a '0' doubles r, a '1' takes a window step and
      skips the window. */
  function Windowed<T>(add: (T, T) -> Result<T, PyError>, bits: seq<bool>, i: nat, r: T, table: seq<T>): Result<T, PyError>
    requires i <= |bits| && |table| == 16
    decreases |bits| - i
  {
    if i == |bits| then Ok(r)
    else if !bits[i] then
      var d := add(r, r);
      if d.Err? then d else Windowed(add, bits, i + 1, d.value, table)
    else
      var s := WindowStep(add, bits, i, r, table);
      if s.Err? then s else Windowed(add, bits, i + Width(bits, i), s.value, table)
  }

  /** The window's doublings. */
  method DoubleTimes(r0: Point, n: nat) returns (res: Result<Point, PyError>)
    ensures res == Doubled(PointAdd, r0, n)
  {
    var r := r0;
    for j := 0 to n
      invariant Doubled(PointAdd, r, n - j) == Doubled(PointAdd, r0, n)
    {
      var d := PointAdd(r, r);
      if d.Err? {
        return d;
      }
      r := d.value;
    }
    return Ok(r);
  }

  /** The else branch of the loop at a '1' digit: the width (the shrink
      loop as Shrink) and the window step. */
  method OneWindow(bits: seq<bool>, i: nat, r: Point, table: seq<Point>) returns (res: Result<Point, PyError>, width: nat)
    requires i < |bits| && bits[i] && |table| == 16
    ensures width == Width(bits, i)
    ensures res == WindowStep(PointAdd, bits, i, r, table)
  {
    width := if 4 < |bits| - i then 4 else |bits| - i;
    width := Shrink(bits, i, width);
    assert width == Width(bits, i);
    var digit := Value(bits[i..i + width]);
    WindowDigit(bits[i..i + width]);
    var s := PointAdd(r, table[digit - 1]);
    assert s == PointAdd(r, table[Value(bits[i..i + Width(bits, i)]) - 1]);
    if s.Err? {
      return s, width;
    }
    res := DoubleTimes(s.value, width);
  }

  /** One pass of the loop of `scalar_mult_optimized` at digit i: the
      new R, or the error that ends the loop, and the next i. */
  method LoopBody(bits: seq<bool>, i: nat, r: Point, table: seq<Point>) returns (res: Result<Point, PyError>, next: nat)
    requires i < |bits| && |table| == 16
    ensures i < next <= |bits|
    ensures res.Err? ==> res == Windowed(PointAdd, bits, i, r, table)
    ensures res.Ok? ==> Windowed(PointAdd, bits, next, res.value, table) == Windowed(PointAdd, bits, i, r, table)
  {
    if !bits[i] {
      res := PointAdd(r, r);
      next := i + 1;
    } else {
      res, next := OneWindow(bits, i, r, table);
      next := i + next;
    }
  }

  /** `scalar_mult_optimized(k, P)` with `precomputed_G` as table. P is
      never read: the result depends on k and the table only. For k < 0
      `bin(k)[2:]` starts with 'b', which `int(..., 2)` rejects in the
      first window. */
  method ScalarMultOptimized(k: int, p: Point, table: seq<Point>) returns (res: Result<Point, PyError>)
    requires |table| == 16
    ensures k < 0 ==> res == Err(ValueError)
    ensures k >= 0 ==> res == Windowed(PointAdd, Bin(k), 0, O, table)
  {
    if k < 0 {
      return Err(ValueError);
    }
    var bits := Bin(k);
    var r := O;
    var i := 0;
    ghost var goal := Windowed(PointAdd, bits, 0, O, table);
    while i < |bits|
      invariant i <= |bits|
      invariant Windowed(PointAdd, bits, i, r, table) == goal
      decreases |bits| - i
    {
      var s, next := LoopBody(bits, i, r, table);
      if s.Err? {
        return s;
      }
      r, i := s.value, next;
    }
    return Ok(r);
  }

  /** k = 0 gives the sentinel (one doubling of (0, 0)). */
  lemma OptimizedZero(table: seq<Point>)
    requires |table| == 16
    ensures Windowed(PointAdd, Bin(0), 0, O, table) == Ok(O)
  {
  }

  /** The digits of 1: a single window of width one and value one. */
  lemma BinOne()
    ensures Bin(1) == [true] && Width(Bin(1), 0) == 1 && Value(Bin(1)[0..1]) == 1
  {
    assert Bin(1)[0..1] == [true];
    assert [true][..0] == [];
  }

  /** k = 1 gives the first table entry doubled, where scalar
      multiplication gives the entry itself. */
  lemma OptimizedOne(table: seq<Point>)
    requires |table| == 16
    ensures Windowed(PointAdd, Bin(1), 0, O, table) == PointAdd(table[0], table[0])
  {
    BinOne();
  }

  // ---------------------------------------------------------------
  // The same loops over the integers: i * G written as i.
  // ---------------------------------------------------------------

  /** The table of the multiples 1 .. 16. */
  function Multiples(): seq<int>
  {
    [1, 2, 3, 4, 5, 6, 7, 8, 9, 10, 11, 12, 13, 14, 15, 16]
  }

  /** Over the integers the table of n entries is 1 .. n. */
  lemma {:induction false} TableScales(n: nat)
    ensures Table(IntAdd, 0, 1, n).Ok?
    ensures forall j :: 0 <= j < n ==> Table(IntAdd, 0, 1, n).value[j] == j + 1
  {
    if n > 0 {
      TableScales(n - 1);
      DoubleAndAddScales(n, 0, 1);
      assert DoubleAndAdd(IntAdd, n, 0, 1) == Ok(n);
    }
  }

  /** Over the integers `precomputed_G` is the table 1 .. 16. */
  lemma TableOfMultiples()
    ensures Table(IntAdd, 0, 1, 16) == Ok(Multiples())
  {
    TableScales(16);
    var t := Table(IntAdd, 0, 1, 16).value;
    assert |t| == 16;
    assert forall j :: 0 <= j < 16 ==> t[j] == Multiples()[j];
    assert t == Multiples();
  }

  /** Over the integers the optimised loop maps k = 1 to 2, not 1. */
  lemma WindowedAsWrittenOne()
    ensures Windowed(IntAdd, Bin(1), 0, 0, Multiples()) == Ok(2)
  {
    BinOne();
  }

  /** The window step as intended: double once per digit of the window,
      then add the window's table entry. */
  function WindowStepCorrected<T>(add: (T, T) -> Result<T, PyError>, bits: seq<bool>, i: nat, r: T, table: seq<T>): Result<T, PyError>
    requires i < |bits| && bits[i] && |table| == 16
  {
    var w := Width(bits, i);
    WindowDigit(bits[i..i + w]);
    var t := Doubled(add, r, w);
    if t.Err? then t else add(t.value, table[Value(bits[i..i + w]) - 1])
  }

  /** The window method with the corrected window step. */
  function WindowedCorrected<T>(add: (T, T) -> Result<T, PyError>, bits: seq<bool>, i: nat, r: T, table: seq<T>): Result<T, PyError>
    requires i <= |bits| && |table| == 16
    decreases |bits| - i
  {
    if i == |bits| then Ok(r)
    else if !bits[i] then
      var d := add(r, r);
      if d.Err? then d else WindowedCorrected(add, bits, i + 1, d.value, table)
    else
      var s := WindowStepCorrected(add, bits, i, r, table);
      if s.Err? then s else WindowedCorrected(add, bits, i + Width(bits, i), s.value, table)
  }

  lemma {:induction false} DoubledScales(r: int, n: nat)
    decreases n
    ensures Doubled(IntAdd, r, n) == Ok(r * Pow2(n))
  {
    if n > 0 {
      DoubledScales(r + r, n - 1);
      assert (r + r) * Pow2(n - 1) == r * (2 * Pow2(n - 1));
    }
  }

  /** Over the integers a corrected window step shifts r past the window
      and adds its value. */
  lemma StepCorrectedScales(bits: seq<bool>, i: nat, r: int)
    requires i < |bits| && bits[i]
    ensures var win := bits[i..i + Width(bits, i)];
      WindowStepCorrected(IntAdd, bits, i, r, Multiples()) == Ok(r * Pow2(|win|) + Value(win))
  {
    var w := Width(bits, i);
    var win := bits[i..i + w];
    WindowDigit(win);
    DoubledScales(r, w);
    assert Multiples()[Value(win) - 1] == Value(win);
  }

  /** Over the integers the corrected loop from digit i computes
      r * 2^(digits left) + the value of the digits left. */
  lemma {:induction false} WindowedCorrectedScales(bits: seq<bool>, i: nat, r: int)
    requires i <= |bits|
    decreases |bits| - i
    ensures WindowedCorrected(IntAdd, bits, i, r, Multiples()) == Ok(r * Pow2(|bits[i..]|) + Value(bits[i..]))
  {
    if i < |bits| {
      var w := if bits[i] then Width(bits, i) else 1;
      assert i + w <= |bits|;
      var win, rest := bits[i..i + w], bits[i + w..];
      var r1 := r * Pow2(|win|) + Value(win);
      if bits[i] {
        StepCorrectedScales(bits, i, r);
      } else {
        assert win == [false];
        assert Value(win) == 0 by { assert win[..0] == []; }
        assert r1 == r + r by { assert Pow2(|win|) == 2; }
      }
      WindowedCorrectedScales(bits, i + w, r1);
      assert bits[i..] == win + rest;
      Regrouped(win, rest, r);
    }
  }

  /** Splitting the remaining digits at the end of a window. */
  lemma Regrouped(win: seq<bool>, rest: seq<bool>, r: int)
    ensures r * Pow2(|win + rest|) + Value(win + rest) == (r * Pow2(|win|) + Value(win)) * Pow2(|rest|) + Value(rest)
  {
    ValueAppend(win, rest);
    Pow2Add(|win|, |rest|);
    ShiftAdd(r, Pow2(|win + rest|), Value(win + rest), Pow2(|win|), Value(win), Pow2(|rest|), Value(rest));
  }

  lemma {:induction false} Pow2Add(a: nat, b: nat)
    ensures Pow2(a + b) == Pow2(a) * Pow2(b)
  {
    if a > 0 {
      Pow2Add(a - 1, b);
      Twice(Pow2(a - 1), Pow2(b));
    }
  }

  lemma ShiftAdd(r: int, pa: int, va: int, x: int, d: int, y: int, e: int)
    requires pa == x * y && va == d * y + e
    ensures r * pa + va == (r * x + d) * y + e
  {
    assert r * (x * y) == (r * x) * y;
  }

  /** Over the integers the corrected window method computes k. */
  lemma WindowedCorrectedIsScalar(k: nat)
    ensures WindowedCorrected(IntAdd, Bin(k), 0, 0, Multiples()) == Ok(k)
  {
    WindowedCorrectedScales(Bin(k), 0, 0);
    assert Bin(k)[0..] == Bin(k);
    assert Pow2(|Bin(k)|) * 0 == 0;
    BinValue(k);
  }
}
