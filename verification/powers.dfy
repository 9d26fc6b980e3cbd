/** Exact powers of ten and the integer parts of `log10` that
    postprocess.py takes from `Decimal.log10()`: rounded to the nearest
    integer (`quantize(1)`) and truncated toward zero (`int(...)`). */
module Powers {

  function Pow10(k: int): (r: real)
    ensures r > 0.0
    decreases if k >= 0 then k else -k
  {
    if k == 0 then 1.0 else if k > 0 then 10.0 * Pow10(k - 1) else Pow10(k + 1) / 10.0
  }

  lemma Pow10Succ(k: int)
    ensures Pow10(k + 1) == 10.0 * Pow10(k)
  {
    if k < 0 {
      assert Pow10(k) == Pow10(k + 1) / 10.0;
    }
  }

  /** Powers of ten grow strictly with the exponent. */
  lemma {:induction false} Pow10Less(a: int, b: int)
    requires a < b
    ensures Pow10(a) < Pow10(b)
    decreases b - a
  {
    Pow10Succ(a);
    if a + 1 < b {
      Pow10Less(a + 1, b);
    }
  }

  lemma Pow10Order(a: int, b: int)
    ensures Pow10(a) < Pow10(b) <==> a < b
    ensures Pow10(a) == Pow10(b) <==> a == b
  {
    if a < b {
      Pow10Less(a, b);
    } else if b < a {
      Pow10Less(b, a);
    }
  }

  lemma ShrinkFloor(y: real)
    requires y > 10.0
    ensures (y / 10.0).Floor < y.Floor
  {
  }

  /** `floor(log10 x)`: the exponent of the power of ten at or below `x`. */
  function FloorLog10(x: real): (k: int)
    requires x > 0.0
    ensures Pow10(k) <= x < Pow10(k + 1)
    decreases if x >= 1.0 then 0 else 1, if x >= 1.0 then x.Floor else (1.0 / x).Floor
  {
    if x >= 10.0 then
      var k := FloorLog10(x / 10.0);
      Pow10Succ(k);
      Pow10Succ(k + 1);
      k + 1
    else if x >= 1.0 then
      Pow10Succ(0);
      0
    else
      assert x * 10.0 < 1.0 ==> 1.0 / (x * 10.0) == (1.0 / x) / 10.0;
      assert x * 10.0 < 1.0 ==> 1.0 / x > 10.0;
      assert x * 10.0 < 1.0 ==> (1.0 / (x * 10.0)).Floor < (1.0 / x).Floor by {
        if x * 10.0 < 1.0 {
          ShrinkFloor(1.0 / x);
        }
      }
      var k := FloorLog10(x * 10.0);
      Pow10Succ(k - 1);
      Pow10Succ(k);
      k - 1
  }

  /** The characterisation is unique: no other exponent brackets `x`. */
  lemma FloorLog10Unique(x: real, k: int)
    requires x > 0.0
    ensures Pow10(k) <= x < Pow10(k + 1) <==> k == FloorLog10(x)
  {
    var f := FloorLog10(x);
    Pow10Order(k, f + 1);
    Pow10Order(f, k + 1);
  }

  /** `int(x.log10())`: truncation toward zero, so the floor at or above one
      and the ceiling below one. */
  function TruncLog10(x: real): (n: int)
    requires x > 0.0
    ensures x >= 1.0 ==> Pow10(n) <= x < Pow10(n + 1)
    ensures x < 1.0 ==> Pow10(n - 1) < x <= Pow10(n)
  {
    var f := FloorLog10(x);
    if x >= 1.0 || Pow10(f) == x then f else f + 1
  }

  lemma TruncLog10Unique(x: real, n: int)
    requires x > 0.0
    ensures (if x >= 1.0 then Pow10(n) <= x < Pow10(n + 1) else Pow10(n - 1) < x <= Pow10(n))
        <==> n == TruncLog10(x)
  {
    var t := TruncLog10(x);
    Pow10Order(n, t + 1);
    Pow10Order(t, n + 1);
    Pow10Order(n - 1, t);
    Pow10Order(t - 1, n);
  }

  // ---------------------------------------------------------------------------
  // scaling by powers of ten

  /** `x · 10^k`, by repeated multiplication or division by ten (Python's
      `x * (Decimal(10) ** k)` and `x / (Decimal(10) ** k)` with exact
      arithmetic). */
  function Scale(x: real, k: int): real
    decreases if k >= 0 then k else -k
  {
    if k == 0 then x else if k > 0 then 10.0 * Scale(x, k - 1) else Scale(x, k + 1) / 10.0
  }

  lemma ScaleSucc(x: real, k: int)
    ensures Scale(x, k + 1) == 10.0 * Scale(x, k)
  {
    if k < 0 {
      assert Scale(x, k) == Scale(x, k + 1) / 10.0;
    }
  }

  lemma {:induction false} ScaleAdd(x: real, a: int, b: int)
    ensures Scale(Scale(x, a), b) == Scale(x, a + b)
    decreases if b >= 0 then b else -b
  {
    if b > 0 {
      ScaleAdd(x, a, b - 1);
      ScaleSucc(x, a + b - 1);
    } else if b < 0 {
      ScaleAdd(x, a, b + 1);
      ScaleSucc(x, a + b);
      ScaleSucc(Scale(x, a), b);
    }
  }

  /** Scaling back undoes scaling. */
  lemma ScaleInverse(x: real, k: int)
    ensures Scale(Scale(x, k), -k) == x
  {
    ScaleAdd(x, k, -k);
  }

  lemma {:induction false} ScaleOne(k: int)
    ensures Scale(1.0, k) == Pow10(k)
    decreases if k >= 0 then k else -k
  {
    if k > 0 {
      ScaleOne(k - 1);
    } else if k < 0 {
      ScaleOne(k + 1);
    }
  }

  /** Scaling keeps the order and the sign. */
  lemma {:induction false} ScaleMonotone(x: real, y: real, k: int)
    ensures x <= y <==> Scale(x, k) <= Scale(y, k)
    ensures x < y <==> Scale(x, k) < Scale(y, k)
    ensures Scale(0.0, k) == 0.0
    decreases if k >= 0 then k else -k
  {
    if k > 0 {
      ScaleMonotone(x, y, k - 1);
    } else if k < 0 {
      ScaleMonotone(x, y, k + 1);
    }
  }

  /** `x` written as `q · 10^f` with `1 <= q < 10`: its decimal significand. */
  function Significand(x: real): (q: real)
    requires x > 0.0
    ensures 1.0 <= q < 10.0
    ensures Scale(q, FloorLog10(x)) == x
  {
    var f := FloorLog10(x);
    ScaleOne(f);
    ScaleOne(f + 1);
    ScaleMonotone(Pow10(f), x, -f);
    ScaleMonotone(x, Pow10(f + 1), -f);
    ScaleAdd(1.0, f, -f);
    ScaleAdd(1.0, f + 1, -f);
    ScaleSucc(1.0, 0);
    ScaleAdd(x, -f, f);
    Scale(x, -f)
  }

  /** `x.log10().quantize(1)` for `x > 0`: with `x = q · 10^f` and
      `1 <= q < 10`, `log10 x = f + log10 q` rounds up exactly when
      `log10 q >= 1/2`, that is when `q² >= 10`. Equality there would need
      `q = √10`, which no decimal number is, so the half-way rule of
      `quantize` never decides. */
  function RoundLog10(x: real): (k: int)
    requires x > 0.0
    ensures k == FloorLog10(x) || k == FloorLog10(x) + 1
    ensures k == FloorLog10(x) + 1 <==> AtLeastRootTen(Significand(x))
  {
    if AtLeastRootTen(Significand(x)) then FloorLog10(x) + 1 else FloorLog10(x)
  }

  /** `q >= √10`, said without a square root. */
  predicate AtLeastRootTen(q: real) {
    q * q >= 10.0
  }

  /** The square of `q · 10^f` is `q² · 10^(2f)`. */
  lemma {:induction false} SquareScaled(q: real, f: int)
    ensures Scale(q, f) * Scale(q, f) == Scale(q * q, 2 * f)
    decreases if f >= 0 then f else -f
  {
    var q2 := q * q;
    if f > 0 {
      SquareScaled(q, f - 1);
      var t := Scale(q, f - 1);
      assert Scale(q, f) == 10.0 * t;
      assert (10.0 * t) * (10.0 * t) == 100.0 * (t * t);
      ScaleSucc(q2, 2 * f - 2);
      ScaleSucc(q2, 2 * f - 1);
    } else if f < 0 {
      SquareScaled(q, f + 1);
      var t := Scale(q, f + 1);
      assert Scale(q, f) == t / 10.0;
      assert (t / 10.0) * (t / 10.0) == (t * t) / 100.0;
      ScaleSucc(q2, 2 * f);
      ScaleSucc(q2, 2 * f + 1);
    }
  }

  /** `10^(j + m)` is `10^j` scaled by `m`. */
  lemma Pow10Scaled(j: int, m: int)
    ensures Pow10(j + m) == Scale(Pow10(j), m)
  {
    ScaleOne(j);
    ScaleAdd(1.0, j, m);
    ScaleOne(j + m);
  }

  lemma SmallPowers()
    ensures Pow10(-1) == 0.1 && Pow10(0) == 1.0 && Pow10(1) == 10.0 && Pow10(3) == 1000.0
  {
    assert Pow10(2) == 100.0;
  }

  lemma SquareBounds(q: real)
    requires 1.0 <= q < 10.0
    ensures 1.0 <= q * q < 100.0
  {
    assert q * q >= 1.0 * q;
    assert q * q < 10.0 * q;
  }

  /** With `1 <= q² < 100`, `q² · 10^(2f)` lies between `10^(2r-1)` and
      `10^(2r+1)` for `r = f`, or `r = f + 1` once `q² >= 10`. */
  lemma SquareBracket(q2: real, f: int, r: int)
    requires 1.0 <= q2 < 100.0
    requires r == f || r == f + 1
    requires r == f + 1 <==> q2 >= 10.0
    ensures Pow10(2 * r - 1) <= Scale(q2, 2 * f) < Pow10(2 * r + 1)
  {
    SmallPowers();
    var lo, hi := 2 * r - 1 - 2 * f, 2 * r + 1 - 2 * f;
    Pow10Scaled(lo, 2 * f);
    Pow10Scaled(hi, 2 * f);
    if r == f {
      assert Pow10(lo) == 0.1 && Pow10(hi) == 10.0;
    } else {
      assert Pow10(lo) == 10.0 && Pow10(hi) == 1000.0;
    }
    ScaleMonotone(Pow10(lo), q2, 2 * f);
    ScaleMonotone(q2, Pow10(hi), 2 * f);
  }

  lemma RoundLog10Bracket(x: real)
    requires x > 0.0
    ensures Pow10(2 * RoundLog10(x) - 1) <= x * x < Pow10(2 * RoundLog10(x) + 1)
  {
    var f, q, r := FloorLog10(x), Significand(x), RoundLog10(x);
    var q2 := q * q;
    assert r == f + 1 <==> q2 >= 10.0 by {
      assert r == f + 1 <==> AtLeastRootTen(q);
    }
    SquareBounds(q);
    SquareBracket(q2, f, r);
    SquareOfScaled(x, q, f);
  }

  lemma SquareOfScaled(x: real, q: real, f: int)
    requires x == Scale(q, f)
    ensures x * x == Scale(q * q, 2 * f)
  {
    SquareScaled(q, f);
  }

  /** Neighbouring brackets `[10^(2k-1), 10^(2k+1))` do not overlap. */
  lemma BracketUnique(y: real, r: int, k: int)
    requires Pow10(2 * r - 1) <= y < Pow10(2 * r + 1)
    ensures Pow10(2 * k - 1) <= y < Pow10(2 * k + 1) <==> k == r
  {
    Pow10Order(2 * k - 1, 2 * r + 1);
    Pow10Order(2 * r - 1, 2 * k + 1);
  }

  /** `round(log10 x)` is the one `k` with `10^(2k-1) <= x² < 10^(2k+1)`, that is
      `10^(k - 1/2) <= x < 10^(k + 1/2)` without a square root. */
  lemma RoundLog10Square(x: real, k: int)
    requires x > 0.0
    ensures Pow10(2 * k - 1) <= x * x < Pow10(2 * k + 1) <==> k == RoundLog10(x)
  {
    RoundLog10Bracket(x);
    BracketUnique(x * x, RoundLog10(x), k);
  }
}
