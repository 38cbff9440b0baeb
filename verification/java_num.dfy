/**
  The few pieces of Java integer and floating-point behaviour the game relies on:
  narrowing a `long` to an `int`, integer division that truncates toward zero,
  and `(int) (Math.random() * span)`.
 */
module JavaNum {

  const IntMin: int := -0x8000_0000
  const IntMax: int := 0x7fff_ffff

  /** Narrowing to a Java `int`: the low 32 bits read as two's complement. The
      result is the one `int` that differs from `x` by a multiple of 2^32. */
  function ToInt32(x: int): (r: int)
    ensures IntMin <= r <= IntMax
    ensures (r - x) % 0x1_0000_0000 == 0
    ensures IntMin <= x <= IntMax ==> r == x
  {
    var q := (x + 0x8000_0000) / 0x1_0000_0000;
    assert (x + 0x8000_0000) % 0x1_0000_0000 - 0x8000_0000 - x == -q * 0x1_0000_0000;
    (x + 0x8000_0000) % 0x1_0000_0000 - 0x8000_0000
  }

  /** Java `a / d` for a positive divisor: the quotient truncated toward zero
      (Dafny's own `/` rounds toward negative infinity for negative `a`). */
  function JavaDiv(a: int, d: int): int
    requires d > 0
  {
    if a >= 0 then a / d else -((-a) / d)
  }

  /** Java `a % d` for a positive divisor: takes the sign of `a`. */
  function JavaRem(a: int, d: int): int
    requires d > 0
  {
    a - d * JavaDiv(a, d)
  }

  /** A value of `Math.random()`: the fraction num/den, which lies in [0, 1). */
  datatype Fraction = Fraction(num: nat, den: nat)
  type RandomDraw = f: Fraction | f.num < f.den witness Fraction(0, 1)

  /** `(int) (r * span)`: scale a draw in [0, 1) to `span` and truncate toward zero.
      Floating-point rounding is not modelled; the product is taken exactly. */
  function Scale(r: RandomDraw, span: int): (v: int)
    ensures span > 0 ==> 0 <= v < span
    ensures span == 0 ==> v == 0
    ensures span < 0 ==> span < v <= 0
  {
    if span >= 0 then
      ScaleBelow(r.num, r.den, span);
      JavaDiv(r.num * span, r.den)
    else
      ScaleBelow(r.num, r.den, -span);
      JavaDiv(r.num * span, r.den)
  }

  /** Every value the bounds of `Scale` allow is drawn by some `Math.random()`
      value: the draw v/span for a positive span, (-v)/(-span) for a negative one. */
  lemma ScaleReaches(span: int, v: int)
    requires span > 0 ==> 0 <= v < span
    requires span == 0 ==> v == 0
    requires span < 0 ==> span < v <= 0
    ensures exists r: RandomDraw :: Scale(r, span) == v
  {
    if span > 0 {
      var r: RandomDraw := Fraction(v, span);
      MulDivCancel(v, span);
      assert Scale(r, span) == v;
    } else if span < 0 {
      var r: RandomDraw := Fraction(-v, -span);
      var a := r.num * span;
      assert a == -((-v) * (-span));
      MulDivCancel(-v, -span);
      assert JavaDiv(a, r.den) == v;
      assert Scale(r, span) == v;
    } else {
      var r: RandomDraw := Fraction(0, 1);
      assert Scale(r, span) == v;
    }
  }

  lemma MulDivCancel(a: nat, b: nat)
    requires b > 0
    ensures a * b / b == a
  {
    var q := a * b / b;
    assert q * b <= a * b < q * b + b;
    MulStep(q, a, b);
    MulStep(a, q, b);
  }

  /** A larger factor gives a product at least one more multiple of `b` larger. */
  lemma MulStep(x: int, y: int, b: int)
    ensures b > 0 && x < y ==> x * b + b <= y * b
  {
    if b > 0 && x < y {
      var d := y - x - 1;
      assert y * b == x * b + b + d * b;
      assert d * b >= 0;
    }
  }

  /** num/den < 1, so scaling `n` by it and flooring lands below `n`. */
  lemma ScaleBelow(num: nat, den: nat, n: nat)
    requires num < den
    ensures 0 <= num * n / den <= n
    ensures n > 0 ==> num * n / den < n
  {
    var q := num * n / den;
    assert num * n <= den * n by {
      assert (den - num) * n >= 0;
    }
    assert q * den <= num * n;
    if n > 0 {
      assert num * n < den * n by {
        assert (den - num) * n > 0;
      }
    } else {
      assert num * n == 0;
    }
  }
}
