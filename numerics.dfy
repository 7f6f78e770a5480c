/** Arithmetic shared by the path: IEEE division without rounding, size_t
    subtraction, absolute value, and row-major index bounds. */
module Numerics {

  /** A double as the path computes it: a real value when finite (rounding is
      not modelled), the two infinities and NaN that division by zero gives. */
  datatype Float = Finite(value: real) | PosInf | NegInf | NaN

  /** Number of values of a 64-bit size_t. */
  const SizeModulus: nat := 0x1_0000_0000_0000_0000

  type SizeT = k: nat | k < SizeModulus

  function Abs(x: real): (r: real)
    ensures r >= 0.0 && (r == x || r == -x)
  {
    if x < 0.0 then -x else x
  }

  /** IEEE division of a finite numerator by a finite denominator: finite
      exactly when the denominator is nonzero; 0/0 is NaN and x/0 an infinity
      with the sign of x. */
  function Divide(num: real, den: real): (q: Float)
    ensures q.Finite? <==> den != 0.0
    ensures q.Finite? ==> q.value * den == num
    ensures q.NaN? <==> den == 0.0 && num == 0.0
    ensures q.PosInf? <==> den == 0.0 && num > 0.0
  {
    if den != 0.0 then Finite(num / den)
    else if num == 0.0 then NaN
    else if num > 0.0 then PosInf
    else NegInf
  }

  /** `len - 1` computed in size_t: it wraps to 2^64 - 1 when len is 0. */
  function SizeMinusOne(len: SizeT): (r: SizeT)
    ensures len > 0 ==> r == len - 1
    ensures len == 0 ==> r == SizeModulus - 1
  {
    (len - 1) % SizeModulus
  }

  /** a * b, kept behind a function so that the verifier treats a square as a
      product of two factors. */
  function Product(a: real, b: real): real
  {
    a * b
  }

  /** d * d, as the accumulators write it. */
  function Square(d: real): real
  {
    Product(d, d)
  }

  lemma ProductPositive(a: real, b: real)
    requires (a > 0.0 && b > 0.0) || (a < 0.0 && b < 0.0)
    ensures Product(a, b) > 0.0
  {
  }

  /** A square is non-negative, and positive exactly when d is nonzero. */
  lemma SquareSign(d: real)
    ensures Square(d) >= 0.0
    ensures d != 0.0 ==> Square(d) > 0.0
    ensures d == 0.0 ==> Square(d) == 0.0
  {
    if d != 0.0 {
      ProductPositive(d, d);
    }
  }

  lemma DivNonNegative(s: real, den: real)
    requires s >= 0.0 && den > 0.0
    ensures s / den >= 0.0
    ensures s / den == 0.0 <==> s == 0.0
  {
  }

  lemma DivBetween(s: real, den: real, lo: real, hi: real)
    requires den > 0.0 && den * lo <= s <= den * hi
    ensures lo <= s / den <= hi
  {
    var q := s / den;
    assert s == q * den;
  }

  lemma {:induction false} MulMonotone(a: nat, b: nat, n: nat)
    requires a <= b
    ensures a * n <= b * n
  {
    if a < b {
      MulMonotone(a, b - 1, n);
      assert b * n == (b - 1) * n + n;
    }
  }

  /** Entry (i, j) of a row-major rows-by-n matrix lies inside its rows * n
      elements. */
  lemma RowIndexInBounds(i: nat, j: nat, rows: nat, n: nat)
    requires i < rows && j < n
    ensures i * n + j < rows * n
  {
    MulMonotone(i + 1, rows, n);
    assert (i + 1) * n == i * n + n;
  }

  /** Row i of a row-major rows-by-n matrix ends inside it. */
  lemma RowEndInBounds(i: nat, rows: nat, n: nat)
    requires i < rows
    ensures i * n + n <= rows * n
  {
    MulMonotone(i + 1, rows, n);
    assert (i + 1) * n == i * n + n;
  }
}
