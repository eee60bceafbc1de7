/** Java's fixed-width integer arithmetic, as far as the date library relies on it:
    integer division that truncates toward zero, and the narrowing cast from long to int. */
module JavaInt {

  const TWO_31: int := 0x8000_0000
  const TWO_32: int := 0x1_0000_0000

  /** The values a Java `int` can hold. */
  predicate IsInt32(x: int) {
    -TWO_31 <= x < TWO_31
  }

  /** Java's `a / b` for a positive divisor: the quotient truncated toward zero
      (Dafny's own `/` is Euclidean and rounds negative quotients down instead). */
  function Quot(a: int, b: int): (q: int)
    requires b > 0
    ensures a >= 0 ==> 0 <= q && 0 <= a - q * b < b
    ensures a < 0 ==> q <= 0 && -b < a - q * b <= 0
  {
    if a >= 0 then a / b else -((-a) / b)
  }

  /** The remainder bounds of Quot determine the quotient. */
  lemma QuotUnique(a: int, b: int, q: int)
    requires b > 0
    requires a >= 0 ==> 0 <= a - q * b < b
    requires a < 0 ==> -b < a - q * b <= 0
    ensures q == Quot(a, b)
  {
    var p := Quot(a, b);
    if q < p {
      MulMonotone(b, q + 1, p);
    } else if p < q {
      MulMonotone(b, p + 1, q);
    }
  }

  lemma MulMonotone(b: int, x: int, y: int)
    requires b > 0 && x <= y
    ensures x * b <= y * b
  {
  }

  /** Dividing twice with truncation is dividing once by the product:
      `a / b / c == a / (b * c)` in Java for positive `b` and `c`. */
  lemma {:induction false} QuotQuot(a: int, b: int, c: int)
    requires b > 0 && c > 0
    ensures Quot(Quot(a, b), c) == Quot(a, b * c)
  {
    var q1 := Quot(a, b);
    var q2 := Quot(q1, c);
    var r1 := a - q1 * b;
    var r2 := q1 - q2 * c;
    Regroup(a, b, c, q1, q2);
    if a >= 0 {
      assert 0 <= r1 < b && 0 <= r2 < c;
      CombineRemainders(b, c, r1, r2);
    } else {
      if q1 == 0 {
        assert q2 == 0;
      }
      assert -b < r1 <= 0 && -c < r2 <= 0;
      CombineRemainders(b, c, -r1, -r2);
      assert a - q2 * (b * c) == -(-r1 + b * -r2);
    }
    QuotUnique(a, b * c, q2);
  }

  /** A remainder below b plus b times a remainder below c stays below b * c. */
  lemma CombineRemainders(b: int, c: int, r1: int, r2: int)
    requires 0 <= r1 < b && 0 <= r2 < c
    ensures 0 <= r1 + b * r2 < b * c
  {
    MulMonotone(b, 0, r2);
    MulMonotone(b, r2, c - 1);
    assert (c - 1) * b == b * c - b;
  }

  lemma Regroup(a: int, b: int, c: int, q1: int, q2: int)
    ensures a - q2 * (b * c) == (a - q1 * b) + b * (q1 - q2 * c)
  {
    assert b * (q1 - q2 * c) == b * q1 - b * (q2 * c);
    assert q2 * (b * c) == b * (q2 * c);
  }

  /** The cast `(int)` applied to a long: keeps the low 32 bits as a two's-complement value. */
  function ToInt32(x: int): (r: int)
    ensures IsInt32(r)
    ensures (x - r) % TWO_32 == 0
    ensures IsInt32(x) ==> r == x
  {
    (x + TWO_31) % TWO_32 - TWO_31
  }
}
