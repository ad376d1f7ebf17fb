/** Python's int() applied to an exact fraction, and the small facts about
    integer products that the fit planner's proofs rest on. */
module PyInt {

  /** int(n / d) for d > 0: the fraction truncated toward zero, as Python's
      int() does to a float. For a non-negative fraction this is the floor. */
  function Trunc(n: int, d: int): (r: int)
    requires d > 0
    ensures n >= 0 ==> 0 <= r && r * d <= n < r * d + d
    ensures n < 0 ==> r <= 0 && r * d - d < n <= r * d
  {
    if n >= 0 then (CancelLt(-1, n / d, d); n / d) else -((-n) / d)
  }

  /** A strict inequality between multiples of a positive number carries over
      to the factors. */
  lemma CancelLt(a: int, b: int, d: int)
    requires d > 0 && a * d < b * d
    ensures a < b
  {
    assert (b - a) * d == b * d - a * d;
  }

  /** The non-strict counterpart of CancelLt. */
  lemma CancelLe(a: int, b: int, d: int)
    requires d > 0 && a * d <= b * d
    ensures a <= b
  {
    CancelLt(a, b + 1, d);
  }

  /** Multiplying both sides of an inequality by a non-negative number. */
  lemma MulLe(a: int, b: int, c: int)
    requires a <= b && c >= 0
    ensures a * c <= b * c
  {
    assert b * c - a * c == (b - a) * c;
  }

  /** For a non-negative fraction, Trunc is the only q with
      q * d <= n < q * d + d. */
  lemma FloorUnique(q: int, n: int, d: int)
    requires d > 0 && n >= 0 && q * d <= n < q * d + d
    ensures Trunc(n, d) == q
  {
    var r := Trunc(n, d);
    assert r * d <= n < r * d + d;
    CancelLt(r, q + 1, d);
    CancelLt(q, r + 1, d);
  }
}
