/** Integer operations of C. */
module CArith {

  function Max(a: int, b: int): int { if a > b then a else b }

  function Min(a: int, b: int): int { if a < b then a else b }

  /** Division, which truncates toward zero. */
  function CDiv(a: int, b: int): int
    requires b > 0
  {
    if a >= 0 then a / b else -((-a) / b)
  }

  /** The quotient is the exact one with its fraction dropped. */
  lemma Truncates(a: int, b: int)
    requires b > 0
    ensures a >= 0 ==> CDiv(a, b) * b <= a < CDiv(a, b) * b + b
    ensures a <= 0 ==> CDiv(a, b) * b >= a > CDiv(a, b) * b - b
  {
    var q := CDiv(a, b);
    if a >= 0 {
      assert a == q * b + a % b;
    } else {
      assert -a == -q * b + -a % b;
    }
  }

  function Clip(v: int, minval: int, maxval: int): int {
    if v < minval then minval else if v > maxval then maxval else v
  }

  /** Of all values within the bounds none is nearer. */
  lemma Clips(v: int, minval: int, maxval: int, x: int)
    requires minval <= x <= maxval
    ensures minval <= Clip(v, minval, maxval) <= maxval
    ensures Distance(v, Clip(v, minval, maxval)) <= Distance(v, x)
  {
  }

  function Distance(a: int, b: int): int { if a < b then b - a else a - b }
}
