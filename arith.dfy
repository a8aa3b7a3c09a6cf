/** Facts about multiplication by a positive factor, each proved on its own so that callers reason linearly. */
module Arith {
  lemma {:induction false} MulMonotone(a: int, x: int, y: int)
    requires a > 0 && x <= y
    ensures a * x <= a * y
    decreases y - x
  {
    if x < y {
      MulMonotone(a, x, y - 1);
      MulSucc(a, y - 1);
    }
  }

  lemma MulSucc(a: int, x: int)
    ensures a * (x + 1) == a * x + a
  {
  }

  /** Between two distinct multiples of `a > 0` lies at least `a`, and at least `2 * a` when they are two apart. */
  lemma MulGap(a: int, x: int, y: int)
    requires a > 0 && x < y
    ensures a * y - a * x >= a
    ensures x + 1 < y ==> a * y - a * x >= 2 * a
  {
    MulMonotone(a, x + 1, y);
    MulSucc(a, x);
    if x + 1 < y {
      MulMonotone(a, x + 2, y);
      MulSucc(a, x + 1);
    }
  }
}
