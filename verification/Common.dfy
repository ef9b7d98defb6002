/** Small datatypes and arithmetic facts shared by the models of the separate components. */
module Common {

  datatype Option<+T> = None | Some(value: T)

  datatype Result<+T, +E> = Ok(value: T) | Err(error: E)

  /** Appending two pieces in front of a rest is appending them one after the other. */
  lemma ConcatAssociates<T>(a: seq<T>, b: seq<T>, c: seq<T>, rest: seq<T>)
    ensures a + (b + c + rest) == a + b + c + rest
    ensures a + (b + rest) == a + b + rest
  {
  }
}

/** Division facts that the solver does not find by itself; every proof about intervals uses these. */
module Arithmetic {

  lemma MulMonotone(a: int, b: int, c: int)
    requires 0 <= c && a <= b
    ensures c * a <= c * b && a * c <= b * c
  {
  }

  lemma MulAssociates(a: int, b: int, c: int)
    ensures a * (b * c) == a * b * c
  {
  }

  lemma MulDistributes(a: int, b: int, c: int)
    ensures a * (b + c) == a * b + a * c
  {
  }

  lemma SmallMultiple(d: int, k: int)
    requires -d < d * k < d
    ensures k == 0
  {
    if 1 <= k {
      MulMonotone(1, k, d);
    } else if k <= -1 {
      MulMonotone(k, -1, d);
    }
  }

  /** Quotient and remainder are the only pair that decomposes x over d. */
  lemma DivModUnique(x: int, d: int, q: int, r: int)
    requires 0 < d && 0 <= r < d && x == d * q + r
    ensures x / d == q && x % d == r
  {
    var q', r' := x / d, x % d;
    assert x == d * q' + r';
    assert d * (q - q') == r' - r;
    SmallMultiple(d, q - q');
  }

  lemma DivAtLeastOne(x: int, d: int)
    requires 0 < d <= x
    ensures 1 <= x / d
  {
    var q := x / d;
    if q <= 0 {
      MulMonotone(q, 0, d);
    }
  }

  /** Dropping one whole divisor leaves the remainder. */
  lemma ModSub(x: int, d: int)
    requires 0 < d
    ensures (x - d) % d == x % d
  {
    DivModUnique(x - d, d, x / d - 1, x % d);
  }

  /** Only numbers at least d away from each other share a remainder. */
  lemma SameRemainder(x: int, y: int, d: int)
    requires 0 < d && x < y && x % d == y % d
    ensures x + d <= y
  {
    assert y - x == d * (y / d - x / d);
    if y / d <= x / d {
      MulMonotone(y / d - x / d, 0, d);
    } else {
      MulMonotone(1, y / d - x / d, d);
    }
  }
}
