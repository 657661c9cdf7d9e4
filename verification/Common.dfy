/** Failure-carrying values and Go's fixed-width integers, shared by every module. */
module Common {
  datatype Option<+T> = None | Some(value: T)

  datatype Result<+T, +E> = Ok(value: T) | Err(error: E)
}

/** Go's int64: two's complement, wrapping on overflow. */
module Int64 {
  const MIN: int := -0x8000_0000_0000_0000
  const MAX: int := 0x7fff_ffff_ffff_ffff
  const SPAN: int := 0x1_0000_0000_0000_0000

  predicate Fits(x: int) {
    MIN <= x <= MAX
  }

  /** The int64 that the low 64 bits of x stand for. */
  function Wrap(x: int): (r: int)
    ensures Fits(r)
    ensures Fits(x) ==> r == x
  {
    (x - MIN) % SPAN + MIN
  }

  lemma {:induction false} Remainder(a: int, q: int, r: int)
    requires a == SPAN * q + r && 0 <= r < SPAN
    ensures a % SPAN == r && a / SPAN == q
  {
  }

  /** The number of whole spans that wrapping takes away. */
  function Turns(x: int): (n: int)
    ensures x == Wrap(x) + SPAN * n
  {
    (x - MIN) / SPAN
  }

  lemma {:induction false} WrapUnique(x: int, r: int, n: int)
    requires Fits(r) && x == r + SPAN * n
    ensures Wrap(x) == r
  {
    Remainder(x - MIN, n, r - MIN);
  }

  /** Two integers wrap to the same int64 exactly when they differ by whole spans. */
  lemma {:induction false} WrapEqual(x: int, y: int)
    ensures Wrap(x) == Wrap(y) <==> (x - y) % SPAN == 0
  {
    var n, d := Turns(x) - Turns(y), x - y;
    hide Wrap, Turns;
    assert d == Wrap(x) - Wrap(y) + SPAN * n;
    if Wrap(x) == Wrap(y) {
      Remainder(d, n, 0);
    } else if d % SPAN == 0 {
      WrapUnique(x, Wrap(y), Turns(y) + d / SPAN);
    }
  }

  /** Adding k brings a counter back to where it was exactly when k is a multiple of the span. */
  lemma {:induction false} WrapBack(x: int, k: int)
    requires Fits(x)
    ensures Wrap(x + k) == x <==> k % SPAN == 0
  {
    WrapEqual(x + k, x);
    assert Wrap(x) == x && x + k - x == k;
  }

  lemma {:induction false} WrapAdd(x: int, y: int)
    ensures Wrap(Wrap(x) + y) == Wrap(x + y)
  {
    var z := Wrap(x) + y;
    hide Wrap, Turns;
    WrapUnique(x + y, Wrap(z), Turns(x) + Turns(z));
  }
}

/** Go's time.Duration, in nanoseconds. */
module Durations {
  const SECOND: int := 1_000_000_000

  /** Division that drops the fraction towards zero, as a float-to-int conversion does. */
  function TruncDiv(a: int, b: int): int
    requires b > 0
  {
    if a >= 0 then a / b else -(-a / b)
  }
}
