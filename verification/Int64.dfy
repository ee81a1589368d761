/** Go's int64 (time.Duration) arithmetic. */
module Int64 {
  const TWO63 := 0x8000_0000_0000_0000
  const TWO64 := 0x1_0000_0000_0000_0000

  predicate Fits(x: int) { -TWO63 <= x < TWO63 }

  /** Two's complement wrap-around. */
  function Wrap(x: int): (r: int)
    ensures Fits(r)
    ensures Fits(x) ==> r == x
  {
    (x + TWO63) % TWO64 - TWO63
  }

  lemma WrapShift(x: int, k: int)
    ensures Wrap(x + k * TWO64) == Wrap(x)
  {
    var y := x + TWO63;
    var q := y / TWO64;
    assert y == q * TWO64 + y % TWO64;
    assert y + k * TWO64 == (q + k) * TWO64 + y % TWO64;
    DivModUnique(y + k * TWO64, q + k, y % TWO64);
  }

  lemma DivModUnique(y: int, q: int, r: int)
    requires y == q * TWO64 + r && 0 <= r < TWO64
    ensures y % TWO64 == r
  {
  }

  lemma WrapIsShift(x: int) returns (k: int)
    ensures Wrap(x) == x - k * TWO64
  {
    k := (x + TWO63) / TWO64;
  }

  /** A wrapped factor gives the same wrapped product. */
  lemma WrapProduct(x: int, y: int)
    ensures Wrap(Wrap(x) * y) == Wrap(x * y)
  {
    var k := WrapIsShift(x);
    assert (x - k * TWO64) * y == x * y + (-(k * y)) * TWO64;
    WrapShift(x * y, -(k * y));
  }

  lemma WrapSum(x: int, y: int)
    ensures Wrap(Wrap(x) + Wrap(y)) == Wrap(x + y)
  {
    var k := WrapIsShift(x);
    var l := WrapIsShift(y);
    assert (x - k * TWO64) + (y - l * TWO64) == (x + y) + (-(k + l)) * TWO64;
    WrapShift(x + y, -(k + l));
  }

  /** Go's `/` truncates toward zero. */
  function Quotient(a: int, b: int): int
    requires b > 0
  {
    if a >= 0 then a / b else -((-a) / b)
  }
}
