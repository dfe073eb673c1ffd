/** Java's 64-bit `long` and the two operators on it that the cache uses to pick a slot. */
module JavaLong {

  const MinLong: int := -0x8000_0000_0000_0000

  /** A Java `long`. */
  newtype int64 = x: int | -0x8000_0000_0000_0000 <= x < 0x8000_0000_0000_0000

  /** `Math.abs(long)`: the negation wraps around for `Long.MIN_VALUE`, which is
      returned unchanged and so stays negative. */
  function Abs(x: int64): (r: int64)
    ensures x as int != MinLong ==> r >= 0 && (r == x || r == -x)
    ensures x as int == MinLong ==> r == x && r < 0
  {
    if x as int == MinLong then x else if x < 0 then -x else x
  }

  /** Java's `%` on `long`: truncating division, so the remainder takes the sign
      of the dividend (Dafny's `%` is Euclidean). */
  function Rem(a: int, b: int): (r: int)
    requires b > 0
    ensures a >= 0 ==> r == a % b && 0 <= r < b
    ensures a < 0 ==> -b < r <= 0
    ensures (a - r) % b == 0
  {
    if a >= 0 then
      MultipleRem(b, a / b);
      assert a - a % b == b * (a / b);
      a % b
    else
      var q := (-a) / b;
      MultipleRem(b, -q);
      assert -a == b * q + (-a) % b;
      assert a + (-a) % b == b * -q;
      -((-a) % b)
  }

  /** A multiple of `b` leaves no remainder. */
  lemma MultipleRem(b: int, k: int)
    requires b > 0
    ensures (b * k) % b == 0
  {
    var q, r := (b * k) / b, (b * k) % b;
    var d := k - q;
    assert b * k == b * q + r;
    assert b * d == b * k - b * q;
    if d > 0 {
      ProductAtLeast(b, d);
    } else if d < 0 {
      ProductAtLeast(b, -d);
    }
  }

  lemma ProductAtLeast(b: int, d: int)
    requires b > 0 && d >= 1
    ensures b * d >= b
  {
    assert b * d == b * (d - 1) + b;
  }
}
