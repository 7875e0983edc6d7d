/** The fixed-width integers of the firmware and the modular arithmetic the cipher rests on. */
module Integers {

  const TWO_TO_32: int := 0x1_0000_0000
  const TWO_TO_63: int := 0x8000_0000_0000_0000
  const TWO_TO_64: int := 0x1_0000_0000_0000_0000

  type u32 = x: int | 0 <= x < TWO_TO_32
  type u64 = x: int | 0 <= x < TWO_TO_64
  type i64 = x: int | -TWO_TO_63 <= x < TWO_TO_63

  /** What a `uint32_t` expression keeps of an exact result. */
  function U32(x: int): u32 {
    x % TWO_TO_32
  }

  /** `espMillis()`: a 64-bit microsecond counter divided by 1000. */
  type Millis = t: int | 0 <= t <= (TWO_TO_63 - 1) / 1000

  lemma MulOrder(k: nat, x: int, y: int)
    ensures x <= y ==> k * x <= k * y
  {
  }

  lemma DivModUnique(x: int, m: int, q: int, r: int)
    requires 0 <= r < m && x == q * m + r
    ensures x / m == q && x % m == r
  {
    var d := x / m - q;
    assert x == m * (x / m) + x % m;
    assert m * d == r - x % m by {
      assert m * (x / m) - q * m == m * d;
    }
    MulOrder(m, 1, d);
    MulOrder(m, d, -1);
  }

  lemma ModShift(x: int, k: int, m: int)
    requires m > 0
    ensures (x + k * m) % m == x % m
  {
    assert x == m * (x / m) + x % m;
    assert x + k * m == (x / m + k) * m + x % m;
    DivModUnique(x + k * m, m, x / m + k, x % m);
  }

  /** Congruence: equal remainders. */
  predicate Congruent(x: int, y: int, m: int)
    requires m > 0
  {
    x % m == y % m
  }

  lemma CongruentQuotient(x: int, y: int, m: int) returns (k: int)
    requires m > 0 && Congruent(x, y, m)
    ensures x == y + k * m
  {
    k := x / m - y / m;
    assert x == m * (x / m) + x % m;
    assert y == m * (y / m) + y % m;
    assert m * (x / m) - m * (y / m) == k * m;
  }

  lemma CongruentFromQuotient(x: int, y: int, k: int, m: int)
    requires m > 0 && x == y + k * m
    ensures Congruent(x, y, m)
  {
    ModShift(y, k, m);
  }

  lemma MulDistributes(x: int, y: int, c: int)
    ensures (x + y) * c == x * c + y * c
  {
  }

  lemma MulReorder(x: int, y: int, z: int)
    ensures (x * y) * z == (x * z) * y
  {
  }

  lemma CongruentMul(x: int, y: int, c: int, m: int)
    requires m > 0 && Congruent(x, y, m)
    ensures Congruent(x * c, y * c, m)
  {
    var k := CongruentQuotient(x, y, m);
    MulDistributes(y, k * m, c);
    MulReorder(k, m, c);
    CongruentFromQuotient(x * c, y * c, k * c, m);
  }

  lemma CongruentAdd(x: int, y: int, c: int, m: int)
    requires m > 0 && Congruent(x, y, m)
    ensures Congruent(x + c, y + c, m)
  {
    var k := CongruentQuotient(x, y, m);
    ModShift(y + c, k, m);
  }

  lemma ModOfSmall(x: int, m: int)
    requires 0 <= x < m
    ensures x % m == x
  {
    DivModUnique(x, m, 0, x);
  }

  lemma ModOfMod(x: int, m: int)
    requires m > 0
    ensures Congruent(x % m, x, m)
  {
    ModOfSmall(x % m, m);
  }
}
