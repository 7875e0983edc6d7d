/** Comparison of credentials byte by byte, without an early exit. */
module AuthUtils {

  type Byte = bv8

  /** A C string: its bytes before the terminating NUL. */
  type CString = s: seq<Byte> | 0 !in s

  /** `size_t` on the ESP32. */
  const SIZE_LIMIT: int := 0x1_0000_0000

  /** The byte the comparison loop reads at `i`: zero past the end. */
  function Padded(s: seq<Byte>, i: nat): Byte {
    if i < |s| then s[i] else 0
  }

  /** `(uint8_t)(lenA ^ lenB)`: the low byte of the difference, which can be zero for unequal lengths. */
  function LengthDifference(lenA: nat, lenB: nat): Byte
    requires lenA < SIZE_LIMIT && lenB < SIZE_LIMIT
  {
    (((lenA as bv32) ^ (lenB as bv32)) & 0xFF) as bv8
  }

  lemma EqualLengthsDifferNowhere(n: nat)
    requires n < SIZE_LIMIT
    ensures LengthDifference(n, n) == 0
  {
    var x := n as bv32;
    assert x ^ x == 0;
  }

  /**
   * Padding decides unequal lengths: the longer string has a non-zero byte where the other is padded.
   * Without it, lengths that differ by a multiple of 256 would cancel in the truncated XOR.
   */
  lemma PaddingSeparatesLengths(a: CString, b: CString)
    requires |a| != |b|
    ensures exists i: nat :: (i < |a| || i < |b|) && Padded(a, i) != Padded(b, i)
  {
    var i: nat := if |a| < |b| then |a| else |b|;
    assert Padded(a, i) != Padded(b, i) by {
      if |a| < |b| { assert b[i] in b; } else { assert a[i] in a; }
    }
  }

  method ConstTimeStrEqual(a: CString, b: CString) returns (equal: bool)
    requires |a| < SIZE_LIMIT && |b| < SIZE_LIMIT
    ensures equal <==> a == b
  {
    var lenA, lenB := |a|, |b|;
    var maxLen := if lenA > lenB then lenA else lenB;
    var diff := LengthDifference(lenA, lenB);
    var i := 0;
    while i < maxLen
      invariant 0 <= i <= maxLen
      invariant diff == 0 <==> LengthDifference(lenA, lenB) == 0 && forall k: nat :: k < i ==> Padded(a, k) == Padded(b, k)
    {
      var ca := if i < lenA then a[i] else 0;
      var cb := if i < lenB then b[i] else 0;
      assert ca == Padded(a, i) && cb == Padded(b, i);
      diff := diff | (ca ^ cb);
      i := i + 1;
    }
    equal := diff == 0;
    if lenA != lenB {
      PaddingSeparatesLengths(a, b);
    } else {
      EqualLengthsDifferNowhere(lenA);
      if equal {
        assert forall k: nat :: k < lenA ==> Padded(a, k) == a[k] && Padded(b, k) == b[k];
      }
    }
  }
}
