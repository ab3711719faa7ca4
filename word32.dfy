/**
 * The two 32-bit views that `ctypes.c_uint32(n).value` and
 * `ctypes.c_int32(n).value` give of an unbounded Python integer: both keep
 * the low 32 bits of `n`, the first reading them as unsigned and the second
 * as two's complement.
 */
module Word32 {

  const TWO32: int := 0x1_0000_0000
  const TWO31: int := 0x8000_0000

  /** Unsigned view: the representative of n modulo 2^32 in [0, 2^32). */
  function U32(n: int): (r: int)
    ensures 0 <= r < TWO32
    ensures (n - r) % TWO32 == 0
  {
    n % TWO32
  }

  /** Signed view: the representative of n modulo 2^32 in [-2^31, 2^31). */
  function I32(n: int): (r: int)
    ensures -TWO31 <= r < TWO31
    ensures (n - r) % TWO32 == 0
  {
    (n + TWO31) % TWO32 - TWO31
  }

  /** Two integers congruent modulo 2^32 and less than 2^32 apart are equal. */
  lemma CongruentInWindow(lo: int, x: int, y: int)
    requires lo <= x < lo + TWO32 && lo <= y < lo + TWO32
    requires (x - y) % TWO32 == 0
    ensures x == y
  {
    var k := (x - y) / TWO32;
    assert x - y == k * TWO32;
  }

  lemma SameModDiff(n: int, x: int, y: int)
    requires (n - x) % TWO32 == 0 && (n - y) % TWO32 == 0
    ensures (x - y) % TWO32 == 0
  {
    var a := (n - x) / TWO32;
    var b := (n - y) / TWO32;
    assert n - x == a * TWO32 && n - y == b * TWO32;
    assert x - y == (b - a) * TWO32;
  }

  /** U32's contract determines it: any value with those two properties is U32(n). */
  lemma U32Unique(n: int, r: int)
    requires 0 <= r < TWO32 && (n - r) % TWO32 == 0
    ensures r == U32(n)
  {
    SameModDiff(n, r, U32(n));
    CongruentInWindow(0, r, U32(n));
  }

  /** I32's contract determines it: any value with those two properties is I32(n). */
  lemma I32Unique(n: int, r: int)
    requires -TWO31 <= r < TWO31 && (n - r) % TWO32 == 0
    ensures r == I32(n)
  {
    SameModDiff(n, r, I32(n));
    CongruentInWindow(-TWO31, r, I32(n));
  }

  /** Two's complement reinterpretation: subtract 2^32 from the unsigned view at or above 2^31. */
  lemma I32OfU32(n: int)
    ensures I32(n) == if U32(n) >= TWO31 then U32(n) - TWO32 else U32(n)
  {
    var u := U32(n);
    var r := if u >= TWO31 then u - TWO32 else u;
    assert (n - r) % TWO32 == 0 by {
      if u >= TWO31 {
        var k := (n - u) / TWO32;
        assert n - u == k * TWO32;
        assert n - r == (k + 1) * TWO32;
      }
    }
    I32Unique(n, r);
  }

  /** Both views depend only on n modulo 2^32. */
  lemma ViewsOfCongruent(n: int, m: int)
    requires (n - m) % TWO32 == 0
    ensures U32(n) == U32(m) && I32(n) == I32(m)
  {
    var a := (n - m) / TWO32;
    assert n - m == a * TWO32;
    var b := (m - U32(m)) / TWO32;
    assert m - U32(m) == b * TWO32;
    assert n - U32(m) == (a + b) * TWO32;
    U32Unique(n, U32(m));
    var c := (m - I32(m)) / TWO32;
    assert m - I32(m) == c * TWO32;
    assert n - I32(m) == (a + c) * TWO32;
    I32Unique(n, I32(m));
  }

  /** The unsigned view of a value already in range is that value. */
  lemma U32OfWord(n: int)
    requires 0 <= n < TWO32
    ensures U32(n) == n
  {
    U32Unique(n, n);
  }
}
