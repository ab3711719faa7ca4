/**
 * Strings of hexadecimal digits and the natural numbers they denote, as read
 * by Python's `int(s, 16)` restricted to plain digit strings.
 */
module Hex {
  import opened Wrappers

  predicate IsHexDigit(c: char) {
    '0' <= c <= '9' || 'a' <= c <= 'f' || 'A' <= c <= 'F'
  }

  predicate IsHexString(s: string) {
    forall i | 0 <= i < |s| :: IsHexDigit(s[i])
  }

  /** The digits an encoder writes: 0-9 and upper-case A-F. */
  predicate IsUpperHexString(s: string) {
    forall i | 0 <= i < |s| :: '0' <= s[i] <= '9' || 'A' <= s[i] <= 'F'
  }

  function DigitValue(c: char): (d: nat)
    requires IsHexDigit(c)
    ensures d < 16
  {
    if '0' <= c <= '9' then c as int - '0' as int
    else if 'a' <= c <= 'f' then c as int - 'a' as int + 10
    else c as int - 'A' as int + 10
  }

  /** Upper-case digit for a value below 16; the inverse of DigitValue. */
  function DigitChar(d: nat): (c: char)
    requires d < 16
    ensures IsHexDigit(c) && DigitValue(c) == d
    ensures '0' <= c <= '9' || 'A' <= c <= 'F'
  {
    if d < 10 then ('0' as int + d) as char else ('A' as int + d - 10) as char
  }

  function Pow16(k: nat): (p: nat)
    ensures p > 0
  {
    if k == 0 then 1 else 16 * Pow16(k - 1)
  }

  /** The big-endian value of a digit string (most significant digit first). */
  function Value(s: string): (n: nat)
    requires IsHexString(s)
    ensures n < Pow16(|s|)
    decreases |s|
  {
    if s == [] then 0 else 16 * Value(s[..|s| - 1]) + DigitValue(s[|s| - 1])
  }

  /**
   * `int(s, 16)` on a string: the value of a non-empty digit string, and no
   * value (Python's ValueError) for the empty string or any other character.
   */
  function Parse(s: string): (r: Option<nat>)
    ensures r.Some? <==> |s| > 0 && IsHexString(s)
    ensures r.Some? ==> r.value == Value(s)
  {
    if |s| > 0 && IsHexString(s) then Some(Value(s)) else None
  }

  /** The `width`-digit upper-case rendering of `n` modulo 16^width. */
  function Encode(n: nat, width: nat): (s: string)
    ensures |s| == width && IsHexString(s) && IsUpperHexString(s)
  {
    if width == 0 then [] else Encode(n / 16, width - 1) + [DigitChar(n % 16)]
  }

  lemma {:induction false} ValueOfEncode(n: nat, width: nat)
    ensures Value(Encode(n, width)) == n % Pow16(width)
  {
    if width > 0 {
      var s := Encode(n, width);
      assert s[..|s| - 1] == Encode(n / 16, width - 1);
      ValueOfEncode(n / 16, width - 1);
      DivModPow16(n, width - 1);
    }
  }

  /** Taking n mod 16^(k+1) is taking the last digit, then n / 16 mod 16^k. */
  lemma DivModPow16(n: nat, k: nat)
    ensures n % Pow16(k + 1) == 16 * ((n / 16) % Pow16(k)) + n % 16
  {
    var p := Pow16(k);
    var q := n / 16;
    assert n == 16 * q + n % 16;
    var a := q / p;
    var b := q % p;
    assert q == a * p + b;
    assert n == a * (16 * p) + (16 * b + n % 16) by {
      assert 16 * q == a * (16 * p) + 16 * b;
    }
    assert 0 <= 16 * b + n % 16 < 16 * p;
    ModUnique(n, 16 * p, a, 16 * b + n % 16);
  }

  lemma ModUnique(n: int, m: int, q: int, r: int)
    requires m > 0 && 0 <= r < m && n == q * m + r
    ensures n % m == r
  {
    var q', r' := n / m, n % m;
    assert q' * m + r' == q * m + r;
    assert (q - q') * m == r' - r;
    assert (q' - q) * m == r - r';
    if q' < q {
      MulAtLeast(q - q', m);
    } else if q' > q {
      MulAtLeast(q' - q, m);
    }
  }

  lemma MulAtLeast(k: int, m: int)
    requires k >= 1 && m > 0
    ensures k * m >= m
  {
    assert k * m == m + (k - 1) * m;
  }

  /** Round trip: parsing an encoding gives back the number when it fits. */
  lemma ParseEncode(n: nat, width: nat)
    requires 0 < width && n < Pow16(width)
    ensures Parse(Encode(n, width)) == Some(n)
  {
    ValueOfEncode(n, width);
  }

  /** Round trip the other way: an upper-case digit string is the encoding of its value. */
  lemma {:induction false} EncodeValue(s: string)
    requires IsUpperHexString(s)
    ensures IsHexString(s) && Encode(Value(s), |s|) == s
    decreases |s|
  {
    if s != [] {
      var init := s[..|s| - 1];
      assert IsUpperHexString(init);
      EncodeValue(init);
      var v := Value(s);
      var d := DigitValue(s[|s| - 1]);
      assert v == 16 * Value(init) + d;
      assert v / 16 == Value(init) && v % 16 == d;
      assert DigitChar(d) == s[|s| - 1];
      assert s == init + [s[|s| - 1]];
    }
  }

  /** Concatenating digit strings shifts the value of the prefix. */
  lemma {:induction false} ValueConcat(a: string, b: string)
    requires IsHexString(a) && IsHexString(b)
    ensures IsHexString(a + b)
    ensures Value(a + b) == Value(a) * Pow16(|b|) + Value(b)
    decreases |b|
  {
    var ab := a + b;
    assert IsHexString(ab) by {
      forall i | 0 <= i < |ab| ensures IsHexDigit(ab[i]) {
        if i < |a| { assert ab[i] == a[i]; } else { assert ab[i] == b[i - |a|]; }
      }
    }
    if b == [] {
      assert ab == a;
    } else {
      var b' := b[..|b| - 1];
      var d := DigitValue(b[|b| - 1]);
      assert ab[..|ab| - 1] == a + b';
      assert ab[|ab| - 1] == b[|b| - 1];
      ValueConcat(a, b');
      assert Value(ab) == 16 * Value(a + b') + d;
      assert Value(b) == 16 * Value(b') + d;
      Shift(Value(a), Pow16(|b'|), Value(b'), d);
    }
  }

  lemma Shift(va: int, p: int, vb: int, d: int)
    ensures 16 * (va * p + vb) + d == va * (16 * p) + (16 * vb + d)
  {
  }

  /** A digit string splits into its leading and trailing parts as quotient and remainder. */
  lemma SplitValue(s: string, k: nat)
    requires IsHexString(s) && k <= |s|
    ensures IsHexString(s[..k]) && IsHexString(s[k..])
    ensures Value(s[..k]) == Value(s) / Pow16(|s| - k)
    ensures Value(s[k..]) == Value(s) % Pow16(|s| - k)
  {
    HexSlices(s, k);
    ValueConcat(s[..k], s[k..]);
    var p := Pow16(|s| - k);
    ModUnique(Value(s), p, Value(s[..k]), Value(s[k..]));
    DivUnique(Value(s), p, Value(s[..k]), Value(s[k..]));
  }

  lemma HexSlices(s: string, k: nat)
    requires IsHexString(s) && k <= |s|
    ensures IsHexString(s[..k]) && IsHexString(s[k..]) && s[..k] + s[k..] == s
  {
    forall i | 0 <= i < |s[k..]| ensures IsHexDigit(s[k..][i]) {
      assert s[k..][i] == s[k + i];
    }
  }

  lemma DivUnique(n: int, m: int, q: int, r: int)
    requires m > 0 && 0 <= r < m && n == q * m + r
    ensures n / m == q
  {
    ModUnique(n, m, q, r);
  }

  /** A string of k 'F' digits denotes 16^k - 1, the largest k-digit value. */
  lemma {:induction false} AllDigitsF(s: string)
    requires forall i | 0 <= i < |s| :: s[i] == 'F'
    ensures IsHexString(s) && Value(s) == Pow16(|s|) - 1
    decreases |s|
  {
    if s != [] {
      AllDigitsF(s[..|s| - 1]);
    }
  }

  /** A string of '0' digits denotes zero. */
  lemma {:induction false} AllDigitsZero(s: string)
    requires forall i | 0 <= i < |s| :: s[i] == '0'
    ensures IsHexString(s) && Value(s) == 0
    decreases |s|
  {
    if s != [] {
      AllDigitsZero(s[..|s| - 1]);
    }
  }
}
