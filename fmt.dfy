/** The pieces of Rust's standard formatting that the header strip relies on:
    `{}` on an unsigned integer, `{:02}` (zero-padded to a minimum width of
    two) and `str::len` (the length of a string in UTF-8 bytes). */
module Fmt {

  predicate IsDigit(c: char) {
    '0' <= c <= '9'
  }

  predicate AllDigits(s: string) {
    forall i :: 0 <= i < |s| ==> IsDigit(s[i])
  }

  function DigitChar(d: nat): (c: char)
    requires d < 10
    ensures IsDigit(c) && DigitValue(c) == d
  {
    (48 + d) as char
  }

  function DigitValue(c: char): (d: nat)
    requires IsDigit(c)
    ensures d < 10
  {
    (c as int) - 48
  }

  /** `{}` on an unsigned integer: the shortest decimal numeral, most
      significant digit first, with no leading zero. */
  function Decimal(n: nat): (r: string)
    ensures |r| >= 1 && AllDigits(r)
    ensures r[0] == '0' ==> n == 0
    decreases n
  {
    if n < 10 then [DigitChar(n)] else Decimal(n / 10) + [DigitChar(n % 10)]
  }

  /** The number a string of decimal digits denotes (the inverse of Decimal). */
  function DecimalValue(s: string): nat
    requires AllDigits(s)
    decreases |s|
  {
    if s == [] then 0 else 10 * DecimalValue(s[..|s| - 1]) + DigitValue(s[|s| - 1])
  }

  lemma {:induction false} DecimalRoundTrip(n: nat)
    ensures DecimalValue(Decimal(n)) == n
    decreases n
  {
    if n >= 10 {
      var r := Decimal(n);
      assert r[..|r| - 1] == Decimal(n / 10);
      DecimalRoundTrip(n / 10);
    }
  }

  /** Distinct numbers print as distinct numerals. */
  lemma DecimalInjective(a: nat, b: nat)
    ensures Decimal(a) == Decimal(b) ==> a == b
  {
    DecimalRoundTrip(a);
    DecimalRoundTrip(b);
  }

  function Pow10(k: nat): (p: nat)
    ensures p >= 1
  {
    if k == 0 then 1 else 10 * Pow10(k - 1)
  }

  /** A numeral has at most k digits exactly when the number is below 10^k. */
  lemma {:induction false} DecimalLength(n: nat, k: nat)
    requires k >= 1
    ensures |Decimal(n)| <= k <==> n < Pow10(k)
    decreases n
  {
    if n >= 10 {
      if k == 1 {
        assert |Decimal(n)| == |Decimal(n / 10)| + 1;
      } else {
        DecimalLength(n / 10, k - 1);
        assert n / 10 < Pow10(k - 1) <==> n < 10 * Pow10(k - 1);
      }
    } else {
      assert Pow10(k) >= 10 by { PowAtLeastTen(k); }
    }
  }

  lemma {:induction false} PowAtLeastTen(k: nat)
    requires k >= 1
    ensures Pow10(k) >= 10
  {
    if k > 1 {
      PowAtLeastTen(k - 1);
    }
  }

  /** `{:02}` on an unsigned integer: the numeral left-padded with '0' up to
      a minimum width of two; wider numerals are left as they are. */
  function Pad2(n: nat): (r: string)
    ensures AllDigits(r) && |r| >= 2
  {
    var d := Decimal(n);
    if |d| < 2 then "0" + d else d
  }

  /** Pad2 is the plain numeral preceded only by '0' fill. */
  lemma Pad2Shape(n: nat)
    ensures |Pad2(n)| >= |Decimal(n)|
    ensures Pad2(n)[|Pad2(n)| - |Decimal(n)|..] == Decimal(n)
    ensures forall i :: 0 <= i < |Pad2(n)| - |Decimal(n)| ==> Pad2(n)[i] == '0'
  {
    var d := Decimal(n);
    if |d| < 2 {
      assert ("0" + d)[1..] == d;
    }
  }

  /** Pad2 is exactly two digits wide precisely below 100, and always keeps
      the value. */
  lemma Pad2Width(n: nat)
    ensures |Pad2(n)| >= 2
    ensures |Pad2(n)| == 2 <==> n < 100
    ensures DecimalValue(Pad2(n)) == n
  {
    var d := Decimal(n);
    DecimalRoundTrip(n);
    DecimalLength(n, 1);
    DecimalLength(n, 2);
    if |d| < 2 {
      var p := "0" + d;
      assert p[..|p| - 1] == "0";
      assert DecimalValue("0") == 0 by {
        assert "0"[..0] == [];
      }
      assert d[..0] == [];
    }
  }

  /** The number of bytes the UTF-8 encoding of one scalar value takes. */
  function Utf8Width(c: char): (w: nat)
    ensures 1 <= w <= 4
  {
    if c as int < 0x80 then 1
    else if c as int < 0x800 then 2
    else if c as int < 0x1_0000 then 3
    else 4
  }

  /** `str::len`: the length of a string in UTF-8 bytes. */
  function Utf8Len(s: string): (r: nat)
    ensures |s| <= r <= 4 * |s|
    decreases |s|
  {
    if s == [] then 0 else Utf8Len(s[..|s| - 1]) + Utf8Width(s[|s| - 1])
  }

  predicate IsAscii(s: string) {
    forall i :: 0 <= i < |s| ==> s[i] as int < 0x80
  }

  /** Byte length equals the character count for ASCII text. */
  lemma {:induction false} Utf8LenAscii(s: string)
    ensures IsAscii(s) ==> Utf8Len(s) == |s|
    decreases |s|
  {
    if s != [] {
      var p := s[..|s| - 1];
      Utf8LenAscii(p);
      assert IsAscii(s) ==> IsAscii(p);
    }
  }

  /** Byte length adds up over concatenation. */
  lemma {:induction false} Utf8LenAppend(a: string, b: string)
    ensures Utf8Len(a + b) == Utf8Len(a) + Utf8Len(b)
    decreases |b|
  {
    if b == [] {
      assert a + b == a;
    } else {
      var b' := b[..|b| - 1];
      assert (a + b)[..|a + b| - 1] == a + b';
      Utf8LenAppend(a, b');
    }
  }

  lemma DecimalIsAscii(n: nat)
    ensures IsAscii(Decimal(n))
  {
    var r := Decimal(n);
    forall i | 0 <= i < |r| ensures r[i] as int < 0x80 {
      assert IsDigit(r[i]);
    }
  }
}
