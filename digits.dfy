/**
  Hexadecimal and decimal digit strings: the behaviour of JavaScript's
  `parseInt(_, 16)` on one character and of `Number.prototype.toString(radix)`
  on a non-negative integer, which is all the game needs of them.
*/
module Digits {

  /** The characters of the class `[A-Fa-f0-9]`. */
  predicate IsHexDigit(c: char) {
    '0' <= c <= '9' || 'a' <= c <= 'f' || 'A' <= c <= 'F'
  }

  /** The characters `toString(16)` produces: digits and lower-case letters. */
  predicate IsLowerHexDigit(c: char) {
    '0' <= c <= '9' || 'a' <= c <= 'f'
  }

  /** `parseInt(c, 16)` for one hex digit; upper and lower case give the same value. */
  function HexValue(c: char): (v: nat)
    requires IsHexDigit(c)
    ensures v < 16
    ensures v < 10 <==> '0' <= c <= '9'
  {
    if '0' <= c <= '9' then c as int - '0' as int
    else if 'a' <= c <= 'f' then c as int - 'a' as int + 10
    else c as int - 'A' as int + 10
  }

  /** The lower-case form of a hex digit. */
  function ToLower(c: char): (l: char)
    requires IsHexDigit(c)
    ensures IsLowerHexDigit(l) && HexValue(l) == HexValue(c)
  {
    if 'A' <= c <= 'F' then (c as int - 'A' as int + 'a' as int) as char else c
  }

  /** The digit `toString` writes for the value `d`. */
  function DigitChar(d: nat): (c: char)
    requires d < 16
    ensures IsLowerHexDigit(c) && HexValue(c) == d
  {
    if d < 10 then ('0' as int + d) as char else ('a' as int + d - 10) as char
  }

  function Pow(b: nat, k: nat): nat {
    if k == 0 then 1 else Pow(b, k - 1) * b
  }

  /** Every character is a hex digit whose value is below `radix`. */
  predicate AllDigitsBelow(s: string, radix: nat) {
    forall i :: 0 <= i < |s| ==> IsHexDigit(s[i]) && HexValue(s[i]) < radix
  }

  /**
    `n.toString(radix)` for a non-negative integer: the shortest digit string,
    so "0" for zero and no leading zero otherwise.
  */
  function ToRadix(n: nat, radix: nat): (s: string)
    requires 2 <= radix <= 16
    ensures |s| >= 1 && AllDigitsBelow(s, radix)
    ensures forall i :: 0 <= i < |s| ==> IsLowerHexDigit(s[i])
    ensures |s| > 1 ==> s[0] != '0'
    decreases n
  {
    if n < radix then [DigitChar(n)]
    else
      DivModBounds(n, radix);
      ToRadix(n / radix, radix) + [DigitChar(n % radix)]
  }

  lemma DivModBounds(n: nat, b: nat)
    requires 2 <= b <= n
    ensures 1 <= n / b < n && n % b < b && n == n / b * b + n % b
  {
  }

  /** The value of a digit string read in base `radix`, most significant digit first. */
  function ParseRadix(s: string, radix: nat): nat
    requires forall i :: 0 <= i < |s| ==> IsHexDigit(s[i])
  {
    if s == [] then 0
    else ParseRadix(s[..|s| - 1], radix) * radix + HexValue(s[|s| - 1])
  }

  /** `k` digits below `radix` are worth less than `radix^k`. */
  lemma {:induction false} ParseRadixBound(s: string, radix: nat)
    requires AllDigitsBelow(s, radix)
    ensures ParseRadix(s, radix) < Pow(radix, |s|)
    decreases |s|
  {
    if s != [] {
      var front := s[..|s| - 1];
      assert AllDigitsBelow(front, radix);
      ParseRadixBound(front, radix);
      MulLess(ParseRadix(front, radix), Pow(radix, |front|), radix, HexValue(s[|s| - 1]));
    }
  }

  lemma MulLess(a: nat, p: nat, b: nat, d: nat)
    requires a < p && d < b
    ensures a * b + d < p * b
  {
    assert a * b <= (p - 1) * b;
  }

  /** Writing a number and reading it back gives the number. */
  lemma {:induction false} RadixRoundTrip(n: nat, radix: nat)
    requires 2 <= radix <= 16
    ensures ParseRadix(ToRadix(n, radix), radix) == n
    decreases n
  {
    var s := ToRadix(n, radix);
    if n < radix {
      assert s[..|s| - 1] == [];
    } else {
      DivModBounds(n, radix);
      RadixRoundTrip(n / radix, radix);
      assert s[..|s| - 1] == ToRadix(n / radix, radix);
      assert HexValue(s[|s| - 1]) == n % radix;
    }
  }

  /** Zeros put in front of a digit string do not change its value. */
  lemma {:induction false} LeadingZeros(k: nat, s: string, radix: nat)
    requires forall i :: 0 <= i < |s| ==> IsHexDigit(s[i])
    ensures ParseRadix(seq(k, _ => '0') + s, radix) == ParseRadix(s, radix)
    decreases |s|
  {
    var z: string := seq(k, _ => '0');
    if s == [] {
      assert z + s == z;
      AllZeros(k, radix);
    } else {
      var t := z + s;
      assert t[..|t| - 1] == z + s[..|s| - 1];
      assert t[|t| - 1] == s[|s| - 1];
      LeadingZeros(k, s[..|s| - 1], radix);
    }
  }

  lemma {:induction false} AllZeros(k: nat, radix: nat)
    ensures ParseRadix(seq(k, _ => '0'), radix) == 0
  {
    if k > 0 {
      var z: string := seq(k, _ => '0');
      assert z[..k - 1] == seq(k - 1, _ => '0');
      AllZeros(k - 1, radix);
    }
  }

  /** The number of digits of `n` in base `radix`. */
  function Width(n: nat, radix: nat): nat
    requires 2 <= radix
    decreases n
  {
    if n < radix then 1 else DivModBounds(n, radix); 1 + Width(n / radix, radix)
  }

  lemma {:induction false} ToRadixWidth(n: nat, radix: nat)
    requires 2 <= radix <= 16
    ensures |ToRadix(n, radix)| == Width(n, radix)
    decreases n
  {
    if n >= radix {
      DivModBounds(n, radix);
      ToRadixWidth(n / radix, radix);
    }
  }

  /** A number below `radix^k` needs at most `k` digits (for `k >= 1`). */
  lemma {:induction false} RadixLengthBound(n: nat, radix: nat, k: nat)
    requires 2 <= radix <= 16 && k >= 1 && n < Pow(radix, k)
    ensures |ToRadix(n, radix)| <= k
  {
    ToRadixWidth(n, radix);
    WidthBound(n, radix, k);
  }

  lemma {:induction false} WidthBound(n: nat, radix: nat, k: nat)
    requires 2 <= radix && k >= 1 && n < Pow(radix, k)
    ensures Width(n, radix) <= k
    decreases n
  {
    assert Pow(radix, 1) == radix;
    if n >= radix {
      var p := Pow(radix, k - 1);
      DivLess(n, radix, p);
      DivModBounds(n, radix);
      WidthBound(n / radix, radix, k - 1);
    }
  }

  lemma DivLess(n: nat, b: nat, p: nat)
    requires b >= 1 && n < p * b
    ensures n / b < p
  {
    if n / b >= p {
      MulLeMono(p, n / b, b);
    }
  }

  lemma MulLeMono(x: nat, y: nat, b: nat)
    requires x <= y
    ensures x * b <= y * b
  {
  }

  lemma DivMono(n: nat, m: nat, b: nat)
    requires b >= 1 && n <= m
    ensures n / b <= m / b
  {
    if n / b > m / b {
      MulLeMono(m / b + 1, n / b, b);
    }
  }

  /** A larger number never has fewer digits. */
  lemma RadixLengthMonotone(n: nat, m: nat, radix: nat)
    requires 2 <= radix <= 16 && n <= m
    ensures |ToRadix(n, radix)| <= |ToRadix(m, radix)|
  {
    ToRadixWidth(n, radix);
    ToRadixWidth(m, radix);
    WidthMonotone(n, m, radix);
  }

  lemma {:induction false} WidthMonotone(n: nat, m: nat, radix: nat)
    requires 2 <= radix && n <= m
    ensures Width(n, radix) <= Width(m, radix)
    decreases m
  {
    if n >= radix {
      DivMono(n, m, radix);
      DivModBounds(n, radix);
      DivModBounds(m, radix);
      WidthMonotone(n / radix, m / radix, radix);
    }
  }

  /**
    Two digit strings of the same length and base have the same value
    exactly when they agree digit by digit (by value, so regardless of case).
  */
  lemma {:induction false} SameValueIffSameDigits(a: string, b: string, radix: nat)
    requires |a| == |b| && radix >= 1
    requires AllDigitsBelow(a, radix) && AllDigitsBelow(b, radix)
    ensures ParseRadix(a, radix) == ParseRadix(b, radix) <==>
            forall i :: 0 <= i < |a| ==> HexValue(a[i]) == HexValue(b[i])
    decreases |a|
  {
    if a != [] {
      var n := |a| - 1;
      var a', b' := a[..n], b[..n];
      assert AllDigitsBelow(a', radix) && AllDigitsBelow(b', radix);
      SameValueIffSameDigits(a', b', radix);
      var da, db := HexValue(a[n]), HexValue(b[n]);
      var pa, pb := ParseRadix(a', radix), ParseRadix(b', radix);
      if ParseRadix(a, radix) == ParseRadix(b, radix) {
        UniqueDivMod(pa, da, pb, db, radix);
        forall i | 0 <= i < |a| ensures HexValue(a[i]) == HexValue(b[i]) {
          if i < n { assert a[i] == a'[i] && b[i] == b'[i]; }
        }
      } else {
        assert pa != pb || da != db;
        if pa != pb {
          var j :| 0 <= j < n && HexValue(a'[j]) != HexValue(b'[j]);
          assert a'[j] == a[j] && b'[j] == b[j];
        }
      }
    }
  }

  lemma UniqueDivMod(p: nat, d: nat, q: nat, e: nat, b: nat)
    requires d < b && e < b && p * b + d == q * b + e
    ensures p == q && d == e
  {
    if p < q {
      MulLess(p, q, b, d);
      assert false;
    } else if q < p {
      MulLess(q, p, b, e);
      assert false;
    }
  }
}
