/**
  The colour string of the calendar generator (frontend/temp.js, line 8):
  `'#' + n.toString(16).padStart(6, '0')` for an integer `n` in
  `0 .. 16777214`, the range of `Math.floor(Math.random() * 16777215)`.
*/
module ColorFormat {
  import opened Digits
  import opened Guess

  /** The largest value `Math.floor(Math.random() * 16777215)` can give, plus one. */
  const ColorRange: nat := 16777215

  /** `s.padStart(width, fill)` for a one-character fill. */
  function PadStart(s: string, width: nat, fill: char): string {
    if |s| >= width then s else seq(width - |s|, _ => fill) + s
  }

  /**
    The padded string is `s` itself when it is long enough, and otherwise
    exactly `width` long: copies of `fill` followed by `s`.
  */
  lemma PadStartShape(s: string, width: nat, fill: char)
    ensures var r := PadStart(s, width, fill);
            && |r| == (if |s| >= width then |s| else width)
            && r[|r| - |s|..] == s
            && forall i :: 0 <= i < |r| - |s| ==> r[i] == fill
  {
  }

  /** The calendar's colour for the integer `n`. */
  function FormatColor(n: int): (c: string)
    requires 0 <= n < ColorRange
    ensures |c| == 7 && c[0] == '#'
    ensures forall i :: 1 <= i < 7 ==> IsLowerHexDigit(c[i])
  {
    assert Pow(16, 6) == 16777216;
    RadixLengthBound(n, 16, 6);
    "#" + PadStart(ToRadix(n, 16), 6, '0')
  }

  /** Every generated colour has the shape the game expects of a daily colour. */
  lemma FormatColorIsGuessable(n: int)
    requires 0 <= n < ColorRange
    ensures IsColor(FormatColor(n)) && IsHexCode(FormatColor(n)[1..])
  {
  }

  /** The digits, padding aside, are `n` in base 16. */
  lemma FormatColorDigits(n: int)
    requires 0 <= n < ColorRange
    ensures var s := ToRadix(n, 16);
            FormatColor(n)[1..] == seq(6 - |s|, _ => '0') + s
  {
  }

  /** Reading the six digits back in base 16 gives `n`. */
  lemma FormatColorRoundTrip(n: int)
    requires 0 <= n < ColorRange
    ensures ParseRadix(FormatColor(n)[1..], 16) == n
  {
    var s := ToRadix(n, 16);
    FormatColorDigits(n);
    LeadingZeros(6 - |s|, s, 16);
    RadixRoundTrip(n, 16);
  }

  /** Different integers give different colours. */
  lemma FormatColorInjective(n: int, m: int)
    requires 0 <= n < ColorRange && 0 <= m < ColorRange
    requires FormatColor(n) == FormatColor(m)
    ensures n == m
  {
    FormatColorRoundTrip(n);
    FormatColorRoundTrip(m);
  }

  /** The first digit is a padding zero exactly when `n` is below `0x100000`. */
  lemma FormatColorPadding(n: int)
    requires 0 <= n < ColorRange
    ensures FormatColor(n)[1] == '0' <==> n < 0x100000
  {
    var s := ToRadix(n, 16);
    var digits := FormatColor(n)[1..];
    FormatColorDigits(n);
    if n < 0x100000 {
      assert Pow(16, 5) == 0x100000;
      RadixLengthBound(n, 16, 5);
    } else if digits[0] == '0' {
      // a leading zero would leave only five digits of value
      assert Pow(16, 5) == 0x100000;
      var rest := digits[1..];
      assert digits == seq(1, _ => '0') + rest;
      assert AllDigitsBelow(rest, 16);
      FormatColorRoundTrip(n);
      LeadingZeros(1, rest, 16);
      ParseRadixBound(rest, 16);
    }
  }

  /** Since `n < 16777215`, the colour is never white. */
  lemma FormatColorNeverWhite(n: int)
    requires 0 <= n < ColorRange
    ensures FormatColor(n) != "#ffffff"
  {
    FormatColorRoundTrip(n);
    WhiteValue();
    assert "#ffffff"[1..] == "ffffff";
  }

  /** The digits `ffffff` are worth 16777215. */
  lemma WhiteValue()
    ensures ParseRadix("ffffff", 16) == 16777215
  {
    var white: string := "ffffff";
    assert ParseRadix("f", 16) == 15 by { assert "f"[..0] == ""; }
    assert ParseRadix("ff", 16) == 255 by { assert "ff"[..1] == "f"; }
    assert ParseRadix("fff", 16) == 4095 by { assert "fff"[..2] == "ff"; }
    assert ParseRadix("ffff", 16) == 65535 by { assert "ffff"[..3] == "fff"; }
    assert ParseRadix("fffff", 16) == 1048575 by { assert "fffff"[..4] == "ffff"; }
    assert white[..5] == "fffff";
  }
}
