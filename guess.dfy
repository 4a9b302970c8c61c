/**
  What a guess is and what it earns: the pattern a submission must match, the
  shape of a daily colour, and the per-digit feedback computed by `getDistance`
  and `calculateFeedback` in frontend/src/picker.jsx.
*/
module Guess {
  import opened Digits

  /** The guess budget, `AllowedGuesses`. */
  const AllowedGuesses: nat := 5

  /** A feedback label; the source uses the strings "green", "yellow" and "grey". */
  datatype Label = Green | Yellow | Grey

  /**
    The guess pattern `^[A-Fa-f0-9]{6}$`: six characters, each of which
    `parseInt(_, 16)` reads as a base-16 digit.
  */
  predicate IsHexCode(s: string)
    ensures IsHexCode(s) <==> |s| == 6 && AllDigitsBelow(s, 16)
  {
    |s| == 6 && forall i :: 0 <= i < 6 ==> IsHexDigit(s[i])
  }

  /** A daily colour as the colour table holds it: `#RRGGBB`. */
  predicate IsColor(c: string) {
    |c| == 7 && c[0] == '#' && IsHexCode(c[1..])
  }

  function Abs(x: int): nat {
    if x < 0 then -x else x
  }

  /** `Math.abs(parseInt(g, 16) - parseInt(t, 16))` */
  function Distance(g: char, t: char): nat
    requires IsHexDigit(g) && IsHexDigit(t)
  {
    Abs(HexValue(g) - HexValue(t))
  }

  /** The label `calculateFeedback` gives one distance. */
  function Classify(dist: nat): (l: Label)
    ensures l == Green <==> dist == 0
    ensures l == Yellow <==> 1 <= dist <= 2
    ensures l == Grey <==> dist > 2
  {
    if dist == 0 then Green
    else if dist <= 2 then Yellow
    else Grey
  }

  /** The feedback row for `guess` against the daily colour `color` (`#` included). */
  function FeedbackRow(guess: string, color: string): (row: seq<Label>)
    requires IsHexCode(guess) && IsColor(color)
    ensures |row| == 6
  {
    seq(6, i requires 0 <= i < 6 => Classify(Distance(guess[i], color[1..][i])))
  }

  /**
    `getDistance`: the distance between each guessed digit and the digit in
    the same position of the colour, pushed one by one.
  */
  method GetDistance(guess: string, color: string) returns (res: seq<nat>)
    requires IsHexCode(guess) && IsColor(color)
    ensures |res| == |guess|
    ensures forall i :: 0 <= i < |res| ==>
              res[i] == Abs(HexValue(guess[i]) - HexValue(color[i + 1]))
  {
    var colorParts := seq(6, i requires 0 <= i < 6 => HexValue(color[1..][i]));
    res := [];
    var index := 0;
    while index < |guess|
      invariant 0 <= index <= |guess|
      invariant |res| == index
      invariant forall i :: 0 <= i < index ==>
                  res[i] == Abs(HexValue(guess[i]) - HexValue(color[i + 1]))
    {
      res := res + [Abs(HexValue(guess[index]) - colorParts[index])];
      index := index + 1;
    }
  }

  /**
    `calculateFeedback`: one label per guessed digit, green for an equal digit
    value, yellow for a value one or two away, grey otherwise.
  */
  method CalculateFeedback(guess: string, color: string) returns (row: seq<Label>)
    requires IsHexCode(guess) && IsColor(color)
    ensures row == FeedbackRow(guess, color)
    ensures |row| == |guess|
    ensures forall i :: 0 <= i < |row| ==>
              var d := Abs(HexValue(guess[i]) - HexValue(color[i + 1]));
              && (row[i] == Green <==> d == 0)
              && (row[i] == Yellow <==> 1 <= d <= 2)
              && (row[i] == Grey <==> d > 2)
  {
    var dist := GetDistance(guess, color);
    row := seq(|dist|, i requires 0 <= i < |dist| => Classify(dist[i]));
  }

  /**
    Digit values are read case-insensitively, so guesses that differ only in
    the case of their letters get the same feedback.
  */
  lemma FeedbackIgnoresCase(guess: string, other: string, color: string)
    requires IsHexCode(guess) && IsHexCode(other) && IsColor(color)
    requires forall i :: 0 <= i < 6 ==> ToLower(guess[i]) == ToLower(other[i])
    ensures FeedbackRow(guess, color) == FeedbackRow(other, color)
  {
  }

  /**
    A row is all green exactly when the guess, read as a base-16 number, is
    the colour's number.
  */
  lemma AllGreenIffSameValue(guess: string, color: string)
    requires IsHexCode(guess) && IsColor(color)
    ensures (forall i :: 0 <= i < 6 ==> FeedbackRow(guess, color)[i] == Green) <==>
            ParseRadix(guess, 16) == ParseRadix(color[1..], 16)
  {
    var target := color[1..];
    SameValueIffSameDigits(guess, target, 16);
    var row := FeedbackRow(guess, color);
    assert forall i :: 0 <= i < 6 ==> (row[i] == Green <==> HexValue(guess[i]) == HexValue(target[i]));
  }

  /**
    A row is all green exactly when the guess spells the colour's digits up
    to the case of the letters.
  */
  lemma AllGreenIffEqualIgnoringCase(guess: string, color: string)
    requires IsHexCode(guess) && IsColor(color)
    ensures (forall i :: 0 <= i < 6 ==> FeedbackRow(guess, color)[i] == Green) <==>
            forall i :: 0 <= i < 6 ==> ToLower(guess[i]) == ToLower(color[i + 1])
  {
    var row := FeedbackRow(guess, color);
    forall i | 0 <= i < 6
      ensures row[i] == Green <==> ToLower(guess[i]) == ToLower(color[i + 1])
    {
      assert color[1..][i] == color[i + 1];
      LowerDigitIsValue(ToLower(guess[i]), ToLower(color[i + 1]));
    }
  }

  /** Lower-case hex digits are equal exactly when their values are. */
  lemma LowerDigitIsValue(a: char, b: char)
    requires IsLowerHexDigit(a) && IsLowerHexDigit(b)
    ensures a == b <==> HexValue(a) == HexValue(b)
  {
  }

  /** Target `#000000`, guess `020202`: differences 0,2,0,2,0,2. */
  lemma ExampleCloseDigits()
    ensures FeedbackRow("020202", "#000000") == [Green, Yellow, Green, Yellow, Green, Yellow]
  {
  }

  /** Target `#FFFFFF`, guess `000000`: every difference is 15. */
  lemma ExampleFarDigits()
    ensures FeedbackRow("000000", "#FFFFFF") == [Grey, Grey, Grey, Grey, Grey, Grey]
  {
  }
}
