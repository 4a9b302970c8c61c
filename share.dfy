/**
  The shareable result text built by `generateShareableResult` in
  frontend/src/picker.jsx. The function reads the session's `guesses` and
  `feedback` from its closure and appends each ARGUMENT ARRAY as one more
  element, so the arguments only ever add one (empty) line.
*/
module Share {
  import opened Digits
  import opened Guess

  /** `emojiMap[label]`: each emoji is a single character. */
  function EmojiChar(l: Label): char {
    match l
    case Green => '🟩'
    case Yellow => '🟨'
    case Grey => '⬜'
  }

  /** `row.map((color) => emojiMap[color]).join("")` for a row of labels. */
  function RowEmojis(row: seq<Label>): (s: string)
    ensures |s| == |row|
    ensures forall j :: 0 <= j < |row| ==> s[j] == EmojiChar(row[j])
  {
    if row == [] then ""
    else RowEmojis(row[..|row| - 1]) + [EmojiChar(row[|row| - 1])]
  }

  /**
    `emojiMap[x]` where `x` is a whole row rather than a label: the property
    key is the row's string form, its labels joined by commas, which names an
    entry only when the row holds exactly one label. A missing entry is
    `undefined`, and `join` writes `undefined` as "".
  */
  function LookupRow(row: seq<Label>): (r: string)
    ensures |row| == 1 ==> r == RowEmojis(row)
    ensures |row| != 1 ==> r == ""
  {
    if |row| == 1 then [EmojiChar(row[0])] else ""
  }

  /**
    The line produced for the argument array `rows` (an array of rows): at
    most one emoji per row.
  */
  function ArgumentLine(rows: seq<seq<Label>>): (r: string)
    ensures |r| <= |rows|
  {
    if rows == [] then ""
    else ArgumentLine(rows[..|rows| - 1]) + LookupRow(rows[|rows| - 1])
  }

  /** One emoji line, ended by a newline, per feedback row. */
  function FeedbackLines(rows: seq<seq<Label>>): string {
    if rows == [] then ""
    else FeedbackLines(rows[..|rows| - 1]) + RowEmojis(rows[|rows| - 1]) + "\n"
  }

  /** `Color Guessing Game ${count}/${AllowedGuesses}` and a blank line. */
  function Header(count: nat): string {
    "Color Guessing Game " + ToRadix(count, 10) + "/" + ToRadix(AllowedGuesses, 10) + "\n\n"
  }

  /**
    The header is the title, the count in decimal, `/5` and a blank line:
    the digits between the title and `/5` read back as `count`.
  */
  lemma HeaderShowsCount(count: nat)
    ensures var h := Header(count);
            && |h| >= 25 && h[..20] == "Color Guessing Game " && h[|h| - 4..] == "/5\n\n"
            && AllDigitsBelow(h[20..|h| - 4], 10) && ParseRadix(h[20..|h| - 4], 10) == count
  {
    var digits := ToRadix(count, 10);
    RadixRoundTrip(count, 10);
    var h := Header(count);
    assert h[20..|h| - 4] == digits;
  }

  const Footer: string := "\nPlay at: https://colordle.stefanhts.dev"

  /**
    The text `generateShareableResult(latestGuess, latestFeedback)` returns
    when the closure holds `guesses` and `feedback`. `allGuesses` has
    `|guesses| + 1` elements, and the header shows one less.
  */
  function ShareText(guesses: seq<string>, feedback: seq<seq<Label>>,
                     latestGuess: seq<string>, latestFeedback: seq<seq<Label>>): string
  {
    var allGuessesLength := |guesses| + 1;
    Header(allGuessesLength - 1) + FeedbackLines(feedback) + ArgumentLine(latestFeedback) + "\n" + Footer
  }

  /**
    `generateShareableResult`: the header, then one line per element of
    `allFeedback` (the closure's rows, then the argument array), then the footer.
  */
  method GenerateShareableResult(guesses: seq<string>, feedback: seq<seq<Label>>,
                                 latestGuess: seq<string>, latestFeedback: seq<seq<Label>>)
    returns (result: string)
    ensures result == ShareText(guesses, feedback, latestGuess, latestFeedback)
  {
    var allGuessesLength := |guesses| + 1;
    result := Header(allGuessesLength - 1);
    var i := 0;
    while i < |feedback| + 1
      invariant 0 <= i <= |feedback| + 1
      invariant i <= |feedback| ==> result == Header(|guesses|) + FeedbackLines(feedback[..i])
      invariant i == |feedback| + 1 ==>
                  result == Header(|guesses|) + FeedbackLines(feedback) + ArgumentLine(latestFeedback) + "\n"
    {
      if i < |feedback| {
        assert feedback[..i + 1][..i] == feedback[..i];
        assert FeedbackLines(feedback[..i + 1]) == FeedbackLines(feedback[..i]) + RowEmojis(feedback[i]) + "\n";
        result := result + RowEmojis(feedback[i]) + "\n";
      } else {
        assert feedback[..i] == feedback;
        result := result + ArgumentLine(latestFeedback) + "\n";
      }
      i := i + 1;
    }
    result := result + Footer;
  }

  /** Rows that are not single labels name no `emojiMap` entry, so they add nothing. */
  lemma {:induction false} ArgumentLineEmpty(rows: seq<seq<Label>>)
    requires forall k :: 0 <= k < |rows| ==> |rows[k]| != 1
    ensures ArgumentLine(rows) == ""
    decreases |rows|
  {
    if rows != [] {
      ArgumentLineEmpty(rows[..|rows| - 1]);
    }
  }

  /**
    The emoji lines of six-label rows: line `i` occupies characters
    `7*i .. 7*i+7` and is row `i` in emojis followed by a newline.
  */
  lemma {:induction false} FeedbackLinesLayout(rows: seq<seq<Label>>)
    requires forall k :: 0 <= k < |rows| ==> |rows[k]| == 6
    ensures |FeedbackLines(rows)| == 7 * |rows|
    ensures forall i :: 0 <= i < |rows| ==>
              FeedbackLines(rows)[7 * i .. 7 * i + 7] == RowEmojis(rows[i]) + "\n"
    decreases |rows|
  {
    if rows != [] {
      var n := |rows| - 1;
      var front := rows[..n];
      FeedbackLinesLayout(front);
      var text := FeedbackLines(rows);
      assert text == FeedbackLines(front) + (RowEmojis(rows[n]) + "\n");
      forall i | 0 <= i < |rows|
        ensures text[7 * i .. 7 * i + 7] == RowEmojis(rows[i]) + "\n"
      {
        if i < n {
          assert rows[i] == front[i];
          assert text[7 * i .. 7 * i + 7] == FeedbackLines(front)[7 * i .. 7 * i + 7];
        }
      }
    }
  }

  /**
    For any closure and any arguments, the text starts with the header that
    counts the closure's guesses and ends with a newline and the footer.
  */
  lemma ShareTextFrame(guesses: seq<string>, feedback: seq<seq<Label>>,
                       latestGuess: seq<string>, latestFeedback: seq<seq<Label>>)
    ensures Header(|guesses|) <= ShareText(guesses, feedback, latestGuess, latestFeedback)
    ensures var t := ShareText(guesses, feedback, latestGuess, latestFeedback);
            |t| > |Footer| && t[|t| - |Footer| - 1] == '\n' && t[|t| - |Footer|..] == Footer
  {
    var h := Header(|guesses|);
    var front := h + FeedbackLines(feedback) + ArgumentLine(latestFeedback) + "\n";
    assert ShareText(guesses, feedback, latestGuess, latestFeedback) == front + Footer;
    AppendEnds(h, FeedbackLines(feedback) + ArgumentLine(latestFeedback) + "\n" + Footer);
    AppendEnds(front, Footer);
  }

  /** `a + b` starts with `a`, ends with `b`, and `b` follows the last character of `a`. */
  lemma AppendEnds(a: string, b: string)
    ensures a <= a + b && (a + b)[|a|..] == b
    ensures |a| > 0 ==> (a + b)[|a| - 1] == a[|a| - 1]
  {
  }

  /**
    Whatever the arguments (as long as no argument row is a single label),
    the text is the header with the closure's guess count, the closure's
    feedback rows, one empty line, and the footer.
  */
  lemma ShareTextLayout(guesses: seq<string>, feedback: seq<seq<Label>>,
                        latestGuess: seq<string>, latestFeedback: seq<seq<Label>>)
    requires forall k :: 0 <= k < |latestFeedback| ==> |latestFeedback[k]| != 1
    ensures ShareText(guesses, feedback, latestGuess, latestFeedback) ==
            Header(|guesses|) + FeedbackLines(feedback) + "\n" + Footer
  {
    ArgumentLineEmpty(latestFeedback);
    var front := Header(|guesses|) + FeedbackLines(feedback);
    assert front + ArgumentLine(latestFeedback) == front;
  }

  /**
    The two call sites of the source, for a game that has just ended with the
    guess `g` and row `r`: the call made inside the submit handler sees the
    history from before the guess, so it reports one guess fewer and leaves
    out the last row; the call made by the effect afterwards sees the whole
    history. The two texts always differ.
  */
  lemma DirectCallOmitsLastGuess(guesses: seq<string>, feedback: seq<seq<Label>>,
                                 g: string, r: seq<Label>)
    requires forall k :: 0 <= k < |feedback| ==> |feedback[k]| == 6
    requires |r| == 6
    ensures ShareText(guesses, feedback, guesses + [g], feedback + [r]) ==
            Header(|guesses|) + FeedbackLines(feedback) + "\n" + Footer
    ensures ShareText(guesses + [g], feedback + [r], guesses + [g], feedback + [r]) ==
            Header(|guesses| + 1) + FeedbackLines(feedback + [r]) + "\n" + Footer
    ensures ShareText(guesses, feedback, guesses + [g], feedback + [r]) !=
            ShareText(guesses + [g], feedback + [r], guesses + [g], feedback + [r])
  {
    var all := feedback + [r];
    assert forall k :: 0 <= k < |all| ==> |all[k]| == 6;
    ShareTextLayout(guesses, feedback, guesses + [g], all);
    ShareTextLayout(guesses + [g], all, guesses + [g], all);
    FeedbackLinesLayout(feedback);
    FeedbackLinesLayout(all);
    RadixLengthMonotone(|guesses|, |guesses| + 1, 10);
  }
}
