# Colordle game logic in Dafny

A model of the game logic of Colordle, a daily hex-colour guessing game, with
proofs about it. Each day has a hidden colour `#RRGGBB`. The player types
six-digit hex guesses. Each guessed digit is compared with the digit in the
same position of the colour and labelled green (same value), yellow (one or
two away) or grey (further). A game ends with an exact match (a win) or after
the fifth guess (a loss). A finished game produces an emoji grid to share.
The session is saved and restored within the same day, and a countdown shows
the time until the next colour.

The model covers the game component in `frontend/src/picker.jsx` and the
colour-formatting expression of the calendar generator in `frontend/temp.js`.

Modules, one per part of the program:

- `Digits`: what the game needs of `parseInt(_, 16)` on one digit and of
  `Number.prototype.toString(radix)`. This includes the base-`radix` value of
  a digit string, the round trip, leading zeros and digit-count bounds.
- `Guess`: the guess pattern `^[A-Fa-f0-9]{6}$`, the shape of a daily colour,
  `getDistance` (a method with a loop) and `calculateFeedback`.
- `Share`: `generateShareableResult`, as a specification function and as a
  method with the source's loop over `allFeedback`.
- `Countdown`: `timeUntilNextGame`, on integer milliseconds, with the current
  time as a parameter.
- `Persistence`: `saveGameState`, `loadGameState` and `startNewGame`, as
  functions over a snapshot record. The stored value is an `Option` of that
  record. The date and the next reset time are values passed in.
- `Game`: the session as a class whose fields are the component's state. Its
  methods are the submit handler, the input's change handler and the effect
  that rebuilds the share text.
- `ColorFormat`: `'#' + n.toString(16).padStart(6, '0')`.

Points where the code behaves differently from what one might expect, all
modelled as written:

- The win check `guess === color.slice(1)` is exact, so it is case-sensitive.
  The feedback is not: `Game.AllGreenIsNotAlwaysAWin` shows the guess `ABCDEF`
  earning six green labels against `#abcdef` without winning.
- The feedback compares with the module constant `COLOR` (today's table
  entry). The win check compares with the session's `color`, which may have
  been restored from storage. The session keeps both, as `dailyColor` and
  `color`. A snapshot saved today whose colour is not today's table entry
  therefore wins on its own colour while the recorded row is computed against
  the table entry: `Game.ExampleRestoredColorWin` wins on `000000` against a
  stored `#000000` and records a grey first label against `#3498db`. Only
  when the two colours agree does a win record six green labels
  (`Game.Session.Submit`).
- `generateShareableResult` reads `guesses` and `feedback` from its closure.
  It appends each argument array as ONE more element. The header therefore
  shows the number of guesses in the closure. The argument adds only an empty
  line, because looking up a whole row in `emojiMap` finds nothing, and `join`
  writes the missing value as "". The call in the submit handler runs before
  the state updates take effect. So it reports one guess fewer than the game
  has and leaves out the last row. The effect that runs afterwards rebuilds
  the text from the whole history (`Share.DirectCallOmitsLastGuess`).
- `!nextGameTime` is true for a missing value and also for `0`. Both give an
  empty countdown.

## Model

| member | source | states |
|---|---|---|
| `Digits.HexValue` | frontend/src/picker.jsx:12 | `parseInt(c, 16)` of a hex digit is below 16; it is below 10 exactly for `0`-`9` |
| `Digits.ToLower` | frontend/src/picker.jsx:15 | lower-casing a hex digit keeps its `parseInt` value, so the digit value ignores case |
| `Digits.DigitChar` | frontend/temp.js:8 | the digit `toString(16)` writes for a value below 16 is lower-case and reads back as that value |
| `Digits.ToRadix` | frontend/temp.js:8 | `n.toString(radix)` is non-empty, lower-case, every digit below the radix, with no leading zero |
| `Digits.ParseRadixBound` | frontend/temp.js:8 | `k` digits below the radix are worth less than `radix^k` |
| `Digits.RadixRoundTrip` | frontend/temp.js:8 | reading `n.toString(radix)` back in that radix gives `n` |
| `Digits.LeadingZeros` | frontend/temp.js:8 | the zeros `padStart` adds do not change the value |
| `Digits.RadixLengthBound` | frontend/temp.js:8 | a number below `radix^k` has at most `k` digits, so padding to 6 never meets a longer string |
| `Digits.RadixLengthMonotone` | frontend/src/picker.jsx:155 | a larger guess count never prints with fewer digits |
| `Digits.SameValueIffSameDigits` | frontend/src/picker.jsx:9-18 | equal-length digit strings have the same value iff they agree digit by digit |
| `Guess.IsHexCode` | frontend/src/picker.jsx:99 | a string matches the pattern iff it has six characters that `parseInt(_, 16)` reads as base-16 digits |
| `Guess.Classify` | frontend/src/picker.jsx:133-140 | green iff the distance is 0, yellow iff it is 1 or 2, grey iff it is more than 2 |
| `Guess.FeedbackRow` | frontend/src/picker.jsx:131-143 | a valid guess gets six labels, one per digit |
| `Guess.GetDistance` | frontend/src/picker.jsx:9-18 | one distance per guessed digit: the absolute difference of its value and the colour digit in that position |
| `Guess.CalculateFeedback` | frontend/src/picker.jsx:131-143 | position i is green iff the digit values are equal, yellow iff they differ by 1 or 2, grey iff by more than 2 |
| `Guess.FeedbackIgnoresCase` | frontend/src/picker.jsx:9-18 | guesses that differ only in letter case get the same feedback |
| `Guess.AllGreenIffSameValue` | frontend/src/picker.jsx:131-143 | six green labels iff the guess and the colour are the same base-16 number |
| `Guess.AllGreenIffEqualIgnoringCase` | frontend/src/picker.jsx:131-143 | six green labels iff the guess spells the colour's digits up to letter case |
| `Guess.ExampleCloseDigits` | frontend/src/picker.jsx:131-143 | colour `#000000`, guess `020202` gives green, yellow, green, yellow, green, yellow |
| `Guess.ExampleFarDigits` | frontend/src/picker.jsx:131-143 | colour `#FFFFFF`, guess `000000` gives six grey labels |
| `Share.RowEmojis` | frontend/src/picker.jsx:146-150 | a feedback row becomes one emoji per label, in order (green 🟩, yellow 🟨, grey ⬜) |
| `Share.LookupRow` | frontend/src/picker.jsx:160 | `emojiMap[row]` for a whole row: the row's emoji when it holds exactly one label, "" otherwise |
| `Share.ArgumentLine` | frontend/src/picker.jsx:159-161 | the argument array adds at most one character per row it holds |
| `Share.HeaderShowsCount` | frontend/src/picker.jsx:155 | the header is `Color Guessing Game `, the count in decimal, `/5` and a blank line; its digits read back as the count |
| `Share.ShareTextFrame` | frontend/src/picker.jsx:145-168 | whatever the closure and the arguments, the text starts with the header counting the closure's guesses and ends with a newline and the `Play at:` footer |
| `Share.GenerateShareableResult` | frontend/src/picker.jsx:145-168 | the loop over `allFeedback` builds exactly the share text: header, closure rows, the argument's line, footer |
| `Share.ArgumentLineEmpty` | frontend/src/picker.jsx:152-161 | the argument array adds an empty line when none of its rows is a single label |
| `Share.FeedbackLinesLayout` | frontend/src/picker.jsx:159-161 | line i of the grid is row i in emojis followed by a newline, at code points 7i to 7i+7 |
| `Share.ShareTextLayout` | frontend/src/picker.jsx:145-168 | the text is the header with the closure's guess count, the closure's rows, one empty line and the `Play at:` footer |
| `Share.DirectCallOmitsLastGuess` | frontend/src/picker.jsx:90-123 | the submit handler's text reports one guess fewer and omits the last row; the effect's text has them; the two always differ |
| `Countdown.Split` | frontend/src/picker.jsx:193-197 | hours at most 23, minutes and seconds at most 59, and together they are the time left modulo a day, rounded down to a second |
| `Countdown.TimeUntilNextGame` | frontend/src/picker.jsx:187-200 | empty iff the reset time is missing or 0; the ready text iff the reset time has passed; otherwise `Next game in {h}h {m}m {s}s` with the hours, minutes and seconds of `Split` in decimal |
| `Persistence.SaveGameState` | frontend/src/picker.jsx:62-76 | the snapshot carries today's date |
| `Persistence.StartNewGame` | frontend/src/picker.jsx:78-81 | a new game has today's colour, the new reset time, no guesses, no rows and an empty share text; it is consistent and not over |
| `Persistence.LoadGameState` | frontend/src/picker.jsx:32-53 | a snapshot of today is restored verbatim (saving it again gives the same snapshot); otherwise today's colour, the new reset time and an empty history |
| `Persistence.SaveThenLoadSameDay` | frontend/src/picker.jsx:39-48 | saving and loading on the same date gives back all six fields |
| `Persistence.LoadOtherDayIgnoresSnapshot` | frontend/src/picker.jsx:39-48 | a snapshot from another date is treated as no snapshot |
| `Persistence.LoadKeepsConsistency` | frontend/src/picker.jsx:39-48 | a session saved consistent loads consistent |
| `Game.Session.constructor` | frontend/src/picker.jsx:21-53 | mounting gives the loaded state, an empty input and no message |
| `Game.Session.SetGuess` | frontend/src/picker.jsx:292 | the input box holds what was typed |
| `Game.Session.Submit` | frontend/src/picker.jsx:97-129 | invalid input only sets the message; a valid guess appends itself and its row; an exact match wins before the budget check; otherwise the fifth guess loses; the share text comes from the history before the guess; a win recorded while `color` is `dailyColor` has six green labels; the history invariant is kept |
| `Game.Session.AcceptGuess` | frontend/src/picker.jsx:99-125 | the branch for a valid input: the guess and its row are appended, the box is cleared, and the game ends on a win or on the fifth guess |
| `Game.Session.RecordGuess` | frontend/src/picker.jsx:100-102 | the new row is the guess's feedback against today's colour; guesses and rows each grow by that one element |
| `Game.Session.Conclude` | frontend/src/picker.jsx:104-124 | an exact match sets the win message, else the fifth guess sets the loss message; either ending sets `gameOver` and the share text from the earlier history; otherwise nothing changes |
| `Game.Session.RefreshShare` | frontend/src/picker.jsx:90-95 | once the game is over the share text is rebuilt from the whole history |
| `Game.AllGreenIsNotAlwaysAWin` | frontend/src/picker.jsx:104 | six green labels do not make a win when the letter case differs |
| `Game.SliceFromOne` | frontend/src/picker.jsx:104 | `slice(1)` drops exactly the first character: one character shorter, the rest in order, "" for "" |
| `Game.IsWin` | frontend/src/picker.jsx:104 | for a colour `#RRGGBB` the check holds iff the guess has six characters equal one by one to the colour's digits, letter case included |
| `Game.WinIsAllGreen` | frontend/src/picker.jsx:104 | a guess that wins against a colour is a valid guess with six green labels against that same colour |
| `ColorFormat.PadStartShape` | frontend/temp.js:8 | `padStart` keeps a long enough string and otherwise gives exactly `width` characters: copies of the fill, then the string |
| `ColorFormat.FormatColor` | frontend/temp.js:8 | `'#'` followed by exactly six lower-case hex digits |
| `ColorFormat.FormatColorIsGuessable` | frontend/temp.js:8 | a generated colour is a valid daily colour and its digits match the guess pattern |
| `ColorFormat.FormatColorDigits` | frontend/temp.js:8 | the digits are `n` in base 16, left-padded with `0` to six |
| `ColorFormat.FormatColorRoundTrip` | frontend/temp.js:8 | reading the six digits in base 16 gives `n` |
| `ColorFormat.FormatColorInjective` | frontend/temp.js:8 | different integers give different colours |
| `ColorFormat.FormatColorPadding` | frontend/temp.js:8 | the first digit is a padding `0` iff `n < 0x100000` |
| `ColorFormat.FormatColorNeverWhite` | frontend/temp.js:8 | since `n < 16777215`, the colour is never `#ffffff` |

The client methods `Game.PlayFourMisses`, `Game.ExampleLoss`,
`Game.ExampleShareRebuilt`, `Game.ExampleLateWin` and
`Game.ExampleRestoredColorWin` use only these contracts. They show that a
fifth miss loses with five rows, and that the share text changes when the
effect runs after it. They also show that a correct fifth guess wins in a
session restored from a snapshot, and that a restored colour other than
today's entry wins with a row that is not all green.

## Left out

- Rendering: the JSX, inline styles, tooltip state and rules text (frontend/src/picker.jsx:176-185, 202-441).
- The clipboard write and its promise (frontend/src/picker.jsx:170-174): an asynchronous browser API.
- `localStorage` and `JSON.parse`/`JSON.stringify`. The stored value is an `Option` of a snapshot record, so a malformed blob is not modelled.
- `Date`, `toISOString`, `toDateString` and `getNextGameTime`. Today's date, the current time and the next reset time are parameters. The difference between the UTC date that picks `COLOR` and the local date of the snapshot is not modelled.
- React scheduling: the `loading` flag, the effect that saves after every change (frontend/src/picker.jsx:55-60) and the order in which effects run. The two share-text call sites are the explicit `Submit` and `RefreshShare` calls. Which version ends up saved is not modelled.
- Game.Session.constructor: requires today's colour-table entry to be `#` and six hex digits. The table `colors.js` is not part of this model. A date missing from it gives `undefined`, and `getDistance` then fails.
- Game.Session.Submit: requires that the game is not over, because the form is hidden then (frontend/src/picker.jsx:284).
- Game.Session.AcceptGuess: requires a guess that matches the pattern and a game that is not over, because it is the branch of `Submit` that handles one.
- Game.Session.RecordGuess: requires a guess that matches the pattern, for the same reason.
- `Math.random`, the loop over dates that fills the calendar, and the `console.log` calls (frontend/temp.js:1-21, apart from line 8). The random integer is the parameter `n` of `ColorFormat.FormatColor`.
- JavaScript numbers are modelled as unbounded integers. `getTime` values are whole milliseconds, so `%` and `Math.floor` on a positive time match Dafny's `%` and `/`.
- The share text is a sequence of Unicode code points. In JavaScript 🟩 and 🟨 are two UTF-16 code units each, so the positions in `Share.FeedbackLinesLayout` are not JavaScript string indices.
- `Digits.ToRadix` covers radixes 2 to 16 only, which is all the program uses (10 and 16).
