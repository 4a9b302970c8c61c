/**
  The game session of frontend/src/picker.jsx: the component's state as the
  fields of a class, and the handlers that update them. React's state
  updates are applied in place; the submit handler's reads of `guesses` and
  `feedback` see the values from before its own updates, as the closure does.
*/
module Game {
  import opened Optional
  import opened Digits
  import opened Guess
  import opened Share
  import opened Persistence

  const WinMessage: string := "Congratulations! You guessed the color!"
  const InvalidMessage: string := "Please enter a valid hex color code (e.g., RRGGBB)"

  function LossMessage(color: string): string {
    "Game over! The color was " + color
  }

  /** `s.slice(1)`: everything after the first character, "" for "". */
  function SliceFromOne(s: string): (r: string)
    ensures |r| == if |s| == 0 then 0 else |s| - 1
    ensures forall i :: 0 <= i < |r| ==> r[i] == s[i + 1]
  {
    if |s| == 0 then "" else s[1..]
  }

  /**
    The win check `guess === color.slice(1)`: exact, hence case-sensitive.
    For a colour `#RRGGBB` it holds exactly when `'#' + guess` spells it.
  */
  predicate IsWin(guess: string, color: string)
    ensures IsColor(color) ==>
              (IsWin(guess, color) <==> |guess| == 6 && forall i :: 0 <= i < 6 ==> guess[i] == color[i + 1])
  {
    guess == SliceFromOne(color)
  }

  class Session {
    /** `COLOR`: today's entry of the colour table, the colour `getDistance` compares with. */
    const dailyColor: string
    /** The session's colour, restored from storage; the win check compares with it. */
    var color: string
    /** The text in the input box. */
    var guess: string
    var guesses: seq<string>
    var feedback: seq<seq<Label>>
    var message: string
    var gameOver: bool
    var shareableResult: string
    var nextGameTime: Option<int>

    /** The fields that are saved and restored. */
    function Record(): GameRecord
      reads this
    {
      GameRecord(color, guesses, feedback, gameOver, shareableResult, nextGameTime)
    }

    /** The history invariant of the session. */
    ghost predicate Valid()
      reads this
    {
      Persistence.Consistent(Record())
    }

    /**
      Mounting the component: the initial state, then `loadGameState` with the
      stored snapshot (if any), today's date and the next reset time.
    */
    constructor (dailyColor: string, saved: Option<SavedState>, today: string, nextReset: int)
      requires IsColor(dailyColor)
      ensures this.dailyColor == dailyColor
      ensures Record() == LoadGameState(saved, today, dailyColor, nextReset)
      ensures guess == "" && message == ""
      ensures saved.None? || saved.value.date != today ==> Valid() && !gameOver
    {
      this.dailyColor := dailyColor;
      var r := LoadGameState(saved, today, dailyColor, nextReset);
      color, guesses, feedback := r.color, r.guesses, r.feedback;
      gameOver, shareableResult, nextGameTime := r.gameOver, r.shareableResult, r.nextGameTime;
      guess, message := "", "";
    }

    /** The input's `onChange`: the box now holds `value`. */
    method SetGuess(value: string)
      modifies this`guess
      ensures guess == value
    {
      guess := value;
    }

    /**
      `handleSubmit`. The form is only shown while the game is not over. An
      input that does not match the pattern only sets a message. A valid one
      is recorded with its feedback row; an exact match with the colour after
      its `#` wins (checked first), and otherwise the fifth guess loses. On
      either ending the share text is built from the history as it was
      before this guess.
    */
    method Submit()
      requires !gameOver && IsColor(dailyColor)
      modifies this`guess, this`guesses, this`feedback, this`message, this`gameOver, this`shareableResult
      ensures color == old(color) && nextGameTime == old(nextGameTime)
      ensures !IsHexCode(old(guess)) ==>
                && message == InvalidMessage && guess == old(guess)
                && guesses == old(guesses) && feedback == old(feedback)
                && !gameOver && shareableResult == old(shareableResult)
      ensures IsHexCode(old(guess)) ==>
                && guesses == old(guesses) + [old(guess)]
                && feedback == old(feedback) + [FeedbackRow(old(guess), dailyColor)]
                && guess == ""
      ensures IsHexCode(old(guess)) ==>
                (gameOver <==> IsWin(old(guess), color) || |old(guesses)| >= AllowedGuesses - 1)
      ensures IsHexCode(old(guess)) && IsWin(old(guess), color) ==> message == WinMessage
      ensures IsHexCode(old(guess)) && IsWin(old(guess), color) && color == dailyColor ==>
                feedback[|feedback| - 1] == [Green, Green, Green, Green, Green, Green]
      ensures IsHexCode(old(guess)) && !IsWin(old(guess), color) && gameOver ==>
                message == LossMessage(color)
      ensures IsHexCode(old(guess)) && gameOver ==>
                shareableResult == ShareText(old(guesses), old(feedback), guesses, feedback)
      ensures IsHexCode(old(guess)) && !gameOver ==>
                message == old(message) && shareableResult == old(shareableResult)
      ensures old(Valid()) ==> Valid()
    {
      if IsHexCode(guess) {
        AcceptGuess();
      } else {
        message := InvalidMessage;
      }
    }

    /** The branch of `handleSubmit` for an input that matches the pattern. */
    method AcceptGuess()
      requires IsHexCode(guess) && !gameOver && IsColor(dailyColor)
      modifies this`guess, this`guesses, this`feedback, this`message, this`gameOver, this`shareableResult
      ensures guesses == old(guesses) + [old(guess)]
      ensures feedback == old(feedback) + [FeedbackRow(old(guess), dailyColor)]
      ensures guess == ""
      ensures gameOver <==> IsWin(old(guess), color) || |old(guesses)| >= AllowedGuesses - 1
      ensures IsWin(old(guess), color) ==> message == WinMessage
      ensures IsWin(old(guess), color) && color == dailyColor ==>
                feedback[|feedback| - 1] == [Green, Green, Green, Green, Green, Green]
      ensures !IsWin(old(guess), color) && gameOver ==> message == LossMessage(color)
      ensures gameOver ==> shareableResult == ShareText(old(guesses), old(feedback), guesses, feedback)
      ensures !gameOver ==> message == old(message) && shareableResult == old(shareableResult)
      ensures old(Valid()) ==> Valid()
    {
      ghost var before, wasValid := Record(), Valid();
      var g, previousGuesses, previousFeedback := guess, guesses, feedback;
      var newFeedback := RecordGuess();
      Conclude(g, previousGuesses, previousFeedback);
      if IsWin(g, color) && color == dailyColor {
        WinIsAllGreen(g, color);
      }
      if wasValid {
        AppendKeepsConsistency(before, g, newFeedback, Record());
      }
    }

    /** Records the typed guess and its feedback row, and clears the box. */
    method RecordGuess() returns (newFeedback: seq<Label>)
      requires IsHexCode(guess) && IsColor(dailyColor)
      modifies this`guess, this`guesses, this`feedback
      ensures newFeedback == FeedbackRow(old(guess), dailyColor) && |newFeedback| == 6
      ensures guesses == old(guesses) + [old(guess)]
      ensures feedback == old(feedback) + [newFeedback]
      ensures guess == ""
    {
      newFeedback := CalculateFeedback(guess, dailyColor);
      guesses := guesses + [guess];
      feedback := feedback + [newFeedback];
      guess := "";
    }

    /**
      After the guess `g` was recorded on top of `previousGuesses` and
      `previousFeedback`: an exact match wins, otherwise the fifth guess
      loses; either ending builds the share text from the earlier history.
    */
    method Conclude(g: string, previousGuesses: seq<string>, previousFeedback: seq<seq<Label>>)
      modifies this`message, this`gameOver, this`shareableResult
      ensures gameOver <==> old(gameOver) || IsWin(g, color) || |previousGuesses| >= AllowedGuesses - 1
      ensures IsWin(g, color) ==> message == WinMessage
      ensures !IsWin(g, color) && |previousGuesses| >= AllowedGuesses - 1 ==> message == LossMessage(color)
      ensures IsWin(g, color) || |previousGuesses| >= AllowedGuesses - 1 ==>
                shareableResult == ShareText(previousGuesses, previousFeedback, guesses, feedback)
      ensures !IsWin(g, color) && |previousGuesses| < AllowedGuesses - 1 ==>
                message == old(message) && shareableResult == old(shareableResult)
    {
      var won := g == SliceFromOne(color);
      if won || |previousGuesses| >= AllowedGuesses - 1 {
        message := if won then WinMessage else LossMessage(color);
        gameOver := true;
        shareableResult := GenerateShareableResult(previousGuesses, previousFeedback, guesses, feedback);
      }
    }

    /**
      The effect that runs after the history or `gameOver` changed: once the
      game is over (or the box holds the answer) the share text is rebuilt
      from the whole history.
    */
    method RefreshShare()
      modifies this`shareableResult
      ensures shareableResult ==
                if |guesses| > 0 && (gameOver || IsWin(guess, color))
                then ShareText(guesses, feedback, guesses, feedback)
                else old(shareableResult)
    {
      if |guesses| > 0 && (gameOver || guess == SliceFromOne(color)) {
        var result := GenerateShareableResult(guesses, feedback, guesses, feedback);
        shareableResult := result;
      }
    }
  }

  /**
    The win check is case-sensitive while the feedback is not: a guess can
    earn six green labels and still not win.
  */
  lemma AllGreenIsNotAlwaysAWin()
    ensures IsColor("#abcdef") && IsHexCode("ABCDEF")
    ensures FeedbackRow("ABCDEF", "#abcdef") == [Green, Green, Green, Green, Green, Green]
    ensures !IsWin("ABCDEF", "#abcdef")
  {
  }

  /**
    A guess that wins against a colour earns six green labels against that
    same colour. A session compares the win with `color` but the feedback
    with `dailyColor`, so this holds for the session only when the two agree
    (`Session.Submit`, `ExampleRestoredColorWin`).
  */
  lemma WinIsAllGreen(guess: string, color: string)
    requires IsColor(color) && IsWin(guess, color)
    ensures IsHexCode(guess)
    ensures forall i :: 0 <= i < 6 ==> FeedbackRow(guess, color)[i] == Green
  {
  }

  /** Four valid misses against `#3498db`, from a fresh session. */
  method PlayFourMisses() returns (s: Session)
    ensures fresh(s) && s.dailyColor == "#3498db" && s.color == "#3498db"
    ensures |s.guesses| == 4 && !s.gameOver && s.Valid()
  {
    s := new Session("#3498db", None, "Thu Oct 15 2026", 0);
    var k := 0;
    while k < 4
      invariant 0 <= k <= 4
      invariant s.dailyColor == "#3498db" && s.color == "#3498db"
      invariant |s.guesses| == k && !s.gameOver && s.Valid()
    {
      s.SetGuess("000000");
      s.Submit();
      k := k + 1;
    }
  }

  /**
    A fifth valid miss loses, with five rows recorded; the submit handler's
    share text covers only the four earlier guesses.
  */
  method ExampleLoss() returns (s: Session, ghost before: seq<string>, ghost rows: seq<seq<Label>>)
    ensures fresh(s) && s.gameOver && s.message == LossMessage("#3498db")
    ensures s.guesses == before + ["000000"] && s.feedback == rows + [FeedbackRow("000000", "#3498db")]
    ensures |s.feedback| == 5 && forall k :: 0 <= k < |rows| ==> |rows[k]| == 6
    ensures s.shareableResult == ShareText(before, rows, s.guesses, s.feedback)
  {
    s := PlayFourMisses();
    s.SetGuess("000000");
    before, rows := s.guesses, s.feedback;
    assert Persistence.Consistent(s.Record());
    assert IsHexCode("000000");
    s.Submit();
  }

  /**
    After the game ends, the share text the effect rebuilds differs from the
    one the submit handler wrote.
  */
  method ExampleShareRebuilt() {
    var s, before, rows := ExampleLoss();
    ghost var direct := s.shareableResult;
    s.RefreshShare();
    DirectCallOmitsLastGuess(before, rows, "000000", FeedbackRow("000000", "#3498db"));
    assert s.shareableResult != direct;
  }

  /** A correct fifth guess, in a session restored from a snapshot, wins. */
  method ExampleLateWin() {
    var s := PlayFourMisses();
    var today := "Thu Oct 15 2026";
    SaveThenLoadSameDay(s.Record(), today, "#3498db", 0);
    var t := new Session("#3498db", Some(SaveGameState(s.Record(), today)), today, 0);
    assert t.Record() == s.Record();
    assert |t.guesses| == 4 && !t.gameOver && t.color == "#3498db";
    t.SetGuess("3498db");
    assert IsHexCode("3498db") && IsWin("3498db", "#3498db");
    t.Submit();
    assert t.gameOver && t.message == WinMessage && |t.guesses| == 5;
  }

  /**
    A snapshot saved today may hold a colour other than today's table entry.
    Its colour decides the win, while the feedback row is computed against
    the table entry, so a winning guess can be recorded with grey labels.
  */
  method ExampleRestoredColorWin() {
    var today := "Thu Oct 15 2026";
    var snapshot := SavedState(today, "#000000", [], [], false, "", Some(0));
    var s := new Session("#3498db", Some(snapshot), today, 0);
    s.SetGuess("000000");
    s.Submit();
    assert s.gameOver && s.message == WinMessage;
    assert s.feedback[0][0] == Grey;
  }
}
