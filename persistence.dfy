/**
  Saving and restoring a session (frontend/src/picker.jsx, `loadGameState`,
  `saveGameState` and `startNewGame`). The stored value is a record or
  nothing; the date and the next reset time are values passed in.
*/
module Persistence {
  import opened Optional
  import opened Guess

  /** The six session fields that are saved and restored. */
  datatype GameRecord = GameRecord(
    color: string,
    guesses: seq<string>,
    feedback: seq<seq<Label>>,
    gameOver: bool,
    shareableResult: string,
    nextGameTime: Option<int>)

  /** The stored snapshot: the date of the save and the six fields. */
  datatype SavedState = SavedState(
    date: string,
    color: string,
    guesses: seq<string>,
    feedback: seq<seq<Label>>,
    gameOver: bool,
    shareableResult: string,
    nextGameTime: Option<int>)

  /**
    The history invariant a session keeps: one feedback row of six labels per
    guess, at most `AllowedGuesses` guesses, and fewer while the game is on.
  */
  predicate Consistent(r: GameRecord) {
    && |r.guesses| == |r.feedback|
    && |r.guesses| <= AllowedGuesses
    && (!r.gameOver ==> |r.guesses| < AllowedGuesses)
    && forall k :: 0 <= k < |r.feedback| ==> |r.feedback[k]| == 6
  }

  /**
    Recording one more guess and its six-label row keeps the invariant, as
    long as the game is over once the budget is used up.
  */
  lemma AppendKeepsConsistency(r: GameRecord, g: string, row: seq<Label>, next: GameRecord)
    requires Consistent(r) && !r.gameOver && |row| == 6
    requires next.guesses == r.guesses + [g] && next.feedback == r.feedback + [row]
    requires |next.guesses| == AllowedGuesses ==> next.gameOver
    ensures Consistent(next)
  {
    forall k | 0 <= k < |next.feedback|
      ensures |next.feedback[k]| == 6
    {
      if k < |r.feedback| {
        assert next.feedback[k] == r.feedback[k];
      }
    }
  }

  /** `saveGameState`: today's date and the six fields. */
  function SaveGameState(r: GameRecord, today: string): (s: SavedState)
    ensures s.date == today
  {
    SavedState(today, r.color, r.guesses, r.feedback, r.gameOver, r.shareableResult, r.nextGameTime)
  }

  /**
    `startNewGame` on a freshly mounted session: today's colour, the next
    reset time, and the initial empty history.
  */
  function StartNewGame(dailyColor: string, nextGameTime: int): (r: GameRecord)
    ensures Consistent(r) && !r.gameOver
    ensures r.color == dailyColor && r.nextGameTime == Some(nextGameTime)
    ensures r.guesses == [] && r.feedback == [] && r.shareableResult == ""
  {
    GameRecord(dailyColor, [], [], false, "", Some(nextGameTime))
  }

  /**
    `loadGameState`: a snapshot saved today is restored field by field (so
    saving the result again gives the same snapshot); anything else starts a
    fresh game with an empty history.
  */
  function LoadGameState(saved: Option<SavedState>, today: string,
                         dailyColor: string, nextGameTime: int): (r: GameRecord)
    ensures saved.Some? && saved.value.date == today ==> SaveGameState(r, today) == saved.value
    ensures !(saved.Some? && saved.value.date == today) ==>
              && r.color == dailyColor && r.nextGameTime == Some(nextGameTime)
              && r.guesses == [] && r.feedback == [] && !r.gameOver && r.shareableResult == ""
  {
    if saved.Some? && saved.value.date == today then
      var s := saved.value;
      GameRecord(s.color, s.guesses, s.feedback, s.gameOver, s.shareableResult, s.nextGameTime)
    else
      StartNewGame(dailyColor, nextGameTime)
  }

  /** Saving and then loading on the same date gives back every field. */
  lemma SaveThenLoadSameDay(r: GameRecord, today: string, dailyColor: string, nextGameTime: int)
    ensures LoadGameState(Some(SaveGameState(r, today)), today, dailyColor, nextGameTime) == r
  {
  }

  /** A snapshot from another date is ignored, whatever it holds. */
  lemma LoadOtherDayIgnoresSnapshot(s: SavedState, today: string, dailyColor: string, nextGameTime: int)
    requires s.date != today
    ensures LoadGameState(Some(s), today, dailyColor, nextGameTime) ==
            LoadGameState(None, today, dailyColor, nextGameTime)
  {
  }

  /** A session saved in a consistent state is consistent after loading. */
  lemma LoadKeepsConsistency(r: GameRecord, saveDate: string, today: string,
                             dailyColor: string, nextGameTime: int)
    requires Consistent(r)
    ensures Consistent(LoadGameState(Some(SaveGameState(r, saveDate)), today, dailyColor, nextGameTime))
  {
  }
}
