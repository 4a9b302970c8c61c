/**
  `timeUntilNextGame` in frontend/src/picker.jsx: the time left until the
  next reset, in whole hours, minutes and seconds. `getTime` values are
  integers of milliseconds, so JavaScript's `%` and `Math.floor(_ / _)` on a
  positive time are Dafny's `%` and `/`. The current time is a parameter.
*/
module Countdown {
  import opened Optional
  import opened Digits

  const MsPerSecond: nat := 1000
  const MsPerMinute: nat := 1000 * 60
  const MsPerHour: nat := 1000 * 60 * 60
  const MsPerDay: nat := 1000 * 60 * 60 * 24

  const ReadyText: string := "New game available now!"

  datatype Clock = Clock(hours: nat, minutes: nat, seconds: nat)

  /**
    The hours, minutes and seconds shown for `timeLeft` milliseconds: whole
    days are dropped, and what is shown is the rest rounded down to a second.
  */
  function Split(timeLeft: int): (c: Clock)
    requires timeLeft > 0
    ensures c.hours <= 23 && c.minutes <= 59 && c.seconds <= 59
    ensures var shown := c.hours * MsPerHour + c.minutes * MsPerMinute + c.seconds * MsPerSecond;
            shown <= timeLeft % MsPerDay < shown + MsPerSecond
  {
    SplitArithmetic(timeLeft);
    Clock((timeLeft % MsPerDay) / MsPerHour,
          (timeLeft % MsPerHour) / MsPerMinute,
          (timeLeft % MsPerMinute) / MsPerSecond)
  }

  /** Division with remainder has one answer. */
  lemma DivModUnique(x: int, d: int, q: int, r: int)
    requires d > 0 && x == d * q + r && 0 <= r < d
    ensures x / d == q && x % d == r
  {
    var k := q - x / d;
    assert d * k == x % d - r;
  }

  /** The remainders by an hour and a minute survive taking the remainder by a day. */
  lemma SplitArithmetic(x: int)
    requires x > 0
    ensures x % MsPerHour == (x % MsPerDay) % MsPerHour
    ensures x % MsPerMinute == (x % MsPerHour) % MsPerMinute
  {
    var q, r := x / MsPerDay, x % MsPerDay;
    assert x == MsPerHour * (24 * q + r / MsPerHour) + r % MsPerHour;
    DivModUnique(x, MsPerHour, 24 * q + r / MsPerHour, r % MsPerHour);
    var q', r' := x / MsPerHour, x % MsPerHour;
    assert x == MsPerMinute * (60 * q' + r' / MsPerMinute) + r' % MsPerMinute;
    DivModUnique(x, MsPerMinute, 60 * q' + r' / MsPerMinute, r' % MsPerMinute);
  }

  /**
    The countdown line. A missing `nextGameTime` (or 0, which is also falsy)
    shows nothing; a time already reached shows the ready text; otherwise the
    hours, minutes and seconds of `Split` are written in decimal.
  */
  function TimeUntilNextGame(nextGameTime: Option<int>, now: int): (text: string)
    ensures text == "" <==> nextGameTime.None? || nextGameTime.value == 0
    ensures text == ReadyText <==>
              nextGameTime.Some? && nextGameTime.value != 0 && nextGameTime.value - now <= 0
    ensures nextGameTime.Some? && nextGameTime.value != 0 && nextGameTime.value - now > 0 ==>
              var c := Split(nextGameTime.value - now);
              text == "Next game in " + ToRadix(c.hours, 10) + "h " + ToRadix(c.minutes, 10) + "m "
                      + ToRadix(c.seconds, 10) + "s"
  {
    if nextGameTime.None? || nextGameTime.value == 0 then ""
    else
      var timeLeft := nextGameTime.value - now;
      if timeLeft <= 0 then ReadyText
      else
        var c := Split(timeLeft);
        var text := "Next game in " + ToRadix(c.hours, 10) + "h " + ToRadix(c.minutes, 10) + "m "
                    + ToRadix(c.seconds, 10) + "s";
        assert text[2] == 'x' != ReadyText[2];
        text
  }
}
