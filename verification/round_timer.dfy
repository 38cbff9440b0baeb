/**
  The two timed phases of the game screen, as pure functions of the milliseconds
  elapsed since the phase started: the 3-2-1 countdown, then the round timer that
  counts down the configured number of seconds in tenths.

  Each function gives what one run of the re-posted runnable does at that
  elapsed time; the scheduling itself (a `Handler` re-posting every 1000 ms or
  100 ms) is not modelled.
 */
module RoundTimer {
  import opened JavaNum

  // ---------------------------------------------------------------------------
  // Countdown

  /** One run of the countdown runnable: show a digit, or hand over to the round. */
  datatype CountdownTick = Show(digit: int) | Begin

  /** The countdown at `elapsed` ms: `counter = (int) curTime / 1000` (the cast
      binds first, so the elapsed time is narrowed to an `int` before dividing);
      while `counter < 3` it shows `3 - counter`, afterwards the round begins.
      Within the first three seconds the digit is 3, 2 or 1 and counts the whole
      or partial seconds left; from three seconds on (and before the narrowing
      wraps, about 24.8 days in) the round begins. */
  function CountdownAt(elapsed: nat): (t: CountdownTick)
    ensures elapsed < 3000 ==> t.Show? && 1 <= t.digit <= 3
                               && (t.digit - 1) * 1000 < 3000 - elapsed <= t.digit * 1000
    ensures 3000 <= elapsed <= IntMax ==> t == Begin
  {
    var counter := JavaDiv(ToInt32(elapsed), 1000);
    if counter < 3 then Show(3 - counter) else Begin
  }

  /** The countdown's progress as a number: the digit shown, 0 once it is over. */
  function Remaining(t: CountdownTick): int {
    match t
    case Show(d) => d
    case Begin => 0
  }

  /** Later runs never show a larger digit, so successive runs show 3, 2, 1 in
      that order (each possibly more than once) and then begin the round. */
  lemma CountdownMonotone(e1: nat, e2: nat)
    requires e1 <= e2 <= IntMax
    ensures Remaining(CountdownAt(e1)) >= Remaining(CountdownAt(e2))
  {
    assert e1 / 1000 <= e2 / 1000;
  }

  /** The first run, posted with no delay, shows 3. */
  lemma CountdownStartsAtThree()
    ensures CountdownAt(0) == Show(3)
  {
  }

  /** Once the elapsed time no longer fits an `int`, the narrowed value is
      negative and the runnable would show a digit above 3; the countdown has long
      handed over by then, so this run never happens. */
  lemma CountdownNarrowing()
    ensures CountdownAt(0x8000_0000) == Show(3 + 2147483)
  {
    assert ToInt32(0x8000_0000) == -0x8000_0000;
  }

  // ---------------------------------------------------------------------------
  // Round timer

  /** One run of the timer runnable: the shown seconds and tenths and whether the
      text is red, or the end of the round. */
  datatype TimerTick = Running(seconds: int, tenths: int, red: bool) | Expired

  /** The round length in ms as the timer computes it: `timerLength * 1000` in
      `int` arithmetic, which wraps around. The result is an `int` that differs
      from the exact product by a multiple of 2^32, and is the product itself
      whenever that fits in an `int`. */
  function TotalMillis(timerLength: int): (ms: int)
    ensures IntMin <= ms <= IntMax
    ensures (ms - timerLength * 1000) % 0x1_0000_0000 == 0
    ensures IntMin <= timerLength * 1000 <= IntMax ==> ms == timerLength * 1000
  {
    ToInt32(timerLength * 1000)
  }

  /** The timer at `elapsed` ms. It keeps running while the round length exceeds
      the elapsed time; it then shows the time left, `timerVal`, as
      `timerVal / 1000` seconds and `timerVal % 1000 / 100` tenths, and is red
      when at most three seconds are left. The shown seconds and tenths are
      the time left truncated to a tenth of a second, so the tenths digit is
      always 0..9. */
  function TimerAt(timerLength: int, elapsed: nat): (t: TimerTick)
    ensures t.Running? <==> TotalMillis(timerLength) > elapsed
    ensures t.Running? ==> 0 <= t.seconds && 0 <= t.tenths <= 9
    ensures t.Running? ==> (t.red <==> TotalMillis(timerLength) - elapsed <= 3000)
    ensures t.Running? ==> t.seconds * 1000 + t.tenths * 100 <= TotalMillis(timerLength) - elapsed
                             < t.seconds * 1000 + t.tenths * 100 + 100
  {
    var total := TotalMillis(timerLength);
    if total > elapsed then
      var timerVal := ToInt32(total - elapsed);
      Running(JavaDiv(timerVal, 1000), JavaDiv(JavaRem(timerVal, 1000), 100), timerVal <= 3000)
    else
      Expired
  }

  /** Once expired, the timer stays expired. */
  lemma TimerStaysExpired(timerLength: int, e1: nat, e2: nat)
    requires e1 <= e2
    requires TimerAt(timerLength, e1) == Expired
    ensures TimerAt(timerLength, e2) == Expired
  {
  }

  /** The text turns red for the last three seconds and stays red until the
      round ends. */
  lemma TimerStaysRed(timerLength: int, e1: nat, e2: nat)
    requires 0 <= timerLength <= 2147483
    requires e1 <= e2 < timerLength * 1000
    requires timerLength * 1000 - e1 <= 3000
    ensures TimerAt(timerLength, e1).Running? && TimerAt(timerLength, e1).red
    ensures TimerAt(timerLength, e2).Running? && TimerAt(timerLength, e2).red
  {
  }
}
