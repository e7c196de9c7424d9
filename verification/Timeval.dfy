/** Times, and the difference of two (timeval.c). */
module Timeval {
  datatype Time = Time(sec: int, usec: int)

  predicate Proper(t: Time) {
    0 <= t.usec < 1000000
  }

  function Micros(t: Time): int {
    t.sec * 1000000 + t.usec
  }

  predicate NotAfter(a: Time, b: Time) {
    Micros(a) <= Micros(b)
  }

  lemma NotAfterAgain(a: Time, b: Time, c: Time)
    requires NotAfter(a, b) && NotAfter(b, c)
    ensures NotAfter(a, c)
  {
  }

  /** The readings of a clock that does not go back. */
  ghost predicate Ticking(times: nat -> Time) {
    (forall i: nat :: Proper(times(i))) && (forall i: nat, j: nat :: i <= j ==> NotAfter(times(i), times(j)))
  }

  lemma TicksOn(times: nat -> Time, i: nat, j: nat)
    requires Ticking(times) && i <= j
    ensures Proper(times(i)) && Proper(times(j)) && NotAfter(times(i), times(j))
  {
  }

  const TIMEDIFF_T_MAX := 0x7FFF_FFFF_FFFF_FFFF
  const TIMEDIFF_T_MIN := -0x8000_0000_0000_0000
  // TIMEDIFF_T_MAX / 1000, and TIMEDIFF_T_MIN / 1000 rounded towards zero, but for the sign.
  const MANY_SECONDS := 9223372036854775

  /** Division that rounds towards zero. */
  function Quotient(a: int, b: int): int
    requires b > 0
  {
    if a >= 0 then a / b else -(-a / b)
  }

  /** `Curl_timediff`: milliseconds from `older` to `newer`. The seconds and the rest are taken apart, and
      the rest is rounded towards zero. */
  function Timediff(newer: Time, older: Time): int {
    var diff := newer.sec - older.sec;
    if diff >= MANY_SECONDS then TIMEDIFF_T_MAX
    else if diff <= -MANY_SECONDS then TIMEDIFF_T_MIN
    else diff * 1000 + Quotient(newer.usec - older.usec, 1000)
  }

  /** The difference is off by less than a millisecond, either way. */
  lemma TimediffError(newer: Time, older: Time)
    requires Proper(newer) && Proper(older) && -MANY_SECONDS < newer.sec - older.sec < MANY_SECONDS
    ensures -1000 < Micros(newer) - Micros(older) - 1000 * Timediff(newer, older) < 1000
  {
    var du := newer.usec - older.usec;
    assert -1000 < du - 1000 * Quotient(du, 1000) < 1000;
  }

  lemma TimediffBounds(newer: Time, older: Time)
    requires Proper(newer) && Proper(older)
    ensures newer.sec - older.sec < MANY_SECONDS ==> Timediff(newer, older) < TIMEDIFF_T_MAX
    ensures newer.sec - older.sec > -MANY_SECONDS ==> Timediff(newer, older) > TIMEDIFF_T_MIN
  {
    var du := newer.usec - older.usec;
    assert -1000 < Quotient(du, 1000) < 1000;
  }

  /** What was used up to now, or before, has no negative score. */
  lemma PastScore(now: Time, then_: Time)
    requires Proper(now) && Proper(then_) && NotAfter(then_, now)
    ensures Timediff(now, then_) >= 0
  {
    var du := now.usec - then_.usec;
    if now.sec == then_.sec {
      assert Quotient(du, 1000) >= 0;
    } else {
      assert Quotient(du, 1000) > -1000;
    }
  }

  /** What was used earlier never has the lower score. */
  lemma EarlierScoresHigher(now: Time, a: Time, b: Time)
    requires Proper(now) && Proper(a) && Proper(b) && NotAfter(a, b)
    ensures Timediff(now, a) >= Timediff(now, b)
  {
    TimediffBounds(now, a);
    TimediffBounds(now, b);
    var da, db := now.usec - a.usec, now.usec - b.usec;
    assert a.sec <= b.sec;
    if a.sec == b.sec {
      QuotientGrows(db, da);
    } else {
      QuotientGrows(db, now.usec);
      QuotientGrows(now.usec - 999999, da);
      QuotientSpan(now.usec);
    }
  }

  lemma QuotientGrows(a: int, b: int)
    requires a <= b
    ensures Quotient(a, 1000) <= Quotient(b, 1000)
  {
  }

  lemma QuotientSpan(u: int)
    requires 0 <= u < 1000000
    ensures Quotient(u, 1000) - Quotient(u - 999999, 1000) < 1000
  {
    var q := u / 1000;
    assert q * 1000 <= u < q * 1000 + 1000;
    var p := (999999 - u) / 1000;
    assert p * 1000 <= 999999 - u < p * 1000 + 1000;
  }

  /** The one with the higher score was last used earlier, or less than two milliseconds later; apart from
      ages so large that scores are capped. */
  lemma HigherScoreIsOlder(now: Time, a: Time, b: Time)
    requires Proper(now) && Proper(a) && Proper(b) && Timediff(now, a) >= Timediff(now, b) >= 0
    ensures Micros(a) < Micros(b) + 2000 || now.sec - a.sec >= MANY_SECONDS
  {
    TimediffBounds(now, a);
    TimediffBounds(now, b);
    if now.sec - a.sec < MANY_SECONDS {
      TimediffError(now, a);
      TimediffError(now, b);
    }
  }

  /** The rounding does make ties: these two have the same score. */
  lemma EarlierCanTie()
    ensures var now, a, b := Time(10, 1000), Time(10, 1), Time(10, 999);
      Micros(a) < Micros(b) < Micros(now) && Timediff(now, a) == Timediff(now, b) == 0
  {
  }
}
