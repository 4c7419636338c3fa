/**
 * The PMS-window test `isInPMSWindow` (src/lib/database.ts).
 *
 * A date lies in the PMS window when it falls on one of the last
 * `pmsWindowLength` days of the recurring cycle anchored at the cycle's
 * day-1 date. The source computes the day in the cycle with a double
 * application of JavaScript's truncating `%`, which is written out here so
 * that negative day counts (dates before the anchor) behave as they do in
 * the source.
 */
module PmsWindow {
  import opened Types

  function Abs(x: int): nat
  {
    if x < 0 then -x else x
  }

  /**
   * JavaScript's `%` on integral operands: the remainder of truncating
   * division, which takes the sign of the dividend.
   */
  function JsRem(a: int, b: int): (r: int)
    requires b != 0
    ensures Abs(r) < Abs(b)
    ensures a >= 0 ==> r >= 0
    ensures a <= 0 ==> r <= 0
    ensures (a - r) % Abs(b) == 0
  {
    var m := Abs(b);
    if a >= 0 then
      ModUnique(a - a % m, m, a / m, 0);
      a % m
    else
      ModUnique(a + (-a) % m, m, -((-a) / m), 0);
      -((-a) % m)
  }

  /** The Euclidean remainder is determined by any decomposition a == q * m + r with 0 <= r < m. */
  lemma ModUnique(a: int, m: int, q: int, r: int)
    requires m > 0 && 0 <= r < m
    requires a == q * m + r
    ensures a % m == r
  {
    var q0, r0 := a / m, a % m;
    assert q0 * m + r0 == a;
    assert (q - q0) * m == r0 - r;
    if q > q0 {
      MulAtLeast(q - q0, m);
      assert false;
    } else if q < q0 {
      MulAtLeast(q0 - q, m);
      assert false;
    }
  }

  lemma MulAtLeast(x: int, m: int)
    requires x >= 1 && m > 0
    ensures x * m >= m
  {
    assert (x - 1) * m >= 0;
  }

  /** Adding whole cycles does not change the Euclidean remainder. */
  lemma ModShift(x: int, k: int, m: int)
    requires m > 0
    ensures (x + k * m) % m == x % m
  {
    assert x == (x / m) * m + x % m;
    assert x + k * m == (x / m + k) * m + x % m;
    ModUnique(x + k * m, m, x / m + k, x % m);
  }

  /**
   * The day in the cycle, `((d % L) + L) % L` with JavaScript's `%`. For a
   * positive cycle length it is the mathematical remainder of `d` modulo
   * `L`, so it lies in [0, L) also when `d` is negative.
   */
  function DayInCycle(daysSinceStart: int, cycleLength: int): (r: int)
    requires cycleLength != 0
    ensures cycleLength > 0 ==> 0 <= r < cycleLength && r == daysSinceStart % cycleLength
  {
    var d, l := daysSinceStart, cycleLength;
    var once := JsRem(d, l);
    var r := JsRem(once + l, l);
    if l > 0 then
      if d >= 0 then
        assert once == d % l;
        ModUnique(once + l, l, 1, once);
        r
      else
        var m := (-d) % l;
        assert -d == ((-d) / l) * l + m;
        if m == 0 then
          ModUnique(d, l, -((-d) / l), 0);
          ModUnique(l, l, 1, 0);
          r
        else
          ModUnique(d, l, -((-d) / l) - 1, l - m);
          ModUnique(l - m, l, 0, l - m);
          r
    else
      r
  }

  /**
   * Whether `date` lies in the PMS window. A disabled mode or a missing
   * day-1 date answers false for every date; a zero cycle length makes the
   * source compare NaN, which is false too. Otherwise the date is in the
   * window exactly when its day in the cycle is at least
   * `cycleLength - pmsWindowLength`.
   */
  function IsInPmsWindow(date: Date, s: UserSettings): (r: bool)
    ensures !s.pmsSafeEnabled || s.cycleDay1Date.None? ==> !r
    ensures s.cycleLength == 0 ==> !r
    ensures s.pmsSafeEnabled && s.cycleDay1Date.Some? && s.cycleLength > 0 ==>
      (r <==> (date - s.cycleDay1Date.value) % s.cycleLength >= s.cycleLength - s.pmsWindowLength)
  {
    if !s.pmsSafeEnabled || s.cycleDay1Date.None? then
      false
    else if s.cycleLength == 0 then
      false
    else
      var daysSinceStart := date - s.cycleDay1Date.value;
      var pmsStartDay := s.cycleLength - s.pmsWindowLength;
      DayInCycle(daysSinceStart, s.cycleLength) >= pmsStartDay
  }

  /** Settings under which the window test does real work. */
  predicate Active(s: UserSettings)
  {
    s.pmsSafeEnabled && s.cycleDay1Date.Some? && s.cycleLength > 0
  }

  /** A window at least as long as the cycle covers every date; an empty one covers none. */
  lemma WindowLengthExtremes(date: Date, s: UserSettings)
    requires Active(s)
    ensures s.pmsWindowLength >= s.cycleLength ==> IsInPmsWindow(date, s)
    ensures s.pmsWindowLength <= 0 ==> !IsInPmsWindow(date, s)
  {
  }

  /** The window test is periodic with the cycle length as period, in both directions. */
  lemma WindowPeriodic(date: Date, s: UserSettings, k: int)
    requires s.cycleLength > 0
    ensures IsInPmsWindow(date + k * s.cycleLength, s) == IsInPmsWindow(date, s)
  {
    if Active(s) {
      var x := date - s.cycleDay1Date.value;
      ModShift(x, k, s.cycleLength);
      assert date + k * s.cycleLength - s.cycleDay1Date.value == x + k * s.cycleLength;
    }
  }

  /** The number of dates in [from, from + n) that lie in the window. */
  function WindowDaysIn(from: Date, n: nat, s: UserSettings): (c: nat)
    ensures c <= n
    decreases n
  {
    if n == 0 then 0
    else (if IsInPmsWindow(from, s) then 1 else 0) + WindowDaysIn(from + 1, n - 1, s)
  }

  lemma {:induction false} WindowDaysInSnoc(from: Date, n: nat, s: UserSettings)
    ensures WindowDaysIn(from, n + 1, s)
         == WindowDaysIn(from, n, s) + (if IsInPmsWindow(from + n, s) then 1 else 0)
    decreases n
  {
    if n > 0 {
      WindowDaysInSnoc(from + 1, n - 1, s);
    }
  }

  /** Any run of one cycle length of consecutive dates holds as many window days as any other. */
  lemma WindowDaysShift(from: Date, s: UserSettings)
    requires s.cycleLength > 0
    ensures WindowDaysIn(from + 1, s.cycleLength, s) == WindowDaysIn(from, s.cycleLength, s)
  {
    var l := s.cycleLength;
    WindowDaysInSnoc(from + 1, l - 1, s);
    WindowDaysPeriodicStep(from, s);
  }

  lemma WindowDaysPeriodicStep(from: Date, s: UserSettings)
    requires s.cycleLength > 0
    ensures IsInPmsWindow(from + 1 + (s.cycleLength - 1), s) == IsInPmsWindow(from, s)
  {
    WindowPeriodic(from, s, 1);
    assert from + 1 * s.cycleLength == from + 1 + (s.cycleLength - 1);
  }

  /** Counting from the cycle's day 1: the days [j, L) of the cycle hold min(L - j, W) window days. */
  lemma {:induction false} WindowDaysFromAnchor(s: UserSettings, j: nat)
    requires Active(s) && 0 <= s.pmsWindowLength <= s.cycleLength
    requires j <= s.cycleLength
    ensures WindowDaysIn(s.cycleDay1Date.value + j, s.cycleLength - j, s)
         == if s.cycleLength - j <= s.pmsWindowLength then s.cycleLength - j else s.pmsWindowLength
    decreases s.cycleLength - j
  {
    var l := s.cycleLength;
    if j < l {
      WindowDaysFromAnchor(s, j + 1);
      ModUnique(j, l, 0, j);
      assert s.cycleDay1Date.value + j - s.cycleDay1Date.value == j;
    }
  }

  lemma {:induction false} WindowDaysAnyStart(s: UserSettings, m: int)
    requires Active(s) && 0 <= s.pmsWindowLength <= s.cycleLength
    ensures WindowDaysIn(s.cycleDay1Date.value + m, s.cycleLength, s) == s.pmsWindowLength
    decreases Abs(m)
  {
    var start := s.cycleDay1Date.value;
    if m == 0 {
      WindowDaysFromAnchor(s, 0);
    } else if m > 0 {
      WindowDaysAnyStart(s, m - 1);
      WindowDaysShift(start + m - 1, s);
    } else {
      WindowDaysAnyStart(s, m + 1);
      WindowDaysShift(start + m, s);
    }
  }

  /**
   * With 0 <= pmsWindowLength <= cycleLength, every run of cycleLength
   * consecutive dates, wherever it starts, holds exactly pmsWindowLength
   * window dates.
   */
  lemma WindowDaysPerCycle(from: Date, s: UserSettings)
    requires Active(s) && 0 <= s.pmsWindowLength <= s.cycleLength
    ensures WindowDaysIn(from, s.cycleLength, s) == s.pmsWindowLength
  {
    WindowDaysAnyStart(s, from - s.cycleDay1Date.value);
  }

  /** A 28-day cycle with a 7-day window anchored at day 0, including dates before the anchor. */
  lemma WindowExample()
    ensures var s := UserSettings(true, 28, 7, Some(0));
      !IsInPmsWindow(0, s) && !IsInPmsWindow(20, s) && IsInPmsWindow(21, s) &&
      IsInPmsWindow(27, s) && !IsInPmsWindow(28, s) && IsInPmsWindow(-1, s) &&
      IsInPmsWindow(-7, s) && !IsInPmsWindow(-8, s)
  {
  }
}
