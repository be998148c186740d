/**
 * The shift-timeline arithmetic shared by the report parser and the manual row
 * editor. A time is an "absolute minute" on a window that starts at `dayStart`
 * (a clock-of-day minute) and may run past midnight: values of 1440 and more
 * stand for the following calendar day.
 */
module TimeWindow {

  import opened DotNet

  const MinutesPerDay := 1440

  /**
   * A clock-of-day minute earlier than the window's start is taken to fall on the
   * next calendar day. For inputs within a day of `dayStart`, the result is the one
   * absolute minute in the window's first 24 hours that shows the same clock time.
   */
  function NormalizeToWindow(minutesOfDay: int, dayStart: int): (abs: int)
    ensures abs == minutesOfDay || abs == minutesOfDay + MinutesPerDay
    ensures dayStart <= minutesOfDay ==> abs == minutesOfDay
    ensures minutesOfDay > dayStart - MinutesPerDay ==> dayStart <= abs
    ensures minutesOfDay < dayStart + MinutesPerDay ==> abs < dayStart + MinutesPerDay
    ensures minutesOfDay < dayStart ==> abs == minutesOfDay + MinutesPerDay
  {
    if minutesOfDay < dayStart then minutesOfDay + MinutesPerDay else minutesOfDay
  }

  /** A value already in the window is left alone, so normalising twice is normalising once. */
  lemma NormalizeToWindowIdempotent(minutesOfDay: int, dayStart: int)
    requires minutesOfDay > dayStart - MinutesPerDay
    ensures NormalizeToWindow(NormalizeToWindow(minutesOfDay, dayStart), dayStart)
         == NormalizeToWindow(minutesOfDay, dayStart)
  {
  }

  /** Two integers with the same remainder modulo 1440 that are less than a day apart are equal. */
  lemma {:induction false} SameClockTimeWithinADay(x: int, y: int)
    requires x % MinutesPerDay == y % MinutesPerDay
    requires x - MinutesPerDay < y < x + MinutesPerDay
    ensures x == y
  {
    var qx, qy := x / MinutesPerDay, y / MinutesPerDay;
    assert x == qx * MinutesPerDay + x % MinutesPerDay;
    assert y == qy * MinutesPerDay + y % MinutesPerDay;
    assert x - y == (qx - qy) * MinutesPerDay;
  }

  /**
   * The window's representative of a clock time: any absolute minute in
   * `[dayStart, dayStart + 1440)` is what `NormalizeToWindow` makes of its own
   * clock-of-day minute.
   */
  lemma {:induction false} NormalizeToWindowRecovers(abs: int, dayStart: int)
    requires 0 <= dayStart < MinutesPerDay
    requires dayStart <= abs < dayStart + MinutesPerDay
    ensures NormalizeToWindow(abs % MinutesPerDay, dayStart) == abs
  {
    var m := abs % MinutesPerDay;
    var r := NormalizeToWindow(m, dayStart);
    assert r % MinutesPerDay == m by {
      if r != m {
        assert r == m + MinutesPerDay;
        assert r % MinutesPerDay == m by {
          assert r == 1 * MinutesPerDay + m;
        }
      }
    }
    assert m % MinutesPerDay == m;
    SameClockTimeWithinADay(r, abs);
  }

  /** A shift never ends at or before it starts: an end not after the start is on the next day. */
  function ResolveEndAfterStart(startAbs: int, endAbs: int): (r: int)
    ensures r == endAbs || r == endAbs + MinutesPerDay
    ensures endAbs > startAbs - MinutesPerDay ==> startAbs < r
    ensures endAbs > startAbs ==> r == endAbs
    ensures endAbs <= startAbs ==> r == endAbs + MinutesPerDay
  {
    if endAbs <= startAbs then endAbs + MinutesPerDay else endAbs
  }

  /** Keeps a shift from running past the end of the display window. */
  function ClampToWindow(abs: int, windowEnd: int): (r: int)
    ensures r <= windowEnd && r <= abs
    ensures r == abs || r == windowEnd
  {
    if abs > windowEnd then windowEnd else abs
  }

  /** The first minute after `startAbs` that shows the clock time of `minutesOfDay`. */
  function NextClockTime(startAbs: int, minutesOfDay: int): (r: int)
    ensures startAbs < r <= startAbs + MinutesPerDay
    ensures r % MinutesPerDay == minutesOfDay % MinutesPerDay
  {
    var d := (minutesOfDay - startAbs - 1) % MinutesPerDay;
    ShiftByDays(minutesOfDay, -((minutesOfDay - startAbs - 1) / MinutesPerDay));
    startAbs + d + 1
  }

  /**
   * The stored end of a shift: the end's clock-of-day minute normalised onto the
   * window, moved to the next day if it is not after `startAbs`, and clamped to
   * `windowEnd`. Both the importer and the row editor use this one definition.
   */
  function WindowedEnd(startAbs: int, endMinutesOfDay: int, dayStart: int, windowEnd: int): (r: int)
    ensures r <= windowEnd
    ensures r == windowEnd || r % MinutesPerDay == endMinutesOfDay % MinutesPerDay
    ensures (startAbs < windowEnd && startAbs < dayStart + MinutesPerDay
             && endMinutesOfDay > dayStart - MinutesPerDay) ==> startAbs < r
    ensures dayStart <= startAbs && endMinutesOfDay < dayStart + MinutesPerDay ==> r <= startAbs + MinutesPerDay
    ensures (dayStart <= startAbs < dayStart + MinutesPerDay
             && dayStart - MinutesPerDay < endMinutesOfDay < dayStart + MinutesPerDay)
            ==> r == ClampToWindow(NextClockTime(startAbs, endMinutesOfDay), windowEnd)
  {
    var e := ResolveEndAfterStart(startAbs, NormalizeToWindow(endMinutesOfDay, dayStart));
    assert e % MinutesPerDay == endMinutesOfDay % MinutesPerDay by {
      ShiftByDays(endMinutesOfDay, (e - endMinutesOfDay) / MinutesPerDay);
      assert e == endMinutesOfDay + (e - endMinutesOfDay) / MinutesPerDay * MinutesPerDay;
    }
    assert (dayStart <= startAbs < dayStart + MinutesPerDay
            && dayStart - MinutesPerDay < endMinutesOfDay < dayStart + MinutesPerDay)
           ==> e == NextClockTime(startAbs, endMinutesOfDay) by {
      if dayStart <= startAbs < dayStart + MinutesPerDay
         && dayStart - MinutesPerDay < endMinutesOfDay < dayStart + MinutesPerDay {
        SameClockTimeWithinADay(e, NextClockTime(startAbs, endMinutesOfDay));
      }
    }
    ClampToWindow(e, windowEnd)
  }

  /**
   * An end given as the clock time `d` minutes after a start inside the window's
   * first 24 hours lands exactly `d` minutes after that start, clamped to the
   * window's end.
   */
  lemma {:induction false} WindowedEndLater(startAbs: int, d: int, dayStart: int, windowEnd: int)
    requires 0 <= dayStart < MinutesPerDay
    requires dayStart <= startAbs < dayStart + MinutesPerDay
    requires 0 < d < MinutesPerDay
    ensures WindowedEnd(startAbs, (startAbs + d) % MinutesPerDay, dayStart, windowEnd)
         == ClampToWindow(startAbs + d, windowEnd)
  {
    var m := (startAbs + d) % MinutesPerDay;
    var n := NormalizeToWindow(m, dayStart);
    if startAbs + d < dayStart + MinutesPerDay {
      NormalizeToWindowRecovers(startAbs + d, dayStart);
      assert ResolveEndAfterStart(startAbs, n) == startAbs + d;
    } else {
      var earlier := startAbs + d - MinutesPerDay;
      ShiftByDays(earlier, 1);
      NormalizeToWindowRecovers(earlier, dayStart);
      assert n == earlier;
      assert ResolveEndAfterStart(startAbs, n) == startAbs + d;
    }
  }

  /** Adding whole days does not change the clock time. */
  lemma ShiftByDays(x: int, k: int)
    ensures (x + k * MinutesPerDay) % MinutesPerDay == x % MinutesPerDay
  {
    var q, r := x / MinutesPerDay, x % MinutesPerDay;
    assert x + k * MinutesPerDay == (q + k) * MinutesPerDay + r;
    EuclideanUnique(x + k * MinutesPerDay, MinutesPerDay, q + k, r);
  }
}
