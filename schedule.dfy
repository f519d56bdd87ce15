/** `relay_on_time_between` of mwc-capturer.py and new-serv.py: the IR LED
    is lit from 17:00 through the 05:00 hour, a window that wraps past
    midnight. The line is active low, as dimmer.py also shows: level 0
    lights the LED, level 1 turns it off. */
module Schedule {

  const StartHour := 17
  const EndHour := 5

  /** The level that lights the LED. */
  const LedOn := 0
  /** The level that turns the LED off. */
  const LedOff := 1

  /** The guard `current_time >= start_time or current_time <= end_time`. */
  predicate IrOn(hour: int)
  {
    hour >= StartHour || hour <= EndHour
  }

  /** The level written to the LED line for the given hour. */
  function LedLevel(hour: int): (level: int)
    ensures level == LedOn || level == LedOff
  {
    if IrOn(hour) then LedOn else LedOff
  }

  /** Reference definition of a wrapping window of clock hours: `h` lies in
      the window when the hours elapsed going forward from `start` to `h`
      are no more than those from `start` to `end`. */
  predicate InClockWindow(h: int, start: int, end: int)
  {
    (h - start) % 24 <= (end - start) % 24
  }

  /** For every hour of the day the LED is lit exactly inside the clock
      window from 17 to 5. */
  lemma LedFollowsClockWindow(hour: int)
    requires 0 <= hour < 24
    ensures LedLevel(hour) == LedOn <==> InClockWindow(hour, StartHour, EndHour)
    ensures LedLevel(hour) == LedOff <==> !InClockWindow(hour, StartHour, EndHour)
  {
    if hour >= StartHour {
      assert (hour - StartHour) % 24 == hour - StartHour;
    } else {
      assert (hour - StartHour) % 24 == hour + 7;
    }
  }

  /** Both boundary hours are inside the window; the hours next to them
      are not. */
  lemma BoundaryHours()
    ensures LedLevel(5) == LedOn && LedLevel(17) == LedOn
    ensures LedLevel(6) == LedOff && LedLevel(16) == LedOff
    ensures LedLevel(18) == LedOn && LedLevel(10) == LedOff && LedLevel(0) == LedOn
  {
  }
}
