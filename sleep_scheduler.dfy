/** How long `sleepAfterReset` asks the chip to sleep: until `time_us`
    microseconds after the last reset, or `time_us` from now if that moment
    has passed. `micros()` is the parameter `nowUs`. */
module SleepScheduler {
  import opened CTypes

  /** The deadline less the clock in 32-bit unsigned arithmetic, replaced by
      the deadline itself when the difference exceeds it. Before the deadline
      the request is the time left; once it has passed it is a whole
      `time_us`; it never exceeds `time_us`. */
  function SleepRequest(timeUs: u32, nowUs: u32): (when: u32)
    ensures nowUs <= timeUs ==> when as int == timeUs as int - nowUs as int
    ensures timeUs < nowUs ==> when == timeUs
    ensures when <= timeUs
  {
    var when := Sub32(timeUs, nowUs);
    if when > timeUs then timeUs else when
  }

  /** The clamp fires exactly when the subtraction wrapped, that is when the
      deadline has passed. */
  lemma ClampOnlyOnWrap(timeUs: u32, nowUs: u32)
    ensures Sub32(timeUs, nowUs) > timeUs <==> nowUs > timeUs
  {
  }
}
