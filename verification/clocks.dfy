/** The clock the limiters and caches read. Times are exact seconds. */
module Clocks {

  /** Monotone time, with sleeps that never end early. */
  class Clock {
    var time: real

    constructor ()
    {
      time := *;
    }

    method Now() returns (t: real)
      modifies this
      ensures t == time >= old(time)
    {
      var passed: real :| passed >= 0.0;
      time := time + passed;
      t := time;
    }

    method SleepUntil(deadline: real)
      modifies this
      ensures time >= old(time) && time >= deadline
    {
      var late: real :| late >= 0.0;
      time := (if time < deadline then deadline else time) + late;
    }
  }
}
