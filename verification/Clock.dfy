/** The injected clock and timer: time never goes back, and a wait lasts at least as long as asked. */
module Clocks {

  class Clock {
    /** Milliseconds since some fixed moment. */
    var time: int

    constructor () {
      time := 0;
    }

    method Now() returns (now: int)
      modifies this
      ensures now == time && old(time) <= time
    {
      var later: int := *;
      time := if later > time then later else time;
      now := time;
    }

    method Wait(milliseconds: nat)
      modifies this
      ensures old(time) + milliseconds <= time
    {
      var later: int := *;
      time := if later > time + milliseconds then later else time + milliseconds;
    }

    /** Waits before the next poll, unless the deadline that began at `started` has passed. */
    method Pause(started: int, timeout: int, delay: int) returns (expired: bool)
      requires delay > 0
      modifies this
      ensures old(time) <= time
      ensures !expired ==> old(time) - started < timeout && (old(time) + delay <= time || timeout <= time - started)
    {
      var now := Now();
      var remaining := timeout - (now - started);
      if remaining <= 0 {
        return true;
      }
      Wait(if delay < remaining then delay else remaining);
      return false;
    }
  }
}
