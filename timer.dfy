/** The game clock: a counter of elapsed seconds driven by a repeating
    one-second interval. The clock keeps the handle of the last interval it
    started and can stop only that one; an interval whose handle was
    overwritten by a second start keeps running and is counted in `leaked`. */
module Timing {

  class Timer {
    /** Seconds shown on the clock. */
    var elapsed: nat
    /** Whether the interval whose handle the clock keeps is running. */
    var live: bool
    /** Running intervals whose handle was lost. */
    var leaked: nat

    constructor()
      ensures elapsed == 0 && !live && leaked == 0
    {
      elapsed, live, leaked := 0, false, 0;
    }

    /** Intervals currently adding to the clock. */
    function Running(): (k: nat)
      reads this
      ensures k == 0 <==> !live && leaked == 0
    {
      leaked + (if live then 1 else 0)
    }

    /** Starts a new interval and keeps its handle; a previous interval that
        is still running is not cleared and goes on ticking. */
    method Start()
      modifies this
      ensures live
      ensures leaked == old(leaked) + (if old(live) then 1 else 0)
      ensures Running() == old(Running()) + 1
      ensures elapsed == old(elapsed)
    {
      if live {
        leaked := leaked + 1;
      }
      live := true;
    }

    /** Clears the interval whose handle is kept; leaked ones go on. */
    method Stop()
      modifies this
      ensures !live
      ensures leaked == old(leaked) && elapsed == old(elapsed)
      ensures Running() == old(Running()) - (if old(live) then 1 else 0)
    {
      live := false;
    }

    /** Puts the clock back to zero, leaving every interval as it is. */
    method Reset()
      modifies this
      ensures elapsed == 0
      ensures live == old(live) && leaked == old(leaked)
    {
      elapsed := 0;
    }

    /** One second of wall-clock time: every running interval adds one. */
    method Tick()
      modifies this
      ensures elapsed == old(elapsed) + old(Running())
      ensures live == old(live) && leaked == old(leaked)
    {
      elapsed := elapsed + Running();
    }
  }
}
