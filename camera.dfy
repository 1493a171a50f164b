/**
 * CameraStream of monitor.py: a capture loop that keeps only the newest frame in a
 * one-slot queue, a non-blocking read, and stop.
 */
module Camera {
  import opened Common

  /** Position of the first failed device read, or |results| when every read succeeds. */
  function FirstFailure<F>(results: seq<Option<F>>): (k: nat)
    ensures k <= |results|
    ensures forall i | 0 <= i < k :: results[i].Some?
    ensures k < |results| ==> results[k].None?
  {
    if results == [] then 0
    else if results[0].None? then 0
    else 1 + FirstFailure(results[1..])
  }

  class CameraStream<F> {
    /** frame_queue, a Queue(maxsize=1): empty or one frame. */
    var slot: Option<F>
    var stopped: bool
    /** Whether cap.release() has been called. */
    var released: bool

    ghost predicate Valid()
      reads this
    {
      stopped ==> released
    }

    constructor ()
      ensures Valid() && slot == None && !stopped && !released
    {
      slot := None;
      stopped := false;
      released := false;
    }

    /** Hand a captured frame to the queue: drop any unread frame, then put the new one. */
    method Put(frame: F)
      modifies this`slot
      ensures slot == Some(frame)
    {
      if slot.Some? {
        slot := None;
      }
      slot := Some(frame);
    }

    /** `read`: the waiting frame, if any, taken out of the queue. */
    method Read() returns (frame: Option<F>)
      modifies this`slot
      ensures frame == old(slot)
      ensures slot == None
    {
      frame := slot;
      slot := None;
    }

    method Stop()
      modifies this`stopped, this`released
      ensures stopped && released
    {
      stopped := true;
      released := true;
    }

    /**
     * `_update` run against the device's successive read results `results`: it stops at the
     * first failed read (setting stopped), and until then each frame replaces the previous one.
     * A stream that is already stopped returns at once.
     */
    method Update(results: seq<Option<F>>)
      requires Valid()
      modifies this
      ensures Valid()
      ensures old(stopped) ==> slot == old(slot) && stopped && released
      ensures !old(stopped) ==>
        var k := FirstFailure(results);
        && slot == (if k == 0 then old(slot) else results[k - 1])
        && stopped == (k < |results|)
        && released == (old(released) || k < |results|)
    {
      var i := 0;
      while i < |results|
        invariant 0 <= i <= |results|
        invariant Valid()
        invariant old(stopped) ==> slot == old(slot) && stopped && i == 0
        invariant !old(stopped) ==>
          && i <= FirstFailure(results) && !stopped && released == old(released)
          && slot == (if i == 0 then old(slot) else results[i - 1])
      {
        if stopped {
          return;
        }
        var frame := results[i];
        if frame.None? {
          Stop();
          return;
        }
        Put(frame.value);
        i := i + 1;
      }
    }
  }
}
