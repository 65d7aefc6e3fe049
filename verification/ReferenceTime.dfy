/**
 The reference clock of src/alarms/reference_time.c: the boot-time clock plus an
 offset that follows the wall clock in steps.
 */
module ReferenceTime {
  import opened Wrappers

  /**
   The readings of one step: time(), where -1 is a failure, and CLOCK_BOOTTIME,
   which may fail. One step sees one second of each.
   */
  datatype Clocks = Clocks(wall: int, boot: Option<int>)

  const INVALID_TIME: int := -1

  /** Falls back on the wall clock when the boot-time clock cannot be read. */
  function RefTime(offset: int, c: Clocks): int {
    if c.boot.Some? then c.boot.value + offset else c.wall
  }

  /** How far an update moves the offset. */
  function Moved(offset: int, c: Clocks): int {
    if c.wall == INVALID_TIME || c.boot.None? then 0 else c.wall - (c.boot.value + offset)
  }

  /** What an update returns: a failed reading and a step of exactly -1 second look the same. */
  function Reported(offset: int, c: Clocks): int {
    if c.wall == INVALID_TIME || c.boot.None? then INVALID_TIME else Moved(offset, c)
  }

  class ReferenceClock {
    var clockToReference: int

    constructor ()
      ensures clockToReference == 0
    {
      clockToReference := 0;
    }

    /** With both clocks readable the reference time is the wall time afterwards. */
    method Update(c: Clocks) returns (delta: int)
      modifies this
      ensures delta == Reported(old(clockToReference), c)
      ensures clockToReference == old(clockToReference) + Moved(old(clockToReference), c)
      ensures c.wall != INVALID_TIME && c.boot.Some? ==> RefTime(clockToReference, c) == c.wall
    {
      if c.wall == INVALID_TIME {
        return INVALID_TIME;
      }
      if c.boot.None? {
        return INVALID_TIME;
      }
      delta := c.wall - (c.boot.value + clockToReference);
      if delta == 0 {
        return;
      }
      clockToReference := clockToReference + delta;
    }
  }
}
