/**
 The kernel's wakelocks as sleepd writes them through sysfs. All writes are
 assumed to succeed and all names to be short enough not to be cut.
 */
module Kernel {

  datatype Lock = ActivityLock(id: string) | ClientLock(id: string) | ShutdownLock

  const ACTIVITY_PREFIX := "activity-"
  const CLIENT_PREFIX := "webos-"
  const SHUTDOWN_NAME := "sleepd_shutdown"

  /** The name written to wake_lock and wake_unlock. */
  function SysfsName(l: Lock): string {
    match l
    case ActivityLock(id) => ACTIVITY_PREFIX + id
    case ClientLock(id) => CLIENT_PREFIX + id
    case ShutdownLock => SHUTDOWN_NAME
  }

  /** Different locks never share a name, so the three users of the lock files cannot release each other's. */
  lemma NamesAreDistinct(a: Lock, b: Lock)
    requires SysfsName(a) == SysfsName(b)
    ensures a == b
  {
    var name := SysfsName(a);
    assert a.ActivityLock? ==> name[0] == 'a';
    assert a.ClientLock? ==> name[0] == 'w';
    assert b.ActivityLock? ==> name[0] == 'a';
    assert b.ClientLock? ==> name[0] == 'w';
    if a.ActivityLock? {
      assert a.id == name[|ACTIVITY_PREFIX|..] == b.id;
    } else if a.ClientLock? {
      assert a.id == name[|CLIENT_PREFIX|..] == b.id;
    }
  }

  class WakeLocks {
    const supported: bool
    var held: set<Lock>

    constructor (supported: bool)
      ensures this.supported == supported && held == {}
    {
      this.supported := supported;
      held := {};
    }

    /** Nothing is written on a machine without wakelocks. */
    method Take(l: Lock)
      modifies this
      ensures held == if supported then old(held) + {l} else old(held)
    {
      if supported {
        held := held + {l};
      }
    }

    method Release(l: Lock)
      modifies this
      ensures held == if supported then old(held) - {l} else old(held)
    {
      if supported {
        held := held - {l};
      }
    }
  }
}
