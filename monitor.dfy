/**
 * The stuck-handler monitor (struct skynet_monitor). A worker triggers it
 * before and after every message it dispatches; the monitor thread checks
 * it periodically, and a check that sees the same version as the previous
 * check while a message is in flight reports the destination as possibly
 * stuck in an endless loop.
 */
module Monitor {
  import opened Wrappers
  import opened Context

  class SkynetMonitor {
    var version: int
    var checkVersion: int
    var source: nat
    var destination: nat

    /** Both counters are 32-bit signed ints. */
    ghost predicate Valid()
      reads this`version, this`checkVersion
    {
      Int32Min <= version <= Int32Max && Int32Min <= checkVersion <= Int32Max
    }

    /** skynet_monitor_new: every field zeroed. */
    constructor ()
      ensures Valid()
      ensures version == 0 && checkVersion == 0 && source == 0 && destination == 0
    {
      version := 0;
      checkVersion := 0;
      source := 0;
      destination := 0;
    }

    /** skynet_monitor_trigger: records the message in flight and bumps the version by one (wrapping as a 32-bit int). */
    method Trigger(src: nat, dst: nat)
      requires Valid()
      modifies this`source, this`destination, this`version
      ensures Valid()
      ensures source == src && destination == dst && version == Int32Succ(old(version))
    {
      source := src;
      destination := dst;
      version := Int32Succ(version);
    }

    /**
     * skynet_monitor_check: when nothing was triggered since the last check
     * and a message is in flight, returns its destination, which the caller
     * marks as endless; otherwise it catches up with the version and returns
     * None. The version, source and destination are never changed.
     */
    method Check() returns (endless: Option<nat>)
      requires Valid()
      modifies this`checkVersion
      ensures Valid() && checkVersion == version
      ensures endless.Some? <==> old(checkVersion) == version && destination != 0
      ensures endless.Some? ==> endless.value == destination
    {
      if version == checkVersion {
        if destination != 0 {
          return Some(destination);
        }
        return None;
      } else {
        checkVersion := version;
        return None;
      }
    }
  }

  /**
   * On any monitor, a trigger between two checks keeps the second check
   * quiet, because a trigger always moves the version, even when it wraps;
   * a further check with no trigger before it flags the message in flight.
   */
  method TriggerSilencesCheck(sm: SkynetMonitor, src: nat, dst: nat) returns (second: Option<nat>, third: Option<nat>)
    requires sm.Valid()
    modifies sm
    ensures sm.Valid() && sm.source == src && sm.destination == dst
    ensures second == None
    ensures third == if dst != 0 then Some(dst) else None
  {
    var first := sm.Check();
    sm.Trigger(src, dst);
    second := sm.Check();
    third := sm.Check();
  }
}
