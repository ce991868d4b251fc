/** Selection of volumes (delete-unused-volumes-parallel): age and the "available" state. */
module Volumes {
  import opened Int64Arith
  import opened Descriptors

  /**
   * The inline condition of the volume loop: older than delta and in state "available".
   * Without overflow, a volume qualifies exactly when it is strictly older than delta and
   * available (attached to nothing).
   */
  predicate VolumeEligible(s: Settings, createTime: Int64, state: string): (eligible: bool)
    ensures NoOverflow(s.now, createTime) ==> (eligible <==> s.now - createTime > s.delta && state == "available")
  {
    Stale(s.now, s.delta, createTime) && state == "available"
  }

  /** A volume exactly delta old never qualifies. */
  lemma VolumeAgeEqualToDeltaKept(s: Settings, createTime: Int64, state: string)
    requires s.now - createTime == s.delta
    ensures !VolumeEligible(s, createTime, state)
  {
    AgeEqualToDeltaIsNotStale(s.now, s.delta, createTime);
  }

  /** Nor does one in any state other than "available", however old. */
  lemma VolumeNotAvailableKept(s: Settings, createTime: Int64, state: string)
    requires state != "available"
    ensures !VolumeEligible(s, createTime, state)
  {
  }
}
