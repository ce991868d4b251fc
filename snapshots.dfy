/** Selection of snapshots (delete-snapshots-parallel): age and the "completed" state. */
module Snapshots {
  import opened Int64Arith
  import opened Descriptors

  /**
   * The inline condition of the snapshot loop: older than delta and in state "completed".
   * Without overflow, a snapshot qualifies exactly when it is strictly older than delta and
   * completed.
   */
  predicate SnapshotEligible(s: Settings, startTime: Int64, state: string): (eligible: bool)
    ensures NoOverflow(s.now, startTime) ==> (eligible <==> s.now - startTime > s.delta && state == "completed")
  {
    Stale(s.now, s.delta, startTime) && state == "completed"
  }

  /** A snapshot exactly delta old never qualifies. */
  lemma SnapshotAgeEqualToDeltaKept(s: Settings, startTime: Int64, state: string)
    requires s.now - startTime == s.delta
    ensures !SnapshotEligible(s, startTime, state)
  {
    AgeEqualToDeltaIsNotStale(s.now, s.delta, startTime);
  }

  /** Nor does one in any state other than "completed", however old. */
  lemma SnapshotNotCompletedKept(s: Settings, startTime: Int64, state: string)
    requires state != "completed"
    ensures !SnapshotEligible(s, startTime, state)
  {
  }
}
