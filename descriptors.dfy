/**
 * The resources the three programs enumerate, reduced to the fields their selection reads,
 * and the run-wide settings that selection depends on.
 */
module Descriptors {
  import opened Options
  import opened Int64Arith

  /**
   * One enumerated resource. An image carries its creation date as the provider's text
   * (`*image.CreationDate`); snapshots and volumes carry a timestamp already in Unix seconds
   * (`StartTime.Unix()`, `CreateTime.Unix()`). Only images have an optional name.
   */
  datatype Descriptor =
    | Image(id: string, creationDate: string, name: Option<string>)
    | Snapshot(id: string, startTime: Int64, state: string)
    | Volume(id: string, createTime: Int64, state: string)

  /**
   * What the dispatch loop does with one resource: submit its id as a job, skip it, or
   * crash (the Go runtime panics while the loop examines it).
   */
  datatype Decision = Submit | Skip | Crash

  /**
   * Values fixed before the dispatch loop starts: `t` (the time read once at start-up),
   * `delta` (the `-duration` flag, one week by default), the image exclusion list read from
   * YAML, and the `-executer` flag, the number of worker goroutines started (four by default).
   */
  datatype Settings = Settings(now: Int64, delta: Int64, exclusions: seq<string>, workers: int)

  /**
   * The age test shared by the three programs: `t - created > delta`, on int64. When the
   * subtraction fits it is the plain comparison. When it overflows, the age wraps: an age past
   * the int64 range looks negative, so it never exceeds a non-negative delta, and a creation
   * time that far in the future looks old enough for any non-positive delta.
   */
  predicate Stale(now: Int64, delta: Int64, created: Int64): (stale: bool)
    ensures NoOverflow(now, created) ==> (stale <==> now - created > delta)
    ensures now - created > MaxInt64 && delta >= 0 ==> !stale
    ensures now - created < MinInt64 && delta <= 0 ==> stale
  {
    Sub64(now, created) > delta
  }

  /** A resource exactly `delta` seconds old is not stale; the difference cannot overflow then. */
  lemma AgeEqualToDeltaIsNotStale(now: Int64, delta: Int64, created: Int64)
    requires now - created == delta
    ensures !Stale(now, delta, created)
  {
  }
}
