/**
 * The walk over the enumeration result, as a specification: which ids become jobs, in which
 * order, and how the walk ends. The dispatch loop (module Reaper) is proved to follow it.
 */
module Selection {
  import opened Options
  import opened Int64Arith
  import opened Descriptors
  import opened Images
  import opened Snapshots
  import opened Volumes

  /**
   * The per-kind eligibility, chosen by the kind of the resource. Only the image loop can
   * panic; snapshots and volumes are only ever submitted or skipped.
   */
  function Decide(s: Settings, parseTime: string -> Option<Int64>, d: Descriptor): (decision: Decision)
    ensures !d.Image? ==> decision != Crash
  {
    match d
    case Image(id, creationDate, _) => ImageDecision(s, parseTime, id, creationDate)
    case Snapshot(_, startTime, state) => if SnapshotEligible(s, startTime, state) then Submit else Skip
    case Volume(_, createTime, state) => if VolumeEligible(s, createTime, state) then Submit else Skip
  }

  /**
   * How the walk over the resources ends: after the last one, at a panic of the date rewrite,
   * or blocked for good when a job is due and no worker was started (`-executer` below 1:
   * nobody ever takes the job, so `main` waits forever for its result).
   */
  datatype Stop = Finished | DatePanic | Deadlock

  /** The ids handed to the workers, in order, and how the walk ended. */
  datatype Plan = Plan(jobs: seq<string>, stop: Stop)

  /**
   * The walk: resources are examined in enumeration order, each submitted one is a job, and the
   * walk ends at the first panic or at the first job due with no worker. No resource yields more
   * than one job, and with no worker started no job is ever handed over.
   */
  function Schedule(s: Settings, parseTime: string -> Option<Int64>, items: seq<Descriptor>): (p: Plan)
    ensures |p.jobs| <= |items|
    ensures s.workers < 1 ==> p.jobs == []
    decreases |items|
  {
    if items == [] then Plan([], Finished)
    else match Decide(s, parseTime, items[0])
      case Crash => Plan([], DatePanic)
      case Skip => Schedule(s, parseTime, items[1..])
      case Submit =>
        if s.workers < 1 then Plan([], Deadlock)
        else
          var rest := Schedule(s, parseTime, items[1..]);
          Plan([items[0].id] + rest.jobs, rest.stop)
  }

  /** The walk over `items[i..]` in terms of its first resource and the walk over the rest. */
  lemma ScheduleStep(s: Settings, parseTime: string -> Option<Int64>, items: seq<Descriptor>, i: int, d: Decision)
    requires 0 <= i < |items| && d == Decide(s, parseTime, items[i])
    ensures d == Crash ==> Schedule(s, parseTime, items[i..]) == Plan([], DatePanic)
    ensures d == Skip ==> Schedule(s, parseTime, items[i..]) == Schedule(s, parseTime, items[i + 1..])
    ensures d == Submit && s.workers < 1 ==> Schedule(s, parseTime, items[i..]) == Plan([], Deadlock)
    ensures d == Submit && s.workers >= 1 ==>
              Schedule(s, parseTime, items[i..]) ==
              Plan([items[i].id] + Schedule(s, parseTime, items[i + 1..]).jobs, Schedule(s, parseTime, items[i + 1..]).stop)
  {
    assert items[i..][0] == items[i] && items[i..][1..] == items[i + 1..];
  }

  /** The ids of the enumerated resources, in enumeration order. */
  function Ids(items: seq<Descriptor>): seq<string>
  {
    seq(|items|, k requires 0 <= k < |items| => items[k].id)
  }

  /** The verdict of `Decide` on each enumerated resource: true where a job is due. */
  function Marks(s: Settings, parseTime: string -> Option<Int64>, items: seq<Descriptor>): seq<bool>
  {
    seq(|items|, k requires 0 <= k < |items| => Decide(s, parseTime, items[k]) == Submit)
  }

  /**
   * `ks` lists, in increasing order, exactly the positions where `marks` holds, and `jobs`
   * holds the `ids` at those positions in that order.
   */
  ghost predicate PicksAt(marks: seq<bool>, ids: seq<string>, jobs: seq<string>, ks: seq<int>)
    requires |marks| == |ids|
  {
    && |ks| == |jobs|
    && (forall j :: 0 <= j < |ks| ==> 0 <= ks[j] < |ids| && ids[ks[j]] == jobs[j])
    && (forall i, j :: 0 <= i < j < |ks| ==> ks[i] < ks[j])
    && (forall k :: 0 <= k < |marks| ==> (marks[k] <==> k in ks))
  }

  /** Every position moved one place on, as when a resource is put in front of the list. */
  function Shift(ks: seq<int>): seq<int>
  {
    seq(|ks|, j requires 0 <= j < |ks| => ks[j] + 1)
  }

  lemma ShiftMembers(ks: seq<int>, k: int)
    ensures k + 1 in Shift(ks) <==> k in ks
  {
    if k in ks {
      var j :| 0 <= j < |ks| && ks[j] == k;
      assert Shift(ks)[j] == k + 1;
    }
  }

  /** Moving every position on by one keeps them increasing and keeps them off position 0. */
  lemma ShiftIncreasing(ks: seq<int>)
    requires forall j :: 0 <= j < |ks| ==> 0 <= ks[j]
    requires forall i, j :: 0 <= i < j < |ks| ==> ks[i] < ks[j]
    ensures forall j :: 0 <= j < |Shift(ks)| ==> 1 <= Shift(ks)[j]
    ensures forall i, j :: 0 <= i < j < |Shift(ks)| ==> Shift(ks)[i] < Shift(ks)[j]
  {
  }

  /** Positions found for the tail carry over to the whole, with position 0 added when it is marked. */
  lemma PicksAtCons(marks: seq<bool>, ids: seq<string>, jobs: seq<string>, ks: seq<int>)
    requires |marks| == |ids| && marks != []
    requires PicksAt(marks[1..], ids[1..], jobs, ks)
    ensures PicksAt(marks, ids, if marks[0] then [ids[0]] + jobs else jobs, if marks[0] then [0] + Shift(ks) else Shift(ks))
  {
    var shifted := Shift(ks);
    ShiftIncreasing(ks);
    var ks2 := if marks[0] then [0] + shifted else shifted;
    var jobs2 := if marks[0] then [ids[0]] + jobs else jobs;
    forall j | 0 <= j < |ks2|
      ensures 0 <= ks2[j] < |ids| && ids[ks2[j]] == jobs2[j]
    {
      var j' := if marks[0] then j - 1 else j;
      if j' >= 0 {
        assert ks2[j] == shifted[j'] == ks[j'] + 1 && jobs2[j] == jobs[j'];
        assert ids[ks[j'] + 1] == ids[1..][ks[j']];
      }
    }
    forall k | 0 <= k < |marks|
      ensures marks[k] <==> k in ks2
    {
      if k > 0 {
        assert marks[k] == marks[1..][k - 1];
        ShiftMembers(ks, k - 1);
      }
    }
  }

  /**
   * A walk that reaches the end submits exactly the resources whose kind's eligibility holds,
   * each once, in enumeration order: `ks` is the increasing list of their positions.
   */
  lemma {:induction false} ScheduleSelectsExactly(s: Settings, parseTime: string -> Option<Int64>, items: seq<Descriptor>)
    returns (ks: seq<int>)
    requires Schedule(s, parseTime, items).stop == Finished
    ensures PicksAt(Marks(s, parseTime, items), Ids(items), Schedule(s, parseTime, items).jobs, ks)
    ensures forall k :: 0 <= k < |items| ==> (Decide(s, parseTime, items[k]) == Submit <==> k in ks)
    decreases |items|
  {
    if items == [] {
      ks := [];
    } else {
      var ks' := ScheduleSelectsExactly(s, parseTime, items[1..]);
      var marks := Marks(s, parseTime, items);
      assert marks[1..] == Marks(s, parseTime, items[1..]);
      assert Ids(items)[1..] == Ids(items[1..]);
      PicksAtCons(marks, Ids(items), Schedule(s, parseTime, items[1..]).jobs, ks');
      ks := if marks[0] then [0] + Shift(ks') else Shift(ks');
    }
  }

  /** `x` is the id of some enumerated resource that `Decide` submits. */
  ghost predicate IdOfEligible(s: Settings, parseTime: string -> Option<Int64>, items: seq<Descriptor>, x: string)
  {
    exists k :: 0 <= k < |items| && items[k].id == x && Decide(s, parseTime, items[k]) == Submit
  }

  /** Every job is the id of a resource that `Decide` submits, however the walk ended. */
  lemma {:induction false} JobsAreEligible(s: Settings, parseTime: string -> Option<Int64>, items: seq<Descriptor>)
    ensures forall x :: x in Schedule(s, parseTime, items).jobs ==> IdOfEligible(s, parseTime, items, x)
    decreases |items|
  {
    if items != [] {
      var rest := items[1..];
      JobsAreEligible(s, parseTime, rest);
      var jobs := Schedule(s, parseTime, items).jobs;
      var jobs' := Schedule(s, parseTime, rest).jobs;
      forall x | x in jobs
        ensures IdOfEligible(s, parseTime, items, x)
      {
        if Decide(s, parseTime, items[0]) == Submit && x == items[0].id {
          assert items[0].id == x;
        } else {
          assert x in jobs';
          var k' :| 0 <= k' < |rest| && rest[k'].id == x && Decide(s, parseTime, rest[k']) == Submit;
          assert items[k' + 1] == rest[k'];
        }
      }
    }
  }

  /**
   * A walk that does not reach the end stops at a resource `m`: the jobs are exactly those of
   * the resources before it, and `m` is the one whose date panicked or the first job due with
   * no worker to take it.
   */
  lemma {:induction false} ScheduleStopsAt(s: Settings, parseTime: string -> Option<Int64>, items: seq<Descriptor>)
    returns (m: int)
    requires Schedule(s, parseTime, items).stop != Finished
    ensures 0 <= m < |items|
    ensures Schedule(s, parseTime, items[..m]) == Plan(Schedule(s, parseTime, items).jobs, Finished)
    ensures Schedule(s, parseTime, items).stop == DatePanic ==> Decide(s, parseTime, items[m]) == Crash
    ensures Schedule(s, parseTime, items).stop == Deadlock ==>
      Decide(s, parseTime, items[m]) == Submit && s.workers < 1
    decreases |items|
  {
    assert items != [];
    var d := Decide(s, parseTime, items[0]);
    if d == Crash || (d == Submit && s.workers < 1) {
      m := 0;
      assert items[..0] == [];
    } else {
      var m' := ScheduleStopsAt(s, parseTime, items[1..]);
      m := m' + 1;
      assert items[..m][1..] == items[1..][..m'];
      assert items[..m][0] == items[0];
      assert items[m] == items[1..][m'];
    }
  }

  /** `xs` can be obtained from `ys` by deleting elements: it keeps their relative order. */
  ghost predicate IsSubsequence(xs: seq<string>, ys: seq<string>)
    decreases |ys|
  {
    || xs == []
    || (ys != [] && ((xs[0] == ys[0] && IsSubsequence(xs[1..], ys[1..])) || IsSubsequence(xs, ys[1..])))
  }

  /** The jobs appear in enumeration order: they are a subsequence of the enumerated ids. */
  lemma {:induction false} JobsInEnumerationOrder(s: Settings, parseTime: string -> Option<Int64>, items: seq<Descriptor>)
    ensures IsSubsequence(Schedule(s, parseTime, items).jobs, Ids(items))
    decreases |items|
  {
    if items != [] {
      JobsInEnumerationOrder(s, parseTime, items[1..]);
      assert Ids(items)[1..] == Ids(items[1..]);
    }
  }

  /** The name of an image (nil or not) only changes what is logged, never the decision. */
  lemma ImageNameIrrelevant(s: Settings, parseTime: string -> Option<Int64>, id: string, creationDate: string,
                            name1: Option<string>, name2: Option<string>)
    ensures Decide(s, parseTime, Image(id, creationDate, name1)) == Decide(s, parseTime, Image(id, creationDate, name2))
  {
  }

  /** Over images only: no job ever carries an id from the exclusion list, whatever its age. */
  lemma ExcludedImagesNeverJobs(s: Settings, parseTime: string -> Option<Int64>, items: seq<Descriptor>)
    requires forall k :: 0 <= k < |items| ==> items[k].Image?
    ensures forall x :: x in Schedule(s, parseTime, items).jobs ==> x !in s.exclusions
  {
    JobsAreEligible(s, parseTime, items);
    forall x | x in Schedule(s, parseTime, items).jobs
      ensures x !in s.exclusions
    {
      var k :| 0 <= k < |items| && items[k].id == x && Decide(s, parseTime, items[k]) == Submit;
    }
  }

  /** Over snapshots only: every job is the id of a completed snapshot older than delta. */
  lemma SnapshotJobsCompletedAndStale(s: Settings, parseTime: string -> Option<Int64>, items: seq<Descriptor>)
    requires forall k :: 0 <= k < |items| ==> items[k].Snapshot?
    ensures forall x :: x in Schedule(s, parseTime, items).jobs ==>
      exists k :: 0 <= k < |items| && items[k].id == x
        && items[k].state == "completed" && Stale(s.now, s.delta, items[k].startTime)
  {
    JobsAreEligible(s, parseTime, items);
    forall x | x in Schedule(s, parseTime, items).jobs
      ensures exists k :: 0 <= k < |items| && items[k].id == x &&
                            items[k].state == "completed" && Stale(s.now, s.delta, items[k].startTime)
    {
      var k :| 0 <= k < |items| && items[k].id == x && Decide(s, parseTime, items[k]) == Submit;
      assert items[k].state == "completed" && Stale(s.now, s.delta, items[k].startTime);
    }
  }

  /** Over volumes only: every job is the id of an available volume older than delta. */
  lemma VolumeJobsAvailableAndStale(s: Settings, parseTime: string -> Option<Int64>, items: seq<Descriptor>)
    requires forall k :: 0 <= k < |items| ==> items[k].Volume?
    ensures forall x :: x in Schedule(s, parseTime, items).jobs ==>
      exists k :: 0 <= k < |items| && items[k].id == x
        && items[k].state == "available" && Stale(s.now, s.delta, items[k].createTime)
  {
    JobsAreEligible(s, parseTime, items);
    forall x | x in Schedule(s, parseTime, items).jobs
      ensures exists k :: 0 <= k < |items| && items[k].id == x &&
                            items[k].state == "available" && Stale(s.now, s.delta, items[k].createTime)
    {
      var k :| 0 <= k < |items| && items[k].id == x && Decide(s, parseTime, items[k]) == Submit;
      assert items[k].state == "available" && Stale(s.now, s.delta, items[k].createTime);
    }
  }

  /**
   * With at least one worker started (four by default) the walk never blocks;
   * it can then only end at the last resource or at a date panic.
   */
  lemma {:induction false} WorkersNeverDeadlock(s: Settings, parseTime: string -> Option<Int64>, items: seq<Descriptor>)
    requires s.workers >= 1
    ensures Schedule(s, parseTime, items).stop != Deadlock
    decreases |items|
  {
    if items != [] {
      WorkersNeverDeadlock(s, parseTime, items[1..]);
    }
  }

  /** Snapshots and volumes never crash the walk; with at least one worker it always finishes. */
  lemma {:induction false} NoImagesFinish(s: Settings, parseTime: string -> Option<Int64>, items: seq<Descriptor>)
    requires forall k :: 0 <= k < |items| ==> !items[k].Image?
    requires s.workers >= 1
    ensures Schedule(s, parseTime, items).stop == Finished
    decreases |items|
  {
    if items != [] {
      NoImagesFinish(s, parseTime, items[1..]);
    }
  }
}
