/**
 * The part of `main` shared by the three programs: after a successful enumeration, walk the
 * resources in order and hand each eligible id to the worker pool, waiting for its result
 * before looking at the next resource.
 */
module Reaper {
  import opened Options
  import opened Int64Arith
  import opened Descriptors
  import opened Selection
  import opened Workers

  /**
   * The dispatch loop. `Decide` is the kind's inline condition (for images the exclusion check
   * and the date rewrite); on a job the loop sends it, the worker serves it, and the loop
   * receives the result. It returns the jobs, the trace, and how the loop ended.
   */
  method Dispatch(s: Settings, parseTime: string -> Option<Int64>, fails: string -> bool, items: seq<Descriptor>)
    returns (jobs: seq<string>, events: seq<Event>, stop: Stop)
    ensures Plan(jobs, stop) == Schedule(s, parseTime, items)
    ensures events == Handshake(jobs, fails)
  {
    jobs, events := [], [];
    var i := 0;
    while i < |items|
      invariant 0 <= i <= |items|
      invariant Schedule(s, parseTime, items) == Resume(jobs, Schedule(s, parseTime, items[i..]))
      invariant events == Handshake(jobs, fails)
    {
      var decision := Decide(s, parseTime, items[i]);
      ResumeStep(s, parseTime, items, i, jobs, decision);
      if decision == Crash {
        stop := DatePanic;
        return;
      }
      if decision == Submit {
        if s.workers < 1 {
          stop := Deadlock;
          return;
        }
        var job := items[i].id;
        events := events + [Sent(job)];
        var attempt, result := Serve(job, fails);
        events := events + [attempt, Received(result)];
        HandshakeAppend(jobs, job, fails);
        jobs := jobs + [job];
      }
      i := i + 1;
    }
    stop := Finished;
    assert items[i..] == [];
  }

  /** The plan that continues after the jobs already sent. */
  function Resume(sent: seq<string>, rest: Plan): (p: Plan)
    ensures rest.jobs == [] ==> p == Plan(sent, rest.stop)
  {
    assert sent + [] == sent;
    Plan(sent + rest.jobs, rest.stop)
  }

  lemma ResumeAppend(sent: seq<string>, job: string, rest: Plan)
    ensures Resume(sent, Plan([job] + rest.jobs, rest.stop)) == Resume(sent + [job], rest)
  {
    assert sent + ([job] + rest.jobs) == (sent + [job]) + rest.jobs;
  }

  /**
   * One turn of the dispatch loop in terms of the walk: a panic or a job with no worker ends
   * the walk with the jobs sent so far; otherwise the walk resumes after resource `i`, with its
   * id added to the jobs sent when it was submitted.
   */
  lemma ResumeStep(s: Settings, parseTime: string -> Option<Int64>, items: seq<Descriptor>, i: int,
                   sent: seq<string>, d: Decision)
    requires 0 <= i < |items| && d == Decide(s, parseTime, items[i])
    requires Schedule(s, parseTime, items) == Resume(sent, Schedule(s, parseTime, items[i..]))
    ensures d == Crash ==> Schedule(s, parseTime, items) == Plan(sent, DatePanic)
    ensures d == Submit && s.workers < 1 ==> Schedule(s, parseTime, items) == Plan(sent, Deadlock)
    ensures d == Skip ==> Schedule(s, parseTime, items) == Resume(sent, Schedule(s, parseTime, items[i + 1..]))
    ensures d == Submit && s.workers >= 1 ==>
              Schedule(s, parseTime, items) == Resume(sent + [items[i].id], Schedule(s, parseTime, items[i + 1..]))
  {
    ScheduleStep(s, parseTime, items, i, d);
    ResumeAppend(sent, items[i].id, Schedule(s, parseTime, items[i + 1..]));
  }

  /** The result of the enumeration call: the resources, or the provider's error. */
  datatype Listing = Listed(items: seq<Descriptor>) | ListingFailed

  /** How the process ends: the dispatch loop ran (and stopped as given), or it never started. */
  datatype Exit = Ran(stop: Stop) | Aborted

  /**
   * One run after start-up: a failed enumeration aborts the process before any worker gets a
   * job; otherwise the dispatch loop runs over the listed resources.
   */
  method Reap(s: Settings, parseTime: string -> Option<Int64>, fails: string -> bool, listing: Listing)
    returns (events: seq<Event>, exit: Exit)
    ensures listing.ListingFailed? ==> exit == Aborted && events == []
    ensures listing.Listed? ==> exit == Ran(Schedule(s, parseTime, listing.items).stop)
    ensures listing.Listed? ==> events == Handshake(Schedule(s, parseTime, listing.items).jobs, fails)
  {
    match listing
    case ListingFailed =>
      events, exit := [], Aborted;
    case Listed(items) =>
      var jobs, stop;
      jobs, events, stop := Dispatch(s, parseTime, fails, items);
      exit := Ran(stop);
  }
}
