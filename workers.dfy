/**
 * The worker goroutines and the job/result channel pair, reduced to what can be observed:
 * the sequence of sends, delete attempts and receives. The delete call itself is a foreign
 * RPC; `fails(id)` says whether it returns an error for `id`.
 */
module Workers {

  /**
   * `Sent(id)`: the job `id` is put on the jobs channel. `Attempted(id, failed)`: a worker calls
   * the provider's delete for `id`, which errs when `failed`. `Received(id)`: `main` takes `id`
   * from the results channel.
   */
  datatype Event = Sent(id: string) | Attempted(id: string, failed: bool) | Received(id: string)

  /**
   * One turn of a worker's `for j := range jobs` loop: one delete attempt, whose error is only
   * printed, then the job id itself goes back as the result.
   */
  method Serve(job: string, fails: string -> bool) returns (attempt: Event, result: string)
    ensures attempt.Attempted? && attempt.id == job && attempt.failed == fails(job)
    ensures result == job
  {
    var failed := fails(job);
    attempt := Attempted(job, failed);
    result := job;
  }

  /**
   * A worker draining the jobs it is given: one attempt and one result per job, in the order
   * taken, each result equal to its job whether or not the delete failed. These are exactly the
   * attempts and results of the dispatch trace `Handshake(jobs, fails)`: its `i`th attempt and
   * its `i`th receive.
   */
  method WorkerPool(jobs: seq<string>, fails: string -> bool) returns (attempts: seq<Event>, results: seq<string>)
    ensures results == jobs
    ensures |attempts| == |jobs|
    ensures forall i :: 0 <= i < |jobs| ==> attempts[i] == Attempted(jobs[i], fails(jobs[i]))
    ensures forall i :: 0 <= i < |jobs| ==>
      attempts[i] == Handshake(jobs, fails)[3 * i + 1] && Handshake(jobs, fails)[3 * i + 2] == Received(results[i])
  {
    attempts, results := [], [];
    for i := 0 to |jobs|
      invariant results == jobs[..i]
      invariant |attempts| == i
      invariant forall k :: 0 <= k < i ==> attempts[k] == Attempted(jobs[k], fails(jobs[k]))
    {
      var attempt, result := Serve(jobs[i], fails);
      attempts, results := attempts + [attempt], results + [result];
    }
    HandshakeLayout(jobs, fails);
  }

  /**
   * One job's handshake: `main` sends it, a worker deletes and answers, `main` receives. Every
   * event of it concerns that one job, whether or not the delete fails.
   */
  function Exchange(job: string, fails: string -> bool): (events: seq<Event>)
    ensures |events| == 3 && events[0].id == job && events[1].id == job && events[2].id == job
  {
    [Sent(job), Attempted(job, fails(job)), Received(job)]
  }

  /**
   * The trace of the dispatch loop for the given jobs, each handshake finished before the next:
   * three events per job.
   */
  function Handshake(jobs: seq<string>, fails: string -> bool): (events: seq<Event>)
    ensures |events| == 3 * |jobs|
    decreases |jobs|
  {
    if jobs == [] then [] else Exchange(jobs[0], fails) + Handshake(jobs[1..], fails)
  }

  lemma {:induction false} HandshakeAppend(jobs: seq<string>, job: string, fails: string -> bool)
    ensures Handshake(jobs + [job], fails) == Handshake(jobs, fails) + Exchange(job, fails)
    decreases |jobs|
  {
    if jobs == [] {
      assert jobs + [job] == [job];
    } else {
      assert (jobs + [job])[1..] == jobs[1..] + [job];
      HandshakeAppend(jobs[1..], job, fails);
    }
  }

  /** Jobs sent and not yet answered: sends minus receives. */
  function InFlight(events: seq<Event>): int
    decreases |events|
  {
    if events == [] then 0
    else (match events[0] case Sent(_) => 1 case Attempted(_, _) => 0 case Received(_) => -1) + InFlight(events[1..])
  }

  lemma {:induction false} InFlightAppend(a: seq<Event>, b: seq<Event>)
    ensures InFlight(a + b) == InFlight(a) + InFlight(b)
    decreases |a|
  {
    if a == [] {
      assert a + b == b;
    } else {
      assert (a + b)[1..] == a[1..] + b;
      InFlightAppend(a[1..], b);
    }
  }

  /** Within one handshake: one job in flight after the send and after the attempt, none at the end. */
  lemma ExchangeInFlight(job: string, fails: string -> bool)
    ensures InFlight(Exchange(job, fails)[..0]) == 0
    ensures InFlight(Exchange(job, fails)[..1]) == 1
    ensures InFlight(Exchange(job, fails)[..2]) == 1
    ensures InFlight(Exchange(job, fails)[..3]) == 0
  {
    var e := Exchange(job, fails);
    assert e[..1] == [Sent(job)] && e[..1][1..] == [];
    assert e[..2][1..] == [Attempted(job, fails(job))] && e[..2][1..][1..] == [];
    assert e[..3] == e && e[1..] == [Attempted(job, fails(job)), Received(job)];
    assert e[1..][1..] == [Received(job)] && e[1..][1..][1..] == [];
    assert InFlight(e[1..][1..]) == -1;
    assert InFlight(e[1..]) == -1;
  }

  /**
   * At every point of the trace at most one job is in flight, and none is left over at the end:
   * the pool of workers never runs two deletes at once.
   */
  lemma {:induction false} OneJobInFlight(jobs: seq<string>, fails: string -> bool)
    ensures forall n :: 0 <= n <= |Handshake(jobs, fails)| ==> 0 <= InFlight(Handshake(jobs, fails)[..n]) <= 1
    ensures InFlight(Handshake(jobs, fails)) == 0
    decreases |jobs|
  {
    if jobs != [] {
      var e := Exchange(jobs[0], fails);
      var rest := Handshake(jobs[1..], fails);
      var h := Handshake(jobs, fails);
      OneJobInFlight(jobs[1..], fails);
      ExchangeInFlight(jobs[0], fails);
      assert e[..3] == e;
      InFlightAppend(e, rest);
      forall n | 0 <= n <= |h|
        ensures 0 <= InFlight(h[..n]) <= 1
      {
        if n <= 3 {
          assert h[..n] == e[..n];
        } else {
          assert h[..n] == e + rest[..n - 3];
          InFlightAppend(e, rest[..n - 3]);
        }
      }
    }
  }

  /** The three steps of a handshake. */
  datatype Phase = SendPhase | AttemptPhase | ReceivePhase

  function PhaseOf(e: Event): Phase
  {
    match e
    case Sent(_) => SendPhase
    case Attempted(_, _) => AttemptPhase
    case Received(_) => ReceivePhase
  }

  /** The ids of the events of one phase, in trace order. */
  function IdsIn(events: seq<Event>, phase: Phase): seq<string>
    decreases |events|
  {
    if events == [] then []
    else (if PhaseOf(events[0]) == phase then [events[0].id] else []) + IdsIn(events[1..], phase)
  }

  lemma {:induction false} IdsInAppend(a: seq<Event>, b: seq<Event>, phase: Phase)
    ensures IdsIn(a + b, phase) == IdsIn(a, phase) + IdsIn(b, phase)
    decreases |a|
  {
    if a == [] {
      assert a + b == b;
    } else {
      assert (a + b)[1..] == a[1..] + b;
      IdsInAppend(a[1..], b, phase);
    }
  }

  lemma ExchangeIds(job: string, fails: string -> bool, phase: Phase)
    ensures IdsIn(Exchange(job, fails), phase) == [job]
  {
    var e := Exchange(job, fails);
    assert e[1..] == [Attempted(job, fails(job)), Received(job)];
    assert e[1..][1..] == [Received(job)] && e[1..][1..][1..] == [];
    assert IdsIn(e[1..][1..], phase) == if phase == ReceivePhase then [job] else [];
    assert IdsIn(e[1..], phase) == if phase != SendPhase then [job] else [];
  }

  /**
   * No job is dropped or duplicated: the jobs sent, the deletes attempted and the results
   * received are the same ids in the same order.
   */
  lemma {:induction false} EveryJobAttemptedAndAnswered(jobs: seq<string>, fails: string -> bool, phase: Phase)
    ensures IdsIn(Handshake(jobs, fails), phase) == jobs
    decreases |jobs|
  {
    if jobs != [] {
      EveryJobAttemptedAndAnswered(jobs[1..], fails, phase);
      IdsInAppend(Exchange(jobs[0], fails), Handshake(jobs[1..], fails), phase);
      ExchangeIds(jobs[0], fails, phase);
      assert [jobs[0]] + jobs[1..] == jobs;
    }
  }

  /**
   * The layout of the trace: job `j` is sent at step 3j, deleted at 3j+1 and answered at 3j+2,
   * so the result `main` waits for is the job it just sent, even when the delete failed.
   */
  lemma {:induction false} HandshakeLayout(jobs: seq<string>, fails: string -> bool)
    ensures |Handshake(jobs, fails)| == 3 * |jobs|
    ensures forall j :: 0 <= j < |jobs| ==>
      && Handshake(jobs, fails)[3 * j] == Sent(jobs[j])
      && Handshake(jobs, fails)[3 * j + 1] == Attempted(jobs[j], fails(jobs[j]))
      && Handshake(jobs, fails)[3 * j + 2] == Received(jobs[j])
    decreases |jobs|
  {
    if jobs != [] {
      var rest := jobs[1..];
      HandshakeLayout(rest, fails);
      var h := Handshake(jobs, fails);
      var h' := Handshake(rest, fails);
      assert h == Exchange(jobs[0], fails) + h';
      forall j | 1 <= j < |jobs|
        ensures h[3 * j] == Sent(jobs[j]) && h[3 * j + 1] == Attempted(jobs[j], fails(jobs[j]))
             && h[3 * j + 2] == Received(jobs[j])
      {
        assert jobs[j] == rest[j - 1];
        assert h[3 * j] == h'[3 * (j - 1)];
        assert h[3 * j + 1] == h'[3 * (j - 1) + 1];
        assert h[3 * j + 2] == h'[3 * (j - 1) + 2];
      }
    }
  }
}
