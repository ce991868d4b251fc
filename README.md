# EC2 reaper: selection and dispatch, modelled in Dafny

The repository holds three Go programs that clean up an AWS account. `delete-ami-parallel`
deregisters machine images (AMIs). `delete-snapshots-parallel` deletes EBS snapshots.
`delete-unused-volumes-parallel` deletes EBS volumes. Each program does the same things in order:
1. It reads its flags: `-duration` (the age threshold `delta`, default 604800 s) and `-executer`
   (the number of worker goroutines, default 4).
2. It reads the time `t` once.
3. It lists the resources. If the listing fails, the process stops.
4. It walks the list in order. Each resource that qualifies is sent as a job to a pool of
   worker goroutines. A worker calls the delete RPC and sends the job id back. `main` waits for
   that result before it looks at the next resource.

This project models that walk once, for all three kinds:

- `Descriptors`: one resource as a variant `Image | Snapshot | Volume`, the run-wide `Settings`,
  and the shared age test `t - created > delta` on Go `int64`. `Int64Arith` writes out the
  wrap-around of `int64` subtraction.
- `Images`, `Snapshots`, `Volumes`: one eligibility function per kind. For images this covers
  the exclusion search `AmiCheck`, the creation-date rewrite, and its `strings.Split`
  (`GoStrings`, where `Join` undoes `Split`).
- `Selection`: `Schedule`, the specification of the walk. It gives the ids that become jobs, in
  order, and how the walk ends: at the last resource, at a panic of the date rewrite, or blocked
  for good when no worker was started.
- `Workers`: the worker loop and the channel handshake, reduced to what can be observed: a trace
  of `Sent`, `Attempted` and `Received` events. The lemmas show that at most one job is ever in
  flight, and that each job gets exactly one attempt and one result. The worker loop
  `WorkerPool` is modelled on its own and proved to make the same attempts and results as the
  trace; the dispatch loop calls one worker turn, `Serve`, per job.
- `Reaper`: `Dispatch`, the loop itself as a method proved against `Schedule` and the trace.
  `Reap` puts the listing failure in front of it.

Three things the programs take from outside become parameters:
- the current time becomes `Settings.now`;
- `time.Parse` becomes `parseTime`;
- the outcome of each delete RPC becomes `fails`.

Behaviour of the programs worth noting:
- The exclusion list applies to images only.
- A creation date that does not parse counts as Go's zero time (year 1). It is not skipped, so
  such an image is deleted unless `delta` exceeds the time since year 1.
- Only one delete is ever in flight, whatever `-executer` says.
- There is no dry-run, no summary and no cancellation.
- With `-executer` below 1, the first job due is never taken, and `main` blocks forever
  waiting for its result.

All three programs abort before dispatch when the listing fails:
`delete-ami-parallel/main.go:106-109`, `delete-snapshots-parallel/main.go:78-81` and
`delete-unused-volumes-parallel/main.go:67-71`. The worker loops are identical in all three
(`WorkerPool`, with `DeregisterAmi`, `RemoveSnapshot` or `DeleteUnusedVolumes`). Each is modelled
once below.

## Model

| member | source | states |
|---|---|---|
| `Int64Arith.Sub64` | delete-ami-parallel/main.go:129 | Go's int64 `t - created` equals the true difference when it fits, and is off by exactly 2^64 when it overflows |
| `Descriptors.Stale` | delete-ami-parallel/main.go:129 | the shared age test `t - created > delta` on int64: without overflow it holds exactly when the age strictly exceeds `delta`; an age past the int64 range wraps negative and never exceeds a non-negative `delta` |
| `Descriptors.AgeEqualToDeltaIsNotStale` | delete-snapshots-parallel/main.go:91 | a resource exactly `delta` seconds old fails the age test, with no overflow assumption needed |
| `Images.AmiCheck` | delete-ami-parallel/main.go:50-57 | the exclusion search returns true exactly when the id occurs in the list, so it returns false on an empty list |
| `GoStrings.Split` | delete-ami-parallel/main.go:126 | `strings.Split` never returns an empty slice, so piece `[0]` always exists; its other properties are the lemmas below |
| `GoStrings.SplitPiecesLackSeparator` | delete-ami-parallel/main.go:126 | no piece produced by `strings.Split` contains the separator |
| `GoStrings.SplitWithoutSeparator` | delete-ami-parallel/main.go:126 | `strings.Split` returns one piece, the whole input, exactly when the separator is absent, so index `[1]` exists exactly when it is present |
| `GoStrings.JoinSplit` | delete-ami-parallel/main.go:126 | `strings.Split` loses nothing: joining the pieces with the separator gives back the input |
| `GoStrings.SplitPrefix` | delete-ami-parallel/main.go:126 | a separator-free prefix is glued onto the first piece of what follows it |
| `GoStrings.SplitAtFirst` | delete-ami-parallel/main.go:126 | piece 0 is the text before the first separator, and the remaining pieces split the text after it |
| `Images.NormalizeDate` | delete-ami-parallel/main.go:126 | the date rewrite panics (index `[1]` out of range) exactly when the text before the first "." has no "T" |
| `Images.NormalizeIsoDate` | delete-ami-parallel/main.go:126 | for day "T" clock followed by nothing, by ".fraction" or by another "T", the rewrite yields day, one space, clock |
| `Images.HeadBeforeDot` | delete-ami-parallel/main.go:126 | the text before the first "." of such a date is the day, "T", the clock and possibly more after a second "T" |
| `Images.NormalizeProviderExample` | delete-ami-parallel/main.go:126 | "2016-01-02T03:04:05.000Z" is rewritten to "2016-01-02 03:04:05" |
| `Images.CreationUnix` | delete-ami-parallel/main.go:127-128 | the parsed instant when `time.Parse` succeeds; otherwise the zero time, so a failed parse cannot be told apart from a date of year 1 |
| `Images.ImageDecision` | delete-ami-parallel/main.go:118-129 | an excluded image is skipped whatever its date, even one on which the rewrite would panic; the image crashes the run exactly when it is not excluded and its date has no "T" before the first "." |
| `Images.ImageAgeThreshold` | delete-ami-parallel/main.go:126-129 | a non-excluded image with a well-formed date is submitted exactly when `t - created > delta`; at age equal to `delta` it is skipped |
| `Images.UnparsableDateIsZeroTime` | delete-ami-parallel/main.go:127-129 | when `time.Parse` fails, its discarded error leaves the zero time (year 1), and the image is submitted exactly when that instant is older than `delta` |
| `Snapshots.SnapshotEligible` | delete-snapshots-parallel/main.go:91 | without overflow, a snapshot qualifies exactly when `t - StartTime > delta` and its state is "completed" |
| `Snapshots.SnapshotAgeEqualToDeltaKept` | delete-snapshots-parallel/main.go:91 | a snapshot exactly `delta` old never qualifies |
| `Snapshots.SnapshotNotCompletedKept` | delete-snapshots-parallel/main.go:91 | a snapshot in any state other than "completed" never qualifies, however old |
| `Volumes.VolumeEligible` | delete-unused-volumes-parallel/main.go:81 | without overflow, a volume qualifies exactly when `t - CreateTime > delta` and its state is "available" |
| `Volumes.VolumeAgeEqualToDeltaKept` | delete-unused-volumes-parallel/main.go:81 | a volume exactly `delta` old never qualifies |
| `Volumes.VolumeNotAvailableKept` | delete-unused-volumes-parallel/main.go:81 | a volume in any state other than "available" never qualifies, however old |
| `Selection.Decide` | delete-ami-parallel/main.go:118-129 | the condition of the loop for the resource's kind; only the image loop can panic, snapshots and volumes are only submitted or skipped |
| `Selection.Schedule` | delete-ami-parallel/main.go:118-144 | the walk: at most one job per resource, and no job at all handed over when no worker was started; which jobs, in which order, and where it stops are the lemmas below |
| `Selection.ScheduleSelectsExactly` | delete-ami-parallel/main.go:118-144 | a walk that reaches the end makes jobs of exactly the resources whose eligibility holds, each once, in enumeration order (an increasing list of their positions is the witness) |
| `Selection.JobsAreEligible` | delete-unused-volumes-parallel/main.go:80-88 | however the walk ends, every job is the id of an enumerated resource whose eligibility holds |
| `Selection.JobsInEnumerationOrder` | delete-snapshots-parallel/main.go:90-99 | the jobs are a subsequence of the enumerated ids |
| `Selection.ScheduleStopsAt` | delete-ami-parallel/main.go:112-144 | a walk that stops early stops at one resource: the jobs are those of the resources before it, and that resource either panicked in the date rewrite or was due with no worker started |
| `Selection.WorkersNeverDeadlock` | delete-ami-parallel/main.go:114-116 | with at least one worker started, the walk never blocks waiting for a worker |
| `Selection.NoImagesFinish` | delete-snapshots-parallel/main.go:86-99 | snapshot and volume walks with at least one worker always reach the end |
| `Selection.ImageNameIrrelevant` | delete-ami-parallel/main.go:130-142 | whether the image name is nil or not, the decision is the same (both branches submit the same id) |
| `Selection.ExcludedImagesNeverJobs` | delete-ami-parallel/main.go:118-122 | over images, no job carries an id from the exclusion list, whatever its age |
| `Selection.SnapshotJobsCompletedAndStale` | delete-snapshots-parallel/main.go:90-99 | over snapshots, every job is the id of a "completed" snapshot older than `delta` |
| `Selection.VolumeJobsAvailableAndStale` | delete-unused-volumes-parallel/main.go:80-88 | over volumes, every job is the id of an "available" volume older than `delta` |
| `Workers.Serve` | delete-ami-parallel/main.go:28-47 | one worker turn makes one delete attempt on the job and returns the job id as its result, whether or not the delete errs |
| `Workers.WorkerPool` | delete-snapshots-parallel/main.go:19-25 | a worker draining its jobs makes one attempt per job, in order, and emits one result per job equal to that job; these are exactly the attempts and receives of the dispatch trace `Handshake` |
| `Workers.Exchange` | delete-ami-parallel/main.go:132-135 | one job's handshake is three events (send, delete attempt, receive), each about that job |
| `Workers.Handshake` | delete-ami-parallel/main.go:118-144 | the dispatch trace has three events per job; its layout, in-flight count and ids are the lemmas below |
| `Workers.HandshakeAppend` | delete-ami-parallel/main.go:118-144 | one more job extends the trace by exactly that job's send, attempt and receive |
| `Workers.OneJobInFlight` | delete-ami-parallel/main.go:132-142 | at every point of the dispatch trace at most one job has been sent and not yet answered, and none at the end |
| `Workers.EveryJobAttemptedAndAnswered` | delete-unused-volumes-parallel/main.go:18-24 | the ids sent, the ids whose delete is attempted and the ids received are all the job list, in order: no job is dropped or duplicated |
| `Workers.HandshakeLayout` | delete-snapshots-parallel/main.go:94-97 | job j is sent at step 3j, deleted at 3j+1 and answered at 3j+2, so each awaited result is the job just sent |
| `Reaper.Dispatch` | delete-ami-parallel/main.go:118-145 | the loop ends as `Schedule` says and its trace is the handshake of exactly the jobs `Schedule` selects |
| `Reaper.Reap` | delete-ami-parallel/main.go:106-109 | a failed listing aborts with an empty trace (no job submitted); a successful one runs the dispatch loop over the listed resources |

## Left out

- The AWS SDK is out: sessions, credentials, and the `DescribeImages`, `DescribeSnapshots` and
  `DescribeVolumes` calls. The listing is the `Listing` input. Failures before the loop are all
  the one `ListingFailed` case: unreadable or malformed YAML, missing credentials, a failed listing.
- The delete RPCs (`DeregisterImage`, `DeleteSnapshot`, `DeleteVolume`) are out. Each is an
  attempt event, and `fails(id)` says whether it errs. The model does not say which RPC is used.
  Error printing is not modelled, because a printed error changes nothing else.
- `time.Now()` is the parameter `Settings.now`.
- `time.Parse` is the parameter `parseTime`, and its calendar arithmetic is not modelled. The
  error it discards is modelled: a failed parse gives the zero time.
- Flag parsing, YAML decoding, `fmt.Println` logging and the region and owner constants are out.
  The flag values are fields of `Settings`.
- Exit codes are not modelled. A `panic` and `os.Exit(1)` both count as "aborted" (`Aborted`,
  `DatePanic`). A run that blocks forever is `Deadlock`; whether the Go runtime then reports
  a deadlock or the process simply hangs is not modelled.
- Goroutine scheduling, worker ids, and the channels themselves are out. The `close(jobs)` in the
  AMI program and its absence in the other two make no observable difference here. Their effect
  is the sequential trace of `Workers.Handshake`.
- Dereferences of nil `ImageId`, `CreationDate`, `State`, `StartTime`, `CreateTime` or
  `SnapshotId` are not modelled. The provider always sets these fields, so the model takes them
  as present. `Name` is modelled as optional.
- Go strings are bytes, and the model uses characters. The rewrite only looks for "." and "T",
  which never occur inside a multi-byte UTF-8 sequence.
