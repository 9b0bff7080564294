/**
 * Worker batches of the runner (`worker_job_manager.py`): cutting commands into batches, and waiting for the
 * jobs of a batch while Kubernetes replies and job outputs arrive in any order. Queuing and polling are taken
 * as replies of the environment.
 */
module WorkerJobs {
  import opened Text

  // ----- cutting commands into batches

  /** A queued worker: its command, its per-job extra, and the two numbers in its job name. */
  datatype Spawned<C, X> = Spawned(command: C, extra: Option<X>, batch: nat, index: nat)

  /** The worker of the command at a global index. */
  function WorkerAt<C, X>(commands: seq<C>, extras: seq<X>, size: nat, k: nat): Spawned<C, X>
    requires size > 0 && k < |commands|
  {
    Spawned(commands[k], if k < |extras| then Some(extras[k]) else None, k / size, k % size)
  }

  function Workers<C, X>(commands: seq<C>, extras: seq<X>, size: nat): (workers: seq<Spawned<C, X>>)
    requires size > 0
    ensures |workers| == |commands|
  {
    seq(|commands|, k requires 0 <= k < |commands| => WorkerAt(commands, extras, size, k))
  }

  lemma DivModOf(b: nat, j: nat, size: nat)
    requires j < size
    ensures (b * size + j) / size == b && (b * size + j) % size == j
  {
    var k := b * size + j;
    var q, r := k / size, k % size;
    assert (q - b) * size == j - r;
    MultipleIsFar(q - b, size);
  }

  lemma MultipleIsFar(d: int, size: int)
    requires size >= 0
    ensures d > 0 ==> d * size >= size
    ensures d < 0 ==> d * size <= -size
  {
  }

  /** The worker at place `j` of batch `b` has the command and the extra of its global index, and the two numbers. */
  predicate IsWorker<C(==), X(==)>(w: Spawned<C, X>, commands: seq<C>, extras: seq<X>, b: nat, j: nat, size: nat)
  {
    var k := b * size + j;
    k < |commands| && w.command == commands[k] && w.extra == (if k < |extras| then Some(extras[k]) else None)
    && w.batch == b && w.index == j
  }

  /** Where batch `b` starts. */
  function StartOf(b: nat, size: nat): nat { b * size }

  lemma StartIs(b: nat, size: nat)
    ensures StartOf(b, size) == b * size
  {
  }

  /** The parameters of the jobs of one batch. */
  method BuildBatch<C, X>(commands: seq<C>, extras: seq<X>, size: nat, b: nat, start: nat, end: nat)
    returns (batch: seq<Spawned<C, X>>)
    requires start == StartOf(b, size) && start <= end <= |commands| && size > 0 && end - start <= size
    ensures batch == Workers(commands, extras, size)[start..end]
    ensures forall j :: 0 <= j < |batch| ==> IsWorker(batch[j], commands, extras, b, j, size)
  {
    batch := [];
    ghost var all := Workers(commands, extras, size);
    hide Workers, StartOf;
    for j := 0 to end - start
      invariant batch == all[start..start + j]
      invariant forall i :: 0 <= i < |batch| ==> IsWorker(batch[i], commands, extras, b, i, size)
    {
      var k := start + j;
      var extra := if k < |extras| then Some(extras[k]) else None;
      WorkerFrom(commands, extras, size, b, j);
      OneMore(all, start, k);
      StartIs(b, size);
      batch := batch + [Spawned(commands[k], extra, b, j)];
    }
  }

  /**
   * Cuts the commands into batches of the given size. Read in order the batches are the commands in order,
   * each with the extra of its global index; all batches are full but the last, which is not empty.
   */
  method SpawnBatch<C, X>(commands: seq<C>, extras: seq<X>, size: nat) returns (batches: seq<seq<Spawned<C, X>>>)
    requires size > 0
    ensures Flatten(batches) == Workers(commands, extras, size)
    ensures forall b :: 0 <= b < |batches| ==> 0 < |batches[b]| <= size
    ensures forall b :: 0 <= b < |batches| - 1 ==> |batches[b]| == size
    ensures forall b, j :: 0 <= b < |batches| && 0 <= j < |batches[b]| ==> IsWorker(batches[b][j], commands, extras, b, j, size)
  {
    var total := (|commands| + size - 1) / size;
    RoundedUp(|commands|, size);
    batches := [];
    ghost var all := Workers(commands, extras, size);
    ghost var done: nat := 0;
    assert Flatten(batches) == all[..0] && StartOf(0, size) == 0;
    hide Workers, Flatten, StartOf, IsWorker;
    for b := 0 to total
      invariant |batches| == b && done <= |all| && Flatten(batches) == all[..done]
      invariant done == if b < total then StartOf(b, size) else |all|
      invariant forall i :: 0 <= i < b ==> 0 < |batches[i]| <= size && (i + 1 < total ==> |batches[i]| == size)
      invariant forall i, j :: 0 <= i < b && 0 <= j < |batches[i]| ==> IsWorker(batches[i][j], commands, extras, i, j, size)
    {
      EndOfBatch(b, total, size, |commands|);
      var start := StartOf(b, size);
      var end := if start + size < |commands| then start + size else |commands|;
      var batch := BuildBatch(commands, extras, size, b, start, end);
      FlattenOneMore(batches, batch);
      batches := batches + [batch];
      Joined(all, start, end);
      done := end;
    }
    Joined(all, 0, 0);
  }

  lemma WorkerFrom<C, X>(commands: seq<C>, extras: seq<X>, size: nat, b: nat, j: nat)
    requires j < size && StartOf(b, size) + j < |commands|
    ensures var k := StartOf(b, size) + j;
      Workers(commands, extras, size)[k] == Spawned(commands[k], if k < |extras| then Some(extras[k]) else None, b, j)
  {
    DivModOf(b, j, size);
  }

  lemma OneMore<T>(all: seq<T>, start: nat, k: nat)
    requires start <= k < |all|
    ensures all[start..k + 1] == all[start..k] + [all[k]]
  {
  }

  lemma Joined<T>(all: seq<T>, start: nat, end: nat)
    requires start <= end <= |all|
    ensures all[..start] + all[start..end] == all[..end] && all[..|all|] == all
  {
  }

  lemma RoundedUp(n: nat, size: nat)
    requires size > 0
    ensures var total := (n + size - 1) / size; n <= StartOf(total, size) < n + size
  {
    var m := n + size - 1;
    assert m == (m / size) * size + m % size;
  }

  /** Batch `b` starts inside the commands, and runs to their end exactly when it is the last. */
  lemma EndOfBatch(b: nat, total: nat, size: nat, n: nat)
    requires b < total && n <= StartOf(total, size) < n + size
    ensures StartOf(b, size) < n && StartOf(b + 1, size) == StartOf(b, size) + size && StartOf(0, size) == 0
    ensures b + 1 < total <==> StartOf(b, size) + size < n
  {
    var rest := total - b - 1;
    assert StartOf(total, size) == StartOf(b, size) + size + rest * size;
    MultipleIsFar(rest, size);
  }

  // ----- the jobs of a batch

  datatype Status = Pending | Running | Completed | Failed | TimedOut

  /** What a job result holds. */
  datatype Job<O> = Job(status: Status, output: Option<O>)

  predicate IsCompleted<O>(j: Job<O>) { j.status.Completed? || j.status.Failed? || j.status.TimedOut? }
  predicate IsSuccessful<O>(j: Job<O>) { j.status.Completed? && j.output.Some? }
  predicate IsFailed<O>(j: Job<O>) { j.status.Failed? || j.status.TimedOut? }
  predicate IsSilent<O>(j: Job<O>) { j.status.Completed? && j.output.None? }

  function Count<O>(jobs: seq<Job<O>>, p: Job<O> -> bool): nat
  {
    if jobs == [] then 0 else Count(jobs[1..], p) + if p(jobs[0]) then 1 else 0
  }

  function SuccessRate<O>(jobs: seq<Job<O>>): real
  {
    if jobs == [] then 1.0 else Count(jobs, IsSuccessful) as real / |jobs| as real
  }

  /** The completed jobs are the successful, the failed, and those Kubernetes completed without an output. */
  lemma {:induction false} CompletedAreAccountedFor<O>(jobs: seq<Job<O>>)
    ensures Count(jobs, IsCompleted) == Count(jobs, IsSuccessful) + Count(jobs, IsFailed) + Count(jobs, IsSilent)
  {
    if jobs != [] {
      CompletedAreAccountedFor(jobs[1..]);
    }
  }

  lemma {:induction false} CountIsAll<O>(jobs: seq<Job<O>>, p: Job<O> -> bool)
    ensures Count(jobs, p) <= |jobs|
    ensures Count(jobs, p) == |jobs| <==> forall i :: 0 <= i < |jobs| ==> p(jobs[i])
  {
    if jobs != [] {
      CountIsAll(jobs[1..], p);
      assert (forall i :: 0 <= i < |jobs| ==> p(jobs[i]))
        <==> p(jobs[0]) && forall i :: 0 <= i < |jobs[1..]| ==> p(jobs[1..][i]) by {
        assert forall i :: 0 < i < |jobs| ==> jobs[i] == jobs[1..][i - 1];
      }
    }
  }

  /** The success rate is one exactly when every job completed with an output. */
  lemma FullRateIsAllSuccessful<O>(jobs: seq<Job<O>>)
    ensures SuccessRate(jobs) == 1.0 <==> forall i :: 0 <= i < |jobs| ==> IsSuccessful(jobs[i])
  {
    CountIsAll(jobs, IsSuccessful);
    if jobs != [] {
      RatioIsOne(Count(jobs, IsSuccessful), |jobs|);
    }
  }

  lemma RatioIsOne(a: nat, n: nat)
    requires n > 0
    ensures a as real / n as real == 1.0 <==> a == n
  {
    var q := a as real / n as real;
    assert q * n as real == a as real;
  }

  // ----- every interleaving of replies and outputs

  datatype Reply = SaysCompleted | SaysFailed | SaysTimedOut | SaysRunning | SaysNothing

  datatype Step<O> = Replied(job: nat, reply: Reply) | Arrived(job: nat, payload: O) | Deadline

  /** A Kubernetes reply; a pending, an unknown or a failed one changes nothing. */
  function Answered<O>(j: Job<O>, reply: Reply): Job<O>
  {
    match reply
    case SaysCompleted => j.(status := Completed)
    case SaysFailed => j.(status := Failed)
    case SaysTimedOut => j.(status := TimedOut)
    case SaysRunning => j.(status := Running)
    case SaysNothing => j
  }

  function Received<O>(payload: O): Job<O> { Job(Completed, Some(payload)) }

  function Expired<O>(j: Job<O>): Job<O>
  {
    if IsCompleted(j) then j else j.(status := TimedOut)
  }

  function StepJob<O>(j: Job<O>, i: nat, s: Step<O>): Job<O>
  {
    match s
    case Replied(job, reply) => if job == i then Answered(j, reply) else j
    case Arrived(job, payload) => if job == i then Received(payload) else j
    case Deadline => Expired(j)
  }

  function RunJob<O>(j: Job<O>, i: nat, steps: seq<Step<O>>): Job<O>
  {
    if steps == [] then j else StepJob(RunJob(j, i, steps[..|steps| - 1]), i, steps[|steps| - 1])
  }

  lemma {:induction false} RunJobAppend<O>(j: Job<O>, i: nat, a: seq<Step<O>>, b: seq<Step<O>>)
    ensures RunJob(j, i, a + b) == RunJob(RunJob(j, i, a), i, b)
  {
    if b == [] {
      assert a + b == a;
    } else {
      assert (a + b)[..|a + b| - 1] == a + b[..|b| - 1];
      RunJobAppend(j, i, a, b[..|b| - 1]);
    }
  }

  /** The last payload that arrived for job `i`. */
  function LastPayload<O>(i: nat, steps: seq<Step<O>>): Option<O>
  {
    if steps == [] then None else
    var s := steps[|steps| - 1];
    if s.Arrived? && s.job == i then Some(s.payload) else LastPayload(i, steps[..|steps| - 1])
  }

  /** The status most recently given to job `i` by a reply or an output. */
  function LastWord<O>(i: nat, steps: seq<Step<O>>): Option<Status>
  {
    if steps == [] then None else
    var s := steps[|steps| - 1];
    var before := LastWord(i, steps[..|steps| - 1]);
    match s
    case Deadline => before
    case Arrived(job, _) => if job == i then Some(Completed) else before
    case Replied(job, reply) =>
      if job != i then before else
      match reply
      case SaysCompleted => Some(Completed)
      case SaysFailed => Some(Failed)
      case SaysTimedOut => Some(TimedOut)
      case SaysRunning => Some(Running)
      case SaysNothing => before
  }

  /** Over every interleaving an output, once stored, is only ever replaced by a later one. */
  lemma {:induction false} OutputsAreKept<O>(j: Job<O>, i: nat, steps: seq<Step<O>>)
    ensures RunJob(j, i, steps).output == if LastPayload(i, steps).Some? then LastPayload(i, steps) else j.output
  {
    if steps != [] {
      OutputsAreKept(j, i, steps[..|steps| - 1]);
    }
  }

  /**
   * Over every interleaving a job that was running counts as successful exactly when an output arrived for it
   * and the last word about it was that it completed.
   */
  lemma {:induction false} SuccessIsOutputAndLastWord<O>(i: nat, steps: seq<Step<O>>)
    ensures IsSuccessful(RunJob(Job(Running, None), i, steps))
      <==> LastPayload(i, steps).Some? && LastWord(i, steps) == Some(Completed)
  {
    OutputsAreKept(Job(Running, None), i, steps);
    StatusIsLastWord(i, steps);
  }

  lemma {:induction false} StatusIsLastWord<O>(i: nat, steps: seq<Step<O>>)
    ensures var j := RunJob(Job(Running, None), i, steps);
      j.status == LastWord(i, steps).GetOr(Running)
      || (j.status == TimedOut && LastWord(i, steps) !in {Some(Completed), Some(Failed)})
  {
    if steps != [] {
      StatusIsLastWord(i, steps[..|steps| - 1]);
    }
  }

  /** A finished job becomes unfinished exactly when Kubernetes says, late, that it is running. */
  lemma OnlyRunningReopens<O>(j: Job<O>, i: nat, s: Step<O>)
    requires IsCompleted(j)
    ensures !IsCompleted(StepJob(j, i, s)) <==> s == Replied(i, SaysRunning)
  {
  }

  /** So a job whose output arrived during the poll can still end as timed out, with its output stored. */
  lemma OutputThenTimeout<O>(payload: O)
    ensures RunJob(Job(Running, None), 0, [Arrived(0, payload), Replied(0, SaysRunning), Deadline])
         == Job(TimedOut, Some(payload))
  {
    var steps := [Arrived(0, payload), Replied(0, SaysRunning), Deadline];
    assert steps[..2] == [Arrived(0, payload), Replied(0, SaysRunning)] && steps[..2][..1] == [Arrived(0, payload)];
    assert RunJob(Job(Running, None), 0, steps[..2][..1]) == Received(payload);
  }

  // ----- waiting

  class JobResult<O> {
    var status: Status
    var output: Option<O>

    constructor ()
      ensures Value() == Job(Running, None)
    {
      status, output := Running, None;
    }

    function Value(): Job<O>
      reads this
    {
      Job(status, output)
    }

    /** The output handler registered for the job. */
    method OutputHandler(payload: O)
      modifies this
      ensures Value() == Received(payload)
    {
      output := Some(payload);
      status := Completed;
    }

    method ApplyReply(reply: Reply)
      modifies this
      ensures Value() == Answered(old(Value()), reply)
    {
      match reply
      case SaysCompleted => status := Completed;
      case SaysFailed => status := Failed;
      case SaysTimedOut => status := TimedOut;
      case SaysRunning => if status != Running { status := Running; }
      case SaysNothing =>
    }
  }

  function Values<O>(jobs: seq<JobResult<O>>): (values: seq<Job<O>>)
    ensures |values| == |jobs| && forall i :: 0 <= i < |jobs| ==> values[i] == jobs[i].Value()
    reads jobs
  {
    if jobs == [] then [] else Values(jobs[..|jobs| - 1]) + [jobs[|jobs| - 1].Value()]
  }

  ghost predicate AreDistinct<O>(jobs: seq<JobResult<O>>)
  {
    forall i, j :: 0 <= i < j < |jobs| ==> jobs[i] != jobs[j]
  }

  /** `after` is what the steps make of `before`, job by job. */
  ghost predicate Follows<O>(before: seq<Job<O>>, after: seq<Job<O>>, steps: seq<Step<O>>)
  {
    |after| == |before| && forall i :: 0 <= i < |before| ==> after[i] == RunJob(before[i], i, steps)
  }

  lemma FollowsNothing<O>(values: seq<Job<O>>)
    ensures Follows(values, values, [])
  {
  }

  lemma FollowsMore<O>(before: seq<Job<O>>, mid: seq<Job<O>>, after: seq<Job<O>>, a: seq<Step<O>>, b: seq<Step<O>>)
    requires Follows(before, mid, a) && Follows(mid, after, b)
    ensures Follows(before, after, a + b)
  {
    forall i | 0 <= i < |before|
      ensures after[i] == RunJob(before[i], i, a + b)
    {
      RunJobAppend(before[i], i, a, b);
    }
  }

  lemma FollowsStep<O>(before: seq<Job<O>>, after: seq<Job<O>>, s: Step<O>)
    requires |after| == |before| && forall i :: 0 <= i < |before| ==> after[i] == StepJob(before[i], i, s)
    ensures Follows(before, after, [s])
  {
    assert [s][..0] == [];
    forall i | 0 <= i < |before|
      ensures after[i] == RunJob(before[i], i, [s])
    {
      assert RunJob(before[i], i, [s]) == StepJob(RunJob(before[i], i, []), i, s);
    }
  }

  /** An output that arrives while the waiting coroutine is suspended. */
  datatype Arrival<O> = Arrival(job: nat, payload: O)

  /** One polling round: per job the reply and what arrives while it is awaited, then what arrives in the sleep. */
  datatype Round<!O> = Round(replies: nat -> Reply, during: nat -> seq<Arrival<O>>, asleep: seq<Arrival<O>>)

  /** What the arrivals make of the jobs; an output for a job outside the batch does not concern it. */
  function Delivered<O>(values: seq<Job<O>>, arrivals: seq<Arrival<O>>): (after: seq<Job<O>>)
    ensures |after| == |values|
  {
    if arrivals == [] then values else
    var before, a := Delivered(values, arrivals[..|arrivals| - 1]), arrivals[|arrivals| - 1];
    if a.job < |before| then before[a.job := Received(a.payload)] else before
  }

  /** One job polled: it is skipped only if it had finished before its own await began. */
  function PolledOne<O>(values: seq<Job<O>>, round: Round<O>, i: nat): (after: seq<Job<O>>)
    requires i < |values|
    ensures |after| == |values|
  {
    if IsCompleted(values[i]) then values else
    var meanwhile := Delivered(values, round.during(i));
    meanwhile[i := Answered(meanwhile[i], round.replies(i))]
  }

  /** The first `k` jobs polled. */
  function Polled<O>(values: seq<Job<O>>, round: Round<O>, k: nat): (after: seq<Job<O>>)
    requires k <= |values|
    ensures |after| == |values|
  {
    if k == 0 then values else PolledOne(Polled(values, round, k - 1), round, k - 1)
  }

  function AfterRound<O>(values: seq<Job<O>>, round: Round<O>): (after: seq<Job<O>>)
  {
    Delivered(Polled(values, round, |values|), round.asleep)
  }

  function AllExpired<O>(values: seq<Job<O>>): seq<Job<O>>
  {
    seq(|values|, i requires 0 <= i < |values| => Expired(values[i]))
  }

  /** Rounds go on until every job has finished; when they run out the deadline has passed. */
  function Waited<O>(values: seq<Job<O>>, rounds: seq<Round<O>>): seq<Job<O>>
    decreases rounds
  {
    if Count(values, IsCompleted) == |values| then values
    else if rounds == [] then AllExpired(values)
    else Waited(AfterRound(values, rounds[0]), rounds[1..])
  }

  // ----- what a round does, job by job

  /** The payload that arrives last for job `i`. */
  function LastFor<O>(arrivals: seq<Arrival<O>>, i: nat): Option<O>
  {
    if arrivals == [] then None else
    var last := arrivals[|arrivals| - 1];
    if last.job == i then Some(last.payload) else LastFor(arrivals[..|arrivals| - 1], i)
  }

  /** The job once these arrivals are in: completed with the last payload for it, if there is one. */
  function With<O>(j: Job<O>, payload: Option<O>): Job<O>
  {
    if payload.Some? then Job(Completed, payload) else j
  }

  lemma {:induction false} DeliveredIsLast<O>(values: seq<Job<O>>, arrivals: seq<Arrival<O>>, i: nat)
    requires i < |values|
    ensures Delivered(values, arrivals)[i] == With(values[i], LastFor(arrivals, i))
  {
    if arrivals != [] {
      DeliveredIsLast(values, arrivals[..|arrivals| - 1], i);
    }
  }

  ghost predicate IsFinished<O>(j: Job<O>)
  {
    j.status in {Completed, Failed, TimedOut}
  }

  /**
   * One round: the jobs are polled in order, the finished ones passed over. While a reply is awaited outputs arrive;
   * then the reply gives the job its status. What arrives in the sleep comes after all polls.
   */
  lemma RoundLaw<O>(values: seq<Job<O>>, round: Round<O>, k: nat, i: nat)
    requires k < |values| && i < |values|
    ensures Polled(values, round, 0) == values
    ensures var before, after := Polled(values, round, k), Polled(values, round, k + 1);
      if IsFinished(before[k]) then after == before
      else var meanwhile := With(before[i], LastFor(round.during(k), i));
        after[i] == if i != k then meanwhile else
          match round.replies(k)
          case SaysCompleted => Job(Completed, meanwhile.output)
          case SaysFailed => Job(Failed, meanwhile.output)
          case SaysTimedOut => Job(TimedOut, meanwhile.output)
          case SaysRunning => Job(Running, meanwhile.output)
          case SaysNothing => meanwhile
    ensures AfterRound(values, round)[i] == With(Polled(values, round, |values|)[i], LastFor(round.asleep, i))
  {
    var before := Polled(values, round, k);
    DeliveredIsLast(before, round.during(k), i);
    DeliveredIsLast(Polled(values, round, |values|), round.asleep, i);
    hide Delivered, LastFor;
  }

  /** The jobs after some rounds, whether or not they had finished before. */
  function AfterRounds<O>(values: seq<Job<O>>, rounds: seq<Round<O>>): (after: seq<Job<O>>)
    ensures |after| == |values|
  {
    if rounds == [] then values else AfterRound(AfterRounds(values, rounds[..|rounds| - 1]), rounds[|rounds| - 1])
  }

  lemma {:induction false} RoundsFromFirst<O>(values: seq<Job<O>>, rounds: seq<Round<O>>)
    requires rounds != []
    ensures AfterRounds(values, rounds) == AfterRounds(AfterRound(values, rounds[0]), rounds[1..])
  {
    hide AfterRound;
    if |rounds| > 1 {
      var init := rounds[..|rounds| - 1];
      RoundsFromFirst(values, init);
      assert init[1..] == rounds[1..][..|rounds| - 2] && init[0] == rounds[0];
    } else {
      assert rounds[..0] == [] && rounds[1..] == [];
      assert AfterRounds(values, rounds[..0]) == values;
    }
  }

  ghost predicate AllFinished<O>(values: seq<Job<O>>)
  {
    forall i :: 0 <= i < |values| ==> IsFinished(values[i])
  }

  /** After `n` rounds and no fewer all jobs have finished. */
  ghost predicate FinishedFirst<O>(values: seq<Job<O>>, rounds: seq<Round<O>>, n: int)
  {
    0 <= n <= |rounds| && AllFinished(AfterRounds(values, rounds[..n]))
    && forall m :: 0 <= m < n ==> !AllFinished(AfterRounds(values, rounds[..m]))
  }

  /** The same jobs, the unfinished ones timed out with whatever output they have. */
  ghost predicate IsTimedOut<O>(before: seq<Job<O>>, after: seq<Job<O>>)
  {
    |after| == |before|
    && forall i :: 0 <= i < |before| ==>
      after[i] == if IsFinished(before[i]) then before[i] else Job(TimedOut, before[i].output)
  }

  lemma LaterRounds<O>(values: seq<Job<O>>, rounds: seq<Round<O>>, m: nat)
    requires 0 < m <= |rounds|
    ensures AfterRounds(values, rounds[..m]) == AfterRounds(AfterRound(values, rounds[0]), rounds[1..][..m - 1])
  {
    hide AfterRounds, AfterRound;
    RoundsFromFirst(values, rounds[..m]);
    assert rounds[..m][1..] == rounds[1..][..m - 1];
  }

  lemma CompletedIsFinished<O>(values: seq<Job<O>>)
    ensures Count(values, IsCompleted) == |values| <==> AllFinished(values)
  {
    CountIsAll(values, IsCompleted);
    hide Count;
  }

  /**
   * Waiting goes on for as many rounds as it takes for all jobs to finish. If the rounds do not suffice, the
   * unfinished jobs are timed out as they are.
   */
  lemma {:induction false} WaitedExactly<O>(values: seq<Job<O>>, rounds: seq<Round<O>>)
    ensures forall n | FinishedFirst(values, rounds, n) :: Waited(values, rounds) == AfterRounds(values, rounds[..n])
    ensures (forall m | 0 <= m <= |rounds| :: !AllFinished(AfterRounds(values, rounds[..m])))
      ==> IsTimedOut(AfterRounds(values, rounds), Waited(values, rounds))
    decreases |rounds|
  {
    CompletedIsFinished(values);
    assert AfterRounds(values, rounds[..0]) == values;
    if AllFinished(values) {
      hide AllFinished, AfterRounds, AfterRound, IsTimedOut;
    } else if rounds == [] {
      hide AllFinished;
      assert rounds[..0] == rounds;
    } else {
      hide AllFinished, AfterRounds, AfterRound, IsTimedOut, Count;
      var next, rest := AfterRound(values, rounds[0]), rounds[1..];
      WaitedExactly(next, rest);
      forall m | 0 < m <= |rounds| ensures AfterRounds(values, rounds[..m]) == AfterRounds(next, rest[..m - 1]) {
        LaterRounds(values, rounds, m);
      }
      forall n | FinishedFirst(values, rounds, n) ensures n > 0 && FinishedFirst(next, rest, n - 1) {
        forall m | 0 <= m < n - 1 ensures !AllFinished(AfterRounds(next, rest[..m])) {
          assert AfterRounds(values, rounds[..m + 1]) == AfterRounds(next, rest[..m]);
        }
      }
      if forall m | 0 <= m <= |rounds| :: !AllFinished(AfterRounds(values, rounds[..m])) {
        forall m | 0 <= m <= |rest| ensures !AllFinished(AfterRounds(next, rest[..m])) {
          assert AfterRounds(values, rounds[..m + 1]) == AfterRounds(next, rest[..m]);
        }
        RoundsFromFirst(values, rounds);
      }
    }
  }

  method Deliver<O>(jobs: seq<JobResult<O>>, arrivals: seq<Arrival<O>>) returns (ghost trace: seq<Step<O>>)
    requires AreDistinct(jobs)
    modifies jobs
    ensures Follows(old(Values(jobs)), Values(jobs), trace) && Values(jobs) == Delivered(old(Values(jobs)), arrivals)
  {
    trace := [];
    ghost var before := Values(jobs);
    FollowsNothing(before);
    hide Follows;
    for k := 0 to |arrivals|
      invariant Follows(before, Values(jobs), trace) && Values(jobs) == Delivered(before, arrivals[..k])
    {
      var a := arrivals[k];
      assert arrivals[..k + 1][..k] == arrivals[..k];
      if a.job < |jobs| {
        ghost var mid := Values(jobs);
        jobs[a.job].OutputHandler(a.payload);
        FollowsStep(mid, Values(jobs), Arrived(a.job, a.payload));
        FollowsMore(before, mid, Values(jobs), trace, [Arrived(a.job, a.payload)]);
        trace := trace + [Arrived(a.job, a.payload)];
      }
    }
    assert arrivals[..|arrivals|] == arrivals;
  }

  method CheckStatus<O>(jobs: seq<JobResult<O>>, round: Round<O>, k: nat) returns (ghost trace: seq<Step<O>>)
    requires AreDistinct(jobs) && k < |jobs|
    modifies jobs
    ensures Follows(old(Values(jobs)), Values(jobs), trace) && Values(jobs) == PolledOne(old(Values(jobs)), round, k)
  {
    trace := [];
    ghost var before := Values(jobs);
    FollowsNothing(before);
    hide Follows, Delivered, Answered;
    if !IsCompleted(jobs[k].Value()) {
      trace := Deliver(jobs, round.during(k));
      ghost var mid, reply := Values(jobs), Replied(k, round.replies(k));
      jobs[k].ApplyReply(round.replies(k));
      assert Values(jobs) == mid[k := Answered(mid[k], round.replies(k))];
      FollowsStep(mid, Values(jobs), reply);
      FollowsMore(before, mid, Values(jobs), trace, [reply]);
      trace := trace + [reply];
    }
  }

  /** Polls the jobs not yet finished; each reply is applied after the await, whatever arrived meanwhile. */
  method CheckStatuses<O>(jobs: seq<JobResult<O>>, round: Round<O>) returns (ghost trace: seq<Step<O>>)
    requires AreDistinct(jobs)
    modifies jobs
    ensures Follows(old(Values(jobs)), Values(jobs), trace) && Values(jobs) == Polled(old(Values(jobs)), round, |jobs|)
  {
    trace := [];
    ghost var before := Values(jobs);
    FollowsNothing(before);
    hide Follows, PolledOne, Values, AreDistinct, Delivered;
    for k := 0 to |jobs|
      invariant Follows(before, Values(jobs), trace) && Values(jobs) == Polled(before, round, k)
    {
      ghost var mid := Values(jobs);
      ghost var more := CheckStatus(jobs, round, k);
      FollowsMore(before, mid, Values(jobs), trace, more);
      trace := trace + more;
    }
  }

  method MarkTimeouts<O>(jobs: seq<JobResult<O>>)
    requires AreDistinct(jobs)
    modifies jobs
    ensures Follows(old(Values(jobs)), Values(jobs), [Deadline]) && Values(jobs) == AllExpired(old(Values(jobs)))
    ensures forall i :: 0 <= i < |jobs| ==> IsCompleted(jobs[i].Value())
  {
    ghost var before := Values(jobs);
    for k := 0 to |jobs|
      invariant forall i :: 0 <= i < k ==> jobs[i].Value() == Expired(before[i])
      invariant forall i :: k <= i < |jobs| ==> jobs[i].Value() == before[i]
    {
      if !IsCompleted(jobs[k].Value()) {
        jobs[k].status := TimedOut;
      }
    }
    FollowsStep(before, Values(jobs), Deadline);
  }

  /**
   * Waits until every job has finished or the deadline passes, after any finite number of rounds. Whatever
   * the interleaving, every job is finished at return, outputs and statuses are what the trace made of them,
   * and the answer is true exactly when all jobs completed with an output.
   */
  method WaitForBatch<O>(jobs: seq<JobResult<O>>, rounds: seq<Round<O>>) returns (success: bool, ghost trace: seq<Step<O>>)
    requires AreDistinct(jobs)
    modifies jobs
    ensures Values(jobs) == Waited(old(Values(jobs)), rounds) && Follows(old(Values(jobs)), Values(jobs), trace)
    ensures forall i :: 0 <= i < |jobs| ==> IsCompleted(jobs[i].Value())
    ensures success <==> forall i :: 0 <= i < |jobs| ==> IsSuccessful(jobs[i].Value())
  {
    trace := [];
    ghost var before := Values(jobs);
    FollowsNothing(before);
    hide Follows, Count, IsCompleted, IsSuccessful, SuccessRate, AllExpired, Delivered, Polled;
    var r := 0;
    while Count(Values(jobs), IsCompleted) != |jobs|
      invariant r <= |rounds| && Follows(before, Values(jobs), trace)
      invariant Waited(Values(jobs), rounds[r..]) == Waited(before, rounds)
      decreases |rounds| - r
    {
      ghost var mid := Values(jobs);
      if r == |rounds| {
        MarkTimeouts(jobs);
        FollowsMore(before, mid, Values(jobs), trace, [Deadline]);
        trace := trace + [Deadline];
        break;
      }
      ghost var polled := CheckStatuses(jobs, rounds[r]);
      FollowsMore(before, mid, Values(jobs), trace, polled);
      trace, mid := trace + polled, Values(jobs);
      ghost var slept := Deliver(jobs, rounds[r].asleep);
      FollowsMore(before, mid, Values(jobs), trace, slept);
      trace := trace + slept;
      r := r + 1;
    }
    CountIsAll(Values(jobs), IsCompleted);
    FullRateIsAllSuccessful(Values(jobs));
    success := SuccessRate(Values(jobs)) == 1.0;
  }
}
