/**
 * Buffered submission of scope-matched hostnames (`asset_submitter.py`). The coroutines interleave between
 * awaits, so each stretch without an await is one step; the reply of a post comes from the environment.
 */
module AssetSubmitter {
  import opened Text

  /** A drained buffer on its way to the API. */
  datatype Batch = Batch(program: string, hosts: set<string>)

  /** The buffers and counters, the Redis marks, and what became of every drained batch. */
  datatype State = State(
    buffers: map<string, set<string>>,
    seen: set<(string, string)>,
    inFlight: seq<Batch>,
    succeeded: seq<Batch>,
    failed: seq<Batch>,
    lost: seq<Batch>,
    dedupHits: nat,
    batchesPosted: nat,
    assetsSubmitted: nat,
    postFailures: nat)

  function Initial(): State { State(map[], {}, [], [], [], [], 0, 0, 0, 0) }

  function BufferOf(s: State, program: string): set<string>
  {
    if program in s.buffers then s.buffers[program] else {}
  }

  /** How a post ended: refused, or accepted with the Redis write of the marks done or failed. */
  datatype Outcome = Refused | Accepted(marked: bool)

  datatype Step =
    | Skip
    | Queue(program: string, host: string)
    | Drain(program: string)
    | PostEnds(index: nat, outcome: Outcome)
    | PostCancelled(index: nat)
    | MarkExpires(program: string, host: string)

  function Marks(b: Batch): set<(string, string)>
  {
    set h | h in b.hosts :: (b.program, h)
  }

  function Queued(s: State, program: string, host: string): State
  {
    s.(buffers := s.buffers[program := BufferOf(s, program) + {host}])
  }

  function Drained(s: State, program: string): State
  {
    if BufferOf(s, program) == {} then s
    else s.(buffers := s.buffers[program := {}], inFlight := s.inFlight + [Batch(program, BufferOf(s, program))])
  }

  function DropAt<T>(s: seq<T>, i: nat): seq<T>
    requires i < |s|
  {
    s[..i] + s[i + 1..]
  }

  function Posted(s: State, index: nat, outcome: Outcome): State
    requires index < |s.inFlight|
  {
    var b := s.inFlight[index];
    var landed := s.(inFlight := DropAt(s.inFlight, index));
    if outcome.Refused? then landed.(failed := s.failed + [b], postFailures := s.postFailures + 1)
    else landed.(
      succeeded := s.succeeded + [b],
      batchesPosted := s.batchesPosted + 1,
      assetsSubmitted := s.assetsSubmitted + |b.hosts|,
      seen := if outcome.marked then s.seen + Marks(b) else s.seen)
  }

  /** A cancellation in the middle of a post: no handler catches it, so nothing is counted, marked or put back. */
  function Cancelled(s: State, index: nat): State
    requires index < |s.inFlight|
  {
    s.(inFlight := DropAt(s.inFlight, index), lost := s.lost + [s.inFlight[index]])
  }

  function Next(s: State, step: Step): State
  {
    match step
    case Skip => s.(dedupHits := s.dedupHits + 1)
    case Queue(program, host) => Queued(s, program, host)
    case Drain(program) => Drained(s, program)
    case PostEnds(index, outcome) => if index < |s.inFlight| then Posted(s, index, outcome) else s
    case PostCancelled(index) => if index < |s.inFlight| then Cancelled(s, index) else s
    case MarkExpires(program, host) => s.(seen := s.seen - {(program, host)})
  }

  function Run(steps: seq<Step>): State
  {
    if steps == [] then Initial() else Next(Run(steps[..|steps| - 1]), steps[|steps| - 1])
  }

  // ----- what every interleaving keeps

  function HostsIn(batches: seq<Batch>): nat
  {
    if batches == [] then 0 else HostsIn(batches[..|batches| - 1]) + |batches[|batches| - 1].hosts|
  }

  ghost predicate IsVouched(m: (string, string), accepted: seq<Batch>)
  {
    exists i :: 0 <= i < |accepted| && m in Marks(accepted[i])
  }

  ghost predicate NoneIsEmpty(batches: seq<Batch>)
  {
    forall i :: 0 <= i < |batches| ==> batches[i].hosts != {}
  }

  /** A mark stands only for a host of a batch the API accepted, and the counters count what the logs hold. */
  ghost predicate IsHonest(s: State)
  {
    (forall m | m in s.seen :: IsVouched(m, s.succeeded))
    && s.batchesPosted == |s.succeeded| && s.postFailures == |s.failed| && s.assetsSubmitted == HostsIn(s.succeeded)
    && NoneIsEmpty(s.inFlight) && NoneIsEmpty(s.succeeded) && NoneIsEmpty(s.lost)
  }

  lemma StillVouched(m: (string, string), accepted: seq<Batch>, b: Batch)
    ensures IsVouched(m, accepted) || m in Marks(b) ==> IsVouched(m, accepted + [b])
  {
    hide Marks;
    var all := accepted + [b];
    assert all[|accepted|] == b;
    if IsVouched(m, accepted) {
      var i :| 0 <= i < |accepted| && m in Marks(accepted[i]);
      assert all[i] == accepted[i];
    }
  }

  lemma OneMoreBatch(batches: seq<Batch>, b: Batch)
    ensures NoneIsEmpty(batches) && b.hosts != {} ==> NoneIsEmpty(batches + [b])
    ensures HostsIn(batches + [b]) == HostsIn(batches) + |b.hosts|
  {
    assert (batches + [b])[..|batches|] == batches;
  }

  lemma OneBatchLess(batches: seq<Batch>, index: nat)
    requires index < |batches| && NoneIsEmpty(batches)
    ensures NoneIsEmpty(DropAt(batches, index)) && batches[index].hosts != {}
  {
  }

  lemma NextIsHonest(s: State, step: Step)
    requires IsHonest(s)
    ensures IsHonest(Next(s, step))
  {
    hide Marks, DropAt, NoneIsEmpty, IsVouched, HostsIn, BufferOf;
    match step
    case PostEnds(index, outcome) =>
      if index < |s.inFlight| {
        var b := s.inFlight[index];
        OneBatchLess(s.inFlight, index);
        OneMoreBatch(s.succeeded, b);
        forall m
          ensures IsVouched(m, s.succeeded) || m in Marks(b) ==> IsVouched(m, s.succeeded + [b])
        {
          StillVouched(m, s.succeeded, b);
        }
      }
    case PostCancelled(index) =>
      if index < |s.inFlight| {
        OneBatchLess(s.inFlight, index);
        OneMoreBatch(s.lost, s.inFlight[index]);
      }
    case Drain(program) => OneMoreBatch(s.inFlight, Batch(program, BufferOf(s, program)));
    case _ =>
  }

  /** In every interleaving a host is marked seen only after a batch holding it was accepted. */
  lemma {:induction false} RunsAreHonest(steps: seq<Step>)
    ensures IsHonest(Run(steps))
  {
    if steps == [] {
      assert IsHonest(Initial());
    } else {
      RunsAreHonest(steps[..|steps| - 1]);
      NextIsHonest(Run(steps[..|steps| - 1]), steps[|steps| - 1]);
    }
  }

  /** The hosts queued for a program since its buffer was last drained. */
  function QueuedSinceDrain(steps: seq<Step>, program: string): set<string>
  {
    if steps == [] then {} else
    var before, last := QueuedSinceDrain(steps[..|steps| - 1], program), steps[|steps| - 1];
    match last
    case Queue(p, host) => if p == program then before + {host} else before
    case Drain(p) => if p == program then {} else before
    case _ => before
  }

  /** The batches the drains of a run set off, in order. */
  function Departures(steps: seq<Step>): seq<Batch>
  {
    if steps == [] then [] else
    var init, last := steps[..|steps| - 1], steps[|steps| - 1];
    Departures(init) + Departing(if last.Drain? then QueuedSinceDrain(init, last.program) else {}, last)
  }

  /** In every interleaving a buffer holds exactly what was queued since its last drain. */
  lemma {:induction false} BufferIsQueuedSinceDrain(steps: seq<Step>, program: string)
    ensures BufferOf(Run(steps), program) == QueuedSinceDrain(steps, program)
  {
    if steps != [] {
      BufferIsQueuedSinceDrain(steps[..|steps| - 1], program);
    }
  }

  /** Every batch that ever left a buffer, wherever it is now. */
  function AllBatches(s: State): multiset<Batch>
  {
    multiset(s.inFlight) + multiset(s.succeeded) + multiset(s.failed) + multiset(s.lost)
  }

  /** The batch a step makes depart from a buffer. */
  function Departing(buffer: set<string>, step: Step): seq<Batch>
  {
    if step.Drain? && buffer != {} then [Batch(step.program, buffer)] else []
  }

  lemma PostKeepsBatches(s: State, index: nat, outcome: Outcome)
    requires index < |s.inFlight|
    ensures AllBatches(Posted(s, index, outcome)) == AllBatches(s)
  {
    TakenOut(s.inFlight, index);
    hide DropAt, Marks;
  }

  lemma CancelKeepsBatches(s: State, index: nat)
    requires index < |s.inFlight|
    ensures AllBatches(Cancelled(s, index)) == AllBatches(s)
  {
    TakenOut(s.inFlight, index);
    hide DropAt;
  }

  lemma DrainAddsBatch(s: State, program: string)
    ensures AllBatches(Drained(s, program)) == AllBatches(s) + multiset(Departing(BufferOf(s, program), Drain(program)))
  {
    hide BufferOf;
  }

  lemma NextAddsDeparting(s: State, step: Step)
    ensures AllBatches(Next(s, step))
         == AllBatches(s) + multiset(Departing(if step.Drain? then BufferOf(s, step.program) else {}, step))
  {
    hide BufferOf, Posted, Cancelled, Drained;
    match step
    case PostEnds(index, outcome) => if index < |s.inFlight| { PostKeepsBatches(s, index, outcome); }
    case PostCancelled(index) => if index < |s.inFlight| { CancelKeepsBatches(s, index); }
    case Drain(program) => DrainAddsBatch(s, program);
    case _ =>
  }

  /**
   * In every interleaving the batches in flight, accepted, refused and lost to a cancellation are exactly the
   * departures, each a whole buffer.
   */
  lemma {:induction false} EveryDepartureIsAccountedFor(steps: seq<Step>)
    ensures AllBatches(Run(steps)) == multiset(Departures(steps))
  {
    if steps != [] {
      var init, last := steps[..|steps| - 1], steps[|steps| - 1];
      EveryDepartureIsAccountedFor(init);
      NextAddsDeparting(Run(init), last);
      if last.Drain? {
        BufferIsQueuedSinceDrain(init, last.program);
      }
      hide AllBatches, Next, Departing, BufferOf, QueuedSinceDrain;
    }
  }

  /** The batches whose post was cancelled, in order. */
  function CancelledBatches(steps: seq<Step>): seq<Batch>
  {
    if steps == [] then [] else
    var init, last := steps[..|steps| - 1], steps[|steps| - 1];
    var inFlight := Run(init).inFlight;
    CancelledBatches(init)
      + if last.PostCancelled? && last.index < |inFlight| then [inFlight[last.index]] else []
  }

  /** What is lost is exactly what was in a cancelled post. */
  lemma {:induction false} LostIsCancelled(steps: seq<Step>)
    ensures Run(steps).lost == CancelledBatches(steps)
  {
    if steps != [] {
      var init, last := steps[..|steps| - 1], steps[|steps| - 1];
      LostIsCancelled(init);
      LostGrows(Run(init), last);
      hide Next;
    }
  }

  lemma LostGrows(s: State, step: Step)
    ensures Next(s, step).lost
         == s.lost + if step.PostCancelled? && step.index < |s.inFlight| then [s.inFlight[step.index]] else []
  {
    hide BufferOf, DropAt, Marks;
  }

  /** The batch a post that ends is about. */
  function EndedBatch(s: State, step: Step): seq<Batch>
  {
    if step.PostEnds? && step.index < |s.inFlight| then [s.inFlight[step.index]] else []
  }

  /** The batches of the posts that ended so, in order. */
  function EndedBatches(steps: seq<Step>, accepted: bool): seq<Batch>
  {
    if steps == [] then [] else
    var init, last := steps[..|steps| - 1], steps[|steps| - 1];
    EndedBatches(init, accepted) + if last.PostEnds? && last.outcome.Accepted? == accepted then EndedBatch(Run(init), last) else []
  }

  function Skips(steps: seq<Step>): nat
  {
    if steps == [] then 0 else Skips(steps[..|steps| - 1]) + if steps[|steps| - 1].Skip? then 1 else 0
  }

  /** Over every interleaving: accepted are exactly the batches the API accepted, refused those it refused, in order. */
  lemma {:induction false} LogsAreReplies(steps: seq<Step>)
    ensures var s := Run(steps);
      s.succeeded == EndedBatches(steps, true) && s.failed == EndedBatches(steps, false) && s.dedupHits == Skips(steps)
  {
    if steps != [] {
      var init, last := steps[..|steps| - 1], steps[|steps| - 1];
      LogsAreReplies(init);
      LogsGrow(Run(init), last);
      hide Next;
    }
  }

  lemma LogsGrow(s: State, step: Step)
    ensures var t := Next(s, step);
      t.succeeded == s.succeeded + (if step.PostEnds? && step.outcome.Accepted? then EndedBatch(s, step) else [])
      && t.failed == s.failed + (if step.PostEnds? && step.outcome.Refused? then EndedBatch(s, step) else [])
      && t.dedupHits == s.dedupHits + if step.Skip? then 1 else 0
  {
    hide BufferOf, DropAt, Marks;
  }

  /** The host has been marked by an accepted batch of its program, and the mark has not expired since. */
  function IsMarked(steps: seq<Step>, program: string, host: string): bool
  {
    if steps == [] then false else
    var init, last := steps[..|steps| - 1], steps[|steps| - 1];
    if last == MarkExpires(program, host) then false
    else if last.PostEnds? && last.outcome == Accepted(true) && last.index < |Run(init).inFlight|
            && Run(init).inFlight[last.index].program == program && host in Run(init).inFlight[last.index].hosts
    then true
    else IsMarked(init, program, host)
  }

  /** Over every interleaving a host counts as seen exactly from such a reply to the expiry of its mark. */
  lemma {:induction false} SeenIsMarked(steps: seq<Step>, program: string, host: string)
    ensures (program, host) in Run(steps).seen <==> IsMarked(steps, program, host)
  {
    if steps != [] {
      var init, last := steps[..|steps| - 1], steps[|steps| - 1];
      SeenIsMarked(init, program, host);
      SeenChanges(Run(init), last, program, host);
      hide Next;
    }
  }

  lemma SeenChanges(s: State, step: Step, program: string, host: string)
    ensures (program, host) in Next(s, step).seen
      <==> step != MarkExpires(program, host)
           && ((program, host) in s.seen
               || (step.PostEnds? && step.outcome == Accepted(true) && step.index < |s.inFlight|
                   && s.inFlight[step.index].program == program && host in s.inFlight[step.index].hosts))
  {
    hide BufferOf, DropAt;
  }

  /** So without a cancelled post nothing is: everything that left a buffer is in flight, accepted or refused. */
  lemma NothingLostUncancelled(steps: seq<Step>)
    requires forall step | step in steps :: !step.PostCancelled?
    ensures var s := Run(steps);
      multiset(s.inFlight) + multiset(s.succeeded) + multiset(s.failed) == multiset(Departures(steps))
  {
    EveryDepartureIsAccountedFor(steps);
    LostIsCancelled(steps);
    NoCancelledBatches(steps);
    hide Run, Departures;
  }

  lemma {:induction false} NoCancelledBatches(steps: seq<Step>)
    requires forall step | step in steps :: !step.PostCancelled?
    ensures CancelledBatches(steps) == []
  {
    if steps != [] {
      NoCancelledBatches(steps[..|steps| - 1]);
    }
  }

  /** A cancelled post moves no counter, puts nothing back and leaves no mark. */
  lemma CancelLeavesNoTrace(steps: seq<Step>, index: nat)
    ensures var s, t := Run(steps), Run(steps + [PostCancelled(index)]);
      t == s.(inFlight := t.inFlight, lost := t.lost)
  {
    assert (steps + [PostCancelled(index)])[..|steps|] == steps;
  }

  lemma TakenOut<T>(s: seq<T>, i: nat)
    requires i < |s|
    ensures multiset(s) == multiset(DropAt(s, i)) + multiset{s[i]}
  {
    assert s == s[..i] + [s[i]] + s[i + 1..];
  }

  // ----- the submitter

  class CtAssetSubmitter {
    const hasRedis: bool
    const batchMax: int
    var buffers: map<string, set<string>>
    var dedupHits: nat
    var batchesPosted: nat
    var assetsSubmitted: nat
    var postFailures: nat
    /** What Redis holds, and the fate of the drained batches. */
    var seen: set<(string, string)>
    ghost var inFlight: seq<Batch>
    ghost var succeeded: seq<Batch>
    ghost var failed: seq<Batch>
    ghost var lost: seq<Batch>

    ghost function View(): State
      reads this
    {
      State(buffers, seen, inFlight, succeeded, failed, lost, dedupHits, batchesPosted, assetsSubmitted, postFailures)
    }

    constructor (hasRedis: bool, batchMax: int)
      ensures View() == Initial() && this.hasRedis == hasRedis && this.batchMax == batchMax
    {
      this.hasRedis, this.batchMax := hasRedis, batchMax;
      buffers, seen, inFlight, succeeded, failed, lost := map[], {}, [], [], [], [];
      dedupHits, batchesPosted, assetsSubmitted, postFailures := 0, 0, 0, 0;
    }

    /** The part of `add` before the lock: the host to queue, if it is neither blank nor recently seen. */
    method Offer(hostname: string, program: string) returns (host: Option<string>)
      modifies this
      ensures var h := Strip(Lower(hostname));
        if h == "" then host == None && View() == old(View())
        else if hasRedis && (program, h) in old(seen) then host == None && View() == Next(old(View()), Skip)
        else host == Some(h) && View() == old(View())
    {
      var h := Strip(Lower(hostname));
      host := None;
      if h != "" {
        if hasRedis && (program, h) in seen {
          dedupHits := dedupHits + 1;
        } else {
          host := Some(h);
        }
      }
    }

    /** The part of `add` under the lock; the answer says whether the buffer is due. */
    method Enqueue(host: string, program: string) returns (isDue: bool)
      modifies this
      ensures View() == Next(old(View()), Queue(program, host))
      ensures isDue <==> |BufferOf(View(), program)| >= batchMax
    {
      var buffer := (if program in buffers then buffers[program] else {}) + {host};
      buffers := buffers[program := buffer];
      isDue := |buffer| >= batchMax;
    }

    /** The locked part of a flush: the whole buffer leaves at once, or nothing when it is empty. */
    method TakeBuffer(program: string) returns (hosts: set<string>)
      modifies this
      ensures View() == Next(old(View()), Drain(program)) && hosts == BufferOf(old(View()), program)
      ensures BufferOf(View(), program) == {}
    {
      hosts := if program in buffers then buffers[program] else {};
      if hosts != {} {
        inFlight := inFlight + [Batch(program, hosts)];
        buffers := buffers[program := {}];
      }
    }

    /** What follows the reply of the API for one batch in flight. */
    method FinishPost(program: string, hosts: set<string>, outcome: Outcome, ghost index: nat)
      requires index < |inFlight| && inFlight[index] == Batch(program, hosts)
      modifies this
      ensures View() == Next(old(View()), PostEnds(index, if hasRedis then outcome else WithoutMark(outcome)))
    {
      hide Marks, DropAt, Next;
      ghost var after := Posted(View(), index, if hasRedis then outcome else WithoutMark(outcome));
      inFlight, succeeded, failed := after.inFlight, after.succeeded, after.failed;
      if outcome.Refused? {
        postFailures := postFailures + 1;
      } else {
        batchesPosted := batchesPosted + 1;
        assetsSubmitted := assetsSubmitted + |hosts|;
        if hasRedis && outcome.marked {
          seen := seen + Marks(Batch(program, hosts));
        }
      }
      assert View() == after;
      NextIsPosted(old(View()), index, if hasRedis then outcome else WithoutMark(outcome));
    }

    /** A post whose task is cancelled while it waits for the API: the coroutine just ends. */
    ghost method AbandonPost(index: nat)
      requires index < |inFlight|
      modifies this`inFlight, this`lost
      ensures View() == Next(old(View()), PostCancelled(index))
    {
      inFlight, lost := DropAt(inFlight, index), lost + [inFlight[index]];
    }

    /** A flush of one program with no other step in between. */
    method FlushProgram(program: string, outcome: Outcome)
      modifies this
      ensures View() == Flushed(old(View()), program, if hasRedis then outcome else WithoutMark(outcome))
    {
      ghost var was := View();
      var hosts := TakeBuffer(program);
      if hosts != {} {
        FinishPost(program, hosts, outcome, |was.inFlight|);
        NextIsPosted(Drained(was, program), |was.inFlight|, if hasRedis then outcome else WithoutMark(outcome));
        hide Next, Posted;
      }
    }

    /** Flushes every program with a non-empty buffer; undisturbed, no buffer holds anything afterwards. */
    method FlushNow(outcomes: string -> Outcome)
      modifies this
      ensures IsFlushed(old(View()), View(), {}, outcomes)
    {
      var programs := set p | p in buffers && buffers[p] != {};
      ghost var before := View();
      hide IsFlushed, Flushed, BufferOf;
      assert IsFlushed(before, View(), programs, outcomes) by { NothingFlushed(before, programs, outcomes); }
      while programs != {}
        invariant IsFlushed(before, View(), programs, outcomes)
      {
        var p :| p in programs;
        FlushedStep(before, View(), programs, p, outcomes, hasRedis);
        FlushProgram(p, outcomes(p));
        programs := programs - {p};
      }
    }

    /**
     * Stopping cancels the flush task, in the middle of a post if it has one, and then flushes what is buffered.
     * The batch of that post is lost: it is neither in a buffer nor counted, and its hosts are not marked.
     */
    method Stop(ghost posting: Option<nat>, outcomes: string -> Outcome)
      requires posting.Some? ==> posting.value < |inFlight|
      modifies this
      ensures var s := old(View());
        IsFlushed(if posting.Some? then Cancelled(s, posting.value) else s, View(), {}, outcomes)
      ensures lost == old(lost) + if posting.Some? then [old(inFlight[posting.value])] else []
    {
      if posting.Some? {
        AbandonPost(posting.value);
      }
      FlushNow(outcomes);
    }

    /** An undisturbed `add` of a host that is neither blank nor seen queues it, and flushes a buffer that is due. */
    method Add(hostname: string, program: string, outcome: Outcome)
      modifies this
      ensures var h, s := Strip(Lower(hostname)), old(View());
        var queued := Queued(s, program, h);
        View() == if h == "" then s
          else if hasRedis && (program, h) in s.seen then Next(s, Skip)
          else if |BufferOf(queued, program)| < batchMax then queued
          else Flushed(queued, program, if hasRedis then outcome else WithoutMark(outcome))
    {
      var host := Offer(hostname, program);
      hide Strip, Lower, BufferOf, Flushed, Queued;
      if host.Some? {
        var isDue := Enqueue(host.value, program);
        if isDue {
          FlushProgram(program, outcome);
        }
      }
    }
  }

  /** A flush undisturbed between the drain and the end of its post. */
  function Flushed(s: State, program: string, outcome: Outcome): State
  {
    if BufferOf(s, program) == {} then s else Posted(Drained(s, program), |s.inFlight|, outcome)
  }

  lemma FlushedAtOnce(s: State, program: string, outcome: Outcome)
    ensures var t := Flushed(s, program, outcome);
      t.inFlight == s.inFlight && t.lost == s.lost && BufferOf(t, program) == {}
      && forall p | p != program :: BufferOf(t, p) == BufferOf(s, p)
    ensures var t, gone := Flushed(s, program, outcome), BufferOf(s, program);
      && t.succeeded == s.succeeded + (if gone != {} && outcome.Accepted? then [Batch(program, gone)] else [])
      && t.failed == s.failed + (if gone != {} && outcome.Refused? then [Batch(program, gone)] else [])
  {
    if BufferOf(s, program) != {} {
      assert DropAt(Drained(s, program).inFlight, |s.inFlight|) == s.inFlight;
    }
  }

  /** Only the buffers of `left` still hold anything; every other one has been accepted or refused as a whole. */
  ghost predicate IsFlushed(before: State, now: State, left: set<string>, outcomes: string -> Outcome)
  {
    now.inFlight == before.inFlight && now.lost == before.lost
    && (forall p | p in left :: BufferOf(now, p) == BufferOf(before, p))
    && (forall p | p !in left :: BufferOf(now, p) == {})
    && forall p | p !in left && BufferOf(before, p) != {} ::
      Batch(p, BufferOf(before, p)) in if outcomes(p).Accepted? then now.succeeded else now.failed
  }

  lemma NothingFlushed(s: State, programs: set<string>, outcomes: string -> Outcome)
    requires programs == set p | p in s.buffers && s.buffers[p] != {}
    ensures IsFlushed(s, s, programs, outcomes)
  {
    forall p
      ensures p !in programs ==> BufferOf(s, p) == {}
    {
    }
  }

  lemma FlushedStep(before: State, s: State, left: set<string>, p: string, outcomes: string -> Outcome, hasRedis: bool)
    requires IsFlushed(before, s, left, outcomes) && p in left
    ensures var o := if hasRedis then outcomes(p) else WithoutMark(outcomes(p));
      IsFlushed(before, Flushed(s, p, o), left - {p}, outcomes)
  {
    var o := if hasRedis then outcomes(p) else WithoutMark(outcomes(p));
    FlushedAtOnce(s, p, o);
    hide Flushed, BufferOf;
  }

  /** With undisturbed adds a positive limit is never reached: what reaches it has left as a whole. */
  lemma AddStaysBelow(s: State, program: string, host: string, batchMax: nat, outcome: Outcome)
    requires batchMax > 0 && forall p :: |BufferOf(s, p)| < batchMax
    ensures var queued := Queued(s, program, host);
      var t := if |BufferOf(queued, program)| < batchMax then queued else Flushed(queued, program, outcome);
      forall p :: |BufferOf(t, p)| < batchMax
  {
    var queued := Queued(s, program, host);
    FlushedAtOnce(queued, program, outcome);
    assert forall p | p != program :: BufferOf(queued, p) == BufferOf(s, p);
    hide BufferOf, Queued, Flushed;
  }

  lemma NextIsPosted(s: State, index: nat, outcome: Outcome)
    requires index < |s.inFlight|
    ensures Next(s, PostEnds(index, outcome)) == Posted(s, index, outcome)
  {
  }

  function WithoutMark(outcome: Outcome): Outcome
  {
    if outcome.Refused? then Refused else Accepted(false)
  }
}
