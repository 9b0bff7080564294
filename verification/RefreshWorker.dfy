/**
 * Coalesced background reloads of the monitor's configuration (`main.py` of the CT monitor). Requests arrive
 * while the worker coroutine is suspended; each stretch of it between two awaits is one step.
 */
module RefreshWorker {
  import opened Text

  /** The worker task: none or done; created but not yet run; or awaiting a reload. */
  datatype Worker = Absent | Scheduled | Reloading

  datatype Event = Requested | Spawned | Started | Ended | Finished

  /** The two flags, the task, and what has happened so far. */
  datatype State = State(requested: bool, inProgress: bool, worker: Worker, log: seq<Event>)

  datatype Step = Request | WorkerRuns

  function Initial(): State { State(false, false, Absent, []) }

  function OnRequest(s: State): State
  {
    if s.worker.Absent? then s.(requested := true, worker := Scheduled, log := s.log + [Requested, Spawned])
    else s.(requested := true, log := s.log + [Requested])
  }

  /** A scheduled worker starts a reload; one whose reload has ended starts another if asked meanwhile, else finishes. */
  function OnWorker(s: State): State
  {
    match s.worker
    case Absent => s
    case Scheduled => State(false, true, Reloading, s.log + [Started])
    case Reloading =>
      if s.requested then State(false, true, Reloading, s.log + [Ended, Started])
      else State(false, false, Absent, s.log + [Ended, Finished])
  }

  function Next(s: State, step: Step): State
  {
    if step.Request? then OnRequest(s) else OnWorker(s)
  }

  function Run(steps: seq<Step>): State
  {
    if steps == [] then Initial() else Next(Run(steps[..|steps| - 1]), steps[|steps| - 1])
  }

  /** Some request has no reload that started after it. */
  ghost predicate HasUnserved(log: seq<Event>)
  {
    exists i :: 0 <= i < |log| && log[i] == Requested && forall j :: i < j < |log| ==> log[j] != Started
  }

  function CountOf(log: seq<Event>, e: Event): nat
  {
    if log == [] then 0 else CountOf(log[..|log| - 1], e) + if log[|log| - 1] == e then 1 else 0
  }

  /** At every moment one worker lives at most, and one reload runs at most, and only while a worker lives. */
  ghost predicate NeverTwo(log: seq<Event>)
  {
    forall n :: 0 <= n <= |log| ==>
      var past := log[..n];
      0 <= CountOf(past, Started) - CountOf(past, Ended) <= CountOf(past, Spawned) - CountOf(past, Finished) <= 1
  }

  lemma UnservedAfter(log: seq<Event>, e: Event)
    ensures HasUnserved(log + [e]) <==> e == Requested || (HasUnserved(log) && e != Started)
  {
    var longer := log + [e];
    assert longer[|log|] == e;
    if HasUnserved(longer) && e != Requested {
      var i :| 0 <= i < |longer| && longer[i] == Requested && forall j :: i < j < |longer| ==> longer[j] != Started;
      assert log[i] == Requested && forall j :: i < j < |log| ==> log[j] == longer[j];
    } else if HasUnserved(log) && e != Started {
      var i :| 0 <= i < |log| && log[i] == Requested && forall j :: i < j < |log| ==> log[j] != Started;
      assert longer[i] == Requested && forall j :: i < j < |log| ==> longer[j] == log[j];
    }
  }

  lemma CountAfter(log: seq<Event>, e: Event)
    ensures forall f :: CountOf(log + [e], f) == CountOf(log, f) + if e == f then 1 else 0
  {
    assert (log + [e])[..|log|] == log;
  }

  lemma NeverTwoAfter(log: seq<Event>, e: Event)
    requires NeverTwo(log)
    requires 0 <= CountOf(log + [e], Started) - CountOf(log + [e], Ended)
          <= CountOf(log + [e], Spawned) - CountOf(log + [e], Finished) <= 1
    ensures NeverTwo(log + [e])
  {
    var longer := log + [e];
    forall n | 0 <= n <= |longer|
      ensures var past := longer[..n];
        0 <= CountOf(past, Started) - CountOf(past, Ended) <= CountOf(past, Spawned) - CountOf(past, Finished) <= 1
    {
      if n <= |log| {
        assert longer[..n] == log[..n];
      } else {
        assert longer[..n] == longer;
      }
    }
  }

  /** What a log says of the state it has led to. */
  ghost predicate Logged(log: seq<Event>, unserved: bool, live: nat, reloading: nat)
  {
    NeverTwo(log) && (HasUnserved(log) <==> unserved)
    && CountOf(log, Spawned) - CountOf(log, Finished) == live && CountOf(log, Started) - CountOf(log, Ended) == reloading
    && CountOf(log, Started) + (if unserved then 1 else 0) <= CountOf(log, Requested)
  }

  lemma LogOne(log: seq<Event>, unserved: bool, live: nat, reloading: nat, e: Event)
    requires Logged(log, unserved, live, reloading) && reloading <= live <= 1
    requires e == Spawned ==> live == 0
    requires e == Finished ==> live == 1 && reloading == 0
    requires e == Started ==> live == 1 && reloading == 0 && unserved
    requires e == Ended ==> reloading == 1
    ensures Logged(log + [e], e == Requested || (unserved && e != Started),
                   if e == Spawned then 1 else if e == Finished then 0 else live,
                   if e == Started then 1 else if e == Ended then 0 else reloading)
  {
    UnservedAfter(log, e);
    CountAfter(log, e);
    hide HasUnserved;
    NeverTwoAfter(log, e);
  }

  ghost predicate IsSound(s: State)
  {
    && (s.worker.Absent? ==> !s.requested) && (s.worker.Scheduled? ==> s.requested)
    && s.inProgress == s.worker.Reloading?
    && Logged(s.log, s.requested, if s.worker.Absent? then 0 else 1, if s.worker.Reloading? then 1 else 0)
  }

  lemma NextIsSound(s: State, step: Step)
    requires IsSound(s)
    ensures IsSound(Next(s, step))
  {
    hide Logged;
    var live, reloading := if s.worker.Absent? then 0 else 1, if s.worker.Reloading? then 1 else 0;
    var log := s.log;
    if step.Request? {
      LogOne(log, s.requested, live, reloading, Requested);
      if s.worker.Absent? {
        LogOne(log + [Requested], true, 0, 0, Spawned);
        assert log + [Requested] + [Spawned] == log + [Requested, Spawned];
      }
    } else if s.worker.Scheduled? {
      LogOne(log, true, 1, 0, Started);
    } else if s.worker.Reloading? {
      LogOne(log, s.requested, 1, 1, Ended);
      var e := if s.requested then Started else Finished;
      LogOne(log + [Ended], s.requested, 1, 0, e);
      assert log + [Ended] + [e] == log + [Ended, e];
    }
  }

  /**
   * In every interleaving of requests and worker steps: never two workers nor two reloads at a time, no more
   * reloads than requests, and a request still waiting for a reload is remembered by the flag, so that once the
   * worker is gone each request has had a reload that started after it.
   */
  lemma {:induction false} NoRequestIsLost(steps: seq<Step>)
    ensures var s := Run(steps);
      NeverTwo(s.log) && CountOf(s.log, Started) <= CountOf(s.log, Requested)
      && (HasUnserved(s.log) <==> s.requested) && (s.worker.Absent? ==> !HasUnserved(s.log))
    ensures IsSound(Run(steps))
  {
    if steps == [] {
      assert Logged([], false, 0, 0);
    } else {
      NoRequestIsLost(steps[..|steps| - 1]);
      NextIsSound(Run(steps[..|steps| - 1]), steps[|steps| - 1]);
    }
  }

  /** From every reachable state two undisturbed worker steps serve every request so far and end the worker. */
  lemma TwoStepsServeAll(steps: seq<Step>)
    ensures var s := Run(steps + [WorkerRuns, WorkerRuns]); s.worker.Absent? && !HasUnserved(s.log)
  {
    var more := steps + [WorkerRuns, WorkerRuns];
    assert more[..|more| - 1] == steps + [WorkerRuns] && (steps + [WorkerRuns])[..|steps|] == steps;
    NoRequestIsLost(steps);
    NoRequestIsLost(more);
    hide HasUnserved, NeverTwo, Logged;
    assert Run(more) == OnWorker(OnWorker(Run(steps)));
  }

  class CtMonitorService {
    var running: bool
    var requested: bool
    var inProgress: bool
    /** The refresh task exists and is not done. */
    var taskIsLive: bool
    ghost var begun: bool
    ghost var log: seq<Event>

    ghost function View(): State
      reads this
    {
      State(requested, inProgress, if !taskIsLive then Absent else if begun then Reloading else Scheduled, log)
    }

    constructor ()
      ensures View() == Initial() && running
    {
      running, requested, inProgress, taskIsLive, begun, log := true, false, false, false, false, [];
    }

    /** The answer says whether a new worker was started; a stopped service refuses. */
    method RequestConfigRefresh() returns (started: Option<bool>)
      modifies this
      ensures running == old(running)
      ensures if running then View() == Next(old(View()), Request) && started == Some(old(View()).worker.Absent?)
        else View() == old(View()) && started == None
    {
      if !running { return None; }
      log := log + if taskIsLive then [Requested] else [Requested, Spawned];
      requested := true;
      if taskIsLive { return Some(false); }
      taskIsLive, begun := true, false;
      return Some(true);
    }

    /** The worker up to its first await. */
    method WorkerStarts()
      requires View().worker.Scheduled?
      modifies this
      ensures View() == Next(old(View()), WorkerRuns) && running == old(running)
    {
      requested, inProgress := false, true;
      begun, log := true, log + [Started];
    }

    /** The worker from the end of a reload, failed or not, to its next await or its end. */
    method ReloadEnds()
      requires View().worker.Reloading?
      modifies this
      ensures View() == Next(old(View()), WorkerRuns) && running == old(running)
    {
      log := log + if requested then [Ended, Started] else [Ended, Finished];
      inProgress := false;
      if requested {
        requested, inProgress := false, true;
        return;
      }
      taskIsLive := false;
    }
  }
}
