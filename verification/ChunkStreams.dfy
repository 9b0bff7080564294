/**
 * Whole runs of one task's chunk stream: messages in any order and any number of times, stall checks and
 * collections, with handlers that may raise. `data` is what the worker sent, chunk by chunk.
 */
module ChunkStreams {
  import opened Text
  import opened TaskQueueClient

  datatype Event = Arrive(m: Message, now: int, handled: bool) | Tick(now: int, handled: bool) | Collect

  ghost function Step(v: TaskView, e: Event): TaskView
  {
    match e
    case Arrive(m, now, handled) => Receive(v, m, now, handled)
    case Tick(now, handled) => CheckStalled(v, now, handled)
    case Collect => Fetch(v).1
  }

  ghost function Run(v: TaskView, events: seq<Event>): TaskView
  {
    if events == [] then v else Step(Run(v, events[..|events| - 1]), events[|events| - 1])
  }

  /** The message is the `chunkNum`-th chunk of the data; the last chunk, and no other, is marked final. */
  ghost predicate IsChunkOf(m: Message, data: seq<string>)
  {
    m.total == |data| && 1 <= m.chunkNum <= |data| && m.output == data[m.chunkNum - 1]
    && (m.isFinal <==> m.chunkNum == |data|)
  }

  ghost predicate WellFormed(events: seq<Event>, data: seq<string>)
  {
    forall e | e in events && e.Arrive? :: IsChunkOf(e.m, data)
  }

  // ----- the numbers of the chunks

  /** One to `n`. */
  function Numbers(n: nat): (s: set<nat>)
    ensures forall k :: k in s <==> 1 <= k <= n
    ensures |s| == n
  {
    if n == 0 then {} else Numbers(n - 1) + {n}
  }

  lemma {:induction false} SubsetCount<T>(a: set<T>, b: set<T>)
    requires a <= b
    ensures |a| <= |b| && (|a| == |b| ==> a == b)
  {
    if a != {} {
      var x :| x in a;
      SubsetCount(a - {x}, b - {x});
    }
  }

  /** Some chunks of `n`: as many as `n` only when they are all of them. */
  lemma SomeOfNumbers(s: set<nat>, n: nat)
    requires s <= Numbers(n)
    ensures |s| <= n && (|s| == n <==> s == Numbers(n))
  {
    SubsetCount(s, Numbers(n));
  }

  // ----- what a payload should carry

  /** The chunks numbered in `s`, joined in order. */
  function Present(data: seq<string>, s: set<nat>, n: nat): string
    requires n <= |data|
  {
    if n == 0 then "" else Present(data, s, n - 1) + if n in s then data[n - 1] else ""
  }

  function Whole(data: seq<string>): string
  {
    if data == [] then "" else Whole(data[..|data| - 1]) + data[|data| - 1]
  }

  lemma {:induction false} AllPresentIsWhole(data: seq<string>, s: set<nat>, n: nat)
    requires n <= |data| && Numbers(n) <= s
    ensures Present(data, s, n) == Whole(data[..n])
  {
    if n > 0 {
      AllPresentIsWhole(data, s, n - 1);
      assert data[..n][..n - 1] == data[..n - 1];
      assert n in Numbers(n);
    }
  }

  /** A payload made from the chunks in `s`. */
  ghost predicate CarriesExactly(p: Payload, data: seq<string>, s: set<nat>)
  {
    p.Assembled? && s <= Numbers(|data|) && p.output == Present(data, s, |data|)
    && p.received == |s| && p.expected == |data| && (p.isPartial <==> s != Numbers(|data|))
  }

  ghost predicate IsHonest(p: Payload, data: seq<string>)
  {
    match p
    case Plain(success, output, _) => |data| == 1 && output == data[0] && success && output != ""
    case NoValidOutput => |data| == 1
    case Assembled(_, _, _, _, _, _) => exists s :: CarriesExactly(p, data, s)
  }

  // ----- the invariant of every run

  /** The stored chunks are exactly the processed ones, carry the data, and never include the last. */
  ghost predicate HoldsChunks(info: TaskInfo, data: seq<string>)
  {
    |data| > 1 && info.total == |data| && !info.isComplete
    && info.processed == info.chunks.Keys && info.processed <= Numbers(|data| - 1)
    && forall k | k in info.chunks :: info.chunks[k].output == data[k - 1]
  }

  ghost predicate Good(v: TaskView, data: seq<string>)
  {
    (v.info.Some? ==> HoldsChunks(v.info.value, data))
    && (v.output.Some? ==> IsHonest(v.output.value, data))
    && forall c | c in v.calls :: IsHonest(c.payload, data)
  }

  lemma {:induction false} AssembleIsPresent(chunks: map<nat, Row>, data: seq<string>, n: nat)
    requires n <= |data| && forall k | k in chunks && 1 <= k <= n :: chunks[k].output == data[k - 1]
    ensures Assemble(chunks, n) == Present(data, chunks.Keys, n)
  {
    if n > 0 {
      AssembleIsPresent(chunks, data, n - 1);
    }
  }

  /** Strictly fewer than all chunks are held, so the collector's assembly branch is never taken. */
  lemma HeldChunksAreIncomplete(info: TaskInfo, data: seq<string>)
    requires HoldsChunks(info, data)
    ensures |info.processed| < |data| && |data| !in info.processed
  {
    SomeOfNumbers(info.processed, |data| - 1);
  }

  lemma CollectorNeverAssembles(v: TaskView, data: seq<string>)
    requires Good(v, data)
    ensures Fetch(v) == (v.output, v.(output := None))
  {
    if v.info.Some? {
      HeldChunksAreIncomplete(v.info.value, data);
    }
  }

  /** A task that is released as stalled has a chunk to read, so taking its highest chunk cannot fail. */
  lemma StallReleaseHasAChunk(info: TaskInfo, data: seq<string>, now: int)
    requires HoldsChunks(info, data) && Stalled(info, now)
    ensures info.chunks.Keys != {} && Highest(info.chunks.Keys) in info.chunks
  {
  }

  lemma StallPayloadIsHonest(info: TaskInfo, data: seq<string>)
    requires HoldsChunks(info, data)
    ensures CarriesExactly(AssembledPayload(info, true), data, info.processed)
  {
    HeldChunksAreIncomplete(info, data);
    AssembleIsPresent(info.chunks, data, |data|);
    assert |data| in Numbers(|data|);
  }

  lemma FinalPayloadIsHonest(info: TaskInfo, m: Message, data: seq<string>)
    requires IsChunkOf(m, data) && info.processed == info.chunks.Keys && info.chunks.Keys != {}
    requires info.processed <= Numbers(|data|)
    requires forall k | k in info.chunks :: info.chunks[k].output == data[k - 1]
    ensures CarriesExactly(FinalPayload(info, m), data, info.processed)
  {
    SomeOfNumbers(info.processed, |data|);
    AssembleIsPresent(info.chunks, data, |data|);
  }

  /** The chunks held for the task, whether or not it is live. */
  ghost function Held(v: TaskView): set<nat>
  {
    if v.info.Some? then v.info.value.processed else {}
  }

  /** The task's record after the chunk has been added. */
  ghost function After(v: TaskView, m: Message, now: int): TaskInfo
  {
    AddChunk(v.info.GetOr(FreshInfo(m, now)), m, now)
  }

  lemma ChunkAdded(v: TaskView, m: Message, now: int, data: seq<string>)
    requires (v.info.Some? ==> HoldsChunks(v.info.value, data)) && IsChunkOf(m, data) && |data| > 1
    ensures var info := After(v, m, now);
      info.processed == info.chunks.Keys && info.total == |data| && !info.isComplete
      && info.processed == Held(v) + (if m.output != "" then {m.chunkNum} else {})
      && forall k | k in info.chunks :: info.chunks[k].output == data[k - 1]
  {
  }

  lemma AfterOpenChunk(v: TaskView, m: Message, now: int, data: seq<string>)
    requires (v.info.Some? ==> HoldsChunks(v.info.value, data)) && IsChunkOf(m, data) && |data| > 1
    requires !(m.isFinal && m.output != "")
    ensures HoldsChunks(After(v, m, now), data)
  {
    ChunkAdded(v, m, now, data);
    hide After;
    assert Held(v) <= Numbers(|data| - 1);
    assert m.output != "" ==> m.chunkNum in Numbers(|data| - 1);
  }

  lemma ReceiveOpenChunk(v: TaskView, m: Message, now: int, handled: bool)
    requires m.total > 1 && (m.output != "" ==> |After(v, m, now).processed| != m.total && !m.isFinal)
    ensures Receive(v, m, now, handled) == v.(info := Some(After(v, m, now)))
  {
    hide AddChunk, CallHandler, FinalPayload;
  }

  /** A chunk that is not the last, or has nothing in it, leaves the task open. */
  lemma OpenChunkArrives(v: TaskView, m: Message, now: int, handled: bool, data: seq<string>)
    requires (v.info.Some? ==> HoldsChunks(v.info.value, data)) && IsChunkOf(m, data) && |data| > 1
    requires !(m.isFinal && m.output != "")
    ensures var v' := Receive(v, m, now, handled);
      v'.info == Some(After(v, m, now)) && HoldsChunks(v'.info.value, data)
      && v'.output == v.output && v'.calls == v.calls && v'.registered == v.registered
  {
    AfterOpenChunk(v, m, now, data);
    hide After, Receive, HoldsChunks;
    HeldChunksAreIncomplete(After(v, m, now), data);
    ReceiveOpenChunk(v, m, now, handled);
  }

  /** The last chunk completes the task with the chunks held and itself. */
  lemma FinalChunkArrives(v: TaskView, m: Message, now: int, handled: bool, data: seq<string>)
    requires (v.info.Some? ==> HoldsChunks(v.info.value, data)) && IsChunkOf(m, data) && |data| > 1
    requires m.isFinal && m.output != ""
    ensures var p := FinalPayload(After(v, m, now), m);
      CarriesExactly(p, data, Held(v) + {|data|}) && p.success == m.success && p.node == m.node
      && Receive(v, m, now, handled) == CallHandler(v.(output := Some(p), info := None), p, handled)
  {
    ChunkAdded(v, m, now, data);
    var info := After(v, m, now);
    assert info.chunks.Keys != {} by { assert m.chunkNum in info.processed; }
    hide AddChunk, CallHandler;
    assert info.processed <= Numbers(|data|);
    FinalPayloadIsHonest(info, m, data);
    LastIsHighest(info.chunks.Keys, |data|);
  }

  lemma LastIsHighest(keys: set<nat>, n: nat)
    requires keys <= Numbers(n) && n in keys
    ensures Highest(keys) == n
  {
  }

  lemma CallKeepsGood(v: TaskView, p: Payload, handled: bool, data: seq<string>)
    requires Good(v, data) && IsHonest(p, data)
    ensures Good(CallHandler(v.(output := Some(p), info := None), p, handled), data)
    ensures Good(CallHandler(v.(output := Some(p)), p, handled), data)
    ensures Good(CallHandler(v, p, handled), data)
  {
    hide IsHonest, HoldsChunks;
  }

  lemma ArriveKeepsGood(v: TaskView, m: Message, now: int, handled: bool, data: seq<string>)
    requires Good(v, data) && |data| >= 1 && IsChunkOf(m, data)
    ensures Good(Receive(v, m, now, handled), data)
  {
    if |data| == 1 {
      assert IsHonest(NoValidOutput, data);
      CallKeepsGood(v, NoValidOutput, handled, data);
      if m.success && m.output != "" {
        assert IsHonest(Plain(m.success, m.output, m.node), data);
        CallKeepsGood(v, Plain(m.success, m.output, m.node), handled, data);
      }
      hide Good, IsHonest, CallHandler, ReceiveChunk;
    } else if m.isFinal && m.output != "" {
      hide Receive, HoldsChunks, CallHandler, After, FinalPayload;
      FinalChunkArrives(v, m, now, handled, data);
      hide CarriesExactly;
      CallKeepsGood(v, FinalPayload(After(v, m, now), m), handled, data);
    } else {
      hide Receive, HoldsChunks, IsHonest, After;
      OpenChunkArrives(v, m, now, handled, data);
    }
  }

  lemma StepKeepsGood(v: TaskView, e: Event, data: seq<string>)
    requires Good(v, data) && |data| >= 1 && (e.Arrive? ==> IsChunkOf(e.m, data))
    ensures Good(Step(v, e), data)
  {
    match e
    case Arrive(m, now, handled) => ArriveKeepsGood(v, m, now, handled, data);
    case Tick(now, handled) =>
      if v.info.Some? {
        StallPayloadIsHonest(v.info.value, data);
        hide HoldsChunks, CallHandler, CarriesExactly, AssembledPayload, Stalled;
        CallKeepsGood(v, AssembledPayload(v.info.value, true), handled, data);
      }
    case Collect => CollectorNeverAssembles(v, data);
  }

  /**
   * In every run of a well-formed stream, whatever is stored or handed to the handler is honest: marked
   * whole, it is the exact concatenation of all chunks; marked partial, the in-order concatenation of some.
   */
  lemma {:induction false} RunsAreHonest(v: TaskView, events: seq<Event>, data: seq<string>)
    requires Good(v, data) && |data| >= 1 && WellFormed(events, data)
    ensures Good(Run(v, events), data)
  {
    if events != [] {
      var init, last := events[..|events| - 1], events[|events| - 1];
      assert forall e | e in init :: e in events;
      RunsAreHonest(v, init, data);
      StepKeepsGood(Run(v, init), last, data);
    }
  }

  lemma WholeWhenNotPartial(p: Payload, data: seq<string>)
    requires IsHonest(p, data) && p.Assembled?
    ensures !p.isPartial ==> p.output == Whole(data) && p.received == |data|
    ensures p.isPartial ==> exists s :: s < Numbers(|data|) && p.output == Present(data, s, |data|) && p.received == |s| < |data|
  {
    var s :| CarriesExactly(p, data, s);
    SomeOfNumbers(s, |data|);
    if !p.isPartial {
      AllPresentIsWhole(data, s, |data|);
      assert data[..|data|] == data;
    }
  }

  // ----- exactly what the final chunk delivers

  /** The numbers of the non-empty chunks that have arrived. */
  function Arrived(events: seq<Event>): set<nat>
  {
    if events == [] then {} else
    var init, last := Arrived(events[..|events| - 1]), events[|events| - 1];
    if last.Arrive? && last.m.output != "" then init + {last.m.chunkNum} else init
  }

  /** No final chunk has completed the task and no stall check has released it. */
  ghost predicate StillOpen(v: TaskView, events: seq<Event>)
  {
    if events == [] then true else
    var init, last := events[..|events| - 1], events[|events| - 1];
    StillOpen(v, init)
    && match last
       case Arrive(m, _, _) => !(m.isFinal && m.output != "")
       case Tick(now, _) => Run(v, init).info.Some? ==> !Stalled(Run(v, init).info.value, now)
       case Collect => true
  }

  lemma {:induction false} OpenRunHoldsArrived(v: TaskView, events: seq<Event>, data: seq<string>)
    requires Good(v, data) && v.info.None? && |data| > 1 && WellFormed(events, data) && StillOpen(v, events)
    ensures Good(Run(v, events), data)
    ensures Held(Run(v, events)) == Arrived(events)
    ensures Run(v, events).calls == v.calls && Run(v, events).registered == v.registered
  {
    if events != [] {
      var init, last := events[..|events| - 1], events[|events| - 1];
      assert forall e | e in init :: e in events;
      OpenRunHoldsArrived(v, init, data);
      var u := Run(v, init);
      StepKeepsGood(u, last, data);
      match last
      case Arrive(m, now, handled) =>
        OpenChunkArrives(u, m, now, handled, data);
        ChunkAdded(u, m, now, data);
      case Tick(now, handled) =>
      case Collect => CollectorNeverAssembles(u, data);
    }
  }

  /**
   * When the final chunk first arrives, the handler is called once, with the in-order concatenation of the
   * chunks present; it is marked whole, and is the whole output, exactly when all others arrived before.
   */
  lemma FinalChunkDelivers(v: TaskView, events: seq<Event>, m: Message, now: int, handled: bool, data: seq<string>)
    requires Good(v, data) && v.info.None? && |data| > 1 && WellFormed(events, data) && StillOpen(v, events)
    requires IsChunkOf(m, data) && m.isFinal && m.output != ""
    ensures var u := Run(v, events + [Arrive(m, now, handled)]);
      u.info.None? && u.output.Some? && CarriesExactly(u.output.value, data, Arrived(events) + {|data|})
      && u.output.value.success == m.success && u.output.value.node == m.node
      && u.calls == v.calls + (if v.registered then [Call(u.output.value, handled)] else [])
      && if Numbers(|data| - 1) <= Arrived(events)
         then !u.output.value.isPartial && u.output.value.output == Whole(data)
         else u.output.value.isPartial
  {
    var all := events + [Arrive(m, now, handled)];
    assert all[..|all| - 1] == events;
    OpenRunHoldsArrived(v, events, data);
    ArrivedAreNumbers(events, data);
    var w := Run(v, events);
    assert Run(v, all) == Receive(w, m, now, handled);
    FinalChunkArrives(w, m, now, handled, data);
    AllButLast(Arrived(events), |data|);
    PayloadOfSet(FinalPayload(After(w, m, now), m), data, Arrived(events) + {|data|});
  }

  lemma AllButLast(s: set<nat>, n: nat)
    requires n >= 1 && s <= Numbers(n)
    ensures s + {n} == Numbers(n) <==> Numbers(n - 1) <= s
  {
  }

  lemma PayloadOfSet(p: Payload, data: seq<string>, s: set<nat>)
    requires CarriesExactly(p, data, s)
    ensures s == Numbers(|data|) ==> p.output == Whole(data)
  {
    if s == Numbers(|data|) {
      AllPresentIsWhole(data, s, |data|);
      assert data[..|data|] == data;
    }
  }

  lemma {:induction false} ArrivedAreNumbers(events: seq<Event>, data: seq<string>)
    requires WellFormed(events, data)
    ensures Arrived(events) <= Numbers(|data|)
  {
    if events != [] {
      var init := events[..|events| - 1];
      assert forall e | e in init :: e in events;
      ArrivedAreNumbers(init, data);
    }
  }

  /**
   * So arrival order matters: a final chunk that finds no others held is delivered alone, marked partial. That
   * is what becomes of a stream whose final chunk comes first, and a final chunk redelivered after completion
   * puts a partial payload in the place of a whole one not yet collected.
   */
  lemma LoneFinalIsPartial(v: TaskView, m: Message, now: int, handled: bool, data: seq<string>)
    requires Good(v, data) && v.info.None? && |data| > 1 && IsChunkOf(m, data) && m.isFinal && m.output != ""
    ensures var u := Run(v, [Arrive(m, now, handled)]);
      u.output.Some? && u.output.value.Assembled? && u.output.value.isPartial
      && u.output.value.received == 1 && u.output.value.output == data[|data| - 1]
  {
    var none: seq<Event> := [];
    assert none + [Arrive(m, now, handled)] == [Arrive(m, now, handled)];
    FinalChunkDelivers(v, none, m, now, handled, data);
    assert 1 in Numbers(|data| - 1);
    assert {} + {|data|} == {|data|};
    OnlyLastPresent(data, {|data|}, |data| - 1);
  }

  lemma {:induction false} OnlyLastPresent(data: seq<string>, s: set<nat>, n: nat)
    requires n < |data| && s == {|data|}
    ensures Present(data, s, n) == ""
  {
    if n > 0 {
      OnlyLastPresent(data, s, n - 1);
    }
  }

  // ----- exactly what a stall check releases

  /** The first chunk that arrived, and the last one. */
  function FirstArrival(events: seq<Event>): (e: Option<Event>)
    ensures e.Some? ==> e.value.Arrive?
  {
    if events == [] then None else
    var before, last := FirstArrival(events[..|events| - 1]), events[|events| - 1];
    if before.None? && last.Arrive? then Some(last) else before
  }

  function LastArrival(events: seq<Event>): (e: Option<Event>)
    ensures e.Some? ==> e.value.Arrive?
  {
    if events == [] then None
    else if events[|events| - 1].Arrive? then Some(events[|events| - 1]) else LastArrival(events[..|events| - 1])
  }

  /** The node that last sent the `k`-th chunk. */
  function NodeOf(events: seq<Event>, k: nat): string
  {
    if events == [] then "" else
    var last := events[|events| - 1];
    if last.Arrive? && last.m.output != "" && last.m.chunkNum == k then last.m.node else NodeOf(events[..|events| - 1], k)
  }

  /** What the record of an open task says of the arrivals. */
  ghost predicate Records(v: TaskView, events: seq<Event>)
  {
    (v.info.Some? <==> FirstArrival(events).Some?) && (FirstArrival(events).Some? <==> LastArrival(events).Some?)
    && (v.info.Some? ==>
          v.info.value.success == FirstArrival(events).value.m.success
          && v.info.value.lastTime == LastArrival(events).value.now
          && forall k | k in v.info.value.chunks :: v.info.value.chunks[k].node == NodeOf(events, k))
  }

  lemma ArrivalRecorded(v: TaskView, init: seq<Event>, m: Message, now: int, handled: bool, w: TaskView)
    requires Records(v, init) && w.info == Some(After(v, m, now))
    ensures Records(w, init + [Arrive(m, now, handled)])
  {
    var events := init + [Arrive(m, now, handled)];
    assert events[..|events| - 1] == init;
  }

  lemma NothingRecorded(v: TaskView, w: TaskView, init: seq<Event>, e: Event)
    requires Records(v, init) && !e.Arrive? && w.info == v.info
    ensures Records(w, init + [e])
  {
    assert (init + [e])[..|init|] == init;
  }

  lemma {:induction false} OpenRunRecords(v: TaskView, events: seq<Event>, data: seq<string>)
    requires Good(v, data) && v.info.None? && |data| > 1 && WellFormed(events, data) && StillOpen(v, events)
    ensures Records(Run(v, events), events)
  {
    if events != [] {
      var init, last := events[..|events| - 1], events[|events| - 1];
      assert events == init + [last] && forall e | e in init :: e in events;
      OpenRunRecords(v, init, data);
      OpenRunHoldsArrived(v, init, data);
      var u := Run(v, init);
      hide Records, Good;
      match last
      case Arrive(m, now, handled) =>
        OpenChunkArrives(u, m, now, handled, data);
        ArrivalRecorded(u, init, m, now, handled, Run(v, events));
      case Tick(now, handled) => NothingRecorded(u, Run(v, events), init, last);
      case Collect =>
        CollectorNeverAssembles(u, data);
        NothingRecorded(u, Run(v, events), init, last);
    }
  }

  /**
   * A stall check releases an open task exactly when more than nine tenths of its chunks have arrived and none in the
   * last minute: the handler is called once, with what has arrived in order, marked partial. Else nothing changes.
   */
  lemma StallReleasesExactly(v: TaskView, events: seq<Event>, now: int, handled: bool, data: seq<string>)
    requires Good(v, data) && v.info.None? && |data| > 1 && WellFormed(events, data) && StillOpen(v, events)
    ensures var u := Run(v, events + [Tick(now, handled)]);
      if LastArrival(events).Some? && |Arrived(events)| * 10 > |data| * 9 && now - LastArrival(events).value.now > 60
      then u.info.None? && u.output.Some? && CarriesExactly(u.output.value, data, Arrived(events))
           && u.output.value.isPartial && FirstArrival(events).Some?
           && u.output.value.success == FirstArrival(events).value.m.success
           && (exists k :: IsHighest(Arrived(events), k) && u.output.value.node == NodeOf(events, k))
           && u.calls == v.calls + if v.registered then [Call(u.output.value, handled)] else []
      else u == Run(v, events)
  {
    var all := events + [Tick(now, handled)];
    assert all[..|all| - 1] == events;
    OpenRunHoldsArrived(v, events, data);
    OpenRunRecords(v, events, data);
    var w := Run(v, events);
    assert Run(v, all) == CheckStalled(w, now, handled);
    hide Run, StillOpen, WellFormed, Assemble;
    if w.info.Some? && Stalled(w.info.value, now) {
      StallPayloadIsHonest(w.info.value, data);
      StallReleaseHasAChunk(w.info.value, data, now);
      HeldChunksAreIncomplete(w.info.value, data);
      assert IsHighest(Arrived(events), Highest(w.info.value.chunks.Keys));
    }
  }

  /** So a stream of up to ten chunks whose last one is lost is never released: nine tenths are never exceeded. */
  lemma ShortStreamsAreNotReleased(v: TaskView, events: seq<Event>, now: int, handled: bool, data: seq<string>)
    requires Good(v, data) && v.info.None? && 1 < |data| <= 10 && WellFormed(events, data) && StillOpen(v, events)
    ensures Run(v, events + [Tick(now, handled)]) == Run(v, events)
  {
    hide Run, StillOpen, WellFormed, Good, CarriesExactly;
    StallReleasesExactly(v, events, now, handled, data);
    OpenRunHoldsArrived(v, events, data);
    ArrivedLacksLast(Run(v, events), events, data);
  }

  lemma ArrivedLacksLast(u: TaskView, events: seq<Event>, data: seq<string>)
    requires Good(u, data) && Held(u) == Arrived(events) && |data| > 1
    ensures |Arrived(events)| < |data|
  {
    if u.info.Some? {
      HeldChunksAreIncomplete(u.info.value, data);
    }
  }

  /**
   * A message of one chunk, for any state of its task: with success and an output it is stored, fetched next and handed
   * to the handler; otherwise what is stored stays and the handler hears that there is no valid output.
   */
  lemma PlainDelivers(v: TaskView, m: Message, now: int, handled: bool)
    requires m.total <= 1
    ensures var w := Receive(v, m, now, handled);
      var p := if m.success && m.output != "" then Plain(true, m.output, m.node) else NoValidOutput;
      w.calls == v.calls + (if v.registered then [Call(p, handled)] else [])
      && w.registered == (v.registered && !handled) && w.info == v.info
      && (if m.success && m.output != "" then w.output == Some(p) && Fetch(w).0 == Some(p) else w.output == v.output)
  {
  }

  // ----- handlers

  function NormalReturns(calls: seq<Call>): nat
  {
    if calls == [] then 0 else NormalReturns(calls[..|calls| - 1]) + if calls[|calls| - 1].returned then 1 else 0
  }

  lemma OneMoreCall(calls: seq<Call>, c: Call)
    ensures NormalReturns(calls + [c]) == NormalReturns(calls) + if c.returned then 1 else 0
  {
    assert (calls + [c])[..|calls|] == calls;
  }

  /** A registered handler returns normally at most once, for any messages at all, well formed or not. */
  lemma {:induction false} HandlerReturnsAtMostOnce(v: TaskView, events: seq<Event>)
    ensures var u := Run(v, events);
      NormalReturns(u.calls) + (if u.registered then 1 else 0) == NormalReturns(v.calls) + if v.registered then 1 else 0
    ensures v.calls <= Run(v, events).calls
    ensures !v.registered ==> Run(v, events).calls == v.calls
  {
    if events != [] {
      var init, last := events[..|events| - 1], events[|events| - 1];
      HandlerReturnsAtMostOnce(v, init);
      var u := Run(v, init);
      StepCallsOnce(u, last);
      var w := Step(u, last);
      if w.calls != u.calls {
        OneMoreCall(u.calls, w.calls[|u.calls|]);
      }
    }
  }

  lemma StepCallsOnce(v: TaskView, e: Event)
    ensures var w := Step(v, e);
      (w.calls == v.calls && w.registered == v.registered)
      || (v.registered && |w.calls| == |v.calls| + 1 && w.calls == v.calls + [w.calls[|v.calls|]]
          && w.registered == !w.calls[|v.calls|].returned)
  {
    hide Assemble, Highest, Stalled;
  }
}
