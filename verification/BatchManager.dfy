/**
 * Event batching over Redis (`event_handlers.py`, `main.py` of the event handler). A batch's item list and
 * meta hash share the text between prefix and suffix, the batch key; the model indexes both by it. Each
 * method is one atomic Redis transaction, or a sequence of calls to such methods without another in between.
 */
module BatchManager {
  import opened Text

  // ----- keys

  function BatchKey(handler: string, program: string): string
  {
    "batch:" + handler + ":" + program
  }

  function MetaKey(batchKey: string): string
  {
    "notify:" + batchKey + ":meta"
  }

  /** What the scanners read off a meta key. */
  function ParseMetaKey(key: string): Option<(string, string)>
  {
    var parts := Split(key, ':');
    if |parts| < 5 then None else Some((parts[2], Join(parts[3..|parts| - 1], ':')))
  }

  lemma NoColonIsOnePart(s: string)
    requires ':' !in s
    ensures Split(s, ':') == [s]
  {
  }

  lemma SplitAfter(a: string, rest: string)
    requires ':' !in a
    ensures Split(a + ":" + rest, ':') == [a] + Split(rest, ':')
  {
    SplitAppend(a, rest, ':');
    NoColonIsOnePart(a);
  }

  lemma SplitBefore(p: string, z: string)
    requires ':' !in z
    ensures Split(p + ":" + z, ':') == Split(p, ':') + [z]
  {
    SplitAppend(p, z, ':');
    NoColonIsOnePart(z);
  }

  lemma MetaParts(a: string, b: string, hs: seq<string>, qs: seq<string>, z: string)
    ensures [a] + ([b] + (hs + (qs + [z]))) == [a, b] + hs + qs + [z]
  {
    Regroup([a], [b], hs, qs + [z]);
    assert [a] + [b] == [a, b];
  }

  lemma SplitChain(a: string, b: string, h: string, p: string, z: string)
    requires ':' !in a && ':' !in b && ':' !in z
    ensures Split(a + ":" + (b + ":" + (h + ":" + (p + ":" + z))), ':') == [a, b] + Split(h, ':') + Split(p, ':') + [z]
  {
    var pz := p + ":" + z;
    var hpz := h + ":" + pz;
    var bhpz := b + ":" + hpz;
    SplitBefore(p, z);
    SplitAppend(h, pz, ':');
    SplitAfter(b, hpz);
    SplitAfter(a, bhpz);
    hide Split;
    MetaParts(a, b, Split(h, ':'), Split(p, ':'), z);
  }

  lemma KeyIsChain(n: string, b: string, h: string, p: string, z: string)
    ensures (n + ":") + ((b + ":") + h + ":" + p) + (":" + z) == n + ":" + (b + ":" + (h + ":" + (p + ":" + z)))
  {
  }

  /** The parts of a printed key. */
  lemma MetaKeyParts(handler: string, program: string)
    ensures Split(MetaKey(BatchKey(handler, program)), ':')
         == ["notify", "batch"] + Split(handler, ':') + Split(program, ':') + ["meta"]
  {
    hide Split;
    KeyIsChain("notify", "batch", handler, program, "meta");
    assert "notify" + ":" == "notify:" && "batch" + ":" == "batch:" && ":" + "meta" == ":meta";
    SplitChain("notify", "batch", handler, program, "meta");
  }

  /**
   * Parsing a printed key recovers handler and program, colons in the program included, exactly when the
   * handler has no colon.
   */
  lemma KeyRoundTrip(handler: string, program: string)
    ensures ParseMetaKey(MetaKey(BatchKey(handler, program))) == Some((handler, program)) <==> ':' !in handler
  {
    var key := MetaKey(BatchKey(handler, program));
    var parts, hs, qs := Split(key, ':'), Split(handler, ':'), Split(program, ':');
    MetaKeyParts(handler, program);
    hide Split, MetaKey, BatchKey;
    assert parts[2] == hs[0];
    if ':' in handler {
      assert hs[0] != handler by { assert ':' !in hs[0]; }
    } else {
      NoColonIsOnePart(handler);
      assert parts[3..|parts| - 1] == qs;
    }
  }

  /** Whatever the scanners read off a printed key prints back to the same key. */
  lemma ReprintIsSameKey(handler: string, program: string)
    ensures var r := ParseMetaKey(MetaKey(BatchKey(handler, program)));
      r.Some? && BatchKey(r.value.0, r.value.1) == BatchKey(handler, program)
  {
    var parts, hs, qs := Split(MetaKey(BatchKey(handler, program)), ':'), Split(handler, ':'), Split(program, ':');
    MetaKeyParts(handler, program);
    hide Split, Join, BatchKey, MetaKey;
    var both := hs + qs;
    assert parts == ["notify", "batch"] + both + ["meta"];
    assert parts[2] == both[0] && parts[3..|parts| - 1] == both[1..];
    JoinAppend(hs, qs, ':');
    assert both == [both[0]] + both[1..];
    JoinAppend([both[0]], both[1..], ':');
    JoinOne(both[0]);
    Reprint(both[0], Join(both[1..], ':'), handler, program);
  }

  lemma JoinOne(s: string)
    ensures Join([s], ':') == s
  {
  }

  lemma Reprint(h: string, p: string, handler: string, program: string)
    requires h + ":" + p == handler + ":" + program
    ensures BatchKey(h, p) == BatchKey(handler, program)
  {
    assert BatchKey(h, p) == "batch:" + (h + ":" + p);
    assert BatchKey(handler, program) == "batch:" + (handler + ":" + program);
  }

  /** Distinct pairs of colon-free handlers and programs never share a queue. */
  lemma KeysAreInjective(h1: string, p1: string, h2: string, p2: string)
    requires ':' !in h1 && ':' !in h2 && BatchKey(h1, p1) == BatchKey(h2, p2)
    ensures h1 == h2 && p1 == p2
  {
    hide BatchKey, MetaKey, ParseMetaKey;
    KeyRoundTrip(h1, p1);
    KeyRoundTrip(h2, p2);
  }

  // ----- one queue

  /** An event as queued, with the second it was added at. */
  datatype Queued<E> = Queued(event: E, at: int)
  datatype Meta = Meta(firstTs: int, timeout: int)

  datatype Fate = HandedToActions | Discarded
  datatype Segment<E> = Segment(fate: Fate, events: seq<Queued<E>>)

  /** What Redis holds for a batch key; in order what has left it; and the delay of the last add. */
  datatype Queue<E> = Queue(pending: seq<Queued<E>>, meta: Option<Meta>, past: seq<Segment<E>>, delay: int)

  function Empty<E>(): Queue<E> { Queue([], None, [], 0) }

  /** The meta exists when items do; it dates from the oldest one and times out with the delay of the last add. */
  ghost predicate IsConsistent<E>(q: Queue<E>)
  {
    q.meta == if q.pending == [] then None else Some(Meta(q.pending[0].at, q.delay))
  }

  /** Everything leaves the queue at once, and its meta with it. */
  function Clear<E>(q: Queue<E>, fate: Fate): Queue<E>
  {
    if q.pending == [] then q.(meta := None) else Queue([], None, q.past + [Segment(fate, q.pending)], q.delay)
  }

  /** Pushes an event; a time to live that is not positive makes Redis delete the keys on the spot. */
  function Push<E>(q: Queue<E>, event: E, now: int, maxDelay: int): Queue<E>
  {
    var meta := if q.meta.Some? then Meta(q.meta.value.firstTs, maxDelay) else Meta(now, maxDelay);
    var pushed := q.(pending := q.pending + [Queued(event, now)], meta := Some(meta), delay := maxDelay);
    if maxDelay * 2 <= 0 then Clear(pushed, Discarded) else pushed
  }

  function Batches<E>(past: seq<Segment<E>>): seq<seq<Queued<E>>>
  {
    seq(|past|, i requires 0 <= i < |past| => past[i].events)
  }

  /** Every event ever added to the queue, in order: those that have left, and those pending. */
  function History<E>(q: Queue<E>): seq<Queued<E>>
  {
    Flatten(Batches(q.past)) + q.pending
  }

  function CountOf<E>(past: seq<Segment<E>>, fate: Fate): nat
  {
    if past == [] then 0
    else CountOf(past[..|past| - 1], fate) + if past[|past| - 1].fate == fate then |past[|past| - 1].events| else 0
  }

  lemma OneMoreSegment<E>(past: seq<Segment<E>>, s: Segment<E>)
    ensures Flatten(Batches(past + [s])) == Flatten(Batches(past)) + s.events
    ensures forall fate :: CountOf(past + [s], fate) == CountOf(past, fate) + if s.fate == fate then |s.events| else 0
  {
    assert (past + [s])[..|past|] == past;
    assert Batches(past + [s]) == Batches(past) + [s.events];
    FlattenOneMore(Batches(past), s.events);
  }

  lemma ClearKeepsHistory<E>(q: Queue<E>, fate: Fate)
    ensures History(Clear(q, fate)) == History(q) && IsConsistent(Clear(q, fate))
  {
    OneMoreSegment(q.past, Segment(fate, q.pending));
  }

  lemma PushAddsToHistory<E>(q: Queue<E>, event: E, now: int, maxDelay: int)
    requires IsConsistent(q)
    ensures History(Push(q, event, now, maxDelay)) == History(q) + [Queued(event, now)]
    ensures IsConsistent(Push(q, event, now, maxDelay))
  {
    var meta := if q.meta.Some? then Meta(q.meta.value.firstTs, maxDelay) else Meta(now, maxDelay);
    var pushed := q.(pending := q.pending + [Queued(event, now)], meta := Some(meta), delay := maxDelay);
    ClearKeepsHistory(pushed, Discarded);
  }

  lemma {:induction false} CountsAreAll<E>(past: seq<Segment<E>>)
    ensures |Flatten(Batches(past))| == CountOf(past, HandedToActions) + CountOf(past, Discarded)
  {
    if past != [] {
      CountsAreAll(past[..|past| - 1]);
      OneMoreSegment(past[..|past| - 1], past[|past| - 1]);
      assert past == past[..|past| - 1] + [past[|past| - 1]];
    }
  }

  // ----- every interleaving of the atomic steps on one queue

  datatype QueueStep<E> = Add(event: E, now: int, maxDelay: int) | Take | AdminClear | Expire

  function StepQueue<E>(q: Queue<E>, s: QueueStep<E>): Queue<E>
  {
    match s
    case Add(event, now, maxDelay) => Push(q, event, now, maxDelay)
    case Take => Clear(q, HandedToActions)
    case AdminClear => Clear(q, Discarded)
    case Expire => Clear(q, Discarded)
  }

  function RunQueue<E>(steps: seq<QueueStep<E>>): Queue<E>
  {
    if steps == [] then Empty() else StepQueue(RunQueue(steps[..|steps| - 1]), steps[|steps| - 1])
  }

  function Added<E>(steps: seq<QueueStep<E>>): seq<Queued<E>>
  {
    if steps == [] then [] else
    var init, last := Added(steps[..|steps| - 1]), steps[|steps| - 1];
    if last.Add? then init + [Queued(last.event, last.now)] else init
  }

  /**
   * Conservation over every interleaving: what has left, batch by batch, followed by what is pending is
   * exactly what was added, in arrival order. The meta exists when items do and dates from the oldest one.
   */
  lemma {:induction false} NothingLostOrReordered<E>(steps: seq<QueueStep<E>>)
    ensures var q := RunQueue(steps);
      IsConsistent(q) && History(q) == Added(steps)
      && |Added(steps)| == CountOf(q.past, HandedToActions) + CountOf(q.past, Discarded) + |q.pending|
  {
    var q := RunQueue(steps);
    if steps != [] {
      var init, last := steps[..|steps| - 1], steps[|steps| - 1];
      NothingLostOrReordered(init);
      match last
      case Add(event, now, maxDelay) => PushAddsToHistory(RunQueue(init), event, now, maxDelay);
      case Take => ClearKeepsHistory(RunQueue(init), HandedToActions);
      case AdminClear => ClearKeepsHistory(RunQueue(init), Discarded);
      case Expire => ClearKeepsHistory(RunQueue(init), Discarded);
    }
    CountsAreAll(q.past);
  }

  /**
   * What one more step does after any run: an add with a positive delay appends its event; every other step takes
   * all events out at once, a take to the actions and any other to nowhere.
   */
  lemma OneMoreStep<E>(steps: seq<QueueStep<E>>, s: QueueStep<E>)
    ensures var before, after := RunQueue(steps), RunQueue(steps + [s]);
      var found := if s.Add? then before.pending + [Queued(s.event, s.now)] else before.pending;
      var gone := Segment(if s.Take? then HandedToActions else Discarded, found);
      if s.Add? && s.maxDelay > 0 then after.pending == found && after.past == before.past
      else after.pending == [] && after.past == if found == [] then before.past else before.past + [gone]
  {
    assert (steps + [s])[..|steps|] == steps;
  }

  /** The delay of the last add of a run. */
  function LastDelay<E>(steps: seq<QueueStep<E>>): int
  {
    if steps == [] then 0
    else if steps[|steps| - 1].Add? then steps[|steps| - 1].maxDelay else LastDelay(steps[..|steps| - 1])
  }

  /**
   * Over every interleaving a pending queue's meta holds the time of its oldest event and the delay of the last add,
   * and nothing else decides when the queue expires.
   */
  lemma {:induction false} MetaIsOldestAndLast<E>(steps: seq<QueueStep<E>>)
    ensures var q := RunQueue(steps);
      q.meta == if q.pending == [] then None else Some(Meta(q.pending[0].at, LastDelay(steps)))
    ensures RunQueue(steps).delay == LastDelay(steps)
  {
    NothingLostOrReordered(steps);
    DelayIsLast(steps);
  }

  lemma {:induction false} DelayIsLast<E>(steps: seq<QueueStep<E>>)
    ensures RunQueue(steps).delay == LastDelay(steps)
  {
    if steps != [] {
      DelayIsLast(steps[..|steps| - 1]);
    }
  }

  // ----- scan now, take or delete later

  function StepsFrom<E>(q: Queue<E>, steps: seq<QueueStep<E>>): Queue<E>
  {
    if steps == [] then q else StepQueue(StepsFrom(q, steps[..|steps| - 1]), steps[|steps| - 1])
  }

  /** Steps after which a queue is empty; an add whose delay is not positive is one. */
  predicate Empties<E>(s: QueueStep<E>)
  {
    !s.Add? || s.maxDelay <= 0
  }

  predicate AnyEmpties<E>(steps: seq<QueueStep<E>>)
  {
    exists i | 0 <= i < |steps| :: Empties(steps[i])
  }

  /** The events added since a step last emptied the queue. */
  function AddedSince<E>(steps: seq<QueueStep<E>>): seq<Queued<E>>
  {
    if steps == [] || Empties(steps[|steps| - 1]) then [] else
    var last := steps[|steps| - 1];
    AddedSince(steps[..|steps| - 1]) + [Queued(last.event, last.now)]
  }

  /**
   * What a flush or a clear finds in a queue it has seen earlier, whatever came in between: the events it saw and
   * those added since, or, once something has emptied the queue, only the latter.
   */
  lemma {:induction false} FoundLater<E>(q: Queue<E>, between: seq<QueueStep<E>>)
    ensures StepsFrom(q, between).pending == (if AnyEmpties(between) then [] else q.pending) + AddedSince(between)
  {
    if between != [] {
      var init, last := between[..|between| - 1], between[|between| - 1];
      FoundLater(q, init);
      assert between == init + [last];
      assert AnyEmpties(between) <==> AnyEmpties(init) || Empties(last) by {
        assert between[|init|] == last;
        if i :| 0 <= i < |init| && Empties(init[i]) {
          assert Empties(between[i]);
        }
      }
    }
  }

  /**
   * The admin clear reads the length it reports before it deletes. The report is at most the number of events
   * discarded while nothing empties the queue in between, and equal when also nothing is added. If something does,
   * as another flush may, the report exceeds it by as much as was read and not added again.
   */
  lemma AdminClearCount<E>(q: Queue<E>, between: seq<QueueStep<E>>)
    ensures var reported, discarded := |q.pending|, |StepsFrom(q, between).pending|;
      if AnyEmpties(between) then reported - discarded == |q.pending| - |AddedSince(between)|
      else reported <= discarded && (reported == discarded <==> between == [])
  {
    FoundLater(q, between);
    if between != [] && !AnyEmpties(between) {
      assert !Empties(between[|between| - 1]);
    }
  }

  // ----- the manager object

  /** A scanned batch: handler, program and age in seconds. */
  type Entry = (string, string, int)

  function Parsed(b: string): (string, string)
  {
    ParseMetaKey(MetaKey(b)).GetOr(("", ""))
  }

  ghost predicate IsPrinted(b: string)
  {
    exists handler, program :: b == BatchKey(handler, program)
  }

  /** A printed key is the one its scanned handler and program print to. */
  lemma ScannedKey(b: string)
    requires IsPrinted(b)
    ensures ParseMetaKey(MetaKey(b)).Some? && BatchKey(Parsed(b).0, Parsed(b).1) == b
  {
    var handler, program :| b == BatchKey(handler, program);
    hide BatchKey, MetaKey, ParseMetaKey;
    ReprintIsSameKey(handler, program);
  }

  /** With a colon-free handler the scan reads back what was printed. */
  lemma ScannedPair(handler: string, program: string)
    requires ':' !in handler
    ensures Parsed(BatchKey(handler, program)) == (handler, program)
  {
    hide BatchKey, MetaKey, ParseMetaKey;
    KeyRoundTrip(handler, program);
  }

  /** What looking up a handler comes to, and what becomes of a batch when all are passed over. */
  datatype Lookup = Known | Unknown | LookupRaises
  datatype End = Delivered | DeliveryRaised | Orphaned | NotTaken

  /** The outcomes of one pass: a delivery may raise after its events have been taken. */
  datatype Plan = Plan(lookup: (string, string) -> Lookup, delivers: (string, string) -> bool) {
    function EndOf(b: string): End
    {
      var (handler, program) := Parsed(b);
      match lookup(handler, program)
      case LookupRaises => NotTaken
      case Unknown => Orphaned
      case Known => if delivers(handler, program) then Delivered else DeliveryRaised
    }
  }

  /** The item lists, the meta hashes and, for each batch key, what has left its queue and the last delay. */
  datatype Store<E> = Store(items: map<string, seq<Queued<E>>>, metas: map<string, Meta>, past: map<string, seq<Segment<E>>>,
                            delays: map<string, int>)

  function At<E>(s: Store<E>, b: string): Queue<E>
  {
    Queue(if b in s.items then s.items[b] else [],
          if b in s.metas then Some(s.metas[b]) else None,
          if b in s.past then s.past[b] else [],
          if b in s.delays then s.delays[b] else 0)
  }

  /** The queue of `b` has been cleared and no other has changed. */
  ghost predicate OneCleared<E>(before: Store<E>, after: Store<E>, b: string, fate: Fate)
  {
    forall c :: At(after, c) == if c == b then Clear(At(before, c), fate) else At(before, c)
  }

  ghost predicate AllConsistent<E>(queues: Store<E>)
  {
    forall b :: IsConsistent(At(queues, b))
  }

  ghost predicate IsValid<E>(s: Store<E>)
  {
    AllConsistent(s) && (forall b | b in s.items :: s.items[b] != []) && forall b | b in s.metas :: IsPrinted(b)
  }

  function Without<E>(s: Store<E>, b: string, fate: Fate): Store<E>
  {
    var q := At(s, b);
    Store(s.items - {b}, s.metas - {b}, if q.pending == [] then s.past else s.past[b := q.past + [Segment(fate, q.pending)]],
          s.delays)
  }

  lemma WithoutClearsOne<E>(s: Store<E>, b: string, fate: Fate)
    requires IsValid(s)
    ensures IsValid(Without(s, b, fate)) && OneCleared(s, Without(s, b, fate), b, fate)
  {
    hide IsPrinted;
    var after := Without(s, b, fate);
    forall c
      ensures At(after, c) == if c == b then Clear(At(s, c), fate) else At(s, c)
    {
    }
    hide At, Without;
    forall c
      ensures IsConsistent(At(after, c))
    {
      assert IsConsistent(At(s, c));
      ClearKeepsHistory(At(s, c), fate);
    }
  }

  lemma PutIsValid<E>(before: Store<E>, after: Store<E>, b: string, list: seq<Queued<E>>, meta: Meta)
    requires IsValid(before) && IsPrinted(b) && list != [] && meta.firstTs == list[0].at
    requires after == Store(before.items[b := list], before.metas[b := meta], before.past, before.delays[b := meta.timeout])
    ensures IsValid(after) && At(after, b) == Queue(list, Some(meta), At(before, b).past, meta.timeout)
    ensures forall c | c != b :: At(after, c) == At(before, c)
  {
    hide IsPrinted;
    forall c ensures IsConsistent(At(after, c)) && (c != b ==> At(after, c) == At(before, c)) {
      assert IsConsistent(At(before, c));
    }
  }

  class SimpleBatchManager<E> {
    var items: map<string, seq<Queued<E>>>
    var metas: map<string, Meta>
    ghost var past: map<string, seq<Segment<E>>>
    ghost var delays: map<string, int>

    ghost function Now(): Store<E>
      reads this
    {
      Store(items, metas, past, delays)
    }

    ghost function View(b: string): Queue<E>
      reads this
    {
      At(Now(), b)
    }

    ghost predicate Valid()
      reads this
    {
      IsValid(Now())
    }

    constructor ()
      ensures Valid() && forall b :: View(b) == Empty()
    {
      items, metas, past, delays := map[], map[], map[], map[];
    }

    /** Deletes both keys of a batch. */
    method Delete(b: string, ghost fate: Fate)
      requires Valid()
      modifies this
      ensures Valid() && metas == old(metas) - {b}
      ensures OneCleared(old(Now()), Now(), b, fate)
    {
      WithoutClearsOne(Now(), b, fate);
      ghost var q := View(b);
      hide IsValid, OneCleared;
      if q.pending != [] {
        past := past[b := q.past + [Segment(fate, q.pending)]];
      }
      items := items - {b};
      metas := metas - {b};
      assert Now() == Without(old(Now()), b, fate);
    }

    /** Overwrites both keys of a batch with a non-empty list and its meta. */
    method Put(b: string, list: seq<Queued<E>>, meta: Meta)
      requires Valid() && IsPrinted(b) && list != [] && meta.firstTs == list[0].at
      modifies this
      ensures Valid() && View(b) == Queue(list, Some(meta), old(View(b)).past, meta.timeout)
      ensures forall c | c != b :: View(c) == old(View(c))
    {
      items := items[b := list];
      metas := metas[b := meta];
      delays := delays[b := meta.timeout];
      hide IsPrinted;
      PutIsValid(old(Now()), Now(), b, list, meta);
    }

    /** Appends an event and restarts the time to live of the batch; Redis deletes keys whose time to live is not positive. */
    method AddToBatch(handler: string, program: string, event: E, maxEvents: int, maxDelay: int, now: int)
      returns (count: nat, shouldFlush: bool)
      requires Valid()
      modifies this
      ensures Valid() && View(BatchKey(handler, program)) == Push(old(View(BatchKey(handler, program))), event, now, maxDelay)
      ensures forall c | c != BatchKey(handler, program) :: View(c) == old(View(c))
      ensures var q := View(BatchKey(handler, program));
        count == |q.pending|
        && (shouldFlush <==> count >= maxEvents || now - (if q.pending != [] then q.pending[0].at else 0) >= maxDelay)
    {
      var b := BatchKey(handler, program);
      PrintedKey(handler, program);
      assert IsConsistent(View(b));
      var firstTs := if b in metas then metas[b].firstTs else now;
      var list := (if b in items then items[b] else []) + [Queued(event, now)];
      hide BatchKey, IsPrinted, IsValid;
      Put(b, list, Meta(firstTs, maxDelay));
      count := |list|;
      if maxDelay * 2 <= 0 {
        Delete(b, Discarded);
        count, firstTs := 0, 0;
      }
      shouldFlush := count >= maxEvents || now - firstTs >= maxDelay;
    }

    method GetAndClearBatch(handler: string, program: string, ghost fate: Fate) returns (events: seq<Queued<E>>)
      requires Valid()
      modifies this
      ensures Valid() && events == old(View(BatchKey(handler, program))).pending
      ensures OneCleared(old(Now()), Now(), BatchKey(handler, program), fate)
    {
      var b := BatchKey(handler, program);
      events := if b in items then items[b] else [];
      Delete(b, fate);
    }

    /**
     * One event through a batching handler, with no other step between the add and the flush: with a
     * positive limit, fewer events than the limit are left pending. A delay limit that is not positive
     * loses the event: it is deleted before the flush, which hands over nothing.
     */
    method HandleEvent(handler: string, program: string, event: E, maxEvents: int, maxDelay: int, now: nat)
      returns (batch: Option<seq<Queued<E>>>)
      requires Valid()
      modifies this
      ensures Valid() && forall c | c != BatchKey(handler, program) :: View(c) == old(View(c))
      ensures var pushed := Push(old(View(BatchKey(handler, program))), event, now, maxDelay);
        if batch.Some? then batch.value == pushed.pending && View(BatchKey(handler, program)) == Clear(pushed, HandedToActions)
        else View(BatchKey(handler, program)) == pushed
      ensures var pending := Push(old(View(BatchKey(handler, program))), event, now, maxDelay).pending;
        batch.Some? <==> |pending| >= maxEvents || now - (if pending != [] then pending[0].at else 0) >= maxDelay
      ensures maxEvents > 0 ==> |View(BatchKey(handler, program)).pending| < maxEvents
      ensures maxDelay <= 0 <==> batch == Some([])
    {
      hide BatchKey, IsValid, Push;
      var count, shouldFlush := AddToBatch(handler, program, event, maxEvents, maxDelay, now);
      PushLeavesMetaOrNothing(old(View(BatchKey(handler, program))), event, now, maxDelay);
      if shouldFlush {
        var events := GetAndClearBatch(handler, program, HandedToActions);
        batch := Some(events);
      } else {
        batch := None;
      }
    }

    /** A scan of the meta keys `keys` at time `now` reads these entries. */
    ghost predicate Reports(keys: seq<string>, entries: seq<Entry>, now: int)
      reads this
    {
      |keys| == |entries| && Distinct(keys)
      && forall i :: 0 <= i < |keys| ==> keys[i] in metas && entries[i] == EntryOf(keys[i], metas[keys[i]], now)
    }

    /** The entry of the queue its handler and program print to: the pair scanned off its key, and the oldest event's age. */
    ghost predicate IsEntry(e: Entry, now: int)
      reads this
    {
      var b := BatchKey(e.0, e.1);
      View(b).pending != [] && e == (Parsed(b).0, Parsed(b).1, now - View(b).pending[0].at)
    }

    /** What a scan reports is exactly an entry for each of its keys. */
    lemma ReportedEntries(keys: seq<string>, entries: seq<Entry>, now: int)
      requires Valid() && Reports(keys, entries, now)
      ensures forall e :: e in entries <==> BatchKey(e.0, e.1) in keys && IsEntry(e, now)
    {
      KeysAreNamed(keys, entries, now);
      hide BatchKey, Parsed, IsValid, Distinct, IsEntry;
      forall e
        ensures e in entries <==> BatchKey(e.0, e.1) in keys && IsEntry(e, now)
      {
        EntryIs(e, now);
        if e in entries {
          var i :| 0 <= i < |entries| && entries[i] == e;
          assert BatchKey(e.0, e.1) == keys[i];
        }
        if BatchKey(e.0, e.1) in keys && IsEntry(e, now) {
          var i :| 0 <= i < |keys| && keys[i] == BatchKey(e.0, e.1);
          assert entries[i] == e;
        }
      }
    }

    /** The meta of a queue tells the age of its oldest event. */
    lemma EntryIs(e: Entry, now: int)
      requires Valid()
      ensures var b := BatchKey(e.0, e.1); IsEntry(e, now) <==> b in metas && e == EntryOf(b, metas[b], now)
    {
      var b := BatchKey(e.0, e.1);
      assert IsConsistent(View(b));
      hide BatchKey, Parsed, IsValid;
    }

    ghost predicate IsDue(b: string, now: int)
      reads this
    {
      View(b).pending != [] && now - View(b).pending[0].at >= View(b).delay
    }

    ghost predicate AreTheDue(keys: seq<string>, now: int)
      reads this
    {
      forall b :: b in keys <==> IsDue(b, now)
    }

    ghost predicate ListsTheDue(entries: seq<Entry>, now: int)
      reads this
    {
      forall e :: e in entries <==> IsDue(BatchKey(e.0, e.1), now) && IsEntry(e, now)
    }

    ghost predicate AreThePending(keys: seq<string>)
      reads this
    {
      forall b :: b in keys <==> View(b).pending != []
    }

    ghost predicate ListsThePending(entries: seq<Entry>, now: int)
      reads this
    {
      forall e :: e in entries <==> View(BatchKey(e.0, e.1)).pending != [] && IsEntry(e, now)
    }

    /** The expired batches: exactly the non-empty queues past their timeout, each once. */
    method GetExpiredBatches(now: int) returns (expired: seq<Entry>, ghost keys: seq<string>)
      requires Valid()
      ensures Reports(keys, expired, now) && AreTheDue(keys, now) && ListsTheDue(expired, now)
    {
      var todo := metas.Keys;
      expired, keys := [], [];
      hide BatchKey, MetaKey, ParseMetaKey, Parsed, IsValid, Reports;
      NothingReported(now);
      while todo != {}
        invariant todo <= metas.Keys && Reports(keys, expired, now)
        invariant forall b :: b in keys <==> b in metas && b !in todo && IsDue(b, now)
      {
        var b :| b in todo;
        ReadableKey(b);
        var pair := ParseMetaKey(MetaKey(b)).value;
        var itemsKey := BatchKey(pair.0, pair.1);
        var age := now - metas[b].firstTs;
        if itemsKey in items && age >= metas[b].timeout {
          ReportOneMore(keys, expired, now, b);
          expired, keys := expired + [(pair.0, pair.1, age)], keys + [b];
        }
        todo := todo - {b};
      }
      DueIsKeyed(now);
      ReportedEntries(keys, expired, now);
    }

    /** Every non-empty queue, each once, whatever its age. */
    method ListPendingBatches(now: int) returns (pending: seq<Entry>, ghost keys: seq<string>)
      requires Valid()
      ensures Reports(keys, pending, now) && AreThePending(keys) && ListsThePending(pending, now)
    {
      var todo := metas.Keys;
      pending, keys := [], [];
      hide BatchKey, MetaKey, ParseMetaKey, Parsed, IsValid, Reports;
      NothingReported(now);
      while todo != {}
        invariant todo <= metas.Keys && Reports(keys, pending, now)
        invariant forall b :: b in keys <==> b in metas && b !in todo
      {
        var b :| b in todo;
        ReadableKey(b);
        var pair := ParseMetaKey(MetaKey(b)).value;
        if BatchKey(pair.0, pair.1) in items {
          ReportOneMore(keys, pending, now, b);
          pending, keys := pending + [(pair.0, pair.1, now - metas[b].firstTs)], keys + [b];
        }
        todo := todo - {b};
      }
      DueIsKeyed(now);
      ReportedEntries(keys, pending, now);
    }

    /** Admin clear: every queue is discarded; the totals are the batches and events dropped. */
    method DeleteAllPending() returns (batchesCleared: nat, eventsDiscarded: nat, ghost keys: seq<string>)
      requires Valid()
      modifies this
      ensures Valid() && Distinct(keys) && |keys| == batchesCleared && eventsDiscarded == Total(old(Now()), keys)
      ensures forall b :: b in keys <==> old(View(b)).pending != []
      ensures forall b :: View(b) == Clear(old(View(b)), Discarded)
    {
      ghost var was := Now();
      var todo := metas.Keys;
      batchesCleared, eventsDiscarded, keys := 0, 0, [];
      DueIsKeyed(0);
      assert AllConsistent(was);
      NothingEmptied(was, DiscardAll);
      hide BatchKey, MetaKey, ParseMetaKey, Parsed, IsValid, Clear, At, Dropped, AllConsistent, OneCleared;
      while todo != {}
        invariant Valid() && todo <= old(metas.Keys) && |keys| == batchesCleared
        invariant todo <= metas.Keys && Dropped(was, Now(), keys, eventsDiscarded)
        invariant forall b :: b in keys <==> b in old(metas) && b !in todo
      {
        ghost var mid := Now();
        var b :| b in todo;
        ReadableKey(b);
        var pair := ParseMetaKey(MetaKey(b)).value;
        var itemsKey := BatchKey(pair.0, pair.1);
        var n := if itemsKey in items then |items[itemsKey]| else 0;
        if n > 0 {
          Delete(b, Discarded);
          DroppedOneMore(was, mid, Now(), keys, b, n, eventsDiscarded);
          batchesCleared, eventsDiscarded, keys := batchesCleared + 1, eventsDiscarded + n, keys + [b];
        }
        todo := todo - {b};
      }
      AllDropped(was, Now(), keys, eventsDiscarded);
    }

    /**
     * Expired batches whose handler is found are taken and delivered; the others stay queued. A batch counts as
     * processed only once its delivery has returned.
     */
    method ProcessExpired(now: int, lookup: (string, string) -> Lookup, delivers: (string, string) -> bool)
      returns (processed: nat, ghost taken: seq<string>)
      requires Valid()
      modifies this
      ensures Valid() && Distinct(taken)
      ensures forall b :: b in taken <==> old(IsDue(b, now)) && lookup(Parsed(b).0, Parsed(b).1) == Known
      ensures forall b :: View(b) == if b in taken then Clear(old(View(b)), HandedToActions) else old(View(b))
      ensures processed == CountEnds(taken, Plan(lookup, delivers), Delivered)
      ensures processed + CountEnds(taken, Plan(lookup, delivers), DeliveryRaised) == |taken|
    {
      ghost var was, plan := Now(), Plan(lookup, delivers);
      ghost var fateOf := (_: string) => HandedToActions;
      NothingEmptied(was, fateOf);
      var expired, keys := GetExpiredBatches(now);
      KeysAreNamed(keys, expired, now);
      assert forall b :: b in keys <==> old(IsDue(b, now));
      processed, taken := 0, [];
      hide BatchKey, Parsed, IsValid, At, Clear, IsDue, Emptied, Distinct, AreNamed, OneCleared, CountEnds,
           ProcessedSo;
      NoneProcessed(plan);
      for i := 0 to |expired|
        invariant Valid() && Distinct(taken)
        invariant ProcessedSo(taken, plan, processed)
        invariant forall b :: b in taken <==> b in keys[..i] && lookup(Parsed(b).0, Parsed(b).1) == Known
        invariant Emptied(was, Now(), taken, fateOf)
      {
        ghost var mid := Now();
        var (handler, program, _) := expired[i];
        NameAt(keys, expired, i);
        if lookup(handler, program) == Known {
          NotEmptied(was, mid, taken, fateOf, keys[i]);
          var events := GetAndClearBatch(handler, program, HandedToActions);
          if events != [] {
            EmptiedStep(was, mid, Now(), taken, keys[i], fateOf);
            ProcessedMore(taken, keys[i], plan, processed);
            taken := taken + [keys[i]];
            if delivers(handler, program) {
              processed := processed + 1;
            }
          }
        }
      }
      AllNamed(keys, expired);
      WhatIsEmptied(was, Now(), taken, fateOf);
      AllProcessed(taken, plan, processed);
    }

    /**
     * Admin flush: every queue is emptied, delivered when its handler is found and discarded when there is none;
     * only a lookup that raises leaves its queue alone. The errors name every batch not delivered, in order.
     */
    method FlushPending(now: int, lookup: (string, string) -> Lookup, delivers: (string, string) -> bool)
      returns (flushed: nat, orphansCleared: nat, errors: seq<(string, string)>, pendingSeen: nat, ghost keys: seq<string>)
      requires Valid()
      modifies this
      ensures Valid() && Distinct(keys) && pendingSeen == |keys|
      ensures forall b :: b in keys <==> old(View(b)).pending != []
      ensures forall b :: View(b) == Flushed(old(View(b)), Plan(lookup, delivers).EndOf(b))
      ensures flushed == CountEnds(keys, Plan(lookup, delivers), Delivered)
      ensures orphansCleared == CountEnds(keys, Plan(lookup, delivers), Orphaned)
      ensures errors == Undelivered(keys, Plan(lookup, delivers))
    {
      ghost var was, plan := Now(), Plan(lookup, delivers);
      NothingFlushed(was, plan);
      assert AllConsistent(was);
      var pending;
      pending, keys := ListPendingBatches(now);
      KeysAreNamed(keys, pending, now);
      assert HavePending(keys, was);
      flushed, orphansCleared, errors, pendingSeen := 0, 0, [], |pending|;
      assert keys[..0] == [];
      hide BatchKey, Parsed, IsValid, At, Clear, FlushedSo, AllConsistent, AreNamed, OneCleared, AreThePending, ListsThePending,
           HavePending, Distinct, Flushed;
      for i := 0 to |pending|
        invariant Valid() && FlushedSo(was, Now(), keys[..i], plan, flushed, orphansCleared, errors)
      {
        ghost var mid := Now();
        var (handler, program, _) := pending[i];
        NameAt(keys, pending, i);
        HavePendingAt(keys, was, i);
        FlushedNext(was, mid, keys[..i], keys[i], plan, flushed, orphansCleared, errors);
        var found := lookup(handler, program);
        if found == LookupRaises {
          errors := errors + [(handler, program)];
        } else {
          var events := GetAndClearBatch(handler, program, if found == Known then HandedToActions else Discarded);
          FlushedMore(was, mid, Now(), keys[..i], keys[i], plan, flushed, orphansCleared, errors);
          if events != [] {
            if found == Unknown {
              orphansCleared, errors := orphansCleared + 1, errors + [(handler, program)];
            } else if delivers(handler, program) {
              flushed := flushed + 1;
            } else {
              errors := errors + [(handler, program)];
            }
          }
        }
      }
      AllNamed(keys, pending);
      AllFlushed(was, Now(), keys, plan, flushed, orphansCleared, errors);
    }

    /** The handler and program of an entry print to the key of the queue it was read from. */
    lemma KeysAreNamed(keys: seq<string>, entries: seq<Entry>, now: int)
      requires Valid() && Reports(keys, entries, now)
      ensures AreNamed(keys, entries)
    {
      forall i | 0 <= i < |keys|
        ensures BatchKey(entries[i].0, entries[i].1) == keys[i]
      {
        ReadableKey(keys[i]);
        hide BatchKey, Parsed, IsValid;
      }
    }

    /** For a handler without a colon, the expired list holds its queue, at its age, exactly when that queue is due. */
    lemma ExpiredListIsExact(keys: seq<string>, expired: seq<Entry>, now: int, handler: string, program: string, age: int)
      requires Valid() && Reports(keys, expired, now) && AreTheDue(keys, now)
      requires ':' !in handler
      ensures (handler, program, age) in expired
        <==> IsDue(BatchKey(handler, program), now) && age == now - View(BatchKey(handler, program)).pending[0].at
    {
      var b := BatchKey(handler, program);
      KeysAreNamed(keys, expired, now);
      ScannedPair(handler, program);
      hide BatchKey, Parsed, IsValid;
      if b in keys {
        var i :| 0 <= i < |keys| && keys[i] == b;
        assert expired[i] == EntryOf(b, metas[b], now);
      }
    }

    lemma NothingReported(now: int)
      ensures Reports([], [], now)
    {
    }

    lemma ReportOneMore(keys: seq<string>, entries: seq<Entry>, now: int, b: string)
      requires Reports(keys, entries, now) && b in metas && b !in keys
      ensures Reports(keys + [b], entries + [EntryOf(b, metas[b], now)], now)
    {
      hide Parsed;
    }

    lemma DueIsKeyed(now: int)
      requires Valid()
      ensures forall b :: b in metas <==> View(b).pending != []
      ensures forall b :: IsDue(b, now) ==> b in metas
    {
      assert forall b :: IsConsistent(View(b));
    }

    /** The items key rebuilt from a meta key is the items key of the same batch. */
    lemma ReadableKey(b: string)
      requires Valid() && b in metas
      ensures ParseMetaKey(MetaKey(b)).Some? && Parsed(b) == ParseMetaKey(MetaKey(b)).value
      ensures BatchKey(Parsed(b).0, Parsed(b).1) == b && b in items && items[b] == View(b).pending != []
      ensures metas[b] == Meta(View(b).pending[0].at, View(b).delay)
    {
      assert IsConsistent(View(b));
      ScannedKey(b);
    }
  }

  ghost predicate Distinct(keys: seq<string>)
  {
    forall i, j :: 0 <= i < j < |keys| ==> keys[i] != keys[j]
  }

  ghost predicate AreNamed(keys: seq<string>, entries: seq<Entry>)
  {
    |keys| == |entries| && Distinct(keys)
    && forall i :: 0 <= i < |keys| ==>
      (entries[i].0, entries[i].1) == Parsed(keys[i]) && BatchKey(entries[i].0, entries[i].1) == keys[i]
  }

  lemma NameAt(keys: seq<string>, entries: seq<Entry>, i: nat)
    requires AreNamed(keys, entries) && i < |entries|
    ensures i < |keys| && keys[i] !in keys[..i] && keys[..i + 1] == keys[..i] + [keys[i]]
    ensures (entries[i].0, entries[i].1) == Parsed(keys[i]) && BatchKey(entries[i].0, entries[i].1) == keys[i]
  {
  }

  lemma AllNamed(keys: seq<string>, entries: seq<Entry>)
    requires AreNamed(keys, entries)
    ensures |keys| == |entries| && keys[..|keys|] == keys
  {
  }

  /** `after` is `before` with exactly the queues of `done` cleared. */
  ghost predicate Emptied<E>(before: Store<E>, after: Store<E>, done: seq<string>, fateOf: string -> Fate)
  {
    forall b :: At(after, b) == if b in done then Clear(At(before, b), fateOf(b)) else At(before, b)
  }

  lemma NothingEmptied<E>(before: Store<E>, fateOf: string -> Fate)
    ensures Emptied(before, before, [], fateOf) && Distinct([])
  {
  }

  lemma NotEmptied<E>(before: Store<E>, after: Store<E>, done: seq<string>, fateOf: string -> Fate, b: string)
    requires Emptied(before, after, done, fateOf) && b !in done
    ensures At(after, b) == At(before, b)
  {
  }

  lemma EmptiedStep<E>(before: Store<E>, mid: Store<E>, after: Store<E>, done: seq<string>,
                       b: string, fateOf: string -> Fate)
    requires Emptied(before, mid, done, fateOf) && b !in done && Distinct(done)
    requires OneCleared(mid, after, b, fateOf(b))
    ensures Emptied(before, after, done + [b], fateOf) && Distinct(done + [b])
  {
    hide Clear;
  }

  lemma WhatIsEmptied<E>(before: Store<E>, after: Store<E>, done: seq<string>, fateOf: string -> Fate)
    requires Emptied(before, after, done, fateOf)
    ensures forall b :: At(after, b) == if b in done then Clear(At(before, b), fateOf(b)) else At(before, b)
  {
  }

  /** The keys are those of the non-empty queues. */
  ghost predicate HavePending<E>(keys: seq<string>, queues: Store<E>)
  {
    forall b :: b in keys <==> At(queues, b).pending != []
  }

  lemma HavePendingAt<E>(keys: seq<string>, queues: Store<E>, i: nat)
    requires HavePending(keys, queues) && i < |keys|
    ensures At(queues, keys[i]).pending != []
  {
    assert keys[i] in keys;
  }

  lemma AllEmptied<E>(before: Store<E>, after: Store<E>, done: seq<string>, fateOf: string -> Fate)
    requires Emptied(before, after, done, fateOf) && AllConsistent(before)
    requires forall b :: b in done <==> At(before, b).pending != []
    ensures forall b :: At(after, b) == Clear(At(before, b), fateOf(b))
  {
    forall b
      ensures At(after, b) == Clear(At(before, b), fateOf(b))
    {
      assert IsConsistent(At(before, b));
    }
  }

  /** The events in the queues of these keys. */
  ghost function Total<E>(queues: Store<E>, keys: seq<string>): nat
  {
    if keys == [] then 0 else Total(queues, keys[..|keys| - 1]) + |At(queues, keys[|keys| - 1]).pending|
  }

  lemma TotalStep<E>(queues: Store<E>, keys: seq<string>, b: string)
    ensures Total(queues, keys + [b]) == Total(queues, keys) + |At(queues, b).pending|
  {
    assert (keys + [b])[..|keys|] == keys;
  }

  function DiscardAll(b: string): Fate { Discarded }

  /** The queues of `keys` were cleared and held `events` events in all. */
  ghost predicate Dropped<E>(before: Store<E>, after: Store<E>, keys: seq<string>, events: nat)
  {
    Emptied(before, after, keys, DiscardAll) && Distinct(keys) && events == Total(before, keys)
  }

  lemma DroppedOneMore<E>(before: Store<E>, mid: Store<E>, after: Store<E>, keys: seq<string>, b: string, n: nat, events: nat)
    requires Dropped(before, mid, keys, events) && b !in keys
    requires OneCleared(mid, after, b, Discarded) && n == |At(mid, b).pending|
    ensures Dropped(before, after, keys + [b], events + n)
  {
    hide Clear, At;
    NotEmptied(before, mid, keys, DiscardAll, b);
    EmptiedStep(before, mid, after, keys, b, DiscardAll);
    TotalStep(before, keys, b);
    hide Emptied, Distinct, Total;
  }

  lemma AllDropped<E>(before: Store<E>, after: Store<E>, keys: seq<string>, events: nat)
    requires Dropped(before, after, keys, events) && AllConsistent(before)
    requires forall b :: b in keys <==> At(before, b).pending != []
    ensures Distinct(keys) && events == Total(before, keys)
    ensures forall b :: At(after, b) == Clear(At(before, b), Discarded)
  {
    AllEmptied(before, after, keys, DiscardAll);
  }

  /** What a flush makes of a queue. */
  function Flushed<E>(q: Queue<E>, end: End): Queue<E>
  {
    match end
    case NotTaken => q
    case Orphaned => Clear(q, Discarded)
    case Delivered => Clear(q, HandedToActions)
    case DeliveryRaised => Clear(q, HandedToActions)
  }

  /** How many of the batches end so. */
  function CountEnds(keys: seq<string>, plan: Plan, end: End): nat
  {
    if keys == [] then 0
    else CountEnds(keys[..|keys| - 1], plan, end) + if plan.EndOf(keys[|keys| - 1]) == end then 1 else 0
  }

  /** Handler and program of the batches that are not delivered, in order. */
  function Undelivered(keys: seq<string>, plan: Plan): seq<(string, string)>
  {
    if keys == [] then [] else
    var init, last := Undelivered(keys[..|keys| - 1], plan), keys[|keys| - 1];
    if plan.EndOf(last) == Delivered then init else init + [Parsed(last)]
  }

  lemma NoEnds(plan: Plan)
    ensures Undelivered([], plan) == [] && forall end :: CountEnds([], plan, end) == 0
  {
  }

  lemma OneMoreEnd(keys: seq<string>, b: string, plan: Plan)
    ensures forall end :: CountEnds(keys + [b], plan, end) == CountEnds(keys, plan, end) + if plan.EndOf(b) == end then 1 else 0
    ensures Undelivered(keys + [b], plan)
         == if plan.EndOf(b) == Delivered then Undelivered(keys, plan) else Undelivered(keys, plan) + [Parsed(b)]
  {
    hide Parsed;
    assert (keys + [b])[..|keys|] == keys;
  }

  /** Every batch seen by a flush is delivered, failed, orphaned or not taken, and the errors are all but the delivered. */
  lemma {:induction false} EndsAddUp(keys: seq<string>, plan: Plan)
    ensures CountEnds(keys, plan, Delivered) + CountEnds(keys, plan, Orphaned) + CountEnds(keys, plan, DeliveryRaised)
          + CountEnds(keys, plan, NotTaken) == |keys|
    ensures CountEnds(keys, plan, Delivered) + |Undelivered(keys, plan)| == |keys|
  {
    if keys == [] {
      NoEnds(plan);
    } else {
      hide Parsed, CountEnds, Undelivered, Plan.EndOf;
      var init, last := keys[..|keys| - 1], keys[|keys| - 1];
      assert keys == init + [last];
      EndsAddUp(init, plan);
      OneMoreEnd(init, last, plan);
    }
  }

  lemma {:induction false} CountIsSize(keys: seq<string>, plan: Plan, end: End, s: set<string>)
    requires Distinct(keys) && forall b :: b in s <==> b in keys && plan.EndOf(b) == end
    ensures CountEnds(keys, plan, end) == |s|
  {
    hide Plan.EndOf, CountEnds;
    if keys == [] {
      NoEnds(plan);
      assert s == {};
    } else {
      var init, last := keys[..|keys| - 1], keys[|keys| - 1];
      assert keys == init + [last];
      CountIsSize(init, plan, end, s - {last});
      OneMoreEnd(init, last, plan);
      assert plan.EndOf(last) == end <==> last in s;
    }
  }

  lemma EndIs(b: string, lookup: (string, string) -> Lookup, delivers: (string, string) -> bool)
    ensures Plan(lookup, delivers).EndOf(b)
         == match lookup(Parsed(b).0, Parsed(b).1)
            case LookupRaises => NotTaken
            case Unknown => Orphaned
            case Known => if delivers(Parsed(b).0, Parsed(b).1) then Delivered else DeliveryRaised
  {
    hide Parsed;
  }

  /** Which batches each count of a flush counts. */
  lemma FlushCountsExactly(keys: seq<string>, lookup: (string, string) -> Lookup, delivers: (string, string) -> bool)
    requires Distinct(keys)
    ensures CountEnds(keys, Plan(lookup, delivers), Delivered)
         == |set k | k in keys && lookup(Parsed(k).0, Parsed(k).1) == Known && delivers(Parsed(k).0, Parsed(k).1)|
    ensures CountEnds(keys, Plan(lookup, delivers), Orphaned) == |set k | k in keys && lookup(Parsed(k).0, Parsed(k).1) == Unknown|
  {
    hide Parsed, CountEnds, Plan.EndOf, Distinct;
    forall b {
      EndIs(b, lookup, delivers);
    }
    var delivered := set k | k in keys && lookup(Parsed(k).0, Parsed(k).1) == Known && delivers(Parsed(k).0, Parsed(k).1);
    CountIsSize(keys, Plan(lookup, delivers), Delivered, delivered);
    var orphans := set k | k in keys && lookup(Parsed(k).0, Parsed(k).1) == Unknown;
    CountIsSize(keys, Plan(lookup, delivers), Orphaned, orphans);
  }

  /** What a flush makes of a queue, by what its lookup says. */
  lemma FlushedByLookup<E>(q: Queue<E>, b: string, lookup: (string, string) -> Lookup, delivers: (string, string) -> bool)
    ensures Flushed(q, Plan(lookup, delivers).EndOf(b))
         == match lookup(Parsed(b).0, Parsed(b).1)
            case LookupRaises => q
            case Unknown => Clear(q, Discarded)
            case Known => Clear(q, HandedToActions)
  {
    hide Parsed, Clear;
    EndIs(b, lookup, delivers);
  }

  /** The batches that errors name are those not delivered, each by its pair, in order. */
  lemma {:induction false} UndeliveredExactly(keys: seq<string>, lookup: (string, string) -> Lookup, delivers: (string, string) -> bool)
    ensures forall pair :: pair in Undelivered(keys, Plan(lookup, delivers)) <==>
      exists k :: k in keys && Parsed(k) == pair && !(lookup(pair.0, pair.1) == Known && delivers(pair.0, pair.1))
  {
    hide Parsed;
    if keys != [] {
      var init, last := keys[..|keys| - 1], keys[|keys| - 1];
      UndeliveredExactly(init, lookup, delivers);
      assert keys == init + [last];
      hide Plan.EndOf;
      EndIs(last, lookup, delivers);
    }
  }

  /** So many of the taken batches were delivered, and the delivery of all others raised. */
  ghost predicate ProcessedSo(taken: seq<string>, plan: Plan, processed: nat)
  {
    processed == CountEnds(taken, plan, Delivered) && processed + CountEnds(taken, plan, DeliveryRaised) == |taken|
  }

  lemma NoneProcessed(plan: Plan)
    ensures ProcessedSo([], plan, 0)
  {
  }

  lemma ProcessedMore(taken: seq<string>, b: string, plan: Plan, processed: nat)
    requires ProcessedSo(taken, plan, processed) && plan.lookup(Parsed(b).0, Parsed(b).1) == Known
    ensures ProcessedSo(taken + [b], plan, processed + if plan.delivers(Parsed(b).0, Parsed(b).1) then 1 else 0)
  {
    hide Parsed, CountEnds;
    OneMoreEnd(taken, b, plan);
  }

  lemma AllProcessed(taken: seq<string>, plan: Plan, processed: nat)
    requires ProcessedSo(taken, plan, processed)
    ensures processed == CountEnds(taken, plan, Delivered)
    ensures processed + CountEnds(taken, plan, DeliveryRaised) == |taken|
  {
  }

  /** The queues of `done` were flushed, each to its end, with these counts and errors. */
  ghost predicate FlushedSo<E>(before: Store<E>, after: Store<E>, done: seq<string>, plan: Plan,
                               flushed: nat, orphans: nat, errors: seq<(string, string)>)
  {
    (forall b :: At(after, b) == if b in done then Flushed(At(before, b), plan.EndOf(b)) else At(before, b))
    && Distinct(done) && flushed == CountEnds(done, plan, Delivered) && orphans == CountEnds(done, plan, Orphaned)
    && errors == Undelivered(done, plan)
  }

  lemma NothingFlushed<E>(before: Store<E>, plan: Plan)
    ensures FlushedSo(before, before, [], plan, 0, 0, [])
  {
  }

  /** The next queue is as it was; if its lookup raises, it stays so. */
  lemma FlushedNext<E>(before: Store<E>, mid: Store<E>, done: seq<string>, b: string, plan: Plan,
                       flushed: nat, orphans: nat, errors: seq<(string, string)>)
    requires FlushedSo(before, mid, done, plan, flushed, orphans, errors) && b !in done
    ensures At(mid, b) == At(before, b)
    ensures plan.EndOf(b) == NotTaken
      ==> FlushedSo(before, mid, done + [b], plan, flushed, orphans, errors + [Parsed(b)])
  {
    hide At, Clear, Parsed, CountEnds, Undelivered;
    OneMoreEnd(done, b, plan);
  }

  lemma FlushedMore<E>(before: Store<E>, mid: Store<E>, after: Store<E>, done: seq<string>, b: string, plan: Plan,
                       flushed: nat, orphans: nat, errors: seq<(string, string)>)
    requires FlushedSo(before, mid, done, plan, flushed, orphans, errors) && b !in done && plan.EndOf(b) != NotTaken
    requires OneCleared(mid, after, b, if plan.EndOf(b) == Orphaned then Discarded else HandedToActions)
    ensures FlushedSo(before, after, done + [b], plan,
                      flushed + (if plan.EndOf(b) == Delivered then 1 else 0),
                      orphans + (if plan.EndOf(b) == Orphaned then 1 else 0),
                      if plan.EndOf(b) == Delivered then errors else errors + [Parsed(b)])
  {
    hide At, Clear, Parsed, CountEnds, Undelivered;
    OneMoreEnd(done, b, plan);
  }

  lemma AllFlushed<E>(before: Store<E>, after: Store<E>, keys: seq<string>, plan: Plan,
                      flushed: nat, orphans: nat, errors: seq<(string, string)>)
    requires FlushedSo(before, after, keys, plan, flushed, orphans, errors) && AllConsistent(before)
    requires HavePending(keys, before)
    ensures Distinct(keys) && flushed == CountEnds(keys, plan, Delivered) && orphans == CountEnds(keys, plan, Orphaned)
    ensures errors == Undelivered(keys, plan)
    ensures forall b :: b in keys <==> At(before, b).pending != []
    ensures forall b :: At(after, b) == Flushed(At(before, b), plan.EndOf(b))
  {
    hide At, Parsed, CountEnds, Undelivered;
    forall b ensures At(after, b) == Flushed(At(before, b), plan.EndOf(b)) {
      assert IsConsistent(At(before, b));
    }
  }

  function EntryOf(b: string, meta: Meta, now: int): Entry
  {
    (Parsed(b).0, Parsed(b).1, now - meta.firstTs)
  }

  lemma PrintedKey(handler: string, program: string)
    ensures IsPrinted(BatchKey(handler, program))
  {
  }

  lemma PushLeavesMetaOrNothing<E>(q: Queue<E>, event: E, now: int, maxDelay: int)
    ensures var p := Push(q, event, now, maxDelay); p.pending == [] <==> maxDelay <= 0
    ensures var p := Push(q, event, now, maxDelay); p.meta.Some? <==> maxDelay > 0
  {
  }
}
