/**
 * The CertStream consumer (`certstream_consumer.py`): which messages pass the filter before the queue, what
 * becomes of them behind it, and the queue with its drop watermark and its pool of workers. The scheduler picks
 * the order of the methods; each is one stretch without an await.
 */
module CertStream {
  import opened Text

  /** What the consumer reads of a message; a listed name that is not text is `None`. */
  datatype Message = Message(isUpdate: bool, commonName: Option<string>, names: seq<Option<string>>)

  /** A listed name without its wildcard prefix. */
  function Clean(name: string): string
  {
    Strip(Lower(TrimLeft(name, IsStarOrDot)))
  }

  /** The names a certificate covers. A common name counts whenever it has text, even if only blanks. */
  ghost predicate Covers(m: Message, domain: string)
  {
    m.isUpdate
    && ((m.commonName.Some? && m.commonName.value != "" && domain == Strip(Lower(m.commonName.value)))
        || (domain != "" && exists k :: 0 <= k < |m.names| && m.names[k].Some? && domain == Clean(m.names[k].value)))
  }

  ghost predicate NamesSome(m: Message)
  {
    exists d :: Covers(m, d)
  }

  /** The last label; names without a dot have none. */
  function Tld(domain: string): string
  {
    if '.' in domain then var labels := Split(domain, '.'); labels[|labels| - 1] else ""
  }

  /** Stars and dots in front of a listed name are dropped, then blanks around it; case does not matter. */
  lemma CleanIs(wildcard: string, a: string, name: string, b: string)
    requires AllAre(wildcard, IsStarOrDot) && IsBlank(a) && IsBlank(b)
    requires name != "" && !IsSpace(name[0]) && !IsSpace(name[|name| - 1]) && name[0] != '*' && name[0] != '.'
    ensures Clean(wildcard + (a + name + b)) == Lower(name)
  {
    var t := a + name + b;
    assert t[0] == if a == "" then name[0] else a[0];
    assert a != "" ==> a[0] in a;
    assert !IsStarOrDot(t[0]);
    hide AllAre, IsSpace, IsBlank, Strip, Lower, TrimLeft;
    TrimLeftIs(wildcard, t, IsStarOrDot);
    NormalFormIs(a, name, b);
  }

  /** The last label of a name is what follows its last dot. */
  lemma TldIs(domain: string, tld: string)
    ensures Tld(domain) == tld
      <==> if '.' in domain then '.' !in tld && EndsAfter(domain, '.', tld) else tld == ""
  {
    if '.' in domain {
      var labels := Split(domain, '.');
      var n := |labels| - 1;
      TwoLabels(domain);
      LastOnly(labels);
      LabelSuffixFollowsSeparator(domain, '.', n);
      assert labels[n] in labels;
      if '.' !in tld && EndsAfter(domain, '.', tld) {
        SameEnd(domain, tld, labels[n]);
      }
    }
  }

  lemma TwoLabels(domain: string)
    requires '.' in domain
    ensures |Split(domain, '.')| >= 2
  {
  }

  lemma LastOnly(labels: seq<string>)
    requires labels != []
    ensures Join(labels[|labels| - 1..], '.') == labels[|labels| - 1]
  {
  }

  lemma SameEnd(d: string, a: string, b: string)
    requires EndsAfter(d, '.', a) && EndsAfter(d, '.', b) && '.' !in a && '.' !in b
    ensures a == b
  {
    if |a| < |b| {
      DotInLonger(d, a, b);
    } else if |b| < |a| {
      DotInLonger(d, b, a);
    }
  }

  lemma DotInLonger(d: string, a: string, b: string)
    requires EndsAfter(d, '.', a) && EndsAfter(d, '.', b) && |a| < |b|
    ensures '.' in b
  {
    assert b[|b| - |a| - 1] == d[|d| - |a| - 1];
  }

  method ExtractDomains(m: Message) returns (domains: set<string>)
    ensures forall d :: d in domains <==> Covers(m, d)
  {
    domains := {};
    hide Clean, Strip, Lower;
    if !m.isUpdate { return; }
    if m.commonName.Some? && m.commonName.value != "" {
      domains := {Strip(Lower(m.commonName.value))};
    }
    ghost var first := domains;
    for k := 0 to |m.names|
      invariant forall d ::
        d in domains
        <==> d in first || (d != "" && exists j :: 0 <= j < k && m.names[j].Some? && d == Clean(m.names[j].value))
    {
      if m.names[k].Some? && Clean(m.names[k].value) != "" {
        domains := domains + {Clean(m.names[k].value)};
      }
    }
  }

  /** The filter before the queue: without suffixes everything passes, else some name must end in one. */
  method PassesTldFilter(m: Message, tlds: set<string>) returns (passes: bool)
    ensures passes <==> IsAdmitted(m, tlds)
  {
    if tlds == {} { return true; }
    var domains := ExtractDomains(m);
    ghost var all := domains;
    passes := false;
    hide Covers, Tld;
    while domains != {}
      invariant domains <= all
      invariant !passes ==> forall d | d in all && d !in domains :: Tld(d) !in tlds
      invariant passes ==> exists d :: d in all && Tld(d) in tlds
    {
      var d :| d in domains;
      domains := domains - {d};
      if Tld(d) in tlds { return true; }
    }
  }

  ghost predicate IsAdmitted(m: Message, tlds: set<string>)
  {
    tlds == {} || exists d :: Covers(m, d) && Tld(d) in tlds
  }

  /** What is made of a message taken off the queue: a certificate's names, or nothing, with the reason. */
  datatype Built = Certificate(domains: set<string>) | Nothing(filteredByTld: bool)

  /** A certificate has exactly the names that pass the filter; nothing is made when there are none. */
  ghost predicate IsBuilt(m: Message, tlds: set<string>, built: Built)
  {
    match built
    case Certificate(domains) => domains != {} && forall d :: d in domains <==> Covers(m, d) && (tlds == {} || Tld(d) in tlds)
    case Nothing(filteredByTld) =>
      (forall d | Covers(m, d) :: tlds != {} && Tld(d) !in tlds)
      && (filteredByTld <==> NamesSome(m))
  }

  /**
   * The filter before the queue and the one behind it agree: a message let through never fails the second, and
   * under a filter the messages let through are exactly those that yield a certificate.
   */
  lemma FiltersAgree(m: Message, tlds: set<string>, built: Built)
    requires IsBuilt(m, tlds, built)
    ensures IsAdmitted(m, tlds) ==> built != Nothing(true) && (built.Certificate? <==> NamesSome(m))
    ensures tlds != {} ==> (IsAdmitted(m, tlds) <==> built.Certificate?)
  {
    hide Covers, Tld;
    if built.Certificate? {
      var d :| d in built.domains;
      assert Covers(m, d);
    }
  }

  method BuildCertificate(m: Message, tlds: set<string>) returns (built: Built)
    ensures IsBuilt(m, tlds, built)
  {
    var all := ExtractDomains(m);
    hide Covers, Tld;
    if all == {} { return Nothing(false); }
    ghost var someName :| someName in all;
    if tlds != {} {
      var kept := set d | d in all && Tld(d) in tlds;
      assert forall d :: d in all && Tld(d) in tlds ==> d in kept;
      if kept == {} { return Nothing(true); }
      return Certificate(kept);
    }
    return Certificate(all);
  }

  // ----- the queue

  ghost predicate AllAdmitted(messages: seq<Message>, tlds: set<string>)
  {
    forall k :: 0 <= k < |messages| ==> IsAdmitted(messages[k], tlds)
  }

  lemma OneMoreAdmitted(messages: seq<Message>, m: Message, tlds: set<string>)
    requires AllAdmitted(messages, tlds) && IsAdmitted(m, tlds)
    ensures AllAdmitted(messages + [m], tlds)
  {
  }

  lemma HeadIsNext(received: seq<Message>, queue: seq<Message>, tlds: set<string>)
    requires queue != [] && AllAdmitted(received + queue, tlds)
    ensures received + queue == received + [queue[0]] + queue[1..] && IsAdmitted(queue[0], tlds)
  {
    assert (received + queue)[|received|] == queue[0];
  }

  function DropAt(maxSize: nat, watermark: real): int
  {
    (maxSize as real * watermark).Floor
  }

  /** With a watermark below one the queue starts dropping before it is full. */
  lemma DropsBeforeFull(maxSize: nat, watermark: real)
    requires maxSize >= 1 && 0.1 <= watermark <= 0.99
    ensures 0 <= DropAt(maxSize, watermark) < maxSize
  {
    assert maxSize as real * watermark < maxSize as real;
  }

  /** There is room behind `n` messages exactly while one more stays within the watermark's share of the queue. */
  lemma HasRoomBehind(n: nat, maxSize: nat, watermark: real)
    ensures n < DropAt(maxSize, watermark) <==> (n + 1) as real <= maxSize as real * watermark
  {
    var share := maxSize as real * watermark;
    assert share.Floor as real <= share < share.Floor as real + 1.0;
  }

  /** A small queue drops everything: the threshold is zero exactly when size times watermark stays below one. */
  lemma DropsEverythingWhen(maxSize: nat, watermark: real)
    requires 0.0 <= watermark
    ensures DropAt(maxSize, watermark) == 0 <==> maxSize as real * watermark < 1.0
  {
  }

  class CertStreamConsumer {
    const tlds: set<string>
    const maxSize: nat
    const concurrency: nat
    const watermark: real
    var running: bool
    var queue: seq<Message>
    var filteredBeforeQueue: nat
    var queueDrops: nat
    var totalReceived: nat
    var filteredByTld: nat
    var processed: nat
    var errors: nat
    var matchInFlight: nat
    /** Offered while running; put on the queue; taken off it; callbacks ended and failed; connections failed. */
    ghost var offered: nat
    ghost var admitted: seq<Message>
    ghost var received: seq<Message>
    ghost var finished: nat
    ghost var failedCallbacks: nat
    ghost var failedConnections: nat

    ghost predicate Valid()
      reads this
    {
      maxSize >= 1 && 0.1 <= watermark <= 0.99
      && offered == filteredBeforeQueue + queueDrops + |queue| + totalReceived
      && admitted == received + queue && |received| == totalReceived
      && AllAdmitted(admitted, tlds)
      && |queue| <= DropAt(maxSize, watermark) < maxSize
      && filteredByTld == 0 && (tlds != {} ==> processed == totalReceived) && processed <= totalReceived
      && processed == matchInFlight + finished && matchInFlight <= concurrency
      && errors == failedCallbacks + failedConnections && failedCallbacks <= finished
    }

    /** Sizes and watermark are clamped. */
    constructor (tldFilter: set<string>, queueMaxsize: int, matchConcurrency: int, queueDropWatermark: real)
      ensures Valid() && running && tlds == tldFilter && queue == [] && offered == 0
      ensures maxSize == Max(1, queueMaxsize) && concurrency == Max(1, matchConcurrency)
    {
      tlds, maxSize, concurrency := tldFilter, Max(1, queueMaxsize), Max(1, matchConcurrency);
      var atLeast := if queueDropWatermark < 0.1 then 0.1 else queueDropWatermark;
      watermark := if atLeast > 0.99 then 0.99 else atLeast;
      running, queue, filteredBeforeQueue, queueDrops, totalReceived := true, [], 0, 0, 0;
      filteredByTld, processed, errors, matchInFlight := 0, 0, 0, 0;
      offered, admitted, received, finished, failedCallbacks, failedConnections := 0, [], [], 0, 0, 0;
      new;
      DropsBeforeFull(maxSize, watermark);
    }

    /**
     * A message from the websocket thread. One that passes the filter goes on the queue exactly while the
     * queue is below the watermark; it is never full then.
     */
    method EnqueueMessage(m: Message)
      requires Valid()
      modifies this
      ensures Valid() && received == old(received) && running == old(running)
      ensures offered == old(offered) + if running then 1 else 0
      ensures var isAdmitted, hasRoom := IsAdmitted(m, tlds), |old(queue)| < DropAt(maxSize, watermark);
        && queue == (if old(running) && isAdmitted && hasRoom then old(queue) + [m] else old(queue))
        && filteredBeforeQueue == old(filteredBeforeQueue) + (if old(running) && !isAdmitted then 1 else 0)
        && queueDrops == old(queueDrops) + if old(running) && isAdmitted && !hasRoom then 1 else 0
    {
      hide DropAt, IsAdmitted, AllAdmitted;
      if !running { return; }
      var passes := PassesTldFilter(m, tlds);
      offered := offered + 1;
      if !passes {
        filteredBeforeQueue := filteredBeforeQueue + 1;
        return;
      }
      if |queue| >= DropAt(maxSize, watermark) {
        queueDrops := queueDrops + 1;
        return;
      }
      assert |queue| < maxSize;
      OneMoreAdmitted(admitted, m, tlds);
      queue, admitted := queue + [m], admitted + [m];
    }

    /**
     * Handles a message that passed the filter, up to its callback: under a filter it always yields a
     * certificate, without one exactly when it names a domain.
     */
    method HandleCertData(m: Message) returns (built: Built)
      requires IsAdmitted(m, tlds)
      modifies `totalReceived, `filteredByTld, `processed, `matchInFlight
      ensures IsBuilt(m, tlds, built) && (built.Certificate? <==> NamesSome(m)) && (tlds != {} ==> built.Certificate?)
      ensures totalReceived == old(totalReceived) + 1 && filteredByTld == old(filteredByTld)
      ensures processed == old(processed) + (if built.Certificate? then 1 else 0)
      ensures matchInFlight == old(matchInFlight) + if built.Certificate? then 1 else 0
    {
      hide NamesSome, IsAdmitted, IsBuilt;
      totalReceived := totalReceived + 1;
      built := BuildCertificate(m, tlds);
      FiltersAgree(m, tlds, built);
      if built.Nothing? {
        // The branch that counts a message as filtered here is dead: it would not have been queued.
        if built.filteredByTld {
          assert false;
        }
        return;
      }
      processed, matchInFlight := processed + 1, matchInFlight + 1;
    }

    /** An idle worker takes the oldest message and handles it. */
    method HandleNext() returns (built: Built)
      requires Valid() && queue != [] && matchInFlight < concurrency
      modifies this
      ensures Valid() && queue == old(queue)[1..] && received == old(received) + [old(queue)[0]]
      ensures offered == old(offered) && queueDrops == old(queueDrops) && filteredBeforeQueue == old(filteredBeforeQueue)
      ensures IsBuilt(old(queue)[0], tlds, built) && (built.Certificate? <==> NamesSome(old(queue)[0]))
      ensures tlds != {} ==> built.Certificate?
      ensures matchInFlight == old(matchInFlight) + (if built.Certificate? then 1 else 0) && finished == old(finished)
      ensures running == old(running)
    {
      HeadIsNext(received, queue, tlds);
      hide DropAt, IsAdmitted, IsBuilt, AllAdmitted, NamesSome;
      var m := queue[0];
      queue, received := queue[1..], received + [m];
      built := HandleCertData(m);
    }

    /** The callback of a certificate ends, well or not. */
    method CallbackEnds(failed: bool)
      requires Valid() && matchInFlight > 0
      modifies this
      ensures Valid() && queue == old(queue) && received == old(received) && offered == old(offered)
      ensures matchInFlight == old(matchInFlight) - 1 && finished == old(finished) + 1
      ensures errors == old(errors) + (if failed then 1 else 0) && running == old(running)
      ensures failedCallbacks == old(failedCallbacks) + (if failed then 1 else 0) && failedConnections == old(failedConnections)
    {
      if failed {
        errors, failedCallbacks := errors + 1, failedCallbacks + 1;
      }
      matchInFlight, finished := matchInFlight - 1, finished + 1;
    }

    /** The websocket thread loses its connection; only while running does it count the error. */
    method ConnectionFails()
      requires Valid()
      modifies `errors, `failedConnections
      ensures Valid() && errors == old(errors) + (if running then 1 else 0)
      ensures failedConnections == old(failedConnections) + if running then 1 else 0
    {
      if running {
        errors, failedConnections := errors + 1, failedConnections + 1;
      }
    }

    method Stop()
      requires Valid()
      modifies this
      ensures Valid() && !running && queue == old(queue) && received == old(received) && offered == old(offered)
      ensures matchInFlight == old(matchInFlight) && finished == old(finished)
    {
      running := false;
    }
  }
}
