/** Processing all task results, standard or streaming (`task_components.py`), for one type key. */
module AssetProcessing {
  import opened Text
  import opened AssetMerging
  import opened AssetStreams

  /** The next result's assets are the next stretch of the input. */
  lemma NextOwn(results: seq<TaskResult>, i: nat)
    requires i < |results|
    ensures var all, k := Input(results), |Input(results[..i])|;
      k + |Own(results[i])| <= |all| && all[k..k + |Own(results[i])|] == Own(results[i])
      && all[..k] == Input(results[..i]) && Input(results[..i + 1]) == all[..k + |Own(results[i])|]
  {
    hide Input, Own;
    InputPrefix(results, i + 1);
    InputNext(results, i);
    PrefixParts(Input(results), Input(results[..i]), Own(results[i]));
  }

  lemma PrefixParts<T>(all: seq<T>, a: seq<T>, b: seq<T>)
    requires a + b <= all
    ensures |a| + |b| <= |all| && all[..|a|] == a && all[|a|..|a| + |b|] == b && all[..|a| + |b|] == a + b
  {
    assert (a + b)[..|a|] == a && (a + b)[|a|..] == b;
  }

  lemma SeparateStretch(all: seq<Asset>, a: nat, b: nat)
    requires Separate(all) && a <= b <= |all|
    ensures Separate(all[a..b]) && forall x | x in all[..a] :: x !in all[a..b]
  {
  }

  lemma RecordsOfStretch(all: seq<Asset>, recs: seq<Record>, a: nat, b: nat)
    requires a <= b <= |all| == |recs| && forall j | a <= j < |all| :: all[j].Rec() == recs[j]
    ensures Records(all[a..b]) == recs[a..b]
  {
  }

  /**
   * The list is what merging the first `k` of all assets gives, and the assets from `k` on still hold their
   * original records.
   */
  ghost predicate Merged(list: seq<Asset>, all: seq<Asset>, recs: seq<Record>, k: nat)
    reads list, all
  {
    k <= |all| == |recs| && DistinctKeys(list) && Keys(list) == FirstKeys(Keys(all[..k]))
    && Holds(list, recs[..k]) && Covers(list, recs[..k])
    && (forall a | a in list :: a in all[..k])
    && forall j | k <= j < |all| :: all[j].Rec() == recs[j]
  }

  /** Merges the next stretch of the input into the list. */
  method MergeStretch(list: seq<Asset>, own: seq<Asset>, ghost all: seq<Asset>, ghost recs: seq<Record>, ghost k: nat)
    returns (r: seq<Asset>)
    requires Separate(all) && Merged(list, all, recs, k) && k + |own| <= |all| && own == all[k..k + |own|]
    modifies list, own
    ensures Merged(r, all, recs, k + |own|)
  {
    hide FirstKeys, Holds, Covers, DistinctKeys, Separate, Asset.Rec, Records;
    SeparateStretch(all, k, k + |own|);
    RecordsOfStretch(all, recs, k, k + |own|);
    assert all[..k] + own == all[..k + |own|];
    KeysConcat(all[..k], own);
    FirstKeysTwice(Keys(all[..k]), Keys(own));
    assert recs[..k + |own|] == recs[..k] + recs[k..k + |own|];
    Untouched(all, k, k + |own|);
    r := MergeAssets(list, own, recs[..k]);
  }

  /** All assets hold their original records. */
  ghost predicate Unmerged(all: seq<Asset>, recs: seq<Record>)
    reads all
  {
    |all| == |recs| && forall j | 0 <= j < |all| :: all[j].Rec() == recs[j]
  }

  /** The standard path: keyed types are merged, all others only appended. */
  method ProcessStandard(results: seq<TaskResult>, t: TypeKey) returns (combined: Option<seq<Asset>>)
    requires Separate(Input(results))
    modifies Input(results)
    ensures IsKeyed(t) ==> Keys(combined.GetOr([])) == FirstKeys(Keys(Input(results)))
    ensures IsKeyed(t) ==> Holds(combined.GetOr([]), old(Records(Input(results))))
    ensures !IsKeyed(t) ==> combined.GetOr([]) == Input(results)
    ensures !IsKeyed(t) ==> Records(Input(results)) == old(Records(Input(results)))
  {
    hide FirstKeys, Merged, Separate, Asset.Rec, Records, Input, Own, IsKeyed, Unmerged;
    combined := None;
    ghost var all, recs := Input(results), Records(Input(results));
    MergedStart(all, recs);
    for i := 0 to |results|
      invariant IsKeyed(t) ==> Merged(combined.GetOr([]), all, recs, |Input(results[..i])|)
      invariant !IsKeyed(t) ==> combined.GetOr([]) == Input(results[..i]) && Unmerged(all, recs)
    {
      var r := results[i];
      NextOwn(results, i);
      InputNext(results, i);
      OwnIs(r);
      if r.success && r.parsed && r.assets.Some? {
        if IsKeyed(t) {
          MergedParts(combined.GetOr([]), all, recs, |Input(results[..i])|);
          var list := MergeStretch(combined.GetOr([]), r.assets.value, all, recs, |Input(results[..i])|);
          combined := Some(list);
        } else {
          combined := Some(combined.GetOr([]) + r.assets.value);
        }
      }
    }
    assert results[..|results|] == results;
    if IsKeyed(t) {
      MergedAll(combined.GetOr([]), all, recs);
    } else {
      UnmergedRecords(all, recs);
    }
  }

  lemma UnmergedRecords(all: seq<Asset>, recs: seq<Record>)
    requires Unmerged(all, recs)
    ensures Records(all) == recs
  {
  }

  lemma MergedStart(all: seq<Asset>, recs: seq<Record>)
    requires |all| == |recs| && forall j | 0 <= j < |all| :: all[j].Rec() == recs[j]
    ensures Merged([], all, recs, 0) && Unmerged(all, recs) && Input([]) == []
  {
    assert Keys(all[..0]) == [];
  }

  lemma MergedParts(list: seq<Asset>, all: seq<Asset>, recs: seq<Record>, k: nat)
    requires Merged(list, all, recs, k)
    ensures forall j | 0 <= j < |list| :: list[j] in all
  {
    hide FirstKeys, Holds, Covers, DistinctKeys;
    forall j | 0 <= j < |list| ensures list[j] in all {
      assert list[j] in all[..k];
    }
  }

  lemma MergedAll(list: seq<Asset>, all: seq<Asset>, recs: seq<Record>)
    requires Merged(list, all, recs, |all|)
    ensures Keys(list) == FirstKeys(Keys(all)) && Holds(list, recs)
  {
    hide FirstKeys, Holds;
    assert all[..|all|] == all && recs[..|all|] == recs;
  }

  lemma OwnIs(r: TaskResult)
    ensures Own(r) == if r.success && r.parsed && r.assets.Some? then r.assets.value else []
  {
  }

  lemma KeysConcat(a: seq<Asset>, b: seq<Asset>)
    ensures Keys(a + b) == Keys(a) + Keys(b)
  {
  }

  lemma Untouched(all: seq<Asset>, a: nat, b: nat)
    requires Separate(all) && a <= b <= |all|
    ensures forall j | b <= j < |all| :: all[j] !in all[..b] && all[j] !in all[a..b] && all[j] !in all[..a]
    ensures forall x | x in all[..a] || x in all[a..b] :: x in all[..b] && x in all
  {
  }

  // ----- the streaming path

  /** A list, or the error raised by asking a plain string for its `value`. */
  datatype Outcome = Ok(list: seq<Asset>) | AttributeError

  /** Concatenates the lists of a batch; a long list lets only new texts through, or raises. */
  method ProcessBatch(batch: seq<TaskResult>, threshold: nat, t: TypeKey) returns (r: Outcome)
    ensures r.AttributeError? <==> t.Name? && exists i :: 0 <= i < |batch| && |Own(batch[i])| > threshold
    ensures r.Ok? ==> r.list == BatchList(batch, threshold, t)
    ensures r.Ok? && t.Name? ==> r.list == Input(batch)
  {
    hide FreshOnes, Idents, Input, Own, BatchList;
    var list: seq<Asset> := [];
    BatchStart(batch, threshold, t);
    for i := 0 to |batch|
      invariant list == BatchList(batch[..i], threshold, t)
      invariant t.Name? ==> list == Input(batch[..i]) && forall j | 0 <= j < i :: |Own(batch[j])| <= threshold
    {
      var result := batch[i];
      assert batch[..i + 1] == batch[..i] + [result];
      BatchListStep(batch[..i], result, threshold, t);
      InputStep(batch[..i], result);
      OwnIs(result);
      if result.success && result.parsed && result.assets.Some? {
        var own := result.assets.value;
        if |own| > threshold {
          if t.Name? {
            return AttributeError;
          }
          list := MergeLarge(list, own, t);
        } else {
          list := list + own;
        }
      }
    }
    assert batch[..|batch|] == batch;
    r := Ok(list);
  }

  lemma BatchStart(batch: seq<TaskResult>, threshold: nat, t: TypeKey)
    ensures BatchList(batch[..0], threshold, t) == [] && Input(batch[..0]) == []
  {
  }

  /** Merges a batch's list into what has been combined so far, choosing by size how. */
  method MergeEfficient(existing: seq<Asset>, given: seq<Asset>, threshold: nat, t: TypeKey,
                        ghost all: seq<Asset>, ghost recs: seq<Record>, ghost k: nat)
    returns (r: Outcome)
    requires IsKeyed(t) ==> Separate(all) && Merged(existing, all, recs, k)
    requires IsKeyed(t) ==> k + |given| <= |all| && given == all[k..k + |given|]
    modifies if IsKeyed(t) then set a | a in existing || a in given else {}
    ensures r.AttributeError? <==> t.Name? && IsLong(|given|, |existing|, threshold)
    ensures r.Ok? && IsKeyed(t) ==> Merged(r.list, all, recs, k + |given|)
    ensures r.Ok? && !IsKeyed(t) ==> r.list == Flush(existing, given, threshold, t)
  {
    hide FirstKeys, Merged, Separate, Asset.Rec, IsKeyed, FreshOnes, Idents;
    if given == [] {
      return Ok(existing);
    }
    if |given| > threshold || |existing| > threshold {
      if t.Name? {
        return AttributeError;
      }
      MemberIsUnkeyed(t);
      var list := MergeLarge(existing, given, t);
      r := Ok(list);
    } else if IsKeyed(t) {
      var list := MergeStretch(existing, given, all, recs, k);
      r := Ok(list);
    } else {
      r := Ok(existing + given);
    }
  }

  lemma MemberIsUnkeyed(t: TypeKey)
    ensures t.Member? ==> !IsKeyed(t)
  {
  }

  /** What has been combined after the batches that went out, of the first assets of all. */
  ghost predicate Stage(combined: seq<Asset>, done: seq<seq<TaskResult>>, threshold: nat, t: TypeKey,
                        all: seq<Asset>, recs: seq<Record>)
    reads combined, all
  {
    Inputs(done) <= all && (t.Name? ==> !HasLongFlush(done, threshold, t))
    && if IsKeyed(t) then Merged(combined, all, recs, |Inputs(done)|)
       else Unmerged(all, recs) && combined == if t.Name? then Inputs(done) else Kept(done, threshold, t)
  }

  /** One step of the streaming loop: a batch goes out, or its flush raises because it is long. */
  method FlushBatch(combined: seq<Asset>, batch: seq<TaskResult>, threshold: nat, t: TypeKey,
                    ghost done: seq<seq<TaskResult>>, ghost all: seq<Asset>, ghost recs: seq<Record>)
    returns (r: Outcome)
    requires Separate(all) && Stage(combined, done, threshold, t, all, recs) && Inputs(done) + Input(batch) <= all
    modifies all
    ensures r.AttributeError? <==> t.Name? && LongFlush(Inputs(done), Input(batch), threshold, t)
    ensures r.Ok? ==> Stage(r.list, done + [batch], threshold, t, all, recs)
  {
    hide Stage, Merged, Separate, LongFlush, HasLongFlush, Inputs, Input, BatchList, Kept, Flush, Unmerged, IsLong, IsKeyed, Own;
    ghost var k := |Inputs(done)|;
    StageParts(combined, done, threshold, t, all, recs);
    BatchInAll(done, batch, all);
    LongListInBatch(done, batch, threshold, t);
    LongWhenHeld(combined, done, batch, threshold, t, all, recs);
    var list := ProcessBatch(batch, threshold, t);
    if list.AttributeError? {
      return AttributeError;
    }
    MemberIsUnkeyed(t);
    BatchListKeeps(batch, threshold, t);
    r := MergeEfficient(combined, list.list, threshold, t, all, recs, k);
    if r.Ok? {
      NextStage(combined, r.list, done, batch, list.list, threshold, t, all, recs);
    }
  }

  lemma StageParts(combined: seq<Asset>, done: seq<seq<TaskResult>>, threshold: nat, t: TypeKey,
                   all: seq<Asset>, recs: seq<Record>)
    requires Stage(combined, done, threshold, t, all, recs)
    ensures t.Name? ==> !HasLongFlush(done, threshold, t)
    ensures IsKeyed(t) ==> Merged(combined, all, recs, |Inputs(done)|) && forall a | a in combined :: a in all
    ensures !IsKeyed(t) ==> Unmerged(all, recs)
    ensures !IsKeyed(t) ==> combined == if t.Name? then Inputs(done) else Kept(done, threshold, t)
  {
    hide Merged, HasLongFlush, Unmerged, Inputs, Kept, IsKeyed;
    if IsKeyed(t) {
      MergedParts(combined, all, recs, |Inputs(done)|);
    }
  }

  lemma BatchInAll(done: seq<seq<TaskResult>>, batch: seq<TaskResult>, all: seq<Asset>)
    requires Inputs(done) + Input(batch) <= all
    ensures var k, own := |Inputs(done)|, Input(batch); k + |own| <= |all| && own == all[k..k + |own|]
    ensures forall a | a in Input(batch) :: a in all
  {
    hide Inputs, Input;
    PrefixParts(all, Inputs(done), Input(batch));
  }

  /** A result's list over the threshold makes its flush long. */
  lemma LongListInBatch(done: seq<seq<TaskResult>>, batch: seq<TaskResult>, threshold: nat, t: TypeKey)
    ensures (exists i :: 0 <= i < |batch| && |Own(batch[i])| > threshold)
            ==> LongFlush(Inputs(done), Input(batch), threshold, t)
  {
    hide Inputs, Input, Own, IsKeyed;
    if i :| 0 <= i < |batch| && |Own(batch[i])| > threshold {
      LongInput(batch, batch[i]);
    }
  }

  /** For a plain string, as many assets are combined as the specification says are held. */
  lemma LongWhenHeld(combined: seq<Asset>, done: seq<seq<TaskResult>>, batch: seq<TaskResult>, threshold: nat, t: TypeKey,
                     all: seq<Asset>, recs: seq<Record>)
    requires t.Name? && Inputs(done) <= all
      ==> if IsKeyed(t) then Merged(combined, all, recs, |Inputs(done)|) else combined == Inputs(done)
    requires Inputs(done) <= all
    ensures t.Name? ==> (IsLong(|Input(batch)|, |combined|, threshold) <==> LongFlush(Inputs(done), Input(batch), threshold, t))
  {
    hide Inputs, Input, IsKeyed, Holds, Covers, DistinctKeys, FirstKeys;
    assert all[..|Inputs(done)|] == Inputs(done);
  }

  lemma NextStage(combined: seq<Asset>, r: seq<Asset>, done: seq<seq<TaskResult>>, batch: seq<TaskResult>, list: seq<Asset>,
                  threshold: nat, t: TypeKey, all: seq<Asset>, recs: seq<Record>)
    requires Inputs(done) + Input(batch) <= all
    requires t.Name? ==> !HasLongFlush(done, threshold, t) && !LongFlush(Inputs(done), Input(batch), threshold, t)
    requires IsKeyed(t) ==> Merged(r, all, recs, |Inputs(done)| + |Input(batch)|)
    requires !IsKeyed(t) ==> Unmerged(all, recs) && r == Flush(combined, list, threshold, t)
    requires !IsKeyed(t) ==> combined == if t.Name? then Inputs(done) else Kept(done, threshold, t)
    requires !IsKeyed(t) ==> list == if t.Name? then Input(batch) else BatchList(batch, threshold, t)
    ensures Stage(r, done + [batch], threshold, t, all, recs)
  {
    hide Merged, HasLongFlush, Unmerged, Inputs, Input, Kept, IsKeyed, BatchList, FirstKeys, Keys, FreshOnes, Idents;
    InputsStep(done, batch);
    LongFlushStep(done, batch, threshold, t);
    KeptStep(done, batch, threshold, t);
  }

  /** The streaming path: batches bounded in number and in estimated memory, merged one by one. */
  method ProcessStreaming(results: seq<TaskResult>, cfg: Config, t: TypeKey) returns (r: Outcome)
    requires Separate(Input(results))
    modifies Input(results)
    ensures r.AttributeError? <==> t.Name? && HasLongFlush(Batches(results, cfg), cfg.largeListThreshold, t)
    ensures r.Ok? && IsKeyed(t) ==> Keys(r.list) == FirstKeys(Keys(Input(results)))
    ensures r.Ok? && IsKeyed(t) ==> Holds(r.list, old(Records(Input(results))))
    ensures r.Ok? && !IsKeyed(t) ==> Records(Input(results)) == old(Records(Input(results)))
    ensures r.Ok? && t.Name? && !IsKeyed(t) ==> r.list == Input(results)
    ensures r.Ok? && t.Member? ==> r.list == Kept(Batches(results, cfg), cfg.largeListThreshold, t)
  {
    hide Separate, Input, Inputs, Own, Stage, Records, Batches, CutAll, IsDue, HasLongFlush, LongFlush, Bytes, Kept,
         IsKeyed, FirstKeys, Keys, Holds;
    var combined: seq<Asset> := [];
    var batch: seq<TaskResult>, size := [], 0;
    ghost var all, recs := Input(results), Records(Input(results));
    ghost var done: seq<seq<TaskResult>> := [];
    StageStart(all, recs, cfg.largeListThreshold, t);
    NothingCut(results, cfg);
    for i := 0 to |results|
      invariant CutAll(results[..i], cfg) == Cut(done, batch) && size == Bytes(batch)
      invariant Inputs(done) + Input(batch) == Input(results[..i])
      invariant Stage(combined, done, cfg.largeListThreshold, t, all, recs)
    {
      var result := results[i];
      CutStep(results, i, cfg);
      InputNext(results, i);
      InputPrefix(results, i + 1);
      if result.success && result.parsed {
        InputStep(batch, result);
        BytesStep(batch, result);
        DueMeans(batch + [result], cfg);
        batch := batch + [result];
        size := size + result.assetCount * BYTES_PER_ASSET;
        assert Inputs(done) + Input(batch) == Input(results[..i + 1]);
        if |batch| >= cfg.streamingBatchSize || size > cfg.memoryLimitMb * 1024 * 1024 {
          var flushed := FlushBatch(combined, batch, cfg.largeListThreshold, t, done, all, recs);
          if flushed.AttributeError? {
            FailedFlush(results, i + 1, cfg, t, done, batch);
            return AttributeError;
          }
          InputsStep(done, batch);
          NothingHeld();
          done := done + [batch];
          combined, batch, size := flushed.list, [], 0;
        }
      } else {
        NotCounted(result);
      }
    }
    Whole(results);
    BatchesAre(results, cfg);
    if batch != [] {
      var flushed := FlushBatch(combined, batch, cfg.largeListThreshold, t, done, all, recs);
      LongFlushStep(done, batch, cfg.largeListThreshold, t);
      if flushed.AttributeError? {
        return AttributeError;
      }
      combined := flushed.list;
      done := done + [batch];
    }
    BatchesHoldInput(results, cfg);
    StageEnd(combined, done, cfg.largeListThreshold, t, all, recs);
    r := Ok(combined);
  }

  lemma StageStart(all: seq<Asset>, recs: seq<Record>, threshold: nat, t: TypeKey)
    requires |all| == |recs| && forall j | 0 <= j < |all| :: all[j].Rec() == recs[j]
    ensures Stage([], [], threshold, t, all, recs)
    ensures Inputs([]) == [] && Input([]) == [] && Bytes([]) == 0
  {
    hide Merged, Unmerged, FirstKeys;
    MergedStart(all, recs);
  }

  lemma NothingCut(results: seq<TaskResult>, cfg: Config)
    ensures CutAll(results[..0], cfg) == Cut([], []) && results[..0] == []
  {
  }

  lemma NothingHeld()
    ensures Input([]) == [] && Bytes([]) == 0
  {
  }

  lemma NotCounted(r: TaskResult)
    ensures !Counts(r) ==> Own(r) == []
  {
  }

  lemma DueMeans(batch: seq<TaskResult>, cfg: Config)
    ensures IsDue(batch, cfg) <==> |batch| >= cfg.streamingBatchSize || Bytes(batch) > cfg.memoryLimitMb * 1024 * 1024
  {
  }

  lemma BatchesAre(results: seq<TaskResult>, cfg: Config)
    ensures var c := CutAll(results, cfg); Batches(results, cfg) == if c.open == [] then c.done else c.done + [c.open]
  {
  }

  /** A long flush on the way is a long flush of the whole run. */
  lemma FailedFlush(results: seq<TaskResult>, i: nat, cfg: Config, t: TypeKey, done: seq<seq<TaskResult>>,
                    batch: seq<TaskResult>)
    requires i <= |results| && CutAll(results[..i], cfg).done == done + [batch]
    requires LongFlush(Inputs(done), Input(batch), cfg.largeListThreshold, t)
    ensures HasLongFlush(Batches(results, cfg), cfg.largeListThreshold, t)
  {
    hide Batches, CutAll, HasLongFlush, LongFlush, Inputs, Input;
    DoneGrows(results, i, cfg);
    LongFlushStep(done, batch, cfg.largeListThreshold, t);
    LongFlushInPrefix(done + [batch], Batches(results, cfg), cfg.largeListThreshold, t);
  }

  lemma StageEnd(combined: seq<Asset>, done: seq<seq<TaskResult>>, threshold: nat, t: TypeKey,
                 all: seq<Asset>, recs: seq<Record>)
    requires Stage(combined, done, threshold, t, all, recs) && Inputs(done) == all
    ensures t.Name? ==> !HasLongFlush(done, threshold, t)
    ensures IsKeyed(t) ==> Keys(combined) == FirstKeys(Keys(all)) && Holds(combined, recs)
    ensures !IsKeyed(t) ==> Records(all) == recs && combined == if t.Name? then all else Kept(done, threshold, t)
    ensures t.Member? ==> !IsKeyed(t)
  {
    hide Merged, Unmerged, HasLongFlush, Inputs, Kept, FirstKeys, Holds, Records, Keys;
    if IsKeyed(t) {
      MergedAll(combined, all, recs);
    } else {
      UnmergedRecords(all, recs);
    }
  }

  function TotalAssets(results: seq<TaskResult>): nat
  {
    if results == [] then 0
    else (if Counts(results[0]) then results[0].assetCount else 0) + TotalAssets(results[1..])
  }

  /** The assets of all types in the results that count. */
  lemma {:induction false} TotalsAddUp(a: seq<TaskResult>, b: seq<TaskResult>, r: TaskResult)
    ensures TotalAssets(a + b) == TotalAssets(a) + TotalAssets(b)
    ensures TotalAssets([r]) == if r.success && r.parsed then r.assetCount else 0
  {
    assert [r][1..] == [];
    if a == [] {
      assert a + b == b;
    } else {
      assert (a + b)[1..] == a[1..] + b;
      TotalsAddUp(a[1..], b, r);
    }
  }

  /**
   * The entry point. For a plain string it raises exactly when streaming is chosen and a flush is long; otherwise
   * a keyed type has its first-occurrence keys and all data on either path, and any other type its whole input. For
   * a member nothing is ever merged: the standard path yields the whole input, streaming what its flushes keep.
   */
  method ProcessResults(results: seq<TaskResult>, enableStreaming: bool, cfg: Config, t: TypeKey) returns (r: Outcome)
    requires Separate(Input(results))
    modifies Input(results)
    ensures var streams := enableStreaming
        && (TotalAssets(results) > cfg.streamingAssetThreshold || |results| > cfg.streamingResultThreshold);
      (r.AttributeError? <==> t.Name? && streams && HasLongFlush(Batches(results, cfg), cfg.largeListThreshold, t))
      && (r.Ok? && IsKeyed(t) ==> Keys(r.list) == FirstKeys(Keys(Input(results))))
      && (r.Ok? && IsKeyed(t) ==> Holds(r.list, old(Records(Input(results)))))
      && (r.Ok? && !IsKeyed(t) ==> Records(Input(results)) == old(Records(Input(results))))
      && (r.Ok? && !IsKeyed(t) && (t.Name? || !streams) ==> r.list == Input(results))
      && (t.Member? && streams ==> r.Ok? && r.list == Kept(Batches(results, cfg), cfg.largeListThreshold, t))
  {
    hide FirstKeys, Input, Records, Batches, HasLongFlush, Kept;
    if results == [] {
      NothingIn();
      NothingStreams(cfg, t);
      assert Keys([]) == [];
      return Ok([]);
    }
    if enableStreaming
       && (TotalAssets(results) > cfg.streamingAssetThreshold || |results| > cfg.streamingResultThreshold) {
      r := ProcessStreaming(results, cfg, t);
    } else {
      var standard := ProcessStandard(results, t);
      r := Ok(standard.GetOr([]));
    }
  }

  lemma NothingStreams(cfg: Config, t: TypeKey)
    ensures !HasLongFlush(Batches([], cfg), cfg.largeListThreshold, t)
    ensures Kept(Batches([], cfg), cfg.largeListThreshold, t) == []
  {
    assert CutAll([], cfg) == Cut([], []);
  }

  /** With the default settings, one result with 10,001 assets under a plain string raises. */
  lemma DefaultsRaise(list: seq<Asset>, cfg: Config, t: TypeKey)
    requires |list| == 10001 && cfg.streamingAssetThreshold == 10000 && cfg.largeListThreshold == 1000
    ensures var results := [TaskResult(true, true, 10001, Some(list))];
      TotalAssets(results) > cfg.streamingAssetThreshold && HasLongFlush(Batches(results, cfg), cfg.largeListThreshold, t)
  {
    hide Batches, HasLongFlush;
    var r := TaskResult(true, true, 10001, Some(list));
    assert r in [r];
    LongListIsLong([r], cfg, r, t);
  }
}
