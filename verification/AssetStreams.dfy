/**
 * What the streaming path of `task_components.py` keeps, as functions of the task results: how they are cut into
 * batches, what each batch and each flush lets through, and when it raises.
 */
module AssetStreams {
  import opened Text
  import opened AssetMerging

  /**
   * A task result: whether it succeeded, whether it parsed any assets, how many of all types, and its
   * assets of the type at hand, if that type is among them.
   */
  datatype TaskResult = TaskResult(success: bool, parsed: bool, assetCount: nat, assets: Option<seq<Asset>>)

  datatype Config = Config(streamingBatchSize: nat, memoryLimitMb: nat, largeListThreshold: nat,
                           streamingAssetThreshold: nat, streamingResultThreshold: nat)

  predicate Counts(r: TaskResult)
  {
    r.success && r.parsed
  }

  function Own(r: TaskResult): seq<Asset>
  {
    if Counts(r) then r.assets.GetOr([]) else []
  }

  /** All assets of the type, in order, from the results that count. */
  function Input(results: seq<TaskResult>): seq<Asset>
  {
    if results == [] then [] else Input(results[..|results| - 1]) + Own(results[|results| - 1])
  }

  lemma InputStep(results: seq<TaskResult>, r: TaskResult)
    ensures Input(results + [r]) == Input(results) + Own(r)
  {
    assert (results + [r])[..|results|] == results;
  }

  lemma InputNext(results: seq<TaskResult>, i: nat)
    requires i < |results|
    ensures Input(results[..i + 1]) == Input(results[..i]) + Own(results[i])
  {
    InputStep(results[..i], results[i]);
    assert results[..i + 1] == results[..i] + [results[i]];
  }

  lemma {:induction false} InputPrefix(results: seq<TaskResult>, i: nat)
    requires i <= |results|
    ensures Input(results[..i]) <= Input(results)
    decreases |results| - i
  {
    if i == |results| {
      assert results[..i] == results;
    } else {
      InputPrefix(results, i + 1);
      InputNext(results, i);
    }
  }

  lemma {:induction false} LongInput(results: seq<TaskResult>, r: TaskResult)
    requires r in results
    ensures |Own(r)| <= |Input(results)|
  {
    var i :| 0 <= i < |results| && results[i] == r;
    InputPrefix(results, i + 1);
    InputNext(results, i);
  }

  // ----- cutting the results into batches

  const BYTES_PER_ASSET: nat := 500

  function Bytes(batch: seq<TaskResult>): nat
  {
    if batch == [] then 0 else Bytes(batch[..|batch| - 1]) + batch[|batch| - 1].assetCount * BYTES_PER_ASSET
  }

  /** A batch goes out once it has enough results, or an estimated size over the limit. */
  predicate IsDue(batch: seq<TaskResult>, cfg: Config)
  {
    |batch| >= cfg.streamingBatchSize || Bytes(batch) > cfg.memoryLimitMb * 1024 * 1024
  }

  /** The batches that went out, and the open one. */
  datatype Cut = Cut(done: seq<seq<TaskResult>>, open: seq<TaskResult>)

  function Add(c: Cut, r: TaskResult, cfg: Config): Cut
  {
    if !Counts(r) then c
    else if IsDue(c.open + [r], cfg) then Cut(c.done + [c.open + [r]], [])
    else Cut(c.done, c.open + [r])
  }

  function CutAll(results: seq<TaskResult>, cfg: Config): Cut
  {
    if results == [] then Cut([], []) else Add(CutAll(results[..|results| - 1], cfg), results[|results| - 1], cfg)
  }

  lemma CutStep(results: seq<TaskResult>, i: nat, cfg: Config)
    requires i < |results|
    ensures CutAll(results[..i + 1], cfg) == Add(CutAll(results[..i], cfg), results[i], cfg)
  {
    assert results[..i + 1][..i] == results[..i];
  }

  lemma BytesStep(batch: seq<TaskResult>, r: TaskResult)
    ensures Bytes(batch + [r]) == Bytes(batch) + r.assetCount * BYTES_PER_ASSET
  {
    assert (batch + [r])[..|batch|] == batch;
  }

  /** The estimate is 500 bytes for every asset of every result, whatever the type. */
  lemma {:induction false} BytesAddUp(a: seq<TaskResult>, b: seq<TaskResult>, r: TaskResult)
    ensures Bytes(a + b) == Bytes(a) + Bytes(b) && Bytes([r]) == 500 * r.assetCount
  {
    BytesOfOne(r);
    if b == [] {
      assert a + b == a;
    } else {
      hide Bytes;
      var init, last := b[..|b| - 1], b[|b| - 1];
      BytesAddUp(a, init, r);
      BytesStep(a + init, last);
      BytesStep(init, last);
      Reassociate(a, init, [last]);
      assert b == init + [last];
    }
  }

  lemma BytesOfOne(r: TaskResult)
    ensures Bytes([]) == 0 && Bytes([r]) == 500 * r.assetCount
  {
    BytesStep([], r);
    assert [] + [r] == [r];
  }

  function Batches(results: seq<TaskResult>, cfg: Config): seq<seq<TaskResult>>
  {
    var c := CutAll(results, cfg);
    if c.open == [] then c.done else c.done + [c.open]
  }

  lemma {:induction false} DoneGrows(results: seq<TaskResult>, i: nat, cfg: Config)
    requires i <= |results|
    ensures CutAll(results[..i], cfg).done <= Batches(results, cfg)
    decreases |results| - i
  {
    if i == |results| {
      assert results[..i] == results;
    } else {
      DoneGrows(results, i + 1, cfg);
      CutStep(results, i, cfg);
    }
  }

  function Counted(results: seq<TaskResult>): seq<TaskResult>
  {
    if results == [] then [] else
    var init, last := Counted(results[..|results| - 1]), results[|results| - 1];
    if Counts(last) then init + [last] else init
  }

  function Joined(batches: seq<seq<TaskResult>>): seq<TaskResult>
  {
    if batches == [] then [] else Joined(batches[..|batches| - 1]) + batches[|batches| - 1]
  }

  lemma JoinedStep(batches: seq<seq<TaskResult>>, b: seq<TaskResult>)
    ensures Joined(batches + [b]) == Joined(batches) + b
  {
    assert (batches + [b])[..|batches|] == batches;
  }

  ghost predicate NoneDue(batch: seq<TaskResult>, cfg: Config, upTo: nat)
    requires upTo <= |batch| + 1
  {
    forall m | 0 < m < upTo :: !IsDue(batch[..m], cfg)
  }

  /** A batch that went out was due, and not before its last result. */
  ghost predicate JustDue(batch: seq<TaskResult>, cfg: Config)
  {
    batch != [] && IsDue(batch, cfg) && NoneDue(batch, cfg, |batch|)
  }

  ghost predicate WellCut(c: Cut, results: seq<TaskResult>, cfg: Config)
  {
    Joined(c.done) + c.open == Counted(results) && (forall b | b in c.done :: JustDue(b, cfg))
    && NoneDue(c.open, cfg, |c.open| + 1)
  }

  /**
   * The batches are the counted results in order, cut as early as the limits allow: all but an open last one are just
   * due, and the open one is not due.
   */
  lemma {:induction false} BatchesCutAsDue(results: seq<TaskResult>, cfg: Config)
    ensures WellCut(CutAll(results, cfg), results, cfg)
    ensures Joined(Batches(results, cfg)) == Counted(results)
  {
    var c := CutAll(results, cfg);
    if results != [] {
      var init, r := results[..|results| - 1], results[|results| - 1];
      BatchesCutAsDue(init, cfg);
      AddCutsAsDue(CutAll(init, cfg), init, r, cfg);
      assert results == init + [r];
    }
    JoinedStep(c.done, c.open);
  }

  lemma AddCutsAsDue(c: Cut, results: seq<TaskResult>, r: TaskResult, cfg: Config)
    requires WellCut(c, results, cfg)
    ensures WellCut(Add(c, r, cfg), results + [r], cfg)
  {
    hide IsDue, Joined;
    var open := c.open + [r];
    assert (results + [r])[..|results|] == results;
    assert Joined(c.done) + open == Joined(c.done) + c.open + [r];
    JoinedStep(c.done, open);
    assert open[..|open|] == open;
    forall m | 0 < m <= |c.open| ensures open[..m] == c.open[..m] {
    }
    assert Joined(c.done + [open]) + [] == Joined(c.done) + open;
  }

  // ----- the assets of the batches

  function Inputs(batches: seq<seq<TaskResult>>): seq<Asset>
  {
    if batches == [] then [] else Inputs(batches[..|batches| - 1]) + Input(batches[|batches| - 1])
  }

  lemma InputsStep(batches: seq<seq<TaskResult>>, b: seq<TaskResult>)
    ensures Inputs(batches + [b]) == Inputs(batches) + Input(b)
  {
    assert (batches + [b])[..|batches|] == batches;
  }

  lemma Reassociate<T>(a: seq<T>, b: seq<T>, c: seq<T>)
    ensures (a + b) + c == a + (b + c)
  {
  }

  lemma {:induction false} InputConcat(a: seq<TaskResult>, b: seq<TaskResult>)
    ensures Input(a + b) == Input(a) + Input(b)
  {
    if b == [] {
      assert a + b == a;
    } else {
      hide Input, Own;
      var init, last := b[..|b| - 1], b[|b| - 1];
      InputConcat(a, init);
      InputStep(init, last);
      InputStep(a + init, last);
      Reassociate(a, init, [last]);
      Reassociate(Input(a), Input(init), Own(last));
      assert b == init + [last];
    }
  }

  lemma {:induction false} InputsJoined(batches: seq<seq<TaskResult>>)
    ensures Inputs(batches) == Input(Joined(batches))
  {
    if batches != [] {
      InputsJoined(batches[..|batches| - 1]);
      InputConcat(Joined(batches[..|batches| - 1]), batches[|batches| - 1]);
    }
  }

  lemma {:induction false} InputCounted(results: seq<TaskResult>)
    ensures Input(Counted(results)) == Input(results)
  {
    if results != [] {
      InputCounted(results[..|results| - 1]);
      InputStep(Counted(results[..|results| - 1]), results[|results| - 1]);
    }
  }

  /** No asset is lost, repeated or moved by the cutting. */
  lemma BatchesHoldInput(results: seq<TaskResult>, cfg: Config)
    ensures Inputs(Batches(results, cfg)) == Input(results)
  {
    BatchesCutAsDue(results, cfg);
    InputsJoined(Batches(results, cfg));
    InputCounted(results);
  }

  lemma {:induction false} InBatches(batches: seq<seq<TaskResult>>, r: TaskResult)
    requires r in Joined(batches)
    ensures exists i :: 0 <= i < |batches| && r in batches[i]
  {
    var init, last := batches[..|batches| - 1], batches[|batches| - 1];
    if r in last {
      assert r in batches[|batches| - 1];
    } else {
      InBatches(init, r);
      var i :| 0 <= i < |init| && r in init[i];
      assert r in batches[i];
    }
  }

  lemma {:induction false} InCounted(results: seq<TaskResult>, r: TaskResult)
    requires r in results && Counts(r)
    ensures r in Counted(results)
  {
    if r != results[|results| - 1] {
      InCounted(results[..|results| - 1], r);
    }
  }

  // ----- long lists

  /** How many assets are held before a flush, as long as nothing was dropped. */
  function Held(before: seq<Asset>, t: TypeKey): nat
  {
    if IsKeyed(t) then |FirstKeys(Keys(before))| else |before|
  }

  /** The size test of a flush: it is passed over when there is nothing to merge. */
  predicate IsLong(given: nat, held: nat, threshold: nat)
  {
    given > 0 && (given > threshold || held > threshold)
  }

  predicate LongFlush(before: seq<Asset>, own: seq<Asset>, threshold: nat, t: TypeKey)
  {
    IsLong(|own|, Held(before, t), threshold)
  }

  ghost predicate HasLongFlush(batches: seq<seq<TaskResult>>, threshold: nat, t: TypeKey)
  {
    exists i :: 0 <= i < |batches| && LongFlush(Inputs(batches[..i]), Input(batches[i]), threshold, t)
  }

  /** The batch has assets, and they or those before are over the threshold; a keyed type counts the keys before. */
  ghost predicate IsOver(before: seq<Asset>, own: seq<Asset>, threshold: nat, t: TypeKey)
  {
    own != []
    && (|own| > threshold
        || (if t in [Name("subdomain"), Name("ip"), Name("url")] then |set a | a in before :: a.key| else |before|) > threshold)
  }

  /** Which runs have a long flush, in plain numbers. */
  lemma LongFlushExactly(batches: seq<seq<TaskResult>>, threshold: nat, t: TypeKey)
    ensures HasLongFlush(batches, threshold, t)
      <==> exists i :: 0 <= i < |batches| && IsOver(Inputs(batches[..i]), Input(batches[i]), threshold, t)
  {
    hide Input, Inputs;
    forall i | 0 <= i < |batches|
      ensures IsKeyed(t) ==> |FirstKeys(Keys(Inputs(batches[..i])))| == |set a | a in Inputs(batches[..i]) :: a.key|
    {
      FirstKeysCountKeys(Inputs(batches[..i]));
    }
    hide FirstKeys, Keys;
  }

  lemma FirstKeysCountKeys(assets: seq<Asset>)
    ensures |FirstKeys(Keys(assets))| == |set a | a in assets :: a.key|
  {
    hide FirstKeys, Keys;
    FirstKeysMembers(Keys(assets));
    KeysMembers(assets);
    DistinctSize(FirstKeys(Keys(assets)));
    var keys := set k | k in FirstKeys(Keys(assets));
    assert keys == set a | a in assets :: a.key;
  }

  lemma {:induction false} DistinctSize(keys: seq<string>)
    requires forall i, j | 0 <= i < j < |keys| :: keys[i] != keys[j]
    ensures |set k | k in keys| == |keys|
  {
    if keys != [] {
      var init, last := keys[..|keys| - 1], keys[|keys| - 1];
      DistinctSize(init);
      assert keys == init + [last];
      assert (set k | k in keys) == (set k | k in init) + {last};
    }
  }

  lemma LongFlushStep(batches: seq<seq<TaskResult>>, b: seq<TaskResult>, threshold: nat, t: TypeKey)
    ensures HasLongFlush(batches + [b], threshold, t)
      <==> (HasLongFlush(batches, threshold, t) || LongFlush(Inputs(batches), Input(b), threshold, t))
  {
    hide LongFlush, Inputs, Input;
    var all := batches + [b];
    assert all[..|batches|] == batches && all[|batches|] == b;
    forall i | 0 <= i < |batches| ensures all[..i] == batches[..i] && all[i] == batches[i] {
    }
    if HasLongFlush(all, threshold, t) {
      var i :| 0 <= i < |all| && LongFlush(Inputs(all[..i]), Input(all[i]), threshold, t);
    }
    if HasLongFlush(batches, threshold, t) {
      var i :| 0 <= i < |batches| && LongFlush(Inputs(batches[..i]), Input(batches[i]), threshold, t);
      assert LongFlush(Inputs(all[..i]), Input(all[i]), threshold, t);
    }
  }

  lemma LongFlushInPrefix(a: seq<seq<TaskResult>>, b: seq<seq<TaskResult>>, threshold: nat, t: TypeKey)
    requires a <= b && HasLongFlush(a, threshold, t)
    ensures HasLongFlush(b, threshold, t)
  {
    hide LongFlush, Inputs, Input;
    var i :| 0 <= i < |a| && LongFlush(Inputs(a[..i]), Input(a[i]), threshold, t);
    assert b[..i] == a[..i] && b[i] == a[i];
  }

  /** One counted result with a list over the threshold makes a flush long, whatever the limits. */
  lemma LongListIsLong(results: seq<TaskResult>, cfg: Config, r: TaskResult, t: TypeKey)
    requires r in results && |Own(r)| > cfg.largeListThreshold
    ensures HasLongFlush(Batches(results, cfg), cfg.largeListThreshold, t)
  {
    hide Batches, Joined, Inputs, Input, Counted, CutAll;
    var batches := Batches(results, cfg);
    BatchesCutAsDue(results, cfg);
    InCounted(results, r);
    InBatches(batches, r);
    var i :| 0 <= i < |batches| && r in batches[i];
    LongInput(batches[i], r);
    assert LongFlush(Inputs(batches[..i]), Input(batches[i]), cfg.largeListThreshold, t);
  }

  // ----- what is kept for a member of the enumeration

  /** The list of a batch: a result's list over the threshold lets only new texts through. */
  function BatchList(batch: seq<TaskResult>, threshold: nat, t: TypeKey): seq<Asset>
  {
    if batch == [] then [] else
    var list, own := BatchList(batch[..|batch| - 1], threshold, t), Own(batch[|batch| - 1]);
    if |own| > threshold then list + FreshOnes(own, Idents(list, t), t) else list + own
  }

  function Flush(kept: seq<Asset>, list: seq<Asset>, threshold: nat, t: TypeKey): seq<Asset>
  {
    if IsLong(|list|, |kept|, threshold) then kept + FreshOnes(list, Idents(kept, t), t) else kept + list
  }

  /** What the flushes of all batches keep. */
  function Kept(batches: seq<seq<TaskResult>>, threshold: nat, t: TypeKey): seq<Asset>
  {
    if batches == [] then [] else
    Flush(Kept(batches[..|batches| - 1], threshold, t), BatchList(batches[|batches| - 1], threshold, t), threshold, t)
  }

  lemma BatchListStep(batch: seq<TaskResult>, r: TaskResult, threshold: nat, t: TypeKey)
    ensures var list := BatchList(batch, threshold, t);
      BatchList(batch + [r], threshold, t)
      == if |Own(r)| > threshold then list + FreshOnes(Own(r), Idents(list, t), t) else list + Own(r)
  {
    assert (batch + [r])[..|batch|] == batch;
  }

  lemma KeptStep(batches: seq<seq<TaskResult>>, b: seq<TaskResult>, threshold: nat, t: TypeKey)
    ensures Kept(batches + [b], threshold, t)
         == Flush(Kept(batches, threshold, t), BatchList(b, threshold, t), threshold, t)
  {
    assert (batches + [b])[..|batches|] == batches;
  }

  /** Every long flush finds only new texts. */
  ghost predicate DropsNothing(batches: seq<seq<TaskResult>>, threshold: nat, t: TypeKey)
  {
    forall i | 0 <= i < |batches| && LongFlush(Inputs(batches[..i]), Input(batches[i]), threshold, t) ::
      AllFresh(Idents(Input(batches[i]), t), Idents(Inputs(batches[..i]), t))
  }

  lemma DropsNothingStep(batches: seq<seq<TaskResult>>, b: seq<TaskResult>, threshold: nat, t: TypeKey)
    ensures DropsNothing(batches + [b], threshold, t)
      <==> (DropsNothing(batches, threshold, t)
            && (LongFlush(Inputs(batches), Input(b), threshold, t)
                ==> AllFresh(Idents(Input(b), t), Idents(Inputs(batches), t))))
  {
    hide LongFlush, Inputs, Input, Idents, AllFresh;
    var all := batches + [b];
    assert all[..|batches|] == batches && all[|batches|] == b;
    forall i | 0 <= i < |batches| ensures all[..i] == batches[..i] && all[i] == batches[i] {
    }
  }

  /** A batch's list is a part of its assets, and all of them if they are few or all fresh. */
  lemma {:induction false} BatchListKeeps(batch: seq<TaskResult>, threshold: nat, t: TypeKey)
    ensures var list, own := BatchList(batch, threshold, t), Input(batch);
      |list| <= |own| && (list != own ==> |list| < |own|) && (forall a | a in list :: a in own)
      && (|own| <= threshold || AllFresh(Idents(own, t), []) ==> list == own)
  {
    if batch != [] {
      hide Input, BatchList, FreshOnes, Idents, AllFresh, Own;
      var init, r := batch[..|batch| - 1], batch[|batch| - 1];
      assert batch == init + [r];
      var list := BatchList(init, threshold, t);
      BatchListKeeps(init, threshold, t);
      BatchListStep(init, r, threshold, t);
      InputStep(init, r);
      FreshKeepsAll(Own(r), Idents(list, t), t);
      IdentsConcat(Input(init), Own(r), t);
      AllFreshParts(Idents(Input(init), t), Idents(Own(r), t));
    }
  }

  lemma AllFreshParts(a: seq<string>, b: seq<string>)
    ensures AllFresh(a + b, []) ==> AllFresh(a, []) && AllFresh(b, a)
    ensures AllFresh(b, a) ==> AllFresh(b, [])
  {
    var c := a + b;
    if AllFresh(c, []) {
      forall i, j | 0 <= i < j < |a| ensures a[i] != a[j] {
        assert c[i] == a[i] && c[j] == a[j];
      }
      forall i, j | 0 <= i < j < |b| ensures b[i] != b[j] {
        assert c[|a| + i] == b[i] && c[|a| + j] == b[j];
      }
      forall j | 0 <= j < |b| ensures b[j] !in a {
        assert c[|a| + j] == b[j];
        assert forall i | 0 <= i < |a| :: c[i] == a[i];
      }
    }
  }

  /** One flush keeps all exactly when all before was kept and it is short or finds only new texts. */
  lemma FlushKeeps(kept: seq<Asset>, before: seq<Asset>, list: seq<Asset>, own: seq<Asset>, threshold: nat, t: TypeKey)
    requires t.Member? && |list| <= |own| && (list != own ==> |list| < |own|) && |kept| <= |before|
    requires kept != before ==> |kept| < |before|
    requires |own| <= threshold || AllFresh(Idents(own, t), []) ==> list == own
    ensures var r := Flush(kept, list, threshold, t);
      var ok := kept == before && (LongFlush(before, own, threshold, t) ==> AllFresh(Idents(own, t), Idents(before, t)));
      |r| <= |before + own| && (ok ==> r == before + own) && (!ok ==> |r| < |before + own|)
  {
    hide FreshOnes, Idents, AllFresh;
    FreshKeepsAll(list, Idents(kept, t), t);
    AllFreshParts(Idents(before, t), Idents(own, t));
  }

  /**
   * For a member, streaming yields the whole input, as the standard path does, exactly when every long flush finds
   * only new texts; otherwise records are missing.
   */
  lemma {:induction false} KeepsAllExactly(batches: seq<seq<TaskResult>>, threshold: nat, t: TypeKey)
    requires t.Member?
    ensures Kept(batches, threshold, t) == Inputs(batches) <==> DropsNothing(batches, threshold, t)
    ensures !DropsNothing(batches, threshold, t) ==> |Kept(batches, threshold, t)| < |Inputs(batches)|
    ensures |Kept(batches, threshold, t)| <= |Inputs(batches)|
  {
    if batches != [] {
      hide Input, Inputs, BatchList, Idents, AllFresh, LongFlush, Kept, Flush;
      hide DropsNothing;
      var init, b := batches[..|batches| - 1], batches[|batches| - 1];
      assert batches == init + [b];
      KeepsAllExactly(init, threshold, t);
      KeptStep(init, b, threshold, t);
      InputsStep(init, b);
      DropsNothingStep(init, b, threshold, t);
      BatchListKeeps(b, threshold, t);
      FlushKeeps(Kept(init, threshold, t), Inputs(init), BatchList(b, threshold, t), Input(b), threshold, t);
    }
  }

  /** The agreement of the two paths for a member, over any results and limits. */
  lemma PathsAgreeExactly(results: seq<TaskResult>, cfg: Config, t: TypeKey)
    requires t.Member?
    ensures Kept(Batches(results, cfg), cfg.largeListThreshold, t) == Input(results)
      <==> DropsNothing(Batches(results, cfg), cfg.largeListThreshold, t)
  {
    hide *;
    BatchesHoldInput(results, cfg);
    KeepsAllExactly(Batches(results, cfg), cfg.largeListThreshold, t);
  }

  lemma {:induction false} KeptIsInput(batches: seq<seq<TaskResult>>, threshold: nat, t: TypeKey)
    ensures forall a | a in Kept(batches, threshold, t) :: a in Inputs(batches)
  {
    if batches != [] {
      hide Input, Inputs, BatchList, Idents, Kept, FreshOnes;
      var init, b := batches[..|batches| - 1], batches[|batches| - 1];
      assert batches == init + [b];
      KeptIsInput(init, threshold, t);
      KeptStep(init, b, threshold, t);
      InputsStep(init, b);
      BatchListKeeps(b, threshold, t);
      FreshKeepsAll(BatchList(b, threshold, t), Idents(Kept(init, threshold, t), t), t);
    }
  }

  // ----- no text is lost

  lemma SameFirst(a: seq<string>, b: seq<string>, a': seq<string>, b': seq<string>)
    requires FirstKeys(a) == FirstKeys(a') && FirstKeys(b) == FirstKeys(b')
    ensures FirstKeys(a + b) == FirstKeys(a' + b')
  {
    hide FirstKeys, Without;
    FirstKeysTwice(a, b);
    FirstKeysTwice(a', b);
    FirstKeysAppend(a', b);
    FirstKeysAppend(a', b');
  }

  lemma {:induction false} BatchLosesNoText(batch: seq<TaskResult>, threshold: nat, t: TypeKey)
    ensures FirstKeys(Idents(BatchList(batch, threshold, t), t)) == FirstKeys(Idents(Input(batch), t))
  {
    if batch != [] {
      hide Input, BatchList, FreshOnes, Idents, FirstKeys, Own;
      var init, r := batch[..|batch| - 1], batch[|batch| - 1];
      assert batch == init + [r];
      var list := BatchList(init, threshold, t);
      BatchLosesNoText(init, threshold, t);
      BatchListStep(init, r, threshold, t);
      InputStep(init, r);
      NoIdentIsLost(list, Own(r), t);
      IdentsConcat(list, Own(r), t);
      IdentsConcat(Input(init), Own(r), t);
      SameFirst(Idents(list, t), Idents(Own(r), t), Idents(Input(init), t), Idents(Own(r), t));
    }
  }

  /** Whatever is dropped, the first occurrences of the printed assets stay, in order. */
  lemma {:induction false} NoTextIsLost(batches: seq<seq<TaskResult>>, threshold: nat, t: TypeKey)
    ensures FirstKeys(Idents(Kept(batches, threshold, t), t)) == FirstKeys(Idents(Inputs(batches), t))
  {
    if batches != [] {
      hide Input, Inputs, BatchList, FreshOnes, Idents, FirstKeys, Kept;
      var init, b := batches[..|batches| - 1], batches[|batches| - 1];
      assert batches == init + [b];
      var kept, list := Kept(init, threshold, t), BatchList(b, threshold, t);
      NoTextIsLost(init, threshold, t);
      KeptStep(init, b, threshold, t);
      InputsStep(init, b);
      BatchLosesNoText(b, threshold, t);
      NoIdentIsLost(kept, list, t);
      IdentsConcat(kept, list, t);
      IdentsConcat(Inputs(init), Input(b), t);
      SameFirst(Idents(kept, t), Idents(list, t), Idents(Inputs(init), t), Idents(Input(b), t));
    }
  }

  // ----- list data

  /** All list data of a key, over separate records. */
  ghost function ListData(assets: seq<Asset>, key: string): set<string>
    reads assets
  {
    set a, x | a in assets && a.key == key && x in Items(a.field) :: x
  }

  /** It is what merging all records of the key gives. */
  lemma ListDataIsMerged(assets: seq<Asset>, key: string)
    requires HasKey(Records(assets), key)
    ensures ListData(assets, key) == Combined(Records(assets), key).items
  {
    hide Combined, Items;
    CombinedIsUnion(Records(assets), key);
    forall x ensures x in ListData(assets, key) <==> x in Combined(Records(assets), key).items {
      if a :| a in assets && a.key == key && x in Items(a.field) {
        var i :| 0 <= i < |assets| && assets[i] == a;
        assert Records(assets)[i].key == key && x in Records(assets)[i].items;
      }
    }
  }

  /** A key's list data is kept exactly when the items of each of its dropped records are in a kept one. */
  lemma KeepsListDataExactly(batches: seq<seq<TaskResult>>, threshold: nat, t: TypeKey, key: string)
    ensures var kept := Kept(batches, threshold, t);
      ListData(kept, key) == ListData(Inputs(batches), key)
      <==> forall a | a in Inputs(batches) && a.key == key && a !in kept :: Items(a.field) <= ListData(kept, key)
  {
    hide Kept, Inputs, Items;
    KeptIsInput(batches, threshold, t);
    var kept, all := Kept(batches, threshold, t), Inputs(batches);
    forall a | a in all && a.key == key && ListData(kept, key) == ListData(all, key)
      ensures Items(a.field) <= ListData(kept, key)
    {
      assert forall x | x in Items(a.field) :: x in ListData(all, key);
    }
    if forall a | a in all && a.key == key && a !in kept :: Items(a.field) <= ListData(kept, key) {
      forall x | x in ListData(all, key) ensures x in ListData(kept, key) {
        var a :| a in all && a.key == key && x in Items(a.field);
        assert a in kept ==> x in ListData(kept, key);
      }
    }
  }

  /** The printed form shows the whole record. */
  ghost predicate PrintsRecord(assets: seq<Asset>)
    reads assets
  {
    forall a, b | a in assets && b in assets && a.text == b.text :: a.Rec() == b.Rec()
  }

  /** Every text has a kept asset. */
  lemma TextIsKept(batches: seq<seq<TaskResult>>, threshold: nat, t: TypeKey, a: Asset)
    requires t.Member? && a in Inputs(batches)
    ensures exists b :: b in Kept(batches, threshold, t) && b.text == a.text
  {
    hide Kept, Inputs, FirstKeys;
    var kept, all := Kept(batches, threshold, t), Inputs(batches);
    NoTextIsLost(batches, threshold, t);
    FirstKeysMembers(Idents(kept, t));
    FirstKeysMembers(Idents(all, t));
    var i :| 0 <= i < |all| && all[i] == a;
    assert Idents(all, t)[i] == a.text;
    assert a.text in FirstKeys(Idents(kept, t));
    assert a.text in Idents(kept, t);
    var j :| 0 <= j < |kept| && Idents(kept, t)[j] == a.text;
    assert kept[j] in kept;
  }

  /** The list has a record equal to that of the asset. */
  ghost predicate HasEqual(list: seq<Asset>, a: Asset)
    reads list, a
  {
    exists b :: b in list && b.Rec() == a.Rec()
  }

  /** If assets print whole, every record dropped has an equal one that is kept: no list data is lost for any key. */
  lemma PrintedLosesNothing(batches: seq<seq<TaskResult>>, threshold: nat, t: TypeKey)
    requires t.Member? && PrintsRecord(Inputs(batches))
    ensures forall a | a in Inputs(batches) :: HasEqual(Kept(batches, threshold, t), a)
    ensures forall key :: ListData(Kept(batches, threshold, t), key) == ListData(Inputs(batches), key)
  {
    hide Kept, Inputs, Items, ListData, HasEqual, PrintsRecord;
    var kept, all := Kept(batches, threshold, t), Inputs(batches);
    KeptIsInput(batches, threshold, t);
    forall a | a in all ensures HasEqual(kept, a) {
      TextIsKept(batches, threshold, t, a);
      var b :| b in kept && b.text == a.text;
      EqualWhenPrinted(all, kept, a, b);
    }
    forall key ensures ListData(kept, key) == ListData(all, key) {
      SameListData(kept, all, key);
    }
  }

  lemma EqualWhenPrinted(all: seq<Asset>, kept: seq<Asset>, a: Asset, b: Asset)
    requires PrintsRecord(all) && a in all && b in all && b in kept && b.text == a.text
    ensures HasEqual(kept, a)
  {
    assert b.Rec() == a.Rec();
  }

  lemma SameListData(kept: seq<Asset>, all: seq<Asset>, key: string)
    requires forall a | a in kept :: a in all
    requires forall a | a in all :: HasEqual(kept, a)
    ensures ListData(kept, key) == ListData(all, key)
  {
    hide Items, HasEqual, ListData;
    forall x ensures x in ListData(kept, key) <==> x in ListData(all, key) {
      InListData(kept, key, x);
      InListData(all, key, x);
      if a :| a in all && a.key == key && x in Items(a.field) {
        EqualHasItem(kept, a, key, x);
      }
    }
  }

  lemma InListData(assets: seq<Asset>, key: string, x: string)
    ensures x in ListData(assets, key) <==> exists a :: a in assets && a.key == key && x in Items(a.field)
  {
    hide Items;
  }

  lemma EqualHasItem(kept: seq<Asset>, a: Asset, key: string, x: string)
    requires HasEqual(kept, a) && a.key == key && x in Items(a.field)
    ensures exists b :: b in kept && b.key == key && x in Items(b.field)
  {
    hide Items;
    var b :| b in kept && b.Rec() == a.Rec();
    assert b.key == key && x in Items(b.field);
  }

  // ----- the inputs that fail

  /** Nothing is merged for a member: the keys are first occurrences exactly when no key repeats. */
  lemma UnmergedKeysExactly(results: seq<TaskResult>)
    ensures Keys(Input(results)) == FirstKeys(Keys(Input(results))) <==> AllFresh(Keys(Input(results)), [])
  {
    hide FirstKeys;
    FirstKeysMembers(Keys(Input(results)));
    if AllFresh(Keys(Input(results)), []) {
      DistinctStays(Keys(Input(results)));
    }
  }

  lemma NothingIn()
    ensures Input([]) == [] && FirstKeys([]) == []
  {
  }

  /** Two results with one record each of the same name give that name twice. */
  lemma RepeatStays(a: Asset, b: Asset)
    requires a.key == b.key
    ensures var results := [TaskResult(true, true, 1, Some([a])), TaskResult(true, true, 1, Some([b]))];
      Keys(Input(results)) == [a.key, a.key] && FirstKeys(Keys(Input(results))) == [a.key]
  {
    hide FirstKeys, Input, Keys;
    var r1, r2 := TaskResult(true, true, 1, Some([a])), TaskResult(true, true, 1, Some([b]));
    assert Input([]) == [] && FirstKeys([]) == [] by { NothingIn(); }
    InputStep([], r1);
    InputStep([r1], r2);
    assert [] + [r1] == [r1] && [r1] + [r2] == [r1, r2];
    assert Input([r1, r2]) == [] + [a] + [b];
    KeysStep([], a);
    KeysStep([] + [a], b);
    assert Keys([]) == [] by { assert |Keys([])| == 0; }
    FirstKeysStep([], a.key);
    FirstKeysStep([] + [a.key], a.key);
  }

  lemma OneBatch(r: TaskResult, cfg: Config)
    requires Counts(r)
    ensures Batches([r], cfg) == [] + [[r]]
  {
    hide IsDue;
    assert CutAll([], cfg) == Cut([], []);
    assert [r][..0] == [] && [] + [r] == [r];
  }

  lemma OneInput(r: TaskResult)
    ensures Input([r]) == Own(r) && Inputs([]) == []
  {
    InputStep([], r);
    assert [] + [r] == [r];
  }

  /** A member's long list that prints an asset twice comes out shorter when streamed. */
  lemma LongRepeatIsDropped(r: TaskResult, cfg: Config, t: TypeKey)
    requires t.Member? && Counts(r) && |Own(r)| > cfg.largeListThreshold && !AllFresh(Idents(Own(r), t), [])
    ensures |Kept(Batches([r], cfg), cfg.largeListThreshold, t)| < |Input([r])|
  {
    var threshold := cfg.largeListThreshold;
    OneInput(r);
    assert Idents([], t) == [] by { assert |Idents([], t)| == 0; }
    hide Kept, Idents, AllFresh, Batches, Inputs, Input, Own, DropsNothing;
    OneBatch(r, cfg);
    BatchesHoldInput([r], cfg);
    DropsNothingStep([], [r], threshold, t);
    KeepsAllExactly(Batches([r], cfg), threshold, t);
  }
}
