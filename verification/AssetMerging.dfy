/**
 * Merging the assets of task results (`task_components.py`), for one type key; keys do not interact.
 * Assets are objects that merging updates in place. Every parsed record is an object of its own.
 */
module AssetMerging {
  import opened Text

  // ----- first occurrences

  /** Each key once, in the order of first occurrence. */
  function FirstKeys(keys: seq<string>): seq<string>
  {
    if keys == [] then [] else
    var init, last := keys[..|keys| - 1], keys[|keys| - 1];
    if last in init then FirstKeys(init) else FirstKeys(init) + [last]
  }

  function Without(keys: seq<string>, drop: seq<string>): seq<string>
  {
    if keys == [] then [] else
    var init, last := Without(keys[..|keys| - 1], drop), keys[|keys| - 1];
    if last in drop then init else init + [last]
  }

  lemma FirstKeysStep(keys: seq<string>, k: string)
    ensures FirstKeys(keys + [k]) == if k in keys then FirstKeys(keys) else FirstKeys(keys) + [k]
  {
    assert (keys + [k])[..|keys|] == keys;
  }

  lemma WithoutStep(keys: seq<string>, k: string, drop: seq<string>)
    ensures Without(keys + [k], drop) == if k in drop then Without(keys, drop) else Without(keys, drop) + [k]
  {
    assert (keys + [k])[..|keys|] == keys;
  }

  lemma {:induction false} FirstKeysMembers(keys: seq<string>)
    ensures forall k :: k in FirstKeys(keys) <==> k in keys
    ensures forall i, j | 0 <= i < j < |FirstKeys(keys)| :: FirstKeys(keys)[i] != FirstKeys(keys)[j]
  {
    if keys != [] {
      var init, last := keys[..|keys| - 1], keys[|keys| - 1];
      FirstKeysMembers(init);
      assert keys == init + [last];
    }
  }

  lemma SplitLast(b: seq<string>)
    requires b != []
    ensures b == b[..|b| - 1] + [b[|b| - 1]]
  {
  }

  /** What follows `a` adds its first occurrences that `a` does not have; repeats inside it do not matter. */
  lemma {:induction false} FirstKeysAppend(a: seq<string>, b: seq<string>)
    ensures FirstKeys(a + b) == FirstKeys(a) + Without(FirstKeys(b), a)
  {
    if b == [] {
      assert a + b == a;
    } else {
      SplitLast(b);
      FirstKeysAppend(a, b[..|b| - 1]);
      OneMoreKey(a, b[..|b| - 1], b[|b| - 1]);
    }
  }

  lemma OneMoreKey(a: seq<string>, init: seq<string>, last: string)
    requires FirstKeys(a + init) == FirstKeys(a) + Without(FirstKeys(init), a)
    ensures FirstKeys(a + (init + [last])) == FirstKeys(a) + Without(FirstKeys(init + [last]), a)
  {
    hide FirstKeys, Without;
    FirstKeysStep(a + init, last);
    FirstKeysStep(init, last);
    WithoutStep(FirstKeys(init), last, a);
    WithoutDropped(init, a, last);
    assert a + (init + [last]) == (a + init) + [last];
  }

  /** A key that is already there, or is dropped, adds nothing. */
  lemma WithoutDropped(init: seq<string>, a: seq<string>, last: string)
    ensures last in a + init <==> last in a || last in init
  {
  }

  lemma {:induction false} DistinctStays(keys: seq<string>)
    requires forall i, j | 0 <= i < j < |keys| :: keys[i] != keys[j]
    ensures FirstKeys(keys) == keys
  {
    if keys != [] {
      DistinctStays(keys[..|keys| - 1]);
    }
  }

  lemma FirstKeysTwice(a: seq<string>, b: seq<string>)
    ensures FirstKeys(FirstKeys(a)) == FirstKeys(a)
    ensures FirstKeys(FirstKeys(a) + b) == FirstKeys(a + b)
  {
    FirstKeysMembers(a);
    DistinctStays(FirstKeys(a));
    FirstKeysAppend(FirstKeys(a), b);
    FirstKeysAppend(a, b);
    SameDrop(FirstKeys(b), FirstKeys(a), a);
  }

  lemma {:induction false} SameDrop(keys: seq<string>, a: seq<string>, b: seq<string>)
    requires forall k :: k in a <==> k in b
    ensures Without(keys, a) == Without(keys, b)
  {
    if keys != [] {
      SameDrop(keys[..|keys| - 1], a, b);
    }
  }

  // ----- records, and what merging them means

  /** A list-valued field: absent, a bare string, or a list. */
  datatype ListField = Missing | One(text: string) | Many(items: seq<string>)

  predicate Truthy(f: ListField)
  {
    match f case Missing => false case One(text) => text != "" case Many(items) => items != []
  }

  function Items(f: ListField): set<string>
  {
    match f
    case Missing => {}
    case One(text) => if text == "" then {} else {text}
    case Many(items) => set x | x in items
  }

  /** The list field (ip, ptr or techs) and two plain fields that later non-empty values overwrite. */
  datatype Record = Record(key: string, items: set<string>, first: Option<string>, second: Option<string>)

  function Later(kept: Option<string>, given: Option<string>): Option<string>
  {
    if given.Some? then given else kept
  }

  function Merge(a: Record, b: Record): Record
  {
    Record(a.key, a.items + b.items, Later(a.first, b.first), Later(a.second, b.second))
  }

  predicate HasKey(recs: seq<Record>, key: string)
  {
    exists i :: 0 <= i < |recs| && recs[i].key == key
  }

  /** All records with the key, merged in order. */
  function Combined(recs: seq<Record>, key: string): Record
    requires HasKey(recs, key)
    decreases |recs|
  {
    var init, last := recs[..|recs| - 1], recs[|recs| - 1];
    if last.key != key then
      assert HasKey(init, key) by { HasKeyStep(init, last, key); assert recs == init + [last]; }
      Combined(init, key)
    else if HasKey(init, key) then Merge(Combined(init, key), last) else last
  }

  lemma HasKeyStep(init: seq<Record>, last: Record, key: string)
    ensures HasKey(init + [last], key) <==> HasKey(init, key) || last.key == key
  {
    var recs := init + [last];
    if HasKey(init, key) {
      var i :| 0 <= i < |init| && init[i].key == key;
      assert recs[i] == init[i];
    }
    assert recs[|init|] == last;
  }

  lemma CombinedStep(init: seq<Record>, last: Record, key: string)
    requires HasKey(init + [last], key)
    ensures HasKey(init, key) || last.key == key
    ensures Combined(init + [last], key)
         == if last.key != key then Combined(init, key)
            else if HasKey(init, key) then Merge(Combined(init, key), last) else last
  {
    HasKeyStep(init, last, key);
    assert (init + [last])[..|init|] == init;
  }

  /** No list data is lost: the combined items are the union over all records with the key. */
  lemma {:induction false} CombinedIsUnion(recs: seq<Record>, key: string)
    requires HasKey(recs, key)
    ensures Combined(recs, key).key == key
    ensures forall x ::
      x in Combined(recs, key).items <==> exists i :: 0 <= i < |recs| && recs[i].key == key && x in recs[i].items
    decreases |recs|
  {
    var init, last := recs[..|recs| - 1], recs[|recs| - 1];
    assert recs == init + [last];
    CombinedStep(init, last, key);
    if HasKey(init, key) {
      CombinedIsUnion(init, key);
    }
    forall x ensures x in Combined(recs, key).items <==> exists i :: 0 <= i < |recs| && recs[i].key == key && x in recs[i].items {
      if x in Combined(recs, key).items {
        if last.key == key && x in last.items {
          assert recs[|init|] == last;
        } else {
          var i :| 0 <= i < |init| && init[i].key == key && x in init[i].items;
          assert recs[i] == init[i];
        }
      }
      if i :| 0 <= i < |recs| && recs[i].key == key && x in recs[i].items {
        if i < |init| {
          assert init[i] == recs[i];
          assert HasKey(init, key);
        }
      }
    }
  }

  /** The value of a plain field in the last record of the key that has one. */
  ghost predicate IsLatest(recs: seq<Record>, key: string, field: Record -> Option<string>, value: Option<string>)
  {
    match value
    case None => forall i | 0 <= i < |recs| && recs[i].key == key :: field(recs[i]).None?
    case Some(_) => exists i :: IsLastWith(recs, key, field, i) && field(recs[i]) == value
  }

  ghost predicate IsLastWith(recs: seq<Record>, key: string, field: Record -> Option<string>, i: int)
  {
    0 <= i < |recs| && recs[i].key == key && field(recs[i]).Some?
    && forall j | i < j < |recs| && recs[j].key == key :: field(recs[j]).None?
  }

  lemma LatestStep(init: seq<Record>, last: Record, key: string, field: Record -> Option<string>, value: Option<string>)
    requires IsLatest(init, key, field, value)
    ensures IsLatest(init + [last], key, field, if last.key == key then Later(value, field(last)) else value)
  {
    var recs := init + [last];
    assert recs[|init|] == last && forall i | 0 <= i < |init| :: recs[i] == init[i];
    if last.key == key && field(last).Some? {
      assert IsLastWith(recs, key, field, |init|);
    } else if value.Some? {
      var i :| IsLastWith(init, key, field, i) && field(init[i]) == value;
      assert IsLastWith(recs, key, field, i);
    }
  }

  lemma NoneIsLatest(recs: seq<Record>, key: string, field: Record -> Option<string>)
    requires !HasKey(recs, key)
    ensures IsLatest(recs, key, field, None)
  {
  }

  /** A plain field of the merged record is that of the last record of the key that has one. */
  lemma {:induction false} CombinedIsLatest(recs: seq<Record>, key: string)
    requires HasKey(recs, key)
    ensures IsLatest(recs, key, (r: Record) => r.first, Combined(recs, key).first)
    ensures IsLatest(recs, key, (r: Record) => r.second, Combined(recs, key).second)
    decreases |recs|
  {
    hide IsLatest;
    var init, last := recs[..|recs| - 1], recs[|recs| - 1];
    hide HasKey;
    assert recs == init + [last];
    CombinedStep(init, last, key);
    var first, second := (r: Record) => r.first, (r: Record) => r.second;
    if HasKey(init, key) {
      CombinedIsLatest(init, key);
      LatestStep(init, last, key, first, Combined(init, key).first);
      LatestStep(init, last, key, second, Combined(init, key).second);
    } else {
      NoneIsLatest(init, key, first);
      NoneIsLatest(init, key, second);
      LatestStep(init, last, key, first, None);
      LatestStep(init, last, key, second, None);
    }
  }

  // ----- the objects

  /** An asset: the field it is merged by, its printed form before any merge, and the fields merging updates. */
  class Asset {
    const key: string
    const text: string
    var field: ListField
    var first: Option<string>
    var second: Option<string>

    constructor (key: string, text: string, field: ListField, first: Option<string>, second: Option<string>)
      ensures this.key == key && this.text == text
      ensures this.field == field && this.first == first && this.second == second
    {
      this.key, this.text, this.field, this.first, this.second := key, text, field, first, second;
    }

    function Rec(): Record
      reads this
    {
      Record(key, Items(field), first, second)
    }
  }

  function Keys(assets: seq<Asset>): (keys: seq<string>)
    ensures |keys| == |assets|
  {
    seq(|assets|, i requires 0 <= i < |assets| => assets[i].key)
  }

  ghost function Records(assets: seq<Asset>): (recs: seq<Record>)
    reads assets
    ensures |recs| == |assets| && forall i | 0 <= i < |assets| :: recs[i] == assets[i].Rec()
  {
    seq(|assets|, i requires 0 <= i < |assets| reads assets => assets[i].Rec())
  }

  ghost predicate Separate(assets: seq<Asset>)
  {
    forall i, j | 0 <= i < j < |assets| :: assets[i] != assets[j]
  }

  /** The union of two list fields; a bare string counts as a list of one. */
  method MergeListField(existing: ListField, given: ListField) returns (r: ListField)
    requires Truthy(given)
    ensures Items(r) == Items(existing) + Items(given)
  {
    var news := match given case Missing => [] case One(text) => [text] case Many(items) => items;
    var olds := match existing case Missing => [] case One(text) => (if text == "" then [] else [text]) case Many(items) => items;
    if olds == [] {
      r := Many(news);
    } else {
      var distinct: seq<string> := [];
      var todo: set<string> := (set x | x in olds) + (set x | x in news);
      ghost var all := todo;
      while todo != {}
        invariant todo <= all && forall x :: x in distinct <==> x in all - todo
      {
        var x :| x in todo;
        distinct, todo := distinct + [x], todo - {x};
      }
      r := Many(distinct);
    }
  }

  /** Merges one record into an existing asset, in place. */
  method Absorb(existing: Asset, given: Asset)
    requires existing != given && existing.key == given.key
    modifies existing
    ensures existing.Rec() == Merge(old(existing.Rec()), given.Rec())
  {
    if Truthy(given.field) {
      existing.field := MergeListField(existing.field, given.field);
    }
    if given.first.Some? {
      existing.first := given.first;
    }
    if given.second.Some? {
      existing.second := given.second;
    }
  }

  /** Every merged asset is one of the inputs and holds the combination of all input records with its key. */
  ghost predicate Holds(r: seq<Asset>, recs: seq<Record>)
    reads r
  {
    forall a | a in r :: HasKey(recs, a.key) && a.Rec() == Combined(recs, a.key)
  }

  ghost predicate DistinctKeys(r: seq<Asset>)
  {
    forall i, j | 0 <= i < j < |r| :: r[i].key != r[j].key
  }

  ghost predicate IsLookup(lookup: map<string, Asset>, r: seq<Asset>)
  {
    (forall a | a in r :: a.key in lookup && lookup[a.key] == a)
    && forall k | k in lookup :: lookup[k] in r && lookup[k].key == k
  }

  method BuildLookup(r: seq<Asset>) returns (lookup: map<string, Asset>)
    requires DistinctKeys(r)
    ensures IsLookup(lookup, r)
  {
    lookup := map[];
    for i := 0 to |r|
      invariant IsLookup(lookup, r[..i])
    {
      assert r[..i + 1] == r[..i] + [r[i]];
      lookup := lookup[r[i].key := r[i]];
    }
    assert r[..|r|] == r;
  }

  /** Every key of the records has its asset. */
  ghost predicate Covers(r: seq<Asset>, recs: seq<Record>)
  {
    forall k | HasKey(recs, k) :: exists a :: a in r && a.key == k
  }

  lemma LookupIsKeys(lookup: map<string, Asset>, r: seq<Asset>, key: string)
    requires IsLookup(lookup, r)
    ensures key in lookup <==> exists a :: a in r && a.key == key
  {
  }

  /** The assets still hold their original records. */
  ghost predicate AreUntouched(assets: seq<Asset>, recs: seq<Record>)
    reads assets
  {
    |assets| == |recs| && forall j | 0 <= j < |assets| :: assets[j].Rec() == recs[j]
  }

  /** One given asset: an existing one with its key absorbs it in place, or it is appended. */
  method MergeOne(r: seq<Asset>, lookup: map<string, Asset>, a: Asset, ghost recs: seq<Record>,
                  ghost rest: seq<Asset>, ghost restRecs: seq<Record>)
    returns (r': seq<Asset>, lookup': map<string, Asset>)
    requires DistinctKeys(r) && IsLookup(lookup, r) && a !in r && Holds(r, recs) && Covers(r, recs)
    requires AreUntouched(rest, restRecs) && forall b | b in rest :: b !in r
    modifies r
    ensures AreUntouched(rest, restRecs)
    ensures DistinctKeys(r') && IsLookup(lookup', r')
    ensures r' == if a.key in lookup then r else r + [a]
    ensures Holds(r', recs + [old(a.Rec())]) && Covers(r', recs + [old(a.Rec())])
  {
    hide HasKey, Combined, Items;
    ghost var last := a.Rec();
    forall k ensures HasKey(recs + [last], k) <==> HasKey(recs, k) || last.key == k {
      HasKeyStep(recs, last, k);
    }
    LookupIsKeys(lookup, r, a.key);
    if a.key in lookup {
      r', lookup' := r, lookup;
      Absorb(lookup[a.key], a);
    } else {
      r', lookup' := r + [a], lookup[a.key := a];
    }
    forall b | b in r' ensures b.Rec() == Combined(recs + [last], b.key) {
      CombinedStep(recs, last, b.key);
    }
  }

  lemma AllUntouched(assets: seq<Asset>)
    ensures AreUntouched(assets, Records(assets))
  {
  }

  lemma NextUntouched(given: seq<Asset>, recs: seq<Record>, i: nat)
    requires i < |given| == |recs| && AreUntouched(given[i..], recs[i..])
    ensures given[i].Rec() == recs[i] && AreUntouched(given[i + 1..], recs[i + 1..])
  {
    hide Asset.Rec;
    assert given[i..][0] == given[i] && recs[i..][0] == recs[i];
    assert given[i..][1..] == given[i + 1..] && recs[i..][1..] == recs[i + 1..];
  }

  /** The standard merge of one type, given the records already merged into the existing assets. */
  method MergeAssets(existing: seq<Asset>, given: seq<Asset>, ghost past: seq<Record>) returns (r: seq<Asset>)
    requires DistinctKeys(existing) && Holds(existing, past) && Covers(existing, past)
    requires Separate(given) && forall a | a in existing :: a !in given
    modifies existing, given
    ensures DistinctKeys(r) && forall a | a in r :: a in existing || a in given
    ensures Keys(r) == FirstKeys(Keys(existing) + Keys(given))
    ensures Holds(r, past + old(Records(given))) && Covers(r, past + old(Records(given)))
  {
    hide FirstKeys, Holds, Covers, DistinctKeys, IsLookup, Separate, Asset.Rec, Keys, Records, HasKey, Combined, AreUntouched,
         AreFrom;
    var lookup := BuildLookup(existing);
    r := existing;
    ghost var recs := Records(given);
    StartKeys(existing, given);
    AllUntouched(given);
    StartFrom(existing, given);
    Whole(recs);
    Whole(given);
    assert past + recs[..0] == past;
    for i := 0 to |given|
      invariant DistinctKeys(r) && IsLookup(lookup, r) && AreFrom(r, existing, given[..i])
      invariant Keys(r) == FirstKeys(Keys(existing) + Keys(given)[..i])
      invariant Holds(r, past + recs[..i]) && Covers(r, past + recs[..i])
      invariant AreUntouched(given[i..], recs[i..])
    {
      var a := given[i];
      NextUntouched(given, recs, i);
      OneMore(past, recs, i);
      NextKeys(r, existing, given, i, lookup);
      NextFrom(r, existing, given, i);
      r, lookup := MergeOne(r, lookup, a, past + recs[..i], given[i + 1..], recs[i + 1..]);
    }
    Whole(recs);
    Whole(Keys(given));
    Whole(given);
    AllFrom(r, existing, given);
  }

  lemma Whole<T>(s: seq<T>)
    ensures s[..|s|] == s && s[0..] == s
  {
  }

  lemma OneMore<T>(a: seq<T>, s: seq<T>, i: nat)
    requires i < |s|
    ensures a + s[..i + 1] == a + s[..i] + [s[i]]
  {
  }

  /** The keys after the next given asset. */
  lemma NextKeys(r: seq<Asset>, existing: seq<Asset>, given: seq<Asset>, i: nat, lookup: map<string, Asset>)
    requires i < |given| && IsLookup(lookup, r) && Keys(r) == FirstKeys(Keys(existing) + Keys(given)[..i])
    ensures Keys(if given[i].key in lookup then r else r + [given[i]]) == FirstKeys(Keys(existing) + Keys(given)[..i + 1])
  {
    hide FirstKeys, Keys, IsLookup;
    NextKey(Keys(existing) + Keys(given)[..i], Keys(given), Keys(existing), i);
    LookupKeys(lookup, r, given[i].key);
    KeysStep(r, given[i]);
    KeyAt(given, i);
  }

  /** Every asset of the list comes from one of the two. */
  ghost predicate AreFrom(r: seq<Asset>, existing: seq<Asset>, given: seq<Asset>)
  {
    forall a | a in r :: a in existing || a in given
  }

  lemma StartFrom(existing: seq<Asset>, given: seq<Asset>)
    ensures AreFrom(existing, existing, given[..0])
  {
  }

  lemma AllFrom(r: seq<Asset>, existing: seq<Asset>, given: seq<Asset>)
    requires AreFrom(r, existing, given)
    ensures forall a | a in r :: a in existing || a in given
  {
  }

  /** The next asset and those after it are not in the list; all in it are existing or given. */
  lemma NextFrom(r: seq<Asset>, existing: seq<Asset>, given: seq<Asset>, i: nat)
    requires i < |given| && AreFrom(r, existing, given[..i]) && Separate(given) && forall a | a in existing :: a !in given
    ensures given[i] !in r && forall a | a in given[i + 1..] :: a !in r
    ensures forall k | 0 <= k < |r| :: r[k] in existing || r[k] in given
    ensures AreFrom(r, existing, given[..i + 1]) && AreFrom(r + [given[i]], existing, given[..i + 1])
  {
    LaterOnes(given, i);
    hide Separate;
  }

  lemma KeyAt(assets: seq<Asset>, i: nat)
    requires i < |assets|
    ensures Keys(assets)[i] == assets[i].key
  {
  }

  lemma LaterOnes(given: seq<Asset>, i: nat)
    requires Separate(given) && i < |given|
    ensures given[i] !in given[..i] && forall a | a in given[i + 1..] :: a !in given[..i] && a in given
    ensures given[..i + 1] == given[..i] + [given[i]] && forall a | a in given[..i + 1] :: a in given
  {
  }

  lemma LookupKeys(lookup: map<string, Asset>, r: seq<Asset>, key: string)
    requires IsLookup(lookup, r)
    ensures key in lookup <==> key in Keys(r)
  {
    KeysMembers(r);
  }

  lemma KeysStep(r: seq<Asset>, a: Asset)
    ensures Keys(r + [a]) == Keys(r) + [a.key]
  {
  }

  lemma StartKeys(existing: seq<Asset>, given: seq<Asset>)
    requires DistinctKeys(existing)
    ensures Keys(existing) == FirstKeys(Keys(existing) + Keys(given)[..0])
  {
    DistinctStays(Keys(existing));
    assert Keys(existing) + Keys(given)[..0] == Keys(existing);
  }

  lemma NextKey(before: seq<string>, given: seq<string>, existing: seq<string>, i: nat)
    requires i < |given| && before == existing + given[..i]
    ensures FirstKeys(existing + given[..i + 1])
         == if given[i] in FirstKeys(before) then FirstKeys(before) else FirstKeys(before) + [given[i]]
  {
    assert existing + given[..i + 1] == before + [given[i]];
    FirstKeysStep(before, given[i]);
    FirstKeysMembers(before);
  }

  lemma KeysMembers(r: seq<Asset>)
    ensures forall k :: k in Keys(r) <==> exists a :: a in r && a.key == k
  {
    forall k | k in Keys(r) ensures exists a :: a in r && a.key == k {
      var i :| 0 <= i < |r| && Keys(r)[i] == k;
      assert r[i] in r;
    }
    forall a | a in r ensures a.key in Keys(r) {
      var i :| 0 <= i < |r| && r[i] == a;
      assert Keys(r)[i] == a.key;
    }
  }

  // ----- merging large lists

  /** A key of the dictionary of parsed assets: a plain string, or a member of the plain enumeration of types. */
  datatype TypeKey = Name(text: string) | Member(value: string)

  /** The types the dispatch merges by a field. A member of a plain enumeration is equal to no string. */
  predicate IsKeyed(t: TypeKey)
  {
    t in [Name("subdomain"), Name("ip"), Name("url")]
  }

  /** What tells assets of the type apart: the key field, or else the whole printed asset. */
  function Ident(a: Asset, t: TypeKey): string
  {
    if IsKeyed(t) then a.key else a.text
  }

  function Idents(assets: seq<Asset>, t: TypeKey): (ids: seq<string>)
    ensures |ids| == |assets|
  {
    seq(|assets|, i requires 0 <= i < |assets| => Ident(assets[i], t))
  }

  lemma IdentsStep(assets: seq<Asset>, a: Asset, t: TypeKey)
    ensures Idents(assets + [a], t) == Idents(assets, t) + [Ident(a, t)]
  {
  }

  lemma IdentsConcat(a: seq<Asset>, b: seq<Asset>, t: TypeKey)
    ensures Idents(a + b, t) == Idents(a, t) + Idents(b, t)
  {
  }

  lemma IdentsPrefix(assets: seq<Asset>, i: nat, t: TypeKey)
    requires i <= |assets|
    ensures Idents(assets[..i], t) == Idents(assets, t)[..i]
  {
  }

  /** The given assets whose identity is neither seen nor that of an earlier one. */
  function FreshOnes(given: seq<Asset>, seen: seq<string>, t: TypeKey): seq<Asset>
  {
    if given == [] then [] else
    var init, last := given[..|given| - 1], given[|given| - 1];
    if Ident(last, t) in seen || Ident(last, t) in Idents(init, t) then FreshOnes(init, seen, t)
    else FreshOnes(init, seen, t) + [last]
  }

  lemma FreshStep(given: seq<Asset>, a: Asset, seen: seq<string>, t: TypeKey)
    ensures FreshOnes(given + [a], seen, t)
         == if Ident(a, t) in seen || Ident(a, t) in Idents(given, t) then FreshOnes(given, seen, t)
            else FreshOnes(given, seen, t) + [a]
  {
    assert (given + [a])[..|given|] == given;
  }

  /** The fresh ones have the first occurrences of all identities not seen. */
  lemma {:induction false} FreshIdents(given: seq<Asset>, seen: seq<string>, t: TypeKey)
    ensures Idents(FreshOnes(given, seen, t), t) == Without(FirstKeys(Idents(given, t)), seen)
  {
    if given == [] {
      assert Idents(given, t) == [] && FirstKeys([]) == [] && Without([], seen) == [];
    } else {
      hide Ident, FirstKeys, Without, Idents;
      var init, last := given[..|given| - 1], given[|given| - 1];
      FreshIdents(init, seen, t);
      assert given == init + [last];
      FreshStep(init, last, seen, t);
      IdentsStep(init, last, t);
      IdentsStep(FreshOnes(init, seen, t), last, t);
      FirstKeysStep(Idents(init, t), Ident(last, t));
      WithoutStep(FirstKeys(Idents(init, t)), Ident(last, t), seen);
    }
  }

  ghost predicate AllFresh(ids: seq<string>, seen: seq<string>)
  {
    (forall i, j | 0 <= i < j < |ids| :: ids[i] != ids[j]) && forall i | 0 <= i < |ids| :: ids[i] !in seen
  }

  lemma AllFreshStep(ids: seq<string>, k: string, seen: seq<string>)
    ensures AllFresh(ids + [k], seen) <==> AllFresh(ids, seen) && k !in ids && k !in seen
  {
    var all := ids + [k];
    if AllFresh(all, seen) {
      assert all[|ids|] == k;
      forall i | 0 <= i < |ids| ensures ids[i] != k && ids[i] !in seen {
        assert all[i] == ids[i];
      }
      forall i, j | 0 <= i < j < |ids| ensures ids[i] != ids[j] {
        assert all[i] == ids[i] && all[j] == ids[j];
      }
    }
  }

  /** Nothing is dropped exactly when all identities are fresh; otherwise the list gets shorter. */
  lemma {:induction false} FreshKeepsAll(given: seq<Asset>, seen: seq<string>, t: TypeKey)
    ensures AllFresh(Idents(given, t), seen) ==> FreshOnes(given, seen, t) == given
    ensures !AllFresh(Idents(given, t), seen) ==> |FreshOnes(given, seen, t)| < |given|
    ensures |FreshOnes(given, seen, t)| <= |given| && forall a | a in FreshOnes(given, seen, t) :: a in given
  {
    if given == [] {
      NoneFresh(seen, t);
    } else {
      hide Ident, Idents, FreshOnes, AllFresh;
      var init, last := given[..|given| - 1], given[|given| - 1];
      FreshKeepsAll(init, seen, t);
      assert given == init + [last];
      IdentsStep(init, last, t);
      FreshStep(init, last, seen, t);
      AllFreshStep(Idents(init, t), Ident(last, t), seen);
    }
  }

  /** The generator merge: keeps existing assets as they are and lets new identities through once. */
  method MergeLarge(existing: seq<Asset>, given: seq<Asset>, t: TypeKey) returns (r: seq<Asset>)
    ensures r == existing + FreshOnes(given, Idents(existing, t), t)
  {
    hide Ident, FreshOnes, Idents;
    var ids: set<string> := {};
    r := [];
    for i := 0 to |existing|
      invariant r == existing[..i] && forall k :: k in ids <==> k in Idents(existing, t)[..i]
    {
      NextIdent(existing, i, t);
      ids, r := ids + {Ident(existing[i], t)}, r + [existing[i]];
    }
    Whole(existing);
    Whole(Idents(existing, t));
    assert Idents(existing, t)[..|existing|] == Idents(existing, t);
    assert FreshOnes(given[..0], Idents(existing, t), t) == [] by { NoneFresh(Idents(existing, t), t); }
    for i := 0 to |given|
      invariant r == existing + FreshOnes(given[..i], Idents(existing, t), t)
      invariant forall k :: k in ids <==> k in Idents(existing, t) || k in Idents(given, t)[..i]
    {
      var a := given[i];
      NextIdent(given, i, t);
      FreshStep(given[..i], a, Idents(existing, t), t);
      IdentsPrefix(given, i, t);
      if Ident(a, t) !in ids {
        ids, r := ids + {Ident(a, t)}, r + [a];
      }
    }
    Whole(given);
  }

  lemma NoneFresh(seen: seq<string>, t: TypeKey)
    ensures FreshOnes([], seen, t) == []
  {
  }

  lemma NextIdent(assets: seq<Asset>, i: nat, t: TypeKey)
    requires i < |assets|
    ensures assets[..i + 1] == assets[..i] + [assets[i]]
    ensures Idents(assets, t)[..i + 1] == Idents(assets, t)[..i] + [Ident(assets[i], t)]
  {
  }

  /** No identity is lost or reordered, and repeats that were there stay: the first occurrences are those of all. */
  lemma NoIdentIsLost(existing: seq<Asset>, given: seq<Asset>, t: TypeKey)
    ensures var r := existing + FreshOnes(given, Idents(existing, t), t);
      FirstKeys(Idents(r, t)) == FirstKeys(Idents(existing + given, t))
      && (FirstKeys(Idents(existing, t)) == Idents(existing, t) ==> Idents(r, t) == FirstKeys(Idents(existing + given, t)))
  {
    hide FirstKeys, Without, Ident, FreshOnes, Idents;
    var seen := Idents(existing, t);
    var added := Without(FirstKeys(Idents(given, t)), seen);
    FreshIdents(given, seen, t);
    IdentsConcat(existing, FreshOnes(given, seen, t), t);
    IdentsConcat(existing, given, t);
    FirstKeysAppend(seen, Idents(given, t));
    FirstKeysAppend(seen, added);
    FreshStays(Idents(given, t), seen);
  }

  lemma FreshStays(given: seq<string>, existing: seq<string>)
    ensures FirstKeys(Without(FirstKeys(given), existing)) == Without(FirstKeys(given), existing)
    ensures Without(Without(FirstKeys(given), existing), existing) == Without(FirstKeys(given), existing)
  {
    FirstKeysMembers(given);
    WithoutMembers(FirstKeys(given), existing);
    DistinctStays(Without(FirstKeys(given), existing));
    WithoutNone(Without(FirstKeys(given), existing), existing);
  }

  lemma {:induction false} WithoutMembers(keys: seq<string>, drop: seq<string>)
    ensures forall k :: k in Without(keys, drop) <==> k in keys && k !in drop
    ensures (forall i, j | 0 <= i < j < |keys| :: keys[i] != keys[j]) ==>
      forall i, j | 0 <= i < j < |Without(keys, drop)| :: Without(keys, drop)[i] != Without(keys, drop)[j]
  {
    if keys != [] {
      var init, last := keys[..|keys| - 1], keys[|keys| - 1];
      WithoutMembers(init, drop);
      assert keys == init + [last];
    }
  }

  lemma {:induction false} WithoutNone(keys: seq<string>, drop: seq<string>)
    requires forall k | k in keys :: k !in drop
    ensures Without(keys, drop) == keys
  {
    if keys != [] {
      WithoutNone(keys[..|keys| - 1], drop);
    }
  }
}
