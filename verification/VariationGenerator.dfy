/**
 * Protected domains and the index of their look-alikes (`variation_generator.py`), and the builder loop
 * that fills both (`domain_config_builder.py`). The permutations of a domain are a given list.
 */
module VariationGenerator {
  import opened Text
  import opened DomainLabels

  datatype VariationInfo = VariationInfo(variation: string, protectedDomain: string, fuzzer: string, program: string)

  /** A permutation of a domain: its name and the fuzzer that made it. */
  type Permutation = (string, string)

  function Normal(domain: string): string { Strip(Lower(domain)) }

  // ----- the variation index: the first domain to claim a label keeps it

  /** The label a permutation of `domain` is indexed under, if it is indexed at all. */
  function IndexLabel(domain: string, p: Permutation, ps: Suffixes): Option<string>
  {
    match WithoutPublicSuffix(Normal(p.0), ps)
    case None => None
    case Some(key) =>
      if key == "" || Some(key) == WithoutPublicSuffix(domain, ps) then None else Some(key)
  }

  function AddOne(m: map<string, VariationInfo>, domain: string, program: string, p: Permutation, ps: Suffixes)
    : map<string, VariationInfo>
  {
    match IndexLabel(domain, p, ps)
    case None => m
    case Some(key) => if key in m then m else m[key := VariationInfo(key, domain, p.1, program)]
  }

  function AddAll(m: map<string, VariationInfo>, domain: string, program: string, perms: seq<Permutation>, ps: Suffixes)
    : map<string, VariationInfo>
  {
    if perms == [] then m
    else AddOne(AddAll(m, domain, program, perms[..|perms| - 1], ps), domain, program, perms[|perms| - 1], ps)
  }

  lemma NoPermutations(m: map<string, VariationInfo>, domain: string, program: string, ps: Suffixes)
    ensures AddAll(m, domain, program, [], ps) == m
  {
  }

  lemma NextPermutation(m: map<string, VariationInfo>, domain: string, program: string, perms: seq<Permutation>, i: nat,
                        ps: Suffixes)
    requires i < |perms|
    ensures AddAll(m, domain, program, perms[..i + 1], ps)
         == AddOne(AddAll(m, domain, program, perms[..i], ps), domain, program, perms[i], ps)
  {
    assert perms[..i + 1][..i] == perms[..i];
  }

  /** The `k`-th permutation is the first to claim the label. */
  ghost predicate FirstClaim(domain: string, perms: seq<Permutation>, ps: Suffixes, key: string, k: int)
  {
    0 <= k < |perms| && IndexLabel(domain, perms[k], ps) == Some(key)
    && forall j | 0 <= j < k :: IndexLabel(domain, perms[j], ps) != Some(key)
  }

  /** A label's entry under its key, made by the first permutation that claims the label. */
  ghost predicate EntryOfFirst(entry: VariationInfo, domain: string, program: string, perms: seq<Permutation>, ps: Suffixes,
                               key: string)
  {
    exists k :: FirstClaim(domain, perms, ps, key, k) && entry == VariationInfo(key, domain, perms[k].1, program)
  }

  lemma LaterPermutation(entry: VariationInfo, domain: string, program: string, init: seq<Permutation>, last: Permutation,
                         ps: Suffixes, key: string)
    requires EntryOfFirst(entry, domain, program, init, ps, key)
    ensures EntryOfFirst(entry, domain, program, init + [last], ps, key)
  {
    hide IndexLabel;
    var k :| FirstClaim(domain, init, ps, key, k) && entry == VariationInfo(key, domain, init[k].1, program);
    assert (init + [last])[k] == init[k];
    assert FirstClaim(domain, init + [last], ps, key, k);
  }

  /**
   * First wins: an old entry stays; every label some permutation claims gets an entry; and a new entry
   * comes from the first permutation to claim its label.
   */
  lemma {:induction false} FirstWins(m: map<string, VariationInfo>, domain: string, program: string,
                                     perms: seq<Permutation>, ps: Suffixes, key: string)
    ensures var m' := AddAll(m, domain, program, perms, ps);
      (key in m ==> key in m' && m'[key] == m[key])
      && (forall k | 0 <= k < |perms| && IndexLabel(domain, perms[k], ps) == Some(key) :: key in m')
      && (key in m' && key !in m ==> EntryOfFirst(m'[key], domain, program, perms, ps, key))
  {
    hide IndexLabel, EntryOfFirst;
    if perms != [] {
      var init, last := perms[..|perms| - 1], perms[|perms| - 1];
      assert perms == init + [last];
      FirstWins(m, domain, program, init, ps, key);
      var m1 := AddAll(m, domain, program, init, ps);
      if key !in m {
        if key in m1 {
          LaterPermutation(m1[key], domain, program, init, last, ps, key);
        } else if IndexLabel(domain, last, ps) == Some(key) {
          NewestClaim(domain, program, init, last, ps, key);
        }
      }
    }
  }

  lemma NewestClaim(domain: string, program: string, init: seq<Permutation>, last: Permutation, ps: Suffixes, key: string)
    requires IndexLabel(domain, last, ps) == Some(key)
    requires forall k | 0 <= k < |init| :: IndexLabel(domain, init[k], ps) != Some(key)
    ensures EntryOfFirst(VariationInfo(key, domain, last.1, program), domain, program, init + [last], ps, key)
  {
    hide IndexLabel;
    assert FirstClaim(domain, init + [last], ps, key, |init|);
  }

  // ----- the generator object

  ghost predicate InSome(sets: map<string, set<string>>, d: string)
  {
    exists p :: p in sets && d in sets[p]
  }

  function LabelsBy(m: map<string, VariationInfo>, fuzzer: string): set<string>
  {
    set key | key in m && m[key].fuzzer == fuzzer
  }

  function CountOf(counts: map<string, nat>, fuzzer: string): nat
  {
    if fuzzer in counts then counts[fuzzer] else 0
  }

  class Generator {
    const permutations: string -> seq<Permutation>
    const ps: Suffixes
    var variations: map<string, VariationInfo>
    var protectedDomains: map<string, set<string>>
    var protectedFqdns: set<string>
    var totalVariations: nat
    var byFuzzer: map<string, nat>

    /** The flat set is the union of the programs' sets, and the counters count what is stored. */
    ghost predicate Valid()
      reads this
    {
      (forall d :: d in protectedFqdns <==> InSome(protectedDomains, d))
      && (forall key | key in variations :: variations[key].variation == key)
      && totalVariations == |variations|
      && CountsMatch(variations, byFuzzer)
    }

    /** Every key a protected domain claims is in the index. */
    ghost predicate Indexed()
      reads this
    {
      AllClaimed(protectedDomains, variations, permutations, ps)
    }

    constructor (permutations: string -> seq<Permutation>, ps: Suffixes)
      ensures Valid() && Indexed() && this.permutations == permutations && this.ps == ps
      ensures variations == map[] && protectedDomains == map[] && protectedFqdns == {}
    {
      this.permutations, this.ps := permutations, ps;
      variations, protectedDomains, protectedFqdns, totalVariations, byFuzzer := map[], map[], {}, 0, map[];
      new;
      assert forall f :: LabelsBy(variations, f) == {};
    }

    method AddProtectedDomain(rawDomain: string, program: string) returns (added: nat)
      requires Valid()
      modifies this
      ensures Valid()
      ensures var d := Normal(rawDomain);
        var had := program in old(protectedDomains) && d in old(protectedDomains)[program];
        protectedFqdns == old(protectedFqdns) + {d}
        && protectedDomains == old(protectedDomains)[program := SetAt(old(protectedDomains), program) + {d}]
        && variations == (if had then old(variations) else AddAll(old(variations), d, program, permutations(d), ps))
        && added == |variations| - |old(variations)|
    {
      hide Normal, AddAll, InSome, CountsMatch;
      var d := Normal(rawDomain);
      if program in protectedDomains && d in protectedDomains[program] {
        assert SetAt(protectedDomains, program) + {d} == protectedDomains[program];
        assert protectedDomains[program := protectedDomains[program]] == protectedDomains;
        UnionGrows(protectedDomains, program, d);
        return 0;
      }
      ghost var before := protectedDomains;
      protectedDomains := protectedDomains[program := SetAt(protectedDomains, program) + {d}];
      protectedFqdns := protectedFqdns + {d};
      UnionGrows(before, program, d);
      added := IndexPermutations(d, program);
      totalVariations := |variations|;
    }

    method IndexPermutations(d: string, program: string) returns (added: nat)
      requires (forall key | key in variations :: variations[key].variation == key) && CountsMatch(variations, byFuzzer)
      modifies this`variations, this`byFuzzer
      ensures (forall key | key in variations :: variations[key].variation == key) && CountsMatch(variations, byFuzzer)
      ensures variations == AddAll(old(variations), d, program, permutations(d), ps)
      ensures added == |variations| - |old(variations)|
    {
      hide IndexLabel, CountsMatch, AddAll;
      var perms := permutations(d);
      added := 0;
      assert AddAll(variations, d, program, perms[..0], ps) == variations by { NoPermutations(variations, d, program, ps); }
      for i := 0 to |perms|
        invariant variations == AddAll(old(variations), d, program, perms[..i], ps)
        invariant added == |variations| - |old(variations)|
        invariant (forall key | key in variations :: variations[key].variation == key) && CountsMatch(variations, byFuzzer)
      {
        NextPermutation(old(variations), d, program, perms, i, ps);
        match IndexLabel(d, perms[i], ps) {
          case None =>
          case Some(key) =>
            if key !in variations {
              var fuzzer := perms[i].1;
              CountGrows(variations, byFuzzer, key, VariationInfo(key, d, fuzzer, program));
              variations := variations[key := VariationInfo(key, d, fuzzer, program)];
              added := added + 1;
              byFuzzer := byFuzzer[fuzzer := CountOf(byFuzzer, fuzzer) + 1];
            }
        }
      }
      assert perms[..|perms|] == perms;
    }

    method AddProtectedDomains(domains: seq<string>, program: string) returns (totalAdded: nat)
      requires Valid() && Indexed()
      modifies this
      ensures Valid() && Indexed()
      ensures protectedFqdns == old(protectedFqdns) + NormalForms(domains)
      ensures protectedDomains == WithDomains(old(protectedDomains), program, domains)
      ensures totalAdded == |variations| - |old(variations)|
      ensures IsGrown(old(variations), variations, NormalForms(domains), program, permutations, ps)
    {
      hide Valid, Normal, NormalForms, WithDomains, AddAll, IsGrown, AllClaimed;
      totalAdded := 0;
      NotGrown(variations, program, permutations, ps);
      NoForms(protectedDomains, program);
      assert domains[..0] == [];
      for i := 0 to |domains|
        invariant Valid() && Indexed()
        invariant protectedFqdns == old(protectedFqdns) + NormalForms(domains[..i])
        invariant protectedDomains == WithDomains(old(protectedDomains), program, domains[..i])
        invariant totalAdded == |variations| - |old(variations)|
        invariant IsGrown(old(variations), variations, NormalForms(domains[..i]), program, permutations, ps)
      {
        ghost var mid, sets := variations, protectedDomains;
        var added := AddProtectedDomain(domains[i], program);
        OneMoreForm(domains, i, old(protectedDomains), program);
        GrownMore(old(variations), mid, variations, NormalForms(domains[..i]), Normal(domains[i]), program, sets, permutations, ps);
        totalAdded := totalAdded + added;
      }
      assert domains[..|domains|] == domains;
    }

    /** The variation index answers for any public suffix: it is keyed by the name without it. */
    function Match(certDomain: string): Option<VariationInfo>
      reads this
    {
      FindVariation(variations, certDomain, ps)
    }

    /** The label-suffix lookup: is this name a subdomain of some protected name? */
    method IsLegitimateSubdomain(certDomain: string) returns (r: bool)
      ensures r == IsSubdomainOfAny(Normal(certDomain), protectedFqdns)
    {
      hide Normal, EndsAfter, Join, Split;
      if protectedFqdns == {} {
        return false;
      }
      var d := Normal(certDomain);
      var labels := Split(d, '.');
      for i := 1 to |labels|
        invariant forall j | 1 <= j < i :: Join(labels[j..], '.') !in protectedFqdns
      {
        if Join(labels[i..], '.') in protectedFqdns {
          LabelSuffixFollowsSeparator(d, '.', i);
          return true;
        }
      }
      forall p | p in protectedFqdns ensures !EndsAfter(d, '.', p) {
        SuffixesAreLabelSuffixes(d, '.', p);
      }
      return false;
    }
  }

  function FindVariation(variations: map<string, VariationInfo>, certDomain: string, ps: Suffixes): Option<VariationInfo>
  {
    match WithoutPublicSuffix(Normal(certDomain), ps)
    case None => None
    case Some(key) => if key != "" && key in variations then Some(variations[key]) else None
  }

  function NormalForms(domains: seq<string>): set<string>
  {
    set d | d in domains :: Normal(d)
  }

  /** The program's set with these domains. */
  function WithDomains(sets: map<string, set<string>>, program: string, domains: seq<string>): map<string, set<string>>
  {
    if domains == [] then sets else sets[program := SetAt(sets, program) + NormalForms(domains)]
  }

  lemma NoForms(sets: map<string, set<string>>, program: string)
    ensures NormalForms([]) == {} && WithDomains(sets, program, []) == sets
  {
  }

  lemma OneMoreForm(domains: seq<string>, i: nat, sets: map<string, set<string>>, program: string)
    requires i < |domains|
    ensures NormalForms(domains[..i + 1]) == NormalForms(domains[..i]) + {Normal(domains[i])}
    ensures var now := WithDomains(sets, program, domains[..i]);
      WithDomains(sets, program, domains[..i + 1]) == now[program := SetAt(now, program) + {Normal(domains[i])}]
  {
    hide Normal;
    assert domains[..i + 1] == domains[..i] + [domains[i]];
    var some, n := NormalForms(domains[..i]), Normal(domains[i]);
    assert NormalForms(domains[..i + 1]) == some + {n};
    assert SetAt(sets, program) + (some + {n}) == SetAt(sets, program) + some + {n};
    if i > 0 {
      assert domains[..i] != [];
      assert WithDomains(sets, program, domains[..i]) == sets[program := SetAt(sets, program) + some];
    } else {
      assert domains[..i] == [] && some == {};
      assert SetAt(sets, program) + some == SetAt(sets, program);
    }
  }

  // ----- the index after many domains

  /** Some permutation of the domain is indexed under the key. */
  ghost predicate Claims(d: string, perms: seq<Permutation>, ps: Suffixes, key: string)
  {
    exists k :: 0 <= k < |perms| && IndexLabel(d, perms[k], ps) == Some(key)
  }

  ghost predicate AllClaimed(sets: map<string, set<string>>, m: map<string, VariationInfo>,
                             permutations: string -> seq<Permutation>, ps: Suffixes)
  {
    forall p, d, key | p in sets && d in sets[p] && Claims(d, permutations(d), ps, key) :: key in m
  }

  /**
   * The index has grown by these domains of the program: old entries stay, every key one of them claims has an entry,
   * and a new entry names the program and the domain, and comes from the first permutation to claim its key.
   */
  ghost predicate IsGrown(before: map<string, VariationInfo>, after: map<string, VariationInfo>, domains: set<string>,
                          program: string, permutations: string -> seq<Permutation>, ps: Suffixes)
  {
    (forall key | key in before :: key in after && after[key] == before[key])
    && (forall d, key | d in domains && Claims(d, permutations(d), ps, key) :: key in after)
    && forall key | key in after && key !in before ::
      exists d :: d in domains && EntryOfFirst(after[key], d, program, permutations(d), ps, key)
  }

  lemma NotGrown(m: map<string, VariationInfo>, program: string, permutations: string -> seq<Permutation>, ps: Suffixes)
    ensures IsGrown(m, m, {}, program, permutations, ps)
  {
  }

  lemma GrownMore(before: map<string, VariationInfo>, mid: map<string, VariationInfo>, after: map<string, VariationInfo>,
                  domains: set<string>, d: string, program: string, sets: map<string, set<string>>,
                  permutations: string -> seq<Permutation>, ps: Suffixes)
    requires IsGrown(before, mid, domains, program, permutations, ps) && AllClaimed(sets, mid, permutations, ps)
    requires var had := program in sets && d in sets[program];
      after == if had then mid else AddAll(mid, d, program, permutations(d), ps)
    ensures IsGrown(before, after, domains + {d}, program, permutations, ps)
    ensures AllClaimed(sets[program := SetAt(sets, program) + {d}], after, permutations, ps)
  {
    hide IndexLabel, AddAll, EntryOfFirst;
    var had := program in sets && d in sets[program];
    if !had {
      forall key
        ensures key in mid ==> key in after && after[key] == mid[key]
        ensures Claims(d, permutations(d), ps, key) ==> key in after
        ensures key in after && key !in mid ==> EntryOfFirst(after[key], d, program, permutations(d), ps, key)
      {
        FirstWins(mid, d, program, permutations(d), ps, key);
      }
    }
    hide Claims;
  }

  /** What the index holds for a key after loading: the entry of the first loaded program with a domain that claims it. */
  ghost predicate IsLoadedIndex(m: map<string, VariationInfo>, loaded: seq<(string, seq<string>)>,
                                permutations: string -> seq<Permutation>, ps: Suffixes)
  {
    (forall i, d, key | 0 <= i < |loaded| && d in CleanDomains(loaded[i].1) && Claims(d, permutations(d), ps, key) :: key in m)
    && forall key | key in m :: exists i :: IsFirstLoaded(m[key], loaded, permutations, ps, key, i)
  }

  ghost predicate IsFirstLoaded(entry: VariationInfo, loaded: seq<(string, seq<string>)>,
                                permutations: string -> seq<Permutation>, ps: Suffixes, key: string, i: int)
  {
    0 <= i < |loaded|
    && (exists d :: d in CleanDomains(loaded[i].1) && EntryOfFirst(entry, d, loaded[i].0, permutations(d), ps, key))
    && forall j, d | 0 <= j < i && d in CleanDomains(loaded[j].1) :: !Claims(d, permutations(d), ps, key)
  }

  lemma NothingIndexed(permutations: string -> seq<Permutation>, ps: Suffixes)
    ensures IsLoadedIndex(map[], [], permutations, ps)
  {
  }

  lemma LoadedIndexGrows(before: map<string, VariationInfo>, after: map<string, VariationInfo>,
                         loaded: seq<(string, seq<string>)>, entry: (string, seq<string>),
                         permutations: string -> seq<Permutation>, ps: Suffixes)
    requires IsLoadedIndex(before, loaded, permutations, ps)
    requires IsGrown(before, after, CleanDomains(entry.1), entry.0, permutations, ps)
    ensures IsLoadedIndex(after, loaded + [entry], permutations, ps)
  {
    hide CleanDomains, Claims, EntryOfFirst;
    var all := loaded + [entry];
    assert all[|loaded|] == entry && forall i | 0 <= i < |loaded| :: all[i] == loaded[i];
    forall key | key in after
      ensures exists i :: IsFirstLoaded(after[key], all, permutations, ps, key, i)
    {
      if key in before {
        var i :| IsFirstLoaded(before[key], loaded, permutations, ps, key, i);
        assert IsFirstLoaded(after[key], all, permutations, ps, key, i);
      } else {
        assert IsFirstLoaded(after[key], all, permutations, ps, key, |loaded|);
      }
    }
  }

  // ----- what is indexed and what is found, in terms of the names

  /** A normal form is its own normal form, in either order of the two steps. */
  lemma NormalIsNormal(d: string)
    ensures Lower(Strip(Normal(d))) == Normal(d) && Normal(Normal(d)) == Normal(d)
  {
    NormalTwice(d);
    LoweredIsLower(d);
    StrippedIsLower(Lower(d));
    LowerIsItself(Normal(d));
    StripTwice(Lower(d));
  }

  /** Blanks around a name and upper case in it do not matter. */
  lemma NormalIs(a: string, d: string, b: string)
    requires IsBlank(a) && IsBlank(b) && d != "" && !IsSpace(d[0]) && !IsSpace(d[|d| - 1])
    ensures Normal(a + d + b) == Lower(d)
  {
    NormalFormIs(a, d, b);
  }

  ghost predicate HasNoEmptyLabel(d: string)
  {
    "" !in Split(Normal(d), '.')
  }

  /** The normal form of the name is the key, a dot, and the longest public suffix of it. */
  ghost predicate HasKey(d: string, key: string, ps: Suffixes)
  {
    IsKeyOf(Normal(d), key, ps)
  }

  lemma KeyOfNormal(d: string, key: string, ps: Suffixes)
    requires HasNoEmptyLabel(d)
    ensures WithoutPublicSuffix(Normal(d), ps) == Some(key) <==> HasKey(d, key, ps)
    ensures HasKey(d, key, ps) ==> key != ""
  {
    NormalIsNormal(d);
    hide Normal, Split, Join, SuffixStart, LongestSuffixAt;
    KeyMeaning(Normal(d), key, ps);
  }

  /** A permutation is indexed under its key, unless that is the key of the domain itself. */
  lemma IndexLabelMeaning(domain: string, p: Permutation, ps: Suffixes, key: string)
    requires HasNoEmptyLabel(domain) && HasNoEmptyLabel(p.0)
    ensures IndexLabel(Normal(domain), p, ps) == Some(key) <==> HasKey(p.0, key, ps) && !HasKey(domain, key, ps)
  {
    hide Normal, WithoutPublicSuffix, HasKey;
    KeyOfNormal(p.0, key, ps);
    KeyOfNormal(domain, key, ps);
  }

  /** What is found for a name: the entry stored under its key. */
  lemma FoundUnderKey(variations: map<string, VariationInfo>, name: string, ps: Suffixes, info: VariationInfo)
    requires HasNoEmptyLabel(name)
    ensures FindVariation(variations, name, ps) == Some(info)
      <==> exists key :: HasKey(name, key, ps) && key in variations && variations[key] == info
  {
    hide Normal, WithoutPublicSuffix, HasKey;
    forall key ensures WithoutPublicSuffix(Normal(name), ps) == Some(key) <==> HasKey(name, key, ps) {
      KeyOfNormal(name, key, ps);
    }
    forall key | HasKey(name, key, ps) ensures key != "" {
      KeyOfNormal(name, key, ps);
    }
  }

  /** The first permutation with this key. */
  ghost predicate FirstWithKey(perms: seq<Permutation>, key: string, ps: Suffixes, k: int)
  {
    0 <= k < |perms| && HasKey(perms[k].0, key, ps) && forall j | 0 <= j < k :: !HasKey(perms[j].0, key, ps)
  }

  /**
   * From one protected domain to a certificate name: the name is found exactly when its key is that of some
   * permutation and not that of the domain, and what is found names the domain and the first such permutation.
   */
  lemma FoundFromDomain(domain: string, program: string, perms: seq<Permutation>, name: string, ps: Suffixes,
                        info: VariationInfo)
    requires HasNoEmptyLabel(domain) && HasNoEmptyLabel(name) && forall p | p in perms :: HasNoEmptyLabel(p.0)
    ensures FindVariation(AddAll(map[], Normal(domain), program, perms, ps), name, ps) == Some(info)
      <==> exists key, k :: HasKey(name, key, ps) && !HasKey(domain, key, ps) && FirstWithKey(perms, key, ps, k)
                            && info == VariationInfo(key, Normal(domain), perms[k].1, program)
  {
    hide Normal, HasKey, AddAll, IndexLabel, FindVariation, HasNoEmptyLabel;
    var m := AddAll(map[], Normal(domain), program, perms, ps);
    FoundUnderKey(m, name, ps, info);
    forall key ensures key in m && m[key] == info
      <==> !HasKey(domain, key, ps)
           && exists k :: FirstWithKey(perms, key, ps, k) && info == VariationInfo(key, Normal(domain), perms[k].1, program)
    {
      IndexedExactly(domain, program, perms, ps, key, info);
    }
  }

  lemma IndexedExactly(domain: string, program: string, perms: seq<Permutation>, ps: Suffixes, key: string, info: VariationInfo)
    requires HasNoEmptyLabel(domain) && forall p | p in perms :: HasNoEmptyLabel(p.0)
    ensures var m := AddAll(map[], Normal(domain), program, perms, ps);
      key in m && m[key] == info
      <==> !HasKey(domain, key, ps)
           && exists k :: FirstWithKey(perms, key, ps, k) && info == VariationInfo(key, Normal(domain), perms[k].1, program)
  {
    hide Normal, HasKey, AddAll, IndexLabel, HasNoEmptyLabel;
    var m := AddAll(map[], Normal(domain), program, perms, ps);
    FirstWins(map[], Normal(domain), program, perms, ps, key);
    forall k | 0 <= k < |perms|
      ensures IndexLabel(Normal(domain), perms[k], ps) == Some(key) <==> HasKey(perms[k].0, key, ps) && !HasKey(domain, key, ps)
    {
      assert perms[k] in perms;
      IndexLabelMeaning(domain, perms[k], ps, key);
    }
    if k :| FirstWithKey(perms, key, ps, k) && !HasKey(domain, key, ps) {
      var j :| FirstClaim(Normal(domain), perms, ps, key, j) && m[key] == VariationInfo(key, Normal(domain), perms[j].1, program);
      assert j == k;
    }
  }

  function SetAt(sets: map<string, set<string>>, program: string): set<string>
  {
    if program in sets then sets[program] else {}
  }

  ghost predicate CountsMatch(m: map<string, VariationInfo>, counts: map<string, nat>)
  {
    forall f :: CountOf(counts, f) == |LabelsBy(m, f)|
  }

  lemma CountGrows(m: map<string, VariationInfo>, counts: map<string, nat>, key: string, info: VariationInfo)
    requires key !in m && CountsMatch(m, counts)
    ensures CountsMatch(m[key := info], counts[info.fuzzer := CountOf(counts, info.fuzzer) + 1])
  {
    hide LabelsBy;
    var m', counts' := m[key := info], counts[info.fuzzer := CountOf(counts, info.fuzzer) + 1];
    forall f ensures CountOf(counts', f) == |LabelsBy(m', f)| {
      LabelsByGrow(m, key, info, f);
    }
  }

  lemma LabelsByGrow(m: map<string, VariationInfo>, key: string, info: VariationInfo, f: string)
    requires key !in m
    ensures LabelsBy(m[key := info], f) == if f == info.fuzzer then LabelsBy(m, f) + {key} else LabelsBy(m, f)
    ensures key !in LabelsBy(m, f)
  {
  }

  lemma UnionGrows(sets: map<string, set<string>>, program: string, d: string)
    ensures forall e :: InSome(sets[program := SetAt(sets, program) + {d}], e) <==> InSome(sets, e) || e == d
  {
    var sets' := sets[program := SetAt(sets, program) + {d}];
    forall e ensures InSome(sets', e) <==> InSome(sets, e) || e == d {
      if InSome(sets, e) {
        var p :| p in sets && e in sets[p];
        assert p in sets' && e in sets'[p];
      }
      assert program in sets' && d in sets'[program];
    }
  }

  /** What the lookup stands for: the name ends with a dot and a protected name. */
  predicate IsSubdomainOfAny(d: string, protected: set<string>)
  {
    exists p :: p in protected && EndsAfter(d, '.', p)
  }

  // ----- the builder

  /** The trimmed lower-case forms of the non-empty names. */
  function CleanDomains(raw: seq<string>): set<string>
  {
    set d | d in raw && d != "" :: Normal(d)
  }

  method DomainList(domains: set<string>) returns (list: seq<string>)
    ensures forall d :: d in list <==> d in domains
  {
    list := [];
    var todo := domains;
    while todo != {}
      invariant todo <= domains
      invariant forall d :: d in list <==> d in domains - todo
    {
      var d :| d in todo;
      list, todo := list + [d], todo - {d};
    }
  }

  /** Some loaded entry lists this name. */
  ghost predicate IsLoaded(loaded: seq<(string, seq<string>)>, d: string)
  {
    exists i :: 0 <= i < |loaded| && d in CleanDomains(loaded[i].1)
  }

  /** Loaded are the normal forms of the names that are not empty. */
  lemma LoadedNames(loaded: seq<(string, seq<string>)>, d: string)
    ensures IsLoaded(loaded, d) <==> exists i, raw :: 0 <= i < |loaded| && raw in loaded[i].1 && raw != "" && d == Normal(raw)
  {
    hide Normal;
    if IsLoaded(loaded, d) {
      var i :| 0 <= i < |loaded| && d in CleanDomains(loaded[i].1);
      var raw :| raw in loaded[i].1 && raw != "" && Normal(raw) == d;
    }
  }

  /** The protected set of each program: of the last entry, should a program be loaded twice. */
  function ProtectedSets(loaded: seq<(string, seq<string>)>): map<string, set<string>>
  {
    if loaded == [] then map[] else
    var last := loaded[|loaded| - 1];
    ProtectedSets(loaded[..|loaded| - 1])[last.0 := CleanDomains(last.1)]
  }

  /** The loop over loaded programs: each program's protected set, and the generator filled alongside. */
  method BuildProtected(loaded: seq<(string, seq<string>)>, generator: Generator) returns (protected: map<string, set<string>>)
    requires generator.Valid() && generator.Indexed() && generator.protectedFqdns == {} && generator.variations == map[]
    modifies generator
    ensures generator.Valid() && protected == ProtectedSets(loaded)
    ensures IsLoadedIndex(generator.variations, loaded, generator.permutations, generator.ps)
    ensures forall d :: d in generator.protectedFqdns <==> IsLoaded(loaded, d)
  {
    hide Generator.Valid, Generator.Indexed, Normal, NormalForms, CleanDomains, IsLoaded, IsLoadedIndex, IsGrown, AreLoaded,
         WithDomains, ProtectedSets;
    NothingIndexed(generator.permutations, generator.ps);
    NothingLoaded();
    assert loaded[..0] == [];
    protected := map[];
    for i := 0 to |loaded|
      invariant generator.Valid() && generator.Indexed() && protected == ProtectedSets(loaded[..i])
      invariant IsLoadedIndex(generator.variations, loaded[..i], generator.permutations, generator.ps)
      invariant AreLoaded(generator.protectedFqdns, loaded[..i])
    {
      var program, domains := loaded[i].0, CleanDomains(loaded[i].1);
      protected := protected[program := domains];
      var list := DomainList(domains);
      ghost var mid, fqdns := generator.variations, generator.protectedFqdns;
      var _ := generator.AddProtectedDomains(list, program);
      CleanStaysClean(loaded[i].1, list);
      LoadedIndexGrows(mid, generator.variations, loaded[..i], loaded[i], generator.permutations, generator.ps);
      LoadedOneMore(loaded[..i], loaded[i], fqdns);
      assert loaded[..i + 1] == loaded[..i] + [loaded[i]];
    }
    assert loaded[..|loaded|] == loaded;
    AllAreLoaded(generator.protectedFqdns, loaded);
  }

  /** The flat set holds exactly the loaded names. */
  ghost predicate AreLoaded(fqdns: set<string>, loaded: seq<(string, seq<string>)>)
  {
    forall d :: d in fqdns <==> IsLoaded(loaded, d)
  }

  lemma AllAreLoaded(fqdns: set<string>, loaded: seq<(string, seq<string>)>)
    requires AreLoaded(fqdns, loaded)
    ensures forall d :: d in fqdns <==> IsLoaded(loaded, d)
  {
  }

  lemma NothingLoaded()
    ensures AreLoaded({}, []) && ProtectedSets([]) == map[]
  {
  }

  lemma LoadedOneMore(loaded: seq<(string, seq<string>)>, entry: (string, seq<string>), fqdns: set<string>)
    requires AreLoaded(fqdns, loaded)
    ensures AreLoaded(fqdns + CleanDomains(entry.1), loaded + [entry])
    ensures ProtectedSets(loaded + [entry]) == ProtectedSets(loaded)[entry.0 := CleanDomains(entry.1)]
  {
    assert (loaded + [entry])[..|loaded|] == loaded;
    hide CleanDomains;
    var all := loaded + [entry];
    assert all[|loaded|] == entry;
    forall d
      ensures IsLoaded(all, d) <==> IsLoaded(loaded, d) || d in CleanDomains(entry.1)
    {
      if IsLoaded(loaded, d) {
        var i :| 0 <= i < |loaded| && d in CleanDomains(loaded[i].1);
        assert all[i] == loaded[i];
      }
    }
  }

  ghost predicate AreDistinct(loaded: seq<(string, seq<string>)>)
  {
    forall i, j | 0 <= i < j < |loaded| :: loaded[i].0 != loaded[j].0
  }

  /** No later entry of the same program replaces this one. */
  ghost predicate Survives(loaded: seq<(string, seq<string>)>, i: int)
  {
    0 <= i < |loaded| && forall j | i < j < |loaded| :: loaded[j].0 != loaded[i].0
  }

  ghost predicate SurvivesWith(loaded: seq<(string, seq<string>)>, d: string)
  {
    exists i :: Survives(loaded, i) && d in CleanDomains(loaded[i].1)
  }

  /** Each program's set is that of its surviving entry. */
  lemma {:induction false} SetsAreSurviving(loaded: seq<(string, seq<string>)>)
    ensures forall i | Survives(loaded, i) ::
      loaded[i].0 in ProtectedSets(loaded) && ProtectedSets(loaded)[loaded[i].0] == CleanDomains(loaded[i].1)
    ensures forall p | p in ProtectedSets(loaded) :: exists i :: Survives(loaded, i) && loaded[i].0 == p
  {
    hide CleanDomains;
    if loaded != [] {
      var n := |loaded| - 1;
      var init, last := loaded[..n], loaded[n];
      SetsAreSurviving(init);
      assert loaded == init + [last];
      forall i | Survives(loaded, i) && i < n
        ensures Survives(init, i) && init[i] == loaded[i] && loaded[i].0 != last.0
      {
        assert loaded[n].0 != loaded[i].0;
      }
      assert Survives(loaded, n);
      forall p | p in ProtectedSets(loaded)
        ensures exists i :: Survives(loaded, i) && loaded[i].0 == p
      {
        if p != last.0 {
          var i :| Survives(init, i) && init[i].0 == p;
          assert Survives(loaded, i);
        }
      }
    }
  }

  lemma UnionIsSurviving(loaded: seq<(string, seq<string>)>, d: string)
    ensures InSome(ProtectedSets(loaded), d) <==> SurvivesWith(loaded, d)
    ensures SurvivesWith(loaded, d) ==> IsLoaded(loaded, d)
  {
    SetsAreSurviving(loaded);
    hide CleanDomains, ProtectedSets;
    if InSome(ProtectedSets(loaded), d) {
      var p :| p in ProtectedSets(loaded) && d in ProtectedSets(loaded)[p];
      var i :| Survives(loaded, i) && loaded[i].0 == p;
      assert d in CleanDomains(loaded[i].1);
    }
    if SurvivesWith(loaded, d) {
      var i :| Survives(loaded, i) && d in CleanDomains(loaded[i].1);
      assert 0 <= i < |loaded|;
    }
  }

  /**
   * The generator's flat set is the union of the program sets exactly when every loaded name is in an entry that
   * no later entry of the same program replaces.
   */
  lemma FlatSetIsUnionExactly(loaded: seq<(string, seq<string>)>)
    ensures (forall d :: IsLoaded(loaded, d) <==> InSome(ProtectedSets(loaded), d))
       <==> forall d | IsLoaded(loaded, d) :: SurvivesWith(loaded, d)
  {
    forall d
      ensures InSome(ProtectedSets(loaded), d) <==> SurvivesWith(loaded, d)
      ensures SurvivesWith(loaded, d) ==> IsLoaded(loaded, d)
    {
      UnionIsSurviving(loaded, d);
    }
    hide InSome, SurvivesWith, IsLoaded, ProtectedSets;
  }

  /** So it is when no program is loaded twice. */
  lemma FlatSetIsUnion(loaded: seq<(string, seq<string>)>)
    requires AreDistinct(loaded)
    ensures forall d :: IsLoaded(loaded, d) <==> InSome(ProtectedSets(loaded), d)
    ensures forall p :: p in ProtectedSets(loaded) <==> exists i :: 0 <= i < |loaded| && loaded[i].0 == p
  {
    forall i | 0 <= i < |loaded|
      ensures Survives(loaded, i)
    {
    }
    SetsAreSurviving(loaded);
    hide CleanDomains, ProtectedSets, InSome;
    forall d | IsLoaded(loaded, d)
      ensures SurvivesWith(loaded, d)
    {
      var i :| 0 <= i < |loaded| && d in CleanDomains(loaded[i].1);
      assert Survives(loaded, i);
    }
    FlatSetIsUnionExactly(loaded);
  }

  lemma NormalTwice(d: string)
    ensures Normal(Normal(d)) == Normal(d)
  {
    LowerStripIdempotent(d);
  }

  lemma CleanStaysClean(raw: seq<string>, list: seq<string>)
    requires forall d :: d in list <==> d in CleanDomains(raw)
    ensures NormalForms(list) == CleanDomains(raw)
  {
    hide Normal;
    forall d | d in list ensures Normal(d) == d {
      var r :| r in raw && Normal(r) == d;
      NormalTwice(r);
    }
  }

  // ----- the scan the lookup replaces

  /** The pair names a program and one of its protected names. */
  ghost predicate IsListed(programs: seq<(string, set<string>)>, pair: (string, string))
  {
    exists i :: 0 <= i < |programs| && programs[i].0 == pair.0 && pair.1 in programs[i].1
  }

  /** The programs that protect a name above this one, in order. */
  function ProgramsAbove(programs: seq<(string, set<string>)>, d: string): seq<string>
  {
    if programs == [] then [] else
    var init, last := ProgramsAbove(programs[..|programs| - 1], d), programs[|programs| - 1];
    if IsSubdomainOfAny(d, last.1) then init + [last.0] else init
  }

  function Programs(pairs: seq<(string, string)>): seq<string>
  {
    seq(|pairs|, i requires 0 <= i < |pairs| => pairs[i].0)
  }

  lemma NextProgramAbove(programs: seq<(string, set<string>)>, i: nat, d: string)
    requires i < |programs|
    ensures ProgramsAbove(programs[..i + 1], d)
         == ProgramsAbove(programs[..i], d) + if IsSubdomainOfAny(d, programs[i].1) then [programs[i].0] else []
  {
    assert programs[..i + 1][..i] == programs[..i];
  }

  lemma {:induction false} SomeProgramAbove(programs: seq<(string, set<string>)>, d: string)
    ensures ProgramsAbove(programs, d) != [] <==> exists i :: 0 <= i < |programs| && IsSubdomainOfAny(d, programs[i].1)
  {
    hide IsSubdomainOfAny;
    if programs != [] {
      SomeProgramAbove(programs[..|programs| - 1], d);
    }
  }

  /** Per program that protects a name above this one, in order, such a name. */
  method LegitimateSubdomainPrograms(programs: seq<(string, set<string>)>, d: string) returns (found: seq<(string, string)>)
    ensures Programs(found) == ProgramsAbove(programs, d)
    ensures found != [] <==> exists i :: 0 <= i < |programs| && IsSubdomainOfAny(d, programs[i].1)
    ensures forall k | 0 <= k < |found| :: EndsAfter(d, '.', found[k].1) && IsListed(programs, found[k])
  {
    hide EndsAfter;
    found := [];
    for i := 0 to |programs|
      invariant Programs(found) == ProgramsAbove(programs[..i], d)
      invariant forall k | 0 <= k < |found| :: EndsAfter(d, '.', found[k].1) && IsListed(programs, found[k])
    {
      NextProgramAbove(programs, i, d);
      hide ProgramsAbove;
      ghost var before := found;
      var todo := programs[i].1;
      while todo != {}
        invariant found == before && todo <= programs[i].1
        invariant forall p | p in programs[i].1 && p !in todo :: !EndsAfter(d, '.', p)
      {
        var p :| p in todo;
        if EndsAfter(d, '.', p) {
          found := found + [(programs[i].0, p)];
          break;
        }
        todo := todo - {p};
      }
    }
    assert programs[..|programs|] == programs;
    SomeProgramAbove(programs, d);
  }

  /**
   * The fast lookup agrees with the scan: with the builder's sets, a name is a legitimate subdomain
   * exactly when some program's scan finds a protected name it ends with.
   */
  lemma LookupAgreesWithScan(flat: set<string>, sets: map<string, set<string>>, programs: seq<(string, set<string>)>, d: string)
    requires forall e :: e in flat <==> InSome(sets, e)
    requires forall p :: p in sets <==> exists i :: 0 <= i < |programs| && programs[i].0 == p
    requires forall i | 0 <= i < |programs| :: programs[i].0 in sets && programs[i].1 == sets[programs[i].0]
    ensures IsSubdomainOfAny(d, flat) <==> exists i :: 0 <= i < |programs| && IsSubdomainOfAny(d, programs[i].1)
  {
    if IsSubdomainOfAny(d, flat) {
      var p :| p in flat && EndsAfter(d, '.', p);
      var program :| program in sets && p in sets[program];
      var i :| 0 <= i < |programs| && programs[i].0 == program;
      assert IsSubdomainOfAny(d, programs[i].1);
    }
    if i :| 0 <= i < |programs| && IsSubdomainOfAny(d, programs[i].1) {
      var p :| p in programs[i].1 && EndsAfter(d, '.', p);
      assert InSome(sets, p);
    }
  }

  /** The dictionary of protected sets in insertion order, when no program is loaded twice. */
  function Entries(loaded: seq<(string, seq<string>)>): (programs: seq<(string, set<string>)>)
    ensures |programs| == |loaded|
  {
    seq(|loaded|, i requires 0 <= i < |loaded| => (loaded[i].0, CleanDomains(loaded[i].1)))
  }

  /**
   * From loading to lookup: with no program loaded twice, the entries are those of the dictionary, and the lookup in
   * the flat set that building leaves answers exactly whether the scan of the dictionary finds a program.
   */
  lemma BuiltLookupIsScan(loaded: seq<(string, seq<string>)>, flat: set<string>, d: string)
    requires AreDistinct(loaded) && forall e :: e in flat <==> IsLoaded(loaded, e)
    ensures forall p :: p in ProtectedSets(loaded) <==> exists i :: 0 <= i < |loaded| && Entries(loaded)[i].0 == p
    ensures forall i | 0 <= i < |loaded| :: ProtectedSets(loaded)[Entries(loaded)[i].0] == Entries(loaded)[i].1
    ensures IsSubdomainOfAny(d, flat) <==> ProgramsAbove(Entries(loaded), d) != []
  {
    var programs := Entries(loaded);
    hide CleanDomains, ProtectedSets, InSome, IsLoaded, IsSubdomainOfAny, ProgramsAbove;
    FlatSetIsUnion(loaded);
    SetsAreSurviving(loaded);
    forall i | 0 <= i < |loaded|
      ensures loaded[i].0 in ProtectedSets(loaded)
      ensures ProtectedSets(loaded)[loaded[i].0] == CleanDomains(loaded[i].1)
    {
      assert Survives(loaded, i);
    }
    forall p ensures p in ProtectedSets(loaded) <==> exists i :: 0 <= i < |loaded| && programs[i].0 == p {
      if p in ProtectedSets(loaded) {
        var i :| 0 <= i < |loaded| && loaded[i].0 == p;
        assert programs[i].0 == p;
      }
    }
    LookupAgreesWithScan(flat, ProtectedSets(loaded), programs, d);
    SomeProgramAbove(programs, d);
  }
}
