/**
 * Finding the programs whose scope holds a host: the apex index of `domain_config_builder.py` and the
 * per-name asset matching of `certificate_matcher.py`, against a scan of every program.
 */
module AssetMatching {
  import opened Text
  import opened ScopeRegex
  import opened DomainLabels
  import opened ScopeMatcher

  /** One entry of the dictionary of programs; the dictionary is the sequence in insertion order. */
  datatype AssetState = AssetState(name: string, id: string, matcher: Matcher)
  type AssetMatch = (string, string, string)

  ghost predicate DistinctNames(states: seq<AssetState>)
  {
    forall i, j | 0 <= i < j < |states| :: states[i].name != states[j].name
  }

  // ----- the two ways to find programs

  /** The programs with an in-scope rule under the apex, in order. */
  function UnderApex(states: seq<AssetState>, apex: string): seq<AssetState>
  {
    if states == [] then [] else
    var init, last := UnderApex(states[..|states| - 1], apex), states[|states| - 1];
    if apex in last.matcher.apexRoots then init + [last] else init
  }

  /** The programs whose scope holds the host, in order. */
  function InScope(states: seq<AssetState>, host: string): seq<AssetState>
  {
    if states == [] then [] else
    var init, last := InScope(states[..|states| - 1], host), states[|states| - 1];
    if MatcherMatches(last.matcher, host) then init + [last] else init
  }

  lemma UnderApexStep(states: seq<AssetState>, st: AssetState, apex: string)
    ensures UnderApex(states + [st], apex)
         == if apex in st.matcher.apexRoots then UnderApex(states, apex) + [st] else UnderApex(states, apex)
  {
    assert (states + [st])[..|states|] == states;
  }

  lemma InScopeStep(states: seq<AssetState>, st: AssetState, host: string)
    ensures InScope(states + [st], host)
         == if MatcherMatches(st.matcher, host) then InScope(states, host) + [st] else InScope(states, host)
  {
    hide MatcherMatches;
    assert (states + [st])[..|states|] == states;
  }

  function Names(states: seq<AssetState>): (names: seq<string>)
    ensures |names| == |states|
  {
    seq(|states|, i requires 0 <= i < |states| => states[i].name)
  }

  // ----- the apex of a host in a rule is the apex of the rule's root

  ghost predicate IsValidRule(rule: Rule)
  {
    rule.pattern != "" && AreValidLabels(Split(rule.pattern, '.'))
  }

  /** Every rule of a program's entries is valid. */
  lemma {:induction false} EntryRulesAreValid(entries: seq<ScopeEntry>)
    ensures forall r | r in ValidRules(entries) :: IsValidRule(r)
  {
    hide RuleOf, IsValidRule;
    if entries != [] {
      EntryRulesAreValid(entries[1..]);
      EntryRuleIsValid(entries[0]);
    }
  }

  lemma EntryRuleIsValid(entry: ScopeEntry)
    ensures forall r | r in RuleOf(entry) :: IsValidRule(r)
  {
    hide ValidatePattern, IsValidRule, NormHost, Strip;
    match entry
    case Entry(raw, wildcard) => if ValidateEntry(entry).Ok? { PatternRuleIsValid(NormHost(raw), wildcard); }
    case _ =>
  }

  lemma PatternRuleIsValid(pattern: string, wildcard: bool)
    requires ValidatePattern(pattern, wildcard).Ok?
    ensures IsValidRule(ValidatePattern(pattern, wildcard).value)
  {
    hide Split, AreValidLabels;
  }

  /** A host name in normal form: lower case, no white space or dots at its ends, no newline. */
  ghost predicate IsNormalHost(host: string)
  {
    host != "" && '\n' !in host && Lower(Strip(host)) == host && NormHost(host) == host
  }

  /** The labels above the root: everything up to the last star. */
  function AboveRoot(labels: seq<string>): seq<string>
  {
    labels[..|labels| - |RootLabels(labels)|]
  }

  predicate AreTexts(labels: seq<string>)
  {
    forall lab | lab in labels :: IsLabelText(lab)
  }

  /** The labels a rule's hosts end with, when it leaves open what stands above them. */
  function Zone(rule: Rule): seq<string>
  {
    var labels := Split(rule.pattern, '.');
    if '*' in rule.pattern then labels[1..] else labels
  }

  /**
   * When the index finds every host of a rule. A plain rule's one host is always found. Any other rule needs a
   * root that properly extends a public suffix, and above it no suffix may start: in no filling of inner stars,
   * and for the forms that take any labels in front, neither in the zone nor with labels in front of it. A
   * pattern with a newline has no host to find.
   */
  ghost predicate IsIndexable(rule: Rule, ps: Suffixes)
  {
    var labels := Split(rule.pattern, '.');
    var root := RootLabels(labels);
    '\n' in rule.pattern || (!rule.wildcard && '*' !in rule.pattern)
    || (ProperRoot(root, ps) && if '*' in rule.pattern && labels[0] != "*" then NoFillingAbove(labels, ps)
                                else NoneAbove(AboveRoot(Zone(rule)), root, ps) && NoneInFront(Zone(rule), ps))
  }

  ghost predicate NoFillingAbove(labels: seq<string>, ps: Suffixes)
  {
    forall fill | LabelByLabel(AboveRoot(labels), fill) :: NoneAbove(fill, RootLabels(labels), ps)
  }

  ghost predicate NoneInFront(zone: seq<string>, ps: Suffixes)
  {
    forall q | q != [] && AreTexts(q) :: !ps(q + zone)
  }

  lemma RootLabelsArePlain(rule: Rule, host: string)
    requires IsValidRule(rule) && '\n' !in host
    requires EndsWith(Split(host, '.'), RootLabels(Split(rule.pattern, '.')))
    ensures forall lab | lab in RootLabels(Split(rule.pattern, '.')) :: IsLabelText(lab)
  {
    var labels, hl := Split(rule.pattern, '.'), Split(host, '.');
    var root := RootLabels(labels);
    LabelsEndWithRoot(labels);
    hide RootLabels, Split, Join;
    forall lab | lab in root ensures IsLabelText(lab) {
      var i :| 0 <= i < |root| && root[i] == lab;
      assert labels[|labels| - |root|..][i] == labels[|labels| - |root| + i];
      assert hl[|hl| - |root|..][i] == hl[|hl| - |root| + i];
      assert IsValidLiteralLabel(lab) && lab != "*";
      if '\n' in lab {
        PartCharsInJoin(hl, lab, '\n');
      }
    }
  }

  lemma ExtractApexOfNormal(host: string, ps: Suffixes)
    requires host != "" && Lower(Strip(host)) == host
    ensures ExtractApex(host, ps) == Join(ApexLabels(Split(host, '.'), ps), '.')
  {
  }

  lemma JoinHasDot(labels: seq<string>)
    requires labels != [] && forall lab | lab in labels :: '.' !in lab
    ensures '.' in Join(labels, '.') <==> |labels| >= 2
  {
  }

  lemma JoinIsInjective(a: seq<string>, b: seq<string>)
    requires a != [] && b != [] && forall lab | lab in a + b :: '.' !in lab
    ensures a == b <==> Join(a, '.') == Join(b, '.')
  {
    assert forall lab | lab in a :: lab in a + b;
    assert forall lab | lab in b :: lab in a + b;
    hide Split, Join;
    SplitJoin(a, '.');
    SplitJoin(b, '.');
  }

  lemma ApexIsPart(labels: seq<string>, ps: Suffixes)
    ensures |ApexLabels(labels, ps)| <= |labels| && forall lab | lab in ApexLabels(labels, ps) :: lab in labels
    ensures labels != [] ==> ApexLabels(labels, ps) != []
    ensures |labels| >= 2 && "" !in labels ==> |ApexLabels(labels, ps)| >= 2
  {
  }

  lemma ValidLabelsAreNotEmpty(labels: seq<string>)
    requires AreValidLabels(labels)
    ensures "" !in labels
  {
    forall i | 0 <= i < |labels|
      ensures labels[i] != ""
    {
      assert labels[i] == "*" || IsValidLiteralLabel(labels[i]);
    }
  }

  /** What stands above the zone in a host of a rule that leaves it open is text. */
  lemma HostOfZone(rule: Rule, hl: seq<string>) returns (q: seq<string>)
    requires InRule(rule, hl) && if '*' in rule.pattern then Split(rule.pattern, '.')[0] == "*" else rule.wildcard
    ensures hl == q + Zone(rule) && AreTexts(q) && ('*' in rule.pattern ==> q != [])
  {
    var zone := Zone(rule);
    hide IsLabelText;
    q := hl[..|hl| - |zone|];
    forall lab | lab in q
      ensures IsLabelText(lab)
    {
      var i :| 0 <= i < |q| && q[i] == lab;
      assert hl[i] == lab;
    }
  }

  lemma ZoneWithFront(rule: Rule, q: seq<string>)
    requires AreTexts(q) && (q != [] || '*' !in rule.pattern)
    requires if '*' in rule.pattern then Split(rule.pattern, '.')[0] == "*" else rule.wildcard
    ensures InRule(rule, q + Zone(rule))
  {
    hide IsLabelText, Split;
    var zone := Zone(rule);
    var hl := q + zone;
    assert hl[|q|..] == zone;
    forall i | 0 <= i < |hl| - |zone|
      ensures IsLabelText(hl[i])
    {
      assert hl[i] in q;
    }
  }

  lemma LabelsAreAboveAndRoot(labels: seq<string>)
    ensures labels == AboveRoot(labels) + RootLabels(labels)
    ensures "*" in labels ==> AboveRoot(labels) != [] && RootLabels(labels) == RootLabels(labels[1..])
    ensures "*" !in labels ==> AboveRoot(labels) == [] && RootLabels(labels) == labels
  {
    LabelsEndWithRoot(labels);
    if "*" in labels {
      RootOfRest(labels);
    } else {
      NoStarNoLoss(labels);
    }
    hide RootLabels;
    CutBefore(labels, RootLabels(labels));
  }

  lemma CutBefore(labels: seq<string>, root: seq<string>)
    requires EndsWith(labels, root)
    ensures labels == labels[..|labels| - |root|] + root
  {
  }

  lemma RootOfRest(labels: seq<string>)
    requires "*" in labels
    ensures RootLabels(labels) == RootLabels(labels[1..])
  {
  }

  /** A host of a rule with inner stars fills the labels above the root. */
  lemma FillingAndRoot(labels: seq<string>, fill: seq<string>)
    ensures LabelByLabel(labels, fill + RootLabels(labels)) <==> LabelByLabel(AboveRoot(labels), fill)
  {
    var above, root := AboveRoot(labels), RootLabels(labels);
    LabelsAreAboveAndRoot(labels);
    hide AboveRoot, RootLabels, IsLabelText;
    var hl := fill + root;
    if |fill| == |above| {
      assert forall i | 0 <= i < |above| :: hl[i] == fill[i] && labels[i] == above[i];
      forall i | |above| <= i < |hl|
        ensures hl[i] == labels[i] && labels[i] != "*"
      {
        assert labels[i] == root[i - |above|] && root[i - |above|] in root;
      }
      if LabelByLabel(labels, hl) {
        assert forall i | 0 <= i < |fill| :: if above[i] == "*" then IsLabelText(fill[i]) else fill[i] == above[i];
      }
    }
  }

  lemma HostLabelsAreNotEmpty(rule: Rule, hl: seq<string>)
    requires IsValidRule(rule) && InRule(rule, hl)
    ensures "" !in hl
  {
    var labels := Split(rule.pattern, '.');
    ValidLabelsAreNotEmpty(labels);
    assert !IsLabelText("");
    if (if '*' in rule.pattern then labels[0] == "*" else rule.wildcard) {
      var q := HostOfZone(rule, hl);
      hide Split, IsLabelText;
      assert forall lab | lab in Zone(rule) :: lab in labels;
    } else {
      hide Split, IsLabelText;
      forall i | 0 <= i < |hl|
        ensures hl[i] != ""
      {
        assert labels[i] in labels;
      }
    }
  }

  /** The labels above the root in a host of the rule. */
  function AboveIn(rule: Rule, hl: seq<string>): seq<string>
  {
    var n := |RootLabels(Split(rule.pattern, '.'))|;
    if n <= |hl| then hl[..|hl| - n] else []
  }

  ghost predicate IndexedUnder(rule: Rule, ps: Suffixes, host: string)
  {
    ExtractApex(host, ps) == ExtractApex(RootText(rule.pattern), ps) && '.' in ExtractApex(host, ps)
  }

  lemma EmptyRootText(pattern: string)
    requires StarOrStarFree(Split(pattern, '.')) && RootLabels(Split(pattern, '.')) == []
    ensures RootText(pattern) == ""
  {
    var labels := Split(pattern, '.');
    StarInJoin(labels);
    if "*" in labels {
      AfterLastStar(labels);
      EmptyIsNormal();
    }
  }

  lemma EmptyIsNormal()
    ensures NormHost(Trim("", IsDot)) == ""
  {
    assert Lower("") == "";
  }

  /** Whether the index finds one host of a rule, read off its labels. */
  lemma IndexedWhen(rule: Rule, host: string, ps: Suffixes)
    requires IsValidRule(rule) && IsNormalHost(host) && InRule(rule, Split(host, '.')) && '.' in host
    ensures var root, pre := RootLabels(Split(rule.pattern, '.')), AboveIn(rule, Split(host, '.'));
      IndexedUnder(rule, ps, host) <==> pre == [] || (ProperRoot(root, ps) && NoneAbove(pre, root, ps))
  {
    hide InRule, AreValidLabels, Split, Join, RootText, StarOrStarFree, NormHost, Strip, Lower, RootLabels, IsLabelText,
         ApexLabels, ExtractApex, NoneAbove, AboveIn;
    var labels, hl := Split(rule.pattern, '.'), Split(host, '.');
    var root := RootLabels(labels);
    ValidLabelsAreStarOrStarFree(labels);
    HostEndsWithRoot(rule, hl);
    RootLabelsArePlain(rule, host);
    HostLabelsAreNotEmpty(rule, hl);
    ExtractApexOfNormal(host, ps);
    AboveInIs(rule, hl);
    if root == [] {
      EmptyRootText(rule.pattern);
      NoApexOfNothing(ps);
      assert hl != [] && AboveIn(rule, hl) == hl;
    } else {
      RootTextIsRootLabels(rule.pattern);
      LabelTextsAreNormal(root);
      ExtractApexOfNormal(RootText(rule.pattern), ps);
      IndexedLabels(host, hl, AboveIn(rule, hl), root, ps);
    }
  }

  lemma AboveInIs(rule: Rule, hl: seq<string>)
    requires EndsWith(hl, RootLabels(Split(rule.pattern, '.')))
    ensures hl == AboveIn(rule, hl) + RootLabels(Split(rule.pattern, '.'))
  {
    hide Split, RootLabels;
    CutBefore(hl, RootLabels(Split(rule.pattern, '.')));
  }

  lemma NoApexOfNothing(ps: Suffixes)
    ensures ExtractApex("", ps) == "" && !ProperRoot([], ps)
  {
    assert Lower(Strip("")) == "";
  }

  lemma IndexedLabels(host: string, hl: seq<string>, pre: seq<string>, root: seq<string>, ps: Suffixes)
    requires hl == pre + root && root != [] && "" !in hl && host == Join(hl, '.') && '.' in host
    requires forall lab | lab in hl :: '.' !in lab
    ensures var a, b := ApexLabels(hl, ps), ApexLabels(root, ps);
      (Join(a, '.') == Join(b, '.') && '.' in Join(a, '.')) <==> pre == [] || (ProperRoot(root, ps) && NoneAbove(pre, root, ps))
  {
    hide ApexLabels, Join, ProperRoot, NoneAbove;
    var a, b := ApexLabels(hl, ps), ApexLabels(root, ps);
    ApexIsPart(hl, ps);
    ApexIsPart(root, ps);
    assert forall lab | lab in root :: lab in hl;
    JoinIsInjective(a, b);
    JoinHasDot(hl);
    JoinHasDot(a);
    if pre == [] {
      assert hl == root;
    } else {
      ApexBelowRoot(pre, root, ps);
    }
  }

  lemma NoNewlineInRule(rule: Rule, host: string)
    requires IsNormalHost(host) && InRule(rule, Split(host, '.'))
    ensures '\n' !in rule.pattern
  {
    var labels, hl := Split(rule.pattern, '.'), Split(host, '.');
    if '\n' in rule.pattern {
      var i := CharInPart(labels, '\n');
      hide Split, Join, IsLabelText, NormHost;
      var lab := labels[i];
      assert lab != "*";
      if '*' in rule.pattern && labels[0] != "*" {
        assert hl[i] == lab;
      } else if '*' in rule.pattern || rule.wildcard {
        var q := HostOfZone(rule, hl);
        assert lab in Zone(rule) by {
          assert i > 0 && '*' in rule.pattern ==> labels[1..][i - 1] == lab;
        }
        assert lab in hl;
      }
      PartCharsInJoin(hl, lab, '\n');
    }
  }

  lemma ZoneIsAboveAndRoot(rule: Rule, q: seq<string>)
    requires if '*' in rule.pattern then Split(rule.pattern, '.')[0] == "*" else "*" !in Split(rule.pattern, '.')
    ensures Zone(rule) == AboveRoot(Zone(rule)) + RootLabels(Split(rule.pattern, '.'))
    ensures AboveIn(rule, q + Zone(rule)) == q + AboveRoot(Zone(rule))
  {
    var labels, zone := Split(rule.pattern, '.'), Zone(rule);
    LabelsAreAboveAndRoot(zone);
    LabelsAreAboveAndRoot(labels);
    hide Split, RootLabels, AboveRoot;
    var root, above := RootLabels(labels), AboveRoot(zone);
    assert root == RootLabels(zone);
    assert q + zone == q + above + root;
  }

  lemma NothingAboveZone(q: seq<string>, above: seq<string>, root: seq<string>, ps: Suffixes)
    requires AreTexts(q)
    ensures NoneAbove(above, root, ps) && NoneInFront(above + root, ps) ==> NoneAbove(q + above, root, ps)
    ensures NoneAbove(q + above, root, ps) ==> NoneAbove(above, root, ps) && (q != [] ==> !ps(q + (above + root)))
  {
    hide IsLabelText;
    var zone, pre := above + root, q + above;
    assert pre + root == q + zone;
    if NoneAbove(above, root, ps) && NoneInFront(zone, ps) {
      forall k | 0 <= k < |pre|
        ensures !ps(pre[k..] + root)
      {
        if k < |q| {
          assert pre[k..] + root == q[k..] + zone && AreTexts(q[k..]) && q[k..] != [];
        } else {
          assert pre[k..] == above[k - |q|..];
        }
      }
    }
    if NoneAbove(pre, root, ps) {
      forall k | 0 <= k < |above|
        ensures !ps(above[k..] + root)
      {
        assert pre[k + |q|..] == above[k..];
      }
      assert pre[0..] == pre;
    }
  }

  /** The index finds every host of an indexable rule. */
  lemma IndexableIsIndexed(rule: Rule, host: string, ps: Suffixes)
    requires IsValidRule(rule) && IsIndexable(rule, ps)
    requires IsNormalHost(host) && InRule(rule, Split(host, '.')) && '.' in host
    ensures IndexedUnder(rule, ps, host)
  {
    hide IndexedUnder, IsValidRule, IsNormalHost, Split, Join, StarOrStarFree, ProperRoot, NoneAbove, RootLabels, IsLabelText;
    var labels, hl := Split(rule.pattern, '.'), Split(host, '.');
    var root := RootLabels(labels);
    IndexedWhen(rule, host, ps);
    NoNewlineInRule(rule, host);
    StarsAreLabels(rule);
    LabelsAreAboveAndRoot(labels);
    hide NoFillingAbove, NoneInFront, AboveRoot, Zone, InRule;
    if '*' !in rule.pattern && !rule.wildcard {
      PlainHasNothingAbove(rule, hl);
    } else if '*' in rule.pattern && labels[0] != "*" {
      var fill := FillingOfHost(rule, hl);
      assert NoneAbove(fill, root, ps) by { FillingIsFree(labels, fill, ps); }
    } else {
      var q := HostOfZone(rule, hl);
      ZoneIsAboveAndRoot(rule, q);
      NothingAboveZone(q, AboveRoot(Zone(rule)), root, ps);
    }
  }

  lemma StarsAreLabels(rule: Rule)
    requires IsValidRule(rule)
    ensures '*' in rule.pattern <==> "*" in Split(rule.pattern, '.')
  {
    ValidLabelsAreStarOrStarFree(Split(rule.pattern, '.'));
    StarInJoin(Split(rule.pattern, '.'));
  }

  lemma PlainHasNothingAbove(rule: Rule, hl: seq<string>)
    requires '*' !in rule.pattern && !rule.wildcard && InRule(rule, hl) && "*" !in Split(rule.pattern, '.')
    ensures AboveIn(rule, hl) == []
  {
    NoStarNoLoss(Split(rule.pattern, '.'));
  }

  lemma FillingOfHost(rule: Rule, hl: seq<string>) returns (fill: seq<string>)
    requires '*' in rule.pattern && Split(rule.pattern, '.')[0] != "*" && InRule(rule, hl)
    ensures fill == AboveIn(rule, hl) && LabelByLabel(AboveRoot(Split(rule.pattern, '.')), fill)
  {
    var labels := Split(rule.pattern, '.');
    fill := AboveIn(rule, hl);
    LabelsEndWithRoot(labels);
    hide Split, IsLabelText, RootLabels, AboveRoot;
    LabelByLabelEnd(labels, hl, RootLabels(labels));
    AboveInIs(rule, hl);
    FillingAndRoot(labels, fill);
  }

  lemma FillingIsFree(labels: seq<string>, fill: seq<string>, ps: Suffixes)
    requires NoFillingAbove(labels, ps) && LabelByLabel(AboveRoot(labels), fill)
    ensures NoneAbove(fill, RootLabels(labels), ps)
  {
  }

  /** A program whose in-scope rules are valid and indexable. */
  ghost predicate SafelyBuilt(st: AssetState, ps: Suffixes)
  {
    exists ins, outs :: BuiltFrom(st.matcher, ins, outs, ps)
      && forall r | r in ins :: IsValidRule(r) && IsIndexable(r, ps)
  }

  lemma MatchImpliesIndexed(st: AssetState, host: string, ps: Suffixes)
    requires SafelyBuilt(st, ps) && IsNormalHost(host) && MatcherMatches(st.matcher, host) && '.' in host
    ensures ExtractApex(host, ps) in st.matcher.apexRoots
  {
    hide NormHost, InRule, RootText, MatcherMatches, IsValidRule, IsIndexable, Split, BuiltFrom, IndexedUnder, IsNormalHost,
         ExtractApex;
    NormalIsItself(host);
    var ins, outs :| BuiltFrom(st.matcher, ins, outs, ps) && forall r | r in ins :: IsValidRule(r) && IsIndexable(r, ps);
    MatcherMeaning(st.matcher, ins, outs, ps, host);
    var rule :| rule in ins && InRule(rule, Split(host, '.'));
    IndexableIsIndexed(rule, host, ps);
    IndexedIsRoot(st.matcher, ins, outs, rule, host, ps);
  }

  lemma NormalIsItself(host: string)
    requires IsNormalHost(host)
    ensures NormHost(host) == host && '\n' !in host
  {
  }

  lemma IndexedIsRoot(m: Matcher, ins: seq<Rule>, outs: seq<Rule>, rule: Rule, host: string, ps: Suffixes)
    requires BuiltFrom(m, ins, outs, ps) && rule in ins && IndexedUnder(rule, ps, host)
    ensures ExtractApex(host, ps) in m.apexRoots
  {
    NoApexOfNothing(ps);
    hide RootText, ExtractApex, CompiledTexts, AllCompile;
    assert RootText(rule.pattern) != "";
    assert IsApexRoot(ins, ps, ExtractApex(host, ps));
  }

  lemma DotlessIsNotIndexed(st: AssetState, host: string, ps: Suffixes)
    requires SafelyBuilt(st, ps) && IsNormalHost(host) && '.' !in host
    ensures ExtractApex(host, ps) !in st.matcher.apexRoots
  {
    hide IsValidRule, IsIndexable, CompiledTexts, AllCompile;
    ExtractApexOfNormal(host, ps);
    ApexIsPart(Split(host, '.'), ps);
    assert |Split(host, '.')| == 1;
    JoinHasDot(ApexLabels(Split(host, '.'), ps));
    var ins, outs :| BuiltFrom(st.matcher, ins, outs, ps);
  }

  /**
   * The prefilter loses nothing: the programs under the host's apex include every program in scope. A host
   * without a dot, which the code does not look up, is under no apex.
   */
  lemma {:induction false} PrefilterLosesNothing(states: seq<AssetState>, host: string, ps: Suffixes)
    requires IsNormalHost(host) && forall st | st in states :: SafelyBuilt(st, ps)
    ensures '.' in host ==> InScope(UnderApex(states, ExtractApex(host, ps)), host) == InScope(states, host)
    ensures '.' !in host ==> UnderApex(states, ExtractApex(host, ps)) == []
  {
    hide MatcherMatches, ExtractApex, IsNormalHost, SafelyBuilt;
    if states != [] {
      var init, last := states[..|states| - 1], states[|states| - 1];
      assert states == init + [last];
      var apex := ExtractApex(host, ps);
      PrefilterLosesNothing(init, host, ps);
      UnderApexStep(init, last, apex);
      if '.' !in host {
        DotlessIsNotIndexed(last, host, ps);
      } else {
        InScopeStep(init, last, host);
        InScopeStep(UnderApex(init, apex), last, host);
        if MatcherMatches(last.matcher, host) {
          MatchImpliesIndexed(last, host, ps);
        }
      }
    }
  }

  // ----- and when it does lose something

  lemma LetterIsLabel(c: char)
    requires 'a' <= c <= 'z'
    ensures IsLabelText([c])
  {
  }

  lemma RuleLabelsAreHostTexts(rule: Rule)
    requires IsValidRule(rule) && '\n' !in rule.pattern
    ensures forall lab | lab in Split(rule.pattern, '.') :: IsHostText(lab)
  {
    var labels := Split(rule.pattern, '.');
    forall lab | lab in labels
      ensures IsHostText(lab)
    {
      var i :| 0 <= i < |labels| && labels[i] == lab;
      if lab != "*" {
        if '\n' in lab {
          PartCharsInJoin(labels, lab, '\n');
        }
        assert IsHyphenated(lab);
      }
    }
  }

  /** The labels with a letter for every star. */
  function Filled(labels: seq<string>): seq<string>
  {
    seq(|labels|, i requires 0 <= i < |labels| => if labels[i] == "*" then "x" else labels[i])
  }

  lemma FilledFits(labels: seq<string>)
    ensures LabelByLabel(labels, Filled(labels))
  {
    LetterIsLabel('x');
    hide IsLabelText;
  }

  /** A host the index does not find: its labels are host texts of the rule, and its apex is not that of the root. */
  lemma StrayHost(rule: Rule, hl: seq<string>, ps: Suffixes)
    requires IsValidRule(rule) && InRule(rule, hl) && |hl| >= 2 && forall lab | lab in hl :: IsHostText(lab)
    requires var pre := AboveIn(rule, hl);
      pre != [] && !(ProperRoot(RootLabels(Split(rule.pattern, '.')), ps) && NoneAbove(pre, RootLabels(Split(rule.pattern, '.')), ps))
    ensures var host := Join(hl, '.');
      IsNormalHost(host) && '.' in host && InRule(rule, Split(host, '.')) && !IndexedUnder(rule, ps, host)
  {
    var host := Join(hl, '.');
    HostTextsAreNormal(hl);
    hide Split, Join, InRule, IsHostText, NormHost, Strip, Lower, ProperRoot, NoneAbove, IndexedUnder, IsValidRule;
    JoinHasDot(hl);
    IndexedWhen(rule, host, ps);
  }

  lemma FillingIsLost(rule: Rule, ps: Suffixes) returns (hl: seq<string>)
    requires IsValidRule(rule) && !IsIndexable(rule, ps) && '*' in rule.pattern && Split(rule.pattern, '.')[0] != "*"
    ensures var host := Join(hl, '.');
      IsNormalHost(host) && '.' in host && InRule(rule, Split(host, '.')) && !IndexedUnder(rule, ps, host)
  {
    var labels := Split(rule.pattern, '.');
    var above, root := AboveRoot(labels), RootLabels(labels);
    ValidLabelsAreStarOrStarFree(labels);
    StarInJoin(labels);
    LabelsAreAboveAndRoot(labels);
    RuleLabelsAreHostTexts(rule);
    assert |above| >= 2 by {
      assert above[0] == labels[0];
      assert "*" in above;
    }
    hide IsValidRule, Join, Split, RootLabels, AboveRoot, StarOrStarFree, IsNormalHost, IndexedUnder, IsHostText, IsLabelText;
    var fill := Filled(above);
    FilledFits(above);
    if ProperRoot(root, ps) {
      fill :| LabelByLabel(above, fill) && !NoneAbove(fill, root, ps);
    }
    hl := fill + root;
    FillingAndRoot(labels, fill);
    assert AboveIn(rule, hl) == fill;
    FilledIsHost(labels, above, root, fill);
    StrayHost(rule, hl, ps);
  }

  lemma FilledIsHost(labels: seq<string>, above: seq<string>, root: seq<string>, fill: seq<string>)
    requires labels == above + root && LabelByLabel(above, fill) && forall lab | lab in labels :: IsHostText(lab)
    ensures forall lab | lab in fill + root :: IsHostText(lab)
  {
    forall i | 0 <= i < |fill|
      ensures IsHostText(fill[i])
    {
      assert above[i] in labels;
    }
    assert forall lab | lab in root :: lab in labels;
  }

  lemma StrayFront(above: seq<string>, root: seq<string>, ps: Suffixes) returns (q: seq<string>)
    requires !(ProperRoot(root, ps) && NoneAbove(above, root, ps) && NoneInFront(above + root, ps))
    ensures q != [] && AreTexts(q) && |q + (above + root)| >= 2
    ensures !(ProperRoot(root, ps) && NoneAbove(q + above, root, ps))
  {
    LetterIsLabel('x');
    hide IsLabelText;
    q := ["x", "x"];
    if ProperRoot(root, ps) && NoneAbove(above, root, ps) {
      q :| q != [] && AreTexts(q) && ps(q + (above + root));
    }
    NothingAboveZone(q, above, root, ps);
  }

  lemma ZoneIsLost(rule: Rule, ps: Suffixes) returns (hl: seq<string>)
    requires IsValidRule(rule) && !IsIndexable(rule, ps)
    requires if '*' in rule.pattern then Split(rule.pattern, '.')[0] == "*" else rule.wildcard
    ensures var host := Join(hl, '.');
      IsNormalHost(host) && '.' in host && InRule(rule, Split(host, '.')) && !IndexedUnder(rule, ps, host)
  {
    hide IsValidRule, Join, Split, RootLabels, StarOrStarFree, IsNormalHost, IndexedUnder, IsHostText, IsLabelText, InRule,
         AboveRoot, NoneAbove, ProperRoot, AboveIn, NoneInFront;
    var labels, zone := Split(rule.pattern, '.'), Zone(rule);
    StarsAreLabels(rule);
    RuleLabelsAreHostTexts(rule);
    assert forall lab | lab in zone :: lab in labels;
    hide Zone;
    ZoneIsAboveAndRoot(rule, []);
    var q := StrayFront(AboveRoot(zone), RootLabels(labels), ps);
    hl := q + zone;
    ZoneIsAboveAndRoot(rule, q);
    ZoneWithFront(rule, q);
    TextsAreHostTexts(q);
    StrayHost(rule, hl, ps);
  }

  lemma TextsAreHostTexts(labels: seq<string>)
    requires AreTexts(labels)
    ensures forall lab | lab in labels :: IsHostText(lab)
  {
    assert forall lab | lab in labels :: IsLabelText(lab);
  }

  /**
   * The exact condition, for every valid rule of every form: the index finds all its dotted hosts under its apex
   * if and only if the rule is indexable.
   */
  lemma IndexableExactly(rule: Rule, ps: Suffixes)
    requires IsValidRule(rule)
    ensures IsIndexable(rule, ps)
       <==> forall host | IsNormalHost(host) && InRule(rule, Split(host, '.')) && '.' in host :: IndexedUnder(rule, ps, host)
  {
    hide IsNormalHost, IndexedUnder, Split, Join;
    if IsIndexable(rule, ps) {
      forall host | IsNormalHost(host) && InRule(rule, Split(host, '.')) && '.' in host
        ensures IndexedUnder(rule, ps, host)
      {
        IndexableIsIndexed(rule, host, ps);
      }
    } else {
      var hl;
      if '*' in rule.pattern && Split(rule.pattern, '.')[0] != "*" {
        hl := FillingIsLost(rule, ps);
      } else {
        hl := ZoneIsLost(rule, ps);
      }
      assert !IndexedUnder(rule, ps, Join(hl, '.'));
    }
  }

  // ----- the index and the lookup

  function Lookup<V>(m: map<string, seq<V>>, key: string): seq<V>
  {
    if key in m then m[key] else []
  }

  ghost predicate IsApexIndex(index: map<string, seq<string>>, states: seq<AssetState>)
  {
    forall apex :: Lookup(index, apex) == Names(UnderApex(states, apex))
  }

  /** The index after the roots of one more program, except those still to do, have been entered. */
  ghost predicate IsGrowing(index: map<string, seq<string>>, before: seq<AssetState>, name: string, done: set<string>)
  {
    forall apex ::
      Lookup(index, apex) == if apex in done then Names(UnderApex(before, apex)) + [name] else Names(UnderApex(before, apex))
  }

  lemma NamesStep(states: seq<AssetState>, st: AssetState)
    ensures Names(states + [st]) == Names(states) + [st.name]
  {
  }

  lemma GrownIndex(index: map<string, seq<string>>, before: seq<AssetState>, st: AssetState)
    requires IsGrowing(index, before, st.name, st.matcher.apexRoots)
    ensures IsApexIndex(index, before + [st])
  {
    hide Lookup, UnderApex;
    forall apex ensures Lookup(index, apex) == Names(UnderApex(before + [st], apex)) {
      UnderApexStep(before, st, apex);
      NamesStep(UnderApex(before, apex), st);
    }
  }

  method BuildApexIndex(states: seq<AssetState>) returns (index: map<string, seq<string>>)
    ensures IsApexIndex(index, states)
  {
    index := map[];
    for i := 0 to |states|
      invariant IsApexIndex(index, states[..i])
    {
      var name, roots := states[i].name, states[i].matcher.apexRoots;
      var todo := roots;
      ghost var before := states[..i];
      while todo != {}
        invariant todo <= roots
        invariant IsGrowing(index, before, name, roots - todo)
      {
        hide UnderApex, Names;
        var apex :| apex in todo;
        index := index[apex := Lookup(index, apex) + [name]];
        todo := todo - {apex};
      }
      assert roots - todo == roots;
      GrownIndex(index, before, states[i]);
      assert states[..i + 1] == before + [states[i]];
    }
    assert states[..|states|] == states;
  }

  function FindState(states: seq<AssetState>, name: string): Option<AssetState>
  {
    if states == [] then None
    else if states[0].name == name then Some(states[0]) else FindState(states[1..], name)
  }

  lemma {:induction false} FindStateFinds(states: seq<AssetState>, st: AssetState)
    requires DistinctNames(states) && st in states
    ensures FindState(states, st.name) == Some(st)
  {
    if st != states[0] {
      FindStateFinds(states[1..], st);
      var k :| 1 <= k < |states| && states[k] == st;
    }
  }

  lemma {:induction false} UnderApexIsPart(states: seq<AssetState>, apex: string)
    ensures forall st | st in UnderApex(states, apex) :: st in states
    ensures DistinctNames(states) ==> DistinctNames(UnderApex(states, apex))
  {
    if states != [] {
      var init, last := states[..|states| - 1], states[|states| - 1];
      UnderApexIsPart(init, apex);
      if DistinctNames(states) {
        forall st | st in UnderApex(init, apex) ensures st.name != last.name {
          var k :| 0 <= k < |init| && init[k] == st;
          assert states[k] == st;
        }
      }
    }
  }

  /** The matches a host adds: one per given program that has not been paired with it before. */
  function NewMatches(host: string, programs: seq<AssetState>, seen: set<(string, string)>): seq<AssetMatch>
  {
    if programs == [] then [] else
    var init, last := NewMatches(host, programs[..|programs| - 1], seen), programs[|programs| - 1];
    if (host, last.name) in seen then init else init + [(host, last.name, last.id)]
  }

  ghost predicate SeenIsKeys(seen: set<(string, string)>, out: seq<AssetMatch>)
  {
    (forall i | 0 <= i < |out| :: (out[i].0, out[i].1) in seen)
    && (forall key | key in seen :: exists i :: 0 <= i < |out| && (out[i].0, out[i].1) == key)
    && forall i, j | 0 <= i < j < |out| :: (out[i].0, out[i].1) != (out[j].0, out[j].1)
  }

  function AssetHost(domainLower: string): string
  {
    if "*." <= domainLower then domainLower[2..] else domainLower
  }

  /** The host of a name: what follows a leading `*.`, or the name. */
  lemma AssetHostIs(domainLower: string)
    ensures var host := AssetHost(domainLower);
      domainLower == "*." + host || (domainLower == host && !("*." <= domainLower))
  {
  }

  lemma {:induction false} InScopeMembers(states: seq<AssetState>, host: string)
    ensures forall st :: st in InScope(states, host) <==> st in states && MatcherMatches(st.matcher, host)
    ensures forall i, j | 0 <= i < j < |InScope(states, host)| :: IsBefore(states, InScope(states, host)[i], InScope(states, host)[j])
  {
    hide MatcherMatches, IsBefore;
    if states != [] {
      var init, last := states[..|states| - 1], states[|states| - 1];
      InScopeMembers(init, host);
      assert states == init + [last];
      forall a, b ensures (IsBefore(init, a, b) ==> IsBefore(states, a, b)) && (a in init ==> IsBefore(states, a, last)) {
        StillBefore(init, last, a, b);
      }
    }
  }

  ghost predicate IsBefore(states: seq<AssetState>, a: AssetState, b: AssetState)
  {
    exists i, j :: 0 <= i < j < |states| && states[i] == a && states[j] == b
  }

  lemma StillBefore(init: seq<AssetState>, last: AssetState, a: AssetState, b: AssetState)
    ensures IsBefore(init, a, b) ==> IsBefore(init + [last], a, b)
    ensures a in init ==> IsBefore(init + [last], a, last)
  {
    var states := init + [last];
    if IsBefore(init, a, b) {
      var i, j :| 0 <= i < j < |init| && init[i] == a && init[j] == b;
      assert states[i] == a && states[j] == b;
    }
    if a in init {
      var i :| 0 <= i < |init| && init[i] == a;
      assert states[i] == a && states[|init|] == last;
    }
  }

  /** The names in scope are those of the programs whose matcher takes the host. */
  lemma NamesInScope(states: seq<AssetState>, host: string, name: string)
    ensures name in Names(InScope(states, host))
      <==> exists st :: st in states && st.name == name && MatcherMatches(st.matcher, host)
  {
    hide MatcherMatches, InScope;
    InScopeMembers(states, host);
    var scope := InScope(states, host);
    if st :| st in states && st.name == name && MatcherMatches(st.matcher, host) {
      var i :| 0 <= i < |scope| && scope[i] == st;
      assert Names(scope)[i] == name;
    }
    if name in Names(scope) {
      var i :| 0 <= i < |scope| && Names(scope)[i] == name;
      assert scope[i] in scope;
    }
  }

  /** What is reported: a triple for each program given that is not yet paired with the host, with the program's id. */
  lemma {:induction false} NewMatchesExactly(host: string, programs: seq<AssetState>, seen: set<(string, string)>)
    ensures forall m :: m in NewMatches(host, programs, seen) <==>
      (m.0 == host && (host, m.1) !in seen && exists st :: st in programs && st.name == m.1 && st.id == m.2)
  {
    if programs != [] {
      var init, last := programs[..|programs| - 1], programs[|programs| - 1];
      NewMatchesExactly(host, init, seen);
      assert programs == init + [last];
    }
  }

  /** Asset matching for one certificate name, by the index. Each (host, program) pair is reported once. */
  method MatchAssetsForDomain(domainLower: string, states: seq<AssetState>, index: map<string, seq<string>>, ps: Suffixes,
                              seen: set<(string, string)>, out: seq<AssetMatch>)
    returns (seen': set<(string, string)>, out': seq<AssetMatch>)
    requires DistinctNames(states) && IsApexIndex(index, states) && SeenIsKeys(seen, out)
    ensures SeenIsKeys(seen', out')
    ensures out' == out + IndexedMatches(AssetHost(domainLower), states, ps, seen)
  {
    hide MatcherMatches, ExtractApex, SeenIsKeys, UnderApex, InScope, NewMatches, DistinctNames;
    var host := AssetHost(domainLower);
    if '.' !in host {
      return seen, out;
    }
    var apex := ExtractApex(host, ps);
    if apex == "" {
      return seen, out;
    }
    UnderApexIsPart(states, apex);
    seen', out' := MatchCandidates(host, Lookup(index, apex), states, seen, out, UnderApex(states, apex));
  }

  /** Tests the candidates in order; `programs` are the states they name. */
  method MatchCandidates(host: string, candidates: seq<string>, states: seq<AssetState>,
                         seen: set<(string, string)>, out: seq<AssetMatch>, ghost programs: seq<AssetState>)
    returns (seen': set<(string, string)>, out': seq<AssetMatch>)
    requires DistinctNames(states) && DistinctNames(programs) && forall st | st in programs :: st in states
    requires candidates == Names(programs) && SeenIsKeys(seen, out)
    ensures SeenIsKeys(seen', out')
    ensures out' == out + NewMatches(host, InScope(programs, host), seen)
  {
    hide MatcherMatches, SeenIsKeys, DistinctNames, FindState, Names;
    seen', out' := seen, out;
    for i := 0 to |candidates|
      invariant SeenIsKeys(seen', out')
      invariant out' == out + NewMatches(host, InScope(programs[..i], host), seen)
      invariant SeenGrows(seen, seen', host, candidates[..i])
    {
      hide InScope, NewMatches, SeenGrows;
      var name := candidates[i];
      NotYetSeen(programs, i);
      FindStateFinds(states, programs[i]);
      NextCandidate(host, programs, i, seen);
      assert candidates[..i + 1] == candidates[..i] + [name];
      SeenStep(seen, seen', host, candidates[..i], name);
      if (host, name) in seen' {
        continue;
      }
      var found := FindState(states, name);
      if found.Some? && MatcherMatches(found.value.matcher, host) {
        KeysGrow(seen', out', host, name, found.value.id);
        seen' := seen' + {(host, name)};
        out' := out' + [(host, name, found.value.id)];
      }
    }
    assert programs[..|candidates|] == programs;
  }

  /** What the indexed lookup reports for a host. */
  function IndexedMatches(host: string, states: seq<AssetState>, ps: Suffixes, seen: set<(string, string)>): seq<AssetMatch>
  {
    if '.' !in host || ExtractApex(host, ps) == "" then []
    else NewMatches(host, InScope(UnderApex(states, ExtractApex(host, ps)), host), seen)
  }

  /** `seen'` adds to `seen` only pairs of the host with some of the names. */
  ghost predicate SeenGrows(seen: set<(string, string)>, seen': set<(string, string)>, host: string, names: seq<string>)
  {
    seen <= seen' && forall key | key in seen' && key !in seen :: key.0 == host && key.1 in names
  }

  lemma SeenStep(seen: set<(string, string)>, seen': set<(string, string)>, host: string, names: seq<string>, name: string)
    requires SeenGrows(seen, seen', host, names) && name !in names
    ensures SeenGrows(seen, seen', host, names + [name]) && SeenGrows(seen, seen' + {(host, name)}, host, names + [name])
    ensures (host, name) in seen' <==> (host, name) in seen
  {
  }

  lemma KeysGrow(seen: set<(string, string)>, out: seq<AssetMatch>, host: string, name: string, id: string)
    requires SeenIsKeys(seen, out) && (host, name) !in seen
    ensures SeenIsKeys(seen + {(host, name)}, out + [(host, name, id)])
  {
    var seen', out' := seen + {(host, name)}, out + [(host, name, id)];
    forall key | key in seen' ensures exists i :: 0 <= i < |out'| && (out'[i].0, out'[i].1) == key {
      if key in seen {
        var i :| 0 <= i < |out| && (out[i].0, out[i].1) == key;
        assert out'[i] == out[i];
      } else {
        assert out'[|out|] == (host, name, id);
      }
    }
  }

  lemma NotYetSeen(under: seq<AssetState>, i: nat)
    requires DistinctNames(under) && i < |under|
    ensures Names(under)[i] == under[i].name && under[i].name !in Names(under)[..i]
  {
  }

  lemma NextCandidate(host: string, under: seq<AssetState>, i: nat, seen: set<(string, string)>)
    requires i < |under|
    ensures NewMatches(host, InScope(under[..i + 1], host), seen)
         == NewMatches(host, InScope(under[..i], host), seen)
          + if MatcherMatches(under[i].matcher, host) && (host, under[i].name) !in seen
            then [(host, under[i].name, under[i].id)] else []
  {
    hide MatcherMatches;
    assert under[..i + 1] == under[..i] + [under[i]];
    InScopeStep(under[..i], under[i], host);
    var ms := InScope(under[..i], host);
    assert (ms + [under[i]])[..|ms|] == ms;
  }

  /**
   * What the indexed lookup reports for a normal host is what a scan of every program would report,
   * as long as every in-scope rule is indexable.
   */
  lemma IndexedMatchesAreScanMatches(states: seq<AssetState>, host: string, ps: Suffixes, seen: set<(string, string)>)
    requires IsNormalHost(host) && '.' in host && forall st | st in states :: SafelyBuilt(st, ps)
    ensures IndexedMatches(host, states, ps, seen) == NewMatches(host, InScope(states, host), seen)
  {
    hide MatcherMatches, SafelyBuilt, NewMatches, UnderApex, InScope, ExtractApex, IsNormalHost;
    PrefilterLosesNothing(states, host, ps);
    ApexOfNormalHost(host, ps);
  }

  lemma ApexOfNormalHost(host: string, ps: Suffixes)
    requires IsNormalHost(host)
    ensures ExtractApex(host, ps) != ""
  {
    ExtractApexOfNormal(host, ps);
    var apex := ApexLabels(Split(host, '.'), ps);
    assert apex[0] == "" ==> apex == Split(host, '.');
  }
}
