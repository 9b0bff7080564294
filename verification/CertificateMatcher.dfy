/** Matching one certificate against a snapshot (`certificate_matcher.py`). */
module CertificateMatcher {
  import opened Text
  import opened DomainLabels
  import opened Similarity
  import opened VariationGenerator
  import opened AssetMatching

  datatype ProgramState = ProgramState(name: string, keywords: seq<string>, threshold: real, lengths: seq<nat>,
                                       prepared: seq<PreparedProtected>)

  datatype MatchKind = Dnstwist(fuzzer: string) | Keyword | ProtectedSimilarity
  datatype MatchResult = MatchResult(protectedDomain: string, certDomain: string, score: real, kind: MatchKind)
  type Alert = (MatchResult, string)

  const KEYWORD_SCORE: real := 0.90
  const VARIATION_SCORE: real := 0.95

  // ----- keywords

  predicate Contains(text: string, part: string)
  {
    exists i | 0 <= i <= |text| :: part <= text[i..]
  }

  /** The first keyword, in program order, present in the name. */
  function FirstKeyword(d: string, keywords: seq<string>): (r: Option<string>)
  {
    if keywords == [] then None
    else if Contains(d, keywords[0]) then Some(keywords[0]) else FirstKeyword(d, keywords[1..])
  }

  /** What one scan of the automaton over all programs' keywords reports for a name. */
  function AutomatonScan(d: string, all: set<string>): set<string>
  {
    set kw | kw in all && Contains(d, kw)
  }

  /** With or without the automaton, the answer is the first keyword the name contains. */
  method FirstMatchingKeyword(d: string, keywords: seq<string>, matched: Option<set<string>>, ghost all: set<string>)
    returns (r: Option<string>)
    requires matched.Some? ==> matched.value == AutomatonScan(d, all) && forall kw | kw in keywords :: kw in all
    ensures r == FirstKeyword(d, keywords)
  {
    hide Contains;
    for i := 0 to |keywords|
      invariant FirstKeyword(d, keywords) == FirstKeyword(d, keywords[i..])
    {
      assert keywords[i..][1..] == keywords[i + 1..];
      if (if matched.Some? then keywords[i] in matched.value else Contains(d, keywords[i])) {
        return Some(keywords[i]);
      }
    }
    return None;
  }

  /** The keyword stands somewhere in the name. */
  ghost predicate Occurs(d: string, keyword: string)
  {
    exists a, b :: d == a + keyword + b
  }

  lemma ContainsIsOccurs(d: string, keyword: string)
    ensures Contains(d, keyword) <==> Occurs(d, keyword)
  {
    if Contains(d, keyword) {
      var i :| 0 <= i <= |d| && keyword <= d[i..];
      assert d == d[..i] + keyword + d[i + |keyword|..];
    }
    if a, b :| d == a + keyword + b {
      assert keyword <= d[|a|..];
    }
  }

  /** The `k`-th keyword is the first that occurs in the name. */
  ghost predicate FirstOccurring(d: string, keywords: seq<string>, k: int)
  {
    0 <= k < |keywords| && Occurs(d, keywords[k]) && forall j | 0 <= j < k :: !Occurs(d, keywords[j])
  }

  lemma {:induction false} FirstKeywordMeaning(d: string, keywords: seq<string>)
    ensures FirstKeyword(d, keywords).None? <==> forall j | 0 <= j < |keywords| :: !Occurs(d, keywords[j])
    ensures FirstKeyword(d, keywords).Some? ==>
      exists k :: FirstOccurring(d, keywords, k) && FirstKeyword(d, keywords) == Some(keywords[k])
  {
    hide Contains, Occurs;
    if keywords != [] {
      ContainsIsOccurs(d, keywords[0]);
      var rest := keywords[1..];
      FirstKeywordMeaning(d, rest);
      assert forall j | 0 < j < |keywords| :: keywords[j] == rest[j - 1];
      if Occurs(d, keywords[0]) {
        assert FirstOccurring(d, keywords, 0);
      } else {
        assert forall j | 0 <= j < |rest| :: rest[j] == keywords[j + 1];
        if FirstKeyword(d, rest).Some? {
          var k :| FirstOccurring(d, rest, k) && FirstKeyword(d, rest) == Some(rest[k]);
          assert FirstOccurring(d, keywords, k + 1);
        }
      }
    }
  }

  // ----- one program

  /** The decision as the code takes it: keyword, length gate, best match with the threshold as cutoff. */
  ghost function ProgramDecision(d: string, state: ProgramState, ps: Suffixes): (Option<MatchResult>, bool)
  {
    match FirstKeyword(d, state.keywords)
    case Some(kw) => (Some(MatchResult(kw, d, KEYWORD_SCORE, Keyword)), false)
    case None =>
      if state.prepared == [] then (None, false)
      else if GateCloses(PrepareTypo(d, ps), state.lengths, state.threshold) then (None, true)
      else (AboveThreshold(d, Best(PrepareTypo(d, ps), state.prepared, state.threshold), state.threshold), false)
  }

  function AboveThreshold(d: string, best: (real, Option<string>), threshold: real): Option<MatchResult>
  {
    if best.0 >= threshold && best.1.Some? then Some(MatchResult(best.1.value, d, best.0, ProtectedSimilarity)) else None
  }

  /** The decision without any shortcut: keyword, else the exact best match. */
  ghost function PlainDecision(d: string, state: ProgramState, ps: Suffixes): Option<MatchResult>
  {
    match FirstKeyword(d, state.keywords)
    case Some(kw) => Some(MatchResult(kw, d, KEYWORD_SCORE, Keyword))
    case None => AboveThreshold(d, Best(PrepareTypo(d, ps), state.prepared, 0.0), state.threshold)
  }

  ghost predicate InBlindSpot(d: string, state: ProgramState, ps: Suffixes)
  {
    exists f, p :: f in PrepareTypo(d, ps) && p in state.prepared && BlindSpot(f, p, state.threshold)
  }

  lemma CutoffKeepsDecision(d: string, typo: seq<PreparedFragment>, prots: seq<PreparedProtected>, threshold: real)
    requires threshold >= 0.0
    ensures AboveThreshold(d, Best(typo, prots, threshold), threshold) == AboveThreshold(d, Best(typo, prots, 0.0), threshold)
  {
    BestIsBest(typo, prots, 0.0);
    BestIsBest(typo, prots, threshold);
    hide Best, IsBest;
    CutoffRefinesBest(typo, prots, threshold, Best(typo, prots, 0.0).0, Best(typo, prots, 0.0).1,
                      Best(typo, prots, threshold).0, Best(typo, prots, threshold).1);
  }

  lemma PlainReaches(d: string, typo: seq<PreparedFragment>, prots: seq<PreparedProtected>, threshold: real)
    ensures AboveThreshold(d, Best(typo, prots, 0.0), threshold).Some?
       <==> exists f, p :: f in typo && p in prots && Reaches(PairSimilarity(f, p, 0.0), threshold)
  {
    hide Best, PairSimilarity;
    BestReaches(typo, prots, threshold);
  }

  /**
   * The shortcuts change the decision exactly when no keyword matches, the length gate closes, and some
   * pair lies in its blind spot; then the alert is lost. The score cutoff never changes anything.
   */
  lemma ShortcutsLoseExactlyBlindSpots(d: string, state: ProgramState, ps: Suffixes)
    requires state.threshold >= 0.0 && LengthsOf(state.lengths, state.prepared)
    ensures ProgramDecision(d, state, ps).0 != PlainDecision(d, state, ps)
       <==> FirstKeyword(d, state.keywords).None? && state.prepared != []
            && GateCloses(PrepareTypo(d, ps), state.lengths, state.threshold) && InBlindSpot(d, state, ps)
    ensures ProgramDecision(d, state, ps).0 != PlainDecision(d, state, ps) ==> ProgramDecision(d, state, ps).0.None?
  {
    var typo := PrepareTypo(d, ps);
    CutoffKeepsDecision(d, typo, state.prepared, state.threshold);
    PlainReaches(d, typo, state.prepared, state.threshold);
    if GateCloses(typo, state.lengths, state.threshold) {
      GateLosesExactlyBlindSpots(typo, state.prepared, state.lengths, state.threshold);
    }
    hide PrepareTypo, GateCloses, LengthsOf, BlindSpot, PairSimilarity, FirstKeyword;
    if state.prepared == [] {
      assert Best(typo, state.prepared, 0.0) == (0.0, None);
    }
    hide Best;
  }

  /** What the program alerts for a name, and with what, without a word about how it is searched for. */
  ghost predicate ProgramAlerts(d: string, state: ProgramState, ps: Suffixes, m: MatchResult)
  {
    m.certDomain == d
    && match m.kind
       case Keyword => m.score == 0.90 && exists k :: FirstOccurring(d, state.keywords, k) && m.protectedDomain == state.keywords[k]
       case ProtectedSimilarity =>
         (forall j | 0 <= j < |state.keywords| :: !Occurs(d, state.keywords[j]))
         && !GateCloses(PrepareTypo(d, ps), state.lengths, state.threshold)
         && m.score >= state.threshold && IsBest(PrepareTypo(d, ps), state.prepared, 0.0, m.score, Some(m.protectedDomain))
       case Dnstwist(_) => false
  }

  /** The gate is asked, and closes. */
  ghost predicate GateSkips(d: string, state: ProgramState, ps: Suffixes)
  {
    (forall j | 0 <= j < |state.keywords| :: !Occurs(d, state.keywords[j]))
    && state.prepared != [] && GateCloses(PrepareTypo(d, ps), state.lengths, state.threshold)
  }

  lemma SimilarityMeaning(d: string, state: ProgramState, typo: seq<PreparedFragment>, s: real, p: string)
    requires state.threshold >= 0.0
    ensures AboveThreshold(d, Best(typo, state.prepared, state.threshold), state.threshold)
            == Some(MatchResult(p, d, s, ProtectedSimilarity))
      <==> s >= state.threshold && IsBest(typo, state.prepared, 0.0, s, Some(p))
  {
    CutoffKeepsDecision(d, typo, state.prepared, state.threshold);
    BestIsBest(typo, state.prepared, 0.0);
    hide IsBest, Best;
    var (s', p') := Best(typo, state.prepared, 0.0);
    if IsBest(typo, state.prepared, 0.0, s, Some(p)) {
      BestIsUnique(typo, state.prepared, 0.0, s, Some(p), s', p');
    }
  }

  /** The decision of one program is what it alerts, and it counts as skipped exactly when the gate is asked and closes. */
  lemma ProgramDecisionMeaning(d: string, state: ProgramState, ps: Suffixes, m: MatchResult)
    requires state.threshold >= 0.0
    ensures ProgramDecision(d, state, ps).0 == Some(m) <==> ProgramAlerts(d, state, ps, m)
    ensures ProgramDecision(d, state, ps).1 <==> GateSkips(d, state, ps)
  {
    hide FirstKeyword, Occurs, GateCloses, IsBest, Best, PrepareTypo, AboveThreshold;
    FirstKeywordMeaning(d, state.keywords);
    SimilarityMeaning(d, state, PrepareTypo(d, ps), m.score, m.protectedDomain);
    AboveIsSimilar(d, Best(PrepareTypo(d, ps), state.prepared, state.threshold), state.threshold);
    NothingToMatch(PrepareTypo(d, ps), m.score, m.protectedDomain);
    if FirstKeyword(d, state.keywords).Some? {
      var k :| FirstOccurring(d, state.keywords, k) && FirstKeyword(d, state.keywords) == Some(state.keywords[k]);
      assert forall j | FirstOccurring(d, state.keywords, j) :: j == k;
    }
  }

  lemma AboveIsSimilar(d: string, best: (real, Option<string>), threshold: real)
    ensures AboveThreshold(d, best, threshold).Some? ==>
      AboveThreshold(d, best, threshold).value.kind == ProtectedSimilarity && AboveThreshold(d, best, threshold).value.certDomain == d
  {
  }

  lemma NothingToMatch(typo: seq<PreparedFragment>, s: real, p: string)
    ensures !IsBest(typo, [], 0.0, s, Some(p))
  {
  }

  /** What the snapshot's automaton was built from: all programs' keywords, or nothing. */
  ghost predicate AutomatonFor(automaton: Option<set<string>>, programs: seq<ProgramState>)
  {
    automaton.Some? ==> forall p, kw | p in programs && kw in p.keywords :: kw in automaton.value
  }

  method MatchKeywordOrSimilarity(d: string, state: ProgramState, matched: Option<set<string>>, ghost all: set<string>,
                                  prepared: seq<PreparedFragment>, ps: Suffixes)
    returns (result: Option<MatchResult>, skipped: bool)
    requires matched.Some? ==> matched.value == AutomatonScan(d, all) && forall kw | kw in state.keywords :: kw in all
    requires prepared == PrepareTypo(d, ps)
    ensures (result, skipped) == ProgramDecision(d, state, ps)
  {
    hide AutomatonScan, PrepareTypo, FirstKeyword, GateCloses, Best, IsBest;
    var keyword := FirstMatchingKeyword(d, state.keywords, matched, all);
    if keyword.Some? {
      return Some(MatchResult(keyword.value, d, KEYWORD_SCORE, Keyword)), false;
    }
    if state.prepared != [] {
      var impossible := ImpossibleByLength(prepared, state.lengths, state.threshold);
      if impossible {
        return None, true;
      }
      var bestS, bestP := BestMatch(prepared, state.prepared, state.threshold);
      if bestS >= state.threshold && bestP.Some? {
        return Some(MatchResult(bestP.value, d, bestS, ProtectedSimilarity)), false;
      }
    }
    return None, false;
  }

  // ----- one name

  /** Programs in order until one matches: the alert, and how many programs the gate skipped on the way. */
  ghost function FirstProgram(d: string, programs: seq<ProgramState>, ps: Suffixes): (Option<Alert>, nat)
  {
    if programs == [] then (None, 0) else
    var (m, skipped) := ProgramDecision(d, programs[0], ps);
    var n := if skipped then 1 else 0;
    if m.Some? then (Some((m.value, programs[0].name)), n)
    else var (alert, more) := FirstProgram(d, programs[1..], ps); (alert, n + more)
  }

  datatype View = View(fqdns: set<string>, variations: map<string, VariationInfo>, programs: seq<ProgramState>, ps: Suffixes)

  /** The whole decision about one (trimmed, lower-case) name: the alert, if any, and the skip count. */
  ghost function Decide(d: string, v: View): (Option<Alert>, nat)
  {
    if IsSubdomainOfAny(d, v.fqdns) || d in v.fqdns then (None, 0) else
    match FindVariation(v.variations, d, v.ps)
    case Some(info) =>
      (Some((MatchResult(info.protectedDomain, d, VARIATION_SCORE, Dnstwist(info.fuzzer)), info.program)), 0)
    case None => FirstProgram(d, v.programs, v.ps)
  }

  /** The first matching program wins. */
  lemma {:induction false} FirstProgramIsFirst(d: string, programs: seq<ProgramState>, ps: Suffixes)
    ensures FirstProgram(d, programs, ps).0.None? ==>
      forall i | 0 <= i < |programs| :: ProgramDecision(d, programs[i], ps).0.None?
    ensures FirstProgram(d, programs, ps).0.Some? ==>
      exists i :: IsFirstMatch(d, programs, ps, FirstProgram(d, programs, ps).0.value, i)
  {
    hide ProgramDecision;
    if programs != [] && ProgramDecision(d, programs[0], ps).0.None? {
      var rest := programs[1..];
      FirstProgramIsFirst(d, rest, ps);
      var alert := FirstProgram(d, rest, ps).0;
      assert FirstProgram(d, programs, ps).0 == alert;
      if alert.Some? {
        var i :| IsFirstMatch(d, rest, ps, alert.value, i);
        LaterMatch(d, programs, ps, alert.value, i);
      } else {
        forall i | 0 <= i < |programs| ensures ProgramDecision(d, programs[i], ps).0.None? {
          if i > 0 { assert programs[i] == rest[i - 1]; }
        }
      }
    } else if programs != [] {
      assert IsFirstMatch(d, programs, ps, FirstProgram(d, programs, ps).0.value, 0);
    }
  }

  lemma LaterMatch(d: string, programs: seq<ProgramState>, ps: Suffixes, alert: Alert, i: int)
    requires programs != [] && ProgramDecision(d, programs[0], ps).0.None? && IsFirstMatch(d, programs[1..], ps, alert, i)
    ensures IsFirstMatch(d, programs, ps, alert, i + 1)
  {
    hide ProgramDecision;
    forall k | 0 <= k < i + 1 ensures ProgramDecision(d, programs[k], ps).0.None? {
      if k > 0 { assert programs[k] == programs[1..][k - 1]; }
    }
  }

  ghost predicate IsFirstMatch(d: string, programs: seq<ProgramState>, ps: Suffixes, alert: Alert, i: int)
  {
    0 <= i < |programs| && alert.1 == programs[i].name
    && ProgramDecision(d, programs[i], ps).0 == Some(alert.0)
    && forall k | 0 <= k < i :: ProgramDecision(d, programs[k], ps).0.None?
  }

  /** The alert of the entry stored under the name's key. */
  ghost predicate VariationAlerts(d: string, v: View, alert: Alert)
  {
    exists key :: HasKey(d, key, v.ps) && key in v.variations
      && alert == (MatchResult(v.variations[key].protectedDomain, d, 0.95, Dnstwist(v.variations[key].fuzzer)),
                   v.variations[key].program)
  }

  /** The `i`-th program is the first to alert, and alerts so. */
  ghost predicate FirstAlerts(d: string, v: View, alert: Alert, i: int)
  {
    0 <= i < |v.programs| && alert.1 == v.programs[i].name && ProgramAlerts(d, v.programs[i], v.ps, alert.0)
    && forall k, m | 0 <= k < i :: !ProgramAlerts(d, v.programs[k], v.ps, m)
  }

  ghost predicate PositiveThresholds(programs: seq<ProgramState>)
  {
    forall p | p in programs :: p.threshold >= 0.0
  }

  /**
   * The decision about a name: nothing for a protected name or a name under one; else the variation stored under
   * its key; else the alert of the first program that has one.
   */
  lemma DecideMeaning(d: string, v: View, alert: Alert)
    requires HasNoEmptyLabel(d) && PositiveThresholds(v.programs)
    ensures Decide(d, v).0 == Some(alert)
      <==> (forall p | p in v.fqdns :: d != p && !EndsAfter(d, '.', p))
           && (VariationAlerts(d, v, alert)
               || ((forall key | HasKey(d, key, v.ps) :: key !in v.variations) && exists i :: FirstAlerts(d, v, alert, i)))
  {
    hide FindVariation, FirstProgram, HasKey, HasNoEmptyLabel, FirstAlerts, PositiveThresholds, EndsAfter;
    VariationMeaning(d, v, alert);
    ProgramsMeaning(d, v, alert);
    hide VariationAlerts;
    assert IsSubdomainOfAny(d, v.fqdns) || d in v.fqdns <==> exists p :: p in v.fqdns && (d == p || EndsAfter(d, '.', p));
  }

  lemma VariationMeaning(d: string, v: View, alert: Alert)
    requires HasNoEmptyLabel(d)
    ensures var found := FindVariation(v.variations, d, v.ps);
      (found.Some? <==> exists key :: HasKey(d, key, v.ps) && key in v.variations)
      && (found.Some? ==>
            (VariationAlerts(d, v, alert) <==>
             alert == (MatchResult(found.value.protectedDomain, d, VARIATION_SCORE, Dnstwist(found.value.fuzzer)), found.value.program)))
      && (found.None? ==> !VariationAlerts(d, v, alert))
  {
    hide FindVariation, HasKey, HasNoEmptyLabel;
    var found := FindVariation(v.variations, d, v.ps);
    forall info ensures FindVariation(v.variations, d, v.ps) == Some(info)
      <==> exists key :: HasKey(d, key, v.ps) && key in v.variations && v.variations[key] == info
    {
      FoundUnderKey(v.variations, d, v.ps, info);
    }
    forall key | HasKey(d, key, v.ps) && key in v.variations ensures found.Some? {
      assert FindVariation(v.variations, d, v.ps) == Some(v.variations[key]);
    }
    if found.Some? {
      var key :| HasKey(d, key, v.ps) && key in v.variations && v.variations[key] == found.value;
      forall other | HasKey(d, other, v.ps) && other in v.variations ensures v.variations[other] == found.value {
        assert FindVariation(v.variations, d, v.ps) == Some(v.variations[other]);
      }
    }
  }

  lemma ProgramsMeaning(d: string, v: View, alert: Alert)
    requires PositiveThresholds(v.programs)
    ensures FirstProgram(d, v.programs, v.ps).0 == Some(alert) <==> exists i :: FirstAlerts(d, v, alert, i)
  {
    hide ProgramDecision, FirstProgram, IsFirstMatch, FirstAlerts;
    FirstProgramIsFirst(d, v.programs, v.ps);
    var first := FirstProgram(d, v.programs, v.ps).0;
    if first.Some? {
      var i :| IsFirstMatch(d, v.programs, v.ps, first.value, i);
      FirstMatchAlerts(d, v, first.value, i);
      if j :| FirstAlerts(d, v, alert, j) {
        FirstMatchAlerts(d, v, alert, j);
        OneFirstMatch(d, v.programs, v.ps, alert, j, first.value, i);
      }
    }
    forall i ensures FirstAlerts(d, v, alert, i) ==> first.Some? {
      if FirstAlerts(d, v, alert, i) {
        FirstMatchAlerts(d, v, alert, i);
        MatchIsNotNone(d, v.programs, v.ps, alert, i);
      }
    }
  }

  lemma OneFirstMatch(d: string, programs: seq<ProgramState>, ps: Suffixes, a: Alert, i: int, b: Alert, j: int)
    requires IsFirstMatch(d, programs, ps, a, i) && IsFirstMatch(d, programs, ps, b, j)
    ensures a == b
  {
    hide ProgramDecision;
  }

  lemma MatchIsNotNone(d: string, programs: seq<ProgramState>, ps: Suffixes, alert: Alert, i: int)
    requires IsFirstMatch(d, programs, ps, alert, i)
    ensures exists k :: 0 <= k < |programs| && ProgramDecision(d, programs[k], ps).0.Some?
  {
    hide ProgramDecision;
  }

  lemma NoDecisionNoAlert(d: string, state: ProgramState, ps: Suffixes)
    requires state.threshold >= 0.0
    ensures ProgramDecision(d, state, ps).0.None? <==> forall m :: !ProgramAlerts(d, state, ps, m)
  {
    hide ProgramDecision, ProgramAlerts;
    var found := ProgramDecision(d, state, ps).0;
    forall m ensures found == Some(m) <==> ProgramAlerts(d, state, ps, m) {
      ProgramDecisionMeaning(d, state, ps, m);
    }
    if found.Some? {
      assert ProgramAlerts(d, state, ps, found.value);
    }
  }

  lemma FirstMatchAlerts(d: string, v: View, alert: Alert, i: int)
    requires PositiveThresholds(v.programs)
    ensures IsFirstMatch(d, v.programs, v.ps, alert, i) <==> FirstAlerts(d, v, alert, i)
  {
    hide ProgramDecision, ProgramAlerts;
    forall k, m | 0 <= k < |v.programs|
      ensures ProgramDecision(d, v.programs[k], v.ps).0 == Some(m) <==> ProgramAlerts(d, v.programs[k], v.ps, m)
    {
      assert v.programs[k] in v.programs;
      ProgramDecisionMeaning(d, v.programs[k], v.ps, m);
    }
    forall k | 0 <= k < |v.programs|
      ensures ProgramDecision(d, v.programs[k], v.ps).0.None? <==> forall m :: !ProgramAlerts(d, v.programs[k], v.ps, m)
    {
      assert v.programs[k] in v.programs;
      NoDecisionNoAlert(d, v.programs[k], v.ps);
    }
  }

  function CountTrue(flags: seq<bool>): nat
  {
    if flags == [] then 0 else (if flags[0] then 1 else 0) + CountTrue(flags[1..])
  }

  /** For each program up to the first that alerts, whether the gate is asked about it and closes. */
  ghost function GateFlags(d: string, programs: seq<ProgramState>, ps: Suffixes): seq<bool>
  {
    if programs == [] then [] else
    [GateSkips(d, programs[0], ps)]
    + if exists m :: ProgramAlerts(d, programs[0], ps, m) then [] else GateFlags(d, programs[1..], ps)
  }

  /** The skip count counts the programs whose gate closed, up to the first that alerts. */
  lemma {:induction false} SkipsAreClosedGates(d: string, programs: seq<ProgramState>, ps: Suffixes)
    requires PositiveThresholds(programs)
    ensures FirstProgram(d, programs, ps).1 == CountTrue(GateFlags(d, programs, ps))
  {
    hide ProgramDecision, ProgramAlerts, GateSkips;
    if programs != [] {
      assert programs[0] in programs && forall p | p in programs[1..] :: p in programs;
      SkipsAreClosedGates(d, programs[1..], ps);
      forall m
        ensures ProgramDecision(d, programs[0], ps).0 == Some(m) <==> ProgramAlerts(d, programs[0], ps, m)
        ensures ProgramDecision(d, programs[0], ps).1 <==> GateSkips(d, programs[0], ps)
      {
        ProgramDecisionMeaning(d, programs[0], ps, m);
      }
      ProgramDecisionMeaning(d, programs[0], ps, MatchResult("", "", 0.0, Keyword));
      var flag := GateSkips(d, programs[0], ps);
      assert ([flag] + GateFlags(d, programs[1..], ps))[1..] == GateFlags(d, programs[1..], ps);
    }
  }

  // ----- the whole certificate

  /** Each name once, in first-seen order. */
  ghost function Dedup(names: seq<string>): seq<string>
  {
    if names == [] then [] else
    var init, last := names[..|names| - 1], names[|names| - 1];
    if last in init then Dedup(init) else Dedup(init) + [last]
  }

  /** One decision per name, keeping the alerts. */
  ghost function AlertsOf(names: seq<string>, v: View): seq<Alert>
  {
    if names == [] then [] else
    var init, last := AlertsOf(names[..|names| - 1], v), Decide(names[|names| - 1], v).0;
    if last.Some? then init + [last.value] else init
  }

  /** Gate skips: every occurrence of a name counts again, unless the name has been alerted already. */
  ghost function SkipsOf(names: seq<string>, v: View): nat
  {
    if names == [] then 0 else
    var init, last := names[..|names| - 1], names[|names| - 1];
    SkipsOf(init, v) + if last in init && Decide(last, v).0.Some? then 0 else Decide(last, v).1
  }

  lemma DedupStep(names: seq<string>, d: string)
    ensures Dedup(names + [d]) == if d in names then Dedup(names) else Dedup(names) + [d]
  {
    assert (names + [d])[..|names|] == names;
  }

  lemma AlertsStep(names: seq<string>, d: string, v: View)
    ensures AlertsOf(names + [d], v)
         == if Decide(d, v).0.Some? then AlertsOf(names, v) + [Decide(d, v).0.value] else AlertsOf(names, v)
  {
    hide Decide;
    assert (names + [d])[..|names|] == names;
  }

  lemma SkipsStep(names: seq<string>, d: string, v: View)
    ensures SkipsOf(names + [d], v) == SkipsOf(names, v) + if d in names && Decide(d, v).0.Some? then 0 else Decide(d, v).1
  {
    hide Decide;
    assert (names + [d])[..|names|] == names;
  }

  /** One more occurrence of a name adds its alert exactly when the name is new. */
  lemma NextName(names: seq<string>, d: string, v: View)
    ensures AlertsOf(Dedup(names + [d]), v)
         == if d !in names && Decide(d, v).0.Some? then AlertsOf(Dedup(names), v) + [Decide(d, v).0.value]
            else AlertsOf(Dedup(names), v)
  {
    hide Decide, AlertsOf, Dedup;
    DedupStep(names, d);
    AlertsStep(Dedup(names), d, v);
  }

  lemma {:induction false} DedupIsDistinct(names: seq<string>)
    ensures forall d :: d in Dedup(names) <==> d in names
    ensures forall i, j | 0 <= i < j < |Dedup(names)| :: Dedup(names)[i] != Dedup(names)[j]
    ensures forall i, j | 0 <= i < j < |Dedup(names)| :: SeenFirst(names, Dedup(names)[i], Dedup(names)[j])
  {
    hide SeenFirst;
    if names != [] {
      var init, last := names[..|names| - 1], names[|names| - 1];
      DedupIsDistinct(init);
      assert names == init + [last];
      forall x, y ensures SeenFirst(init, x, y) ==> SeenFirst(names, x, y) {
        StillSeenFirst(init, last, x, y);
      }
      forall x | x in init && last !in init ensures SeenFirst(names, x, last) {
        StillSeenFirst(init, last, x, last);
      }
    }
  }

  /** The first name occurs before every occurrence of the second. */
  ghost predicate SeenFirst(names: seq<string>, x: string, y: string)
  {
    exists i :: 0 <= i < |names| && names[i] == x && y !in names[..i + 1]
  }

  lemma StillSeenFirst(init: seq<string>, last: string, x: string, y: string)
    ensures SeenFirst(init, x, y) || (x in init && y !in init && y == last) ==> SeenFirst(init + [last], x, y)
  {
    var names := init + [last];
    if SeenFirst(init, x, y) {
      var i :| 0 <= i < |init| && init[i] == x && y !in init[..i + 1];
      assert names[i] == x && names[..i + 1] == init[..i + 1];
    }
    if x in init && y !in init && y == last {
      var i :| 0 <= i < |init| && init[i] == x;
      assert names[i] == x && names[..i + 1] == init[..i + 1];
    }
  }

  lemma AlertNamesItsDomain(d: string, v: View)
    requires Decide(d, v).0.Some?
    ensures Decide(d, v).0.value.0.certDomain == d && d !in v.fqdns && !IsSubdomainOfAny(d, v.fqdns)
  {
    hide IsSubdomainOfAny, FindVariation, ProgramDecision;
    FirstProgramIsFirst(d, v.programs, v.ps);
    if FindVariation(v.variations, d, v.ps).None? {
      var i :| IsFirstMatch(d, v.programs, v.ps, Decide(d, v).0.value, i);
      ProgramAlertNames(d, v.programs[i], v.ps);
    }
  }

  lemma ProgramAlertNames(d: string, state: ProgramState, ps: Suffixes)
    ensures ProgramDecision(d, state, ps).0.Some? ==> ProgramDecision(d, state, ps).0.value.certDomain == d
  {
    hide FirstKeyword, GateCloses, Best, PrepareTypo;
  }

  /**
   * The alerts of any list of names: at most one per name, each about a name of the certificate, and
   * none about a protected name or a subdomain of one.
   */
  lemma {:induction false} AlertsAreSound(names: seq<string>, v: View)
    requires forall i, j | 0 <= i < j < |names| :: names[i] != names[j]
    ensures forall a | a in AlertsOf(names, v) ::
      a.0.certDomain in names && a.0.certDomain !in v.fqdns && !IsSubdomainOfAny(a.0.certDomain, v.fqdns)
    ensures forall i, j | 0 <= i < j < |AlertsOf(names, v)| ::
      AlertsOf(names, v)[i].0.certDomain != AlertsOf(names, v)[j].0.certDomain
  {
    hide Decide, IsSubdomainOfAny;
    if names != [] {
      var init, last := names[..|names| - 1], names[|names| - 1];
      AlertsAreSound(init, v);
      assert forall d | d in init :: d in names && d != last;
      if Decide(last, v).0.Some? {
        AlertNamesItsDomain(last, v);
        var before := AlertsOf(init, v);
        assert AlertsOf(names, v) == before + [Decide(last, v).0.value];
        forall i | 0 <= i < |before| ensures before[i].0.certDomain != last { assert before[i] in before; }
      }
    }
  }

  /** No alert is missing: the alerts are those of the names, in the order of the names. */
  lemma {:induction false} AlertsAreComplete(names: seq<string>, v: View)
    requires forall i, j | 0 <= i < j < |names| :: names[i] != names[j]
    ensures forall a :: a in AlertsOf(names, v) <==> exists d :: d in names && Decide(d, v).0 == Some(a)
    ensures forall i, j | 0 <= i < j < |AlertsOf(names, v)| ::
      ComesBefore(names, AlertsOf(names, v)[i].0.certDomain, AlertsOf(names, v)[j].0.certDomain)
  {
    hide Decide, ComesBefore;
    if names != [] {
      var init, last := names[..|names| - 1], names[|names| - 1];
      assert names == init + [last];
      AlertsAreComplete(init, v);
      AlertsAreSound(init, v);
      var before := AlertsOf(init, v);
      forall x, y ensures ComesBefore(init, x, y) ==> ComesBefore(names, x, y) {
        StillBefore(init, last, x, y);
      }
      forall x | x in init ensures ComesBefore(names, x, last) {
        StillBefore(init, last, x, x);
      }
      if Decide(last, v).0.Some? {
        AlertNamesItsDomain(last, v);
        forall i | 0 <= i < |before| ensures before[i].0.certDomain in init {
          assert before[i] in before;
        }
      }
    }
  }

  ghost predicate ComesBefore(names: seq<string>, x: string, y: string)
  {
    exists i, j :: 0 <= i < j < |names| && names[i] == x && names[j] == y
  }

  lemma StillBefore(init: seq<string>, last: string, x: string, y: string)
    ensures ComesBefore(init, x, y) ==> ComesBefore(init + [last], x, y)
    ensures x in init ==> ComesBefore(init + [last], x, last)
  {
    var names := init + [last];
    if ComesBefore(init, x, y) {
      var i, j :| 0 <= i < j < |init| && init[i] == x && init[j] == y;
      assert names[i] == x && names[j] == y;
    }
    if x in init {
      var i :| 0 <= i < |init| && init[i] == x;
      assert names[i] == x && names[|init|] == last;
    }
  }

  function Sum(ns: seq<nat>): nat
  {
    if ns == [] then 0 else Sum(ns[..|ns| - 1]) + ns[|ns| - 1]
  }

  /** Every occurrence of a name counts its closed gates, except after an alert about the name. */
  lemma {:induction false} SkipsAreSummed(names: seq<string>, v: View)
    ensures SkipsOf(names, v)
         == Sum(seq(|names|, k requires 0 <= k < |names| =>
                  if names[k] in names[..k] && Decide(names[k], v).0.Some? then 0 else Decide(names[k], v).1))
  {
    hide Decide;
    if names != [] {
      var n := |names| - 1;
      SkipsAreSummed(names[..n], v);
      var all := seq(|names|, k requires 0 <= k < |names| =>
                       if names[k] in names[..k] && Decide(names[k], v).0.Some? then 0 else Decide(names[k], v).1);
      var init := names[..n];
      var most := seq(|init|, k requires 0 <= k < |init| =>
                        if init[k] in init[..k] && Decide(init[k], v).0.Some? then 0 else Decide(init[k], v).1);
      forall k | 0 <= k < n ensures all[..n][k] == most[k] {
        assert init[..k] == names[..k] && init[k] == names[k];
      }
      assert all[..n] == most;
    }
  }

  // ----- assets over the whole certificate

  ghost function KeysOf(out: seq<AssetMatch>): set<(string, string)>
  {
    set m | m in out :: (m.0, m.1)
  }

  /** Asset matching runs on every name, before and whatever the alert rules say. */
  ghost function AssetsOf(names: seq<string>, states: seq<AssetState>, ps: Suffixes): seq<AssetMatch>
  {
    if names == [] then [] else
    var init := AssetsOf(names[..|names| - 1], states, ps);
    init + IndexedMatches(AssetHost(names[|names| - 1]), states, ps, KeysOf(init))
  }

  /** Some name of the certificate, without its leading wildcard, is this host, and the program's scope holds it. */
  ghost predicate IsInScopePair(names: seq<string>, states: seq<AssetState>, key: (string, string))
  {
    '.' in key.0 && (exists k :: 0 <= k < |names| && AssetHost(names[k]) == key.0)
    && key.1 in Names(InScope(states, key.0))
  }

  lemma {:induction false} NewMatchKeys(host: string, programs: seq<AssetState>, seen: set<(string, string)>)
    ensures forall key ::
      key in KeysOf(NewMatches(host, programs, seen)) <==> key.0 == host && key.1 in Names(programs) && key !in seen
  {
    if programs != [] {
      var init, last := programs[..|programs| - 1], programs[|programs| - 1];
      NewMatchKeys(host, init, seen);
      assert programs == init + [last];
      NamesStep(init, last);
      hide Names;
      var before := NewMatches(host, init, seen);
      KeysStep(before, (host, last.name, last.id));
    }
  }

  lemma KeysStep(out: seq<AssetMatch>, m: AssetMatch)
    ensures KeysOf(out + [m]) == KeysOf(out) + {(m.0, m.1)}
  {
  }

  lemma KeysAppend(a: seq<AssetMatch>, b: seq<AssetMatch>)
    ensures KeysOf(a + b) == KeysOf(a) + KeysOf(b)
  {
  }

  /**
   * Over the whole certificate the indexed matching reports exactly the (host, program) pairs a full scan
   * would: every host of a name, with every program whose scope holds it.
   */
  lemma {:induction false} AssetsAreExactlyInScope(names: seq<string>, states: seq<AssetState>, ps: Suffixes)
    requires forall st | st in states :: SafelyBuilt(st, ps)
    requires forall k | 0 <= k < |names| && '.' in AssetHost(names[k]) :: IsNormalHost(AssetHost(names[k]))
    ensures forall key :: key in KeysOf(AssetsOf(names, states, ps)) <==> IsInScopePair(names, states, key)
  {
    hide SafelyBuilt, IsNormalHost, AssetHost, IndexedMatches, InScope, Names;
    if names != [] {
      var init, last := names[..|names| - 1], names[|names| - 1];
      AssetsAreExactlyInScope(init, states, ps);
      var before, host := AssetsOf(init, states, ps), AssetHost(last);
      var more := IndexedMatches(host, states, ps, KeysOf(before));
      KeysAppend(before, more);
      HostKeys(host, states, ps, KeysOf(before));
      forall key ensures IsInScopePair(names, states, key)
        <==> IsInScopePair(init, states, key) || (key.0 == host && '.' in host && key.1 in Names(InScope(states, host)))
      {
        PairStep(init, last, states, key);
        assert names == init + [last];
      }
    }
  }

  lemma PairStep(init: seq<string>, last: string, states: seq<AssetState>, key: (string, string))
    ensures IsInScopePair(init + [last], states, key)
       <==> IsInScopePair(init, states, key)
            || (key.0 == AssetHost(last) && '.' in key.0 && key.1 in Names(InScope(states, key.0)))
  {
    hide AssetHost, InScope, Names;
    var names := init + [last];
    assert names[|init|] == last;
    if k :| 0 <= k < |init| && AssetHost(init[k]) == key.0 {
      assert names[k] == init[k];
    }
  }

  lemma NoDotNoMatch(host: string, states: seq<AssetState>, ps: Suffixes, seen: set<(string, string)>)
    requires '.' !in host
    ensures KeysOf(IndexedMatches(host, states, ps, seen)) == {}
  {
  }

  lemma HostKeys(host: string, states: seq<AssetState>, ps: Suffixes, seen: set<(string, string)>)
    requires '.' in host ==> IsNormalHost(host)
    requires forall st | st in states :: SafelyBuilt(st, ps)
    ensures forall key ::
      key in KeysOf(IndexedMatches(host, states, ps, seen))
      <==> '.' in host && key.0 == host && key.1 in Names(InScope(states, host)) && key !in seen
  {
    hide InScope, NewMatches, IndexedMatches, IsNormalHost, SafelyBuilt, Names, KeysOf, ExtractApex;
    if '.' in host {
      IndexedMatchesAreScanMatches(states, host, ps, seen);
      NewMatchKeys(host, InScope(states, host), seen);
    } else {
      NoDotNoMatch(host, states, ps, seen);
    }
  }

  datatype SkipOutcome = LegitimateSubdomain | ProtectedDomain
  datatype SkipLog = SkipLog(program: string, protectedDomain: string, domain: string, outcome: SkipOutcome)

  /** A log line without the protected name it gives, which is any of those the domain is under. */
  type Line = (string, string, SkipOutcome)
  type ProgramSets = seq<(string, set<string>)>

  /** A log line reports a name that really was skipped, for that reason, and a name its program protects. */
  ghost predicate IsTrueLog(log: SkipLog, names: seq<string>, sets: ProgramSets, fqdns: set<string>)
  {
    log.domain in names && IsListed(sets, (log.program, log.protectedDomain))
    && match log.outcome
       case LegitimateSubdomain => IsSubdomainOfAny(log.domain, fqdns) && EndsAfter(log.domain, '.', log.protectedDomain)
       case ProtectedDomain =>
         log.domain in fqdns && !IsSubdomainOfAny(log.domain, fqdns) && log.protectedDomain == log.domain
  }

  /** The programs that protect the name itself, in order. */
  function ProgramsWith(sets: ProgramSets, d: string): seq<string>
  {
    if sets == [] then [] else
    var init, last := ProgramsWith(sets[..|sets| - 1], d), sets[|sets| - 1];
    if d in last.1 then init + [last.0] else init
  }

  /** One line per program with a known id. */
  function KnownLines(programs: seq<string>, d: string, outcome: SkipOutcome, ids: map<string, string>): seq<Line>
  {
    if programs == [] then [] else
    var init, last := KnownLines(programs[..|programs| - 1], d, outcome, ids), programs[|programs| - 1];
    if last in ids && ids[last] != "" then init + [(last, d, outcome)] else init
  }

  /** The lines a name gives rise to: those of the scan that explains why it is skipped, and none if it is not. */
  ghost function LinesFor(d: string, sets: ProgramSets, ids: map<string, string>, fqdns: set<string>): seq<Line>
  {
    if IsSubdomainOfAny(d, fqdns) then KnownLines(ProgramsAbove(sets, d), d, LegitimateSubdomain, ids)
    else if d in fqdns then KnownLines(ProgramsWith(sets, d), d, ProtectedDomain, ids)
    else []
  }

  /** The lines of all names, every occurrence giving its own. */
  ghost function LinesOf(names: seq<string>, sets: ProgramSets, ids: map<string, string>, fqdns: set<string>): seq<Line>
  {
    if names == [] then [] else
    LinesOf(names[..|names| - 1], sets, ids, fqdns) + LinesFor(names[|names| - 1], sets, ids, fqdns)
  }

  function LinesIn(logs: seq<SkipLog>): seq<Line>
  {
    seq(|logs|, i requires 0 <= i < |logs| => (logs[i].program, logs[i].domain, logs[i].outcome))
  }

  /** The lines of the names, or none when logs are not collected; and each of them is true. */
  ghost predicate AreLogsOf(logs: seq<SkipLog>, names: seq<string>, sets: ProgramSets, ids: map<string, string>,
                            fqdns: set<string>, collectLogs: bool)
  {
    LinesIn(logs) == (if collectLogs then LinesOf(names, sets, ids, fqdns) else [])
    && forall log | log in logs :: IsTrueLog(log, names, sets, fqdns)
  }

  lemma LinesStep(names: seq<string>, d: string, sets: ProgramSets, ids: map<string, string>, fqdns: set<string>)
    ensures LinesOf(names + [d], sets, ids, fqdns) == LinesOf(names, sets, ids, fqdns) + LinesFor(d, sets, ids, fqdns)
  {
    hide LinesFor;
    assert (names + [d])[..|names|] == names;
  }

  /** A name that has been alerted is not one that is skipped. */
  lemma AlertedGivesNoLine(d: string, v: View, sets: ProgramSets, ids: map<string, string>)
    requires Decide(d, v).0.Some?
    ensures LinesFor(d, sets, ids, v.fqdns) == []
  {
    hide IsSubdomainOfAny, FirstProgram, FindVariation;
  }

  lemma {:induction false} KnownLinesExactly(programs: seq<string>, d: string, outcome: SkipOutcome, ids: map<string, string>)
    ensures forall line :: line in KnownLines(programs, d, outcome, ids) <==>
      (line.0 in programs && line.0 in ids && ids[line.0] != "" && line.1 == d && line.2 == outcome)
  {
    if programs != [] {
      var init, last := programs[..|programs| - 1], programs[|programs| - 1];
      KnownLinesExactly(init, d, outcome, ids);
      assert programs == init + [last];
    }
  }

  lemma {:induction false} ProtectingPrograms(sets: ProgramSets, d: string)
    ensures forall p :: p in ProgramsWith(sets, d) <==> exists i :: 0 <= i < |sets| && sets[i].0 == p && d in sets[i].1
    ensures forall p :: p in ProgramsAbove(sets, d) <==>
      exists i :: 0 <= i < |sets| && sets[i].0 == p && IsSubdomainOfAny(d, sets[i].1)
  {
    hide IsSubdomainOfAny;
    if sets != [] {
      var init, last := sets[..|sets| - 1], sets[|sets| - 1];
      ProtectingPrograms(init, d);
      assert sets == init + [last] && sets[|init|] == last;
      forall i | 0 <= i < |init| ensures sets[i] == init[i] {
      }
    }
  }

  /**
   * Which lines explain a skipped name: one per program with a known id that protects the name itself, or a name
   * above it, with the outcome to match. A name that is not skipped has none.
   */
  lemma LinesExactly(d: string, sets: ProgramSets, ids: map<string, string>, fqdns: set<string>, line: Line)
    ensures line in LinesFor(d, sets, ids, fqdns)
      <==> line.1 == d && line.0 in ids && ids[line.0] != ""
           && if exists p :: p in fqdns && EndsAfter(d, '.', p)
              then line.2 == LegitimateSubdomain
                   && exists i, p :: 0 <= i < |sets| && sets[i].0 == line.0 && p in sets[i].1 && EndsAfter(d, '.', p)
              else d in fqdns && line.2 == ProtectedDomain && exists i :: 0 <= i < |sets| && sets[i].0 == line.0 && d in sets[i].1
  {
    hide EndsAfter, KnownLines, ProgramsWith, ProgramsAbove;
    ProtectingPrograms(sets, d);
    KnownLinesExactly(ProgramsAbove(sets, d), d, LegitimateSubdomain, ids);
    KnownLinesExactly(ProgramsWith(sets, d), d, ProtectedDomain, ids);
  }

  datatype Snapshot = Snapshot(programs: seq<ProgramState>, automaton: Option<set<string>>, assets: seq<AssetState>,
                               assetIndex: map<string, seq<string>>, ids: map<string, string>,
                               protectedSets: ProgramSets)

  function NormalNames(domains: seq<string>): seq<string>
  {
    seq(|domains|, i requires 0 <= i < |domains| => Normal(domains[i]))
  }

  ghost function ViewOf(snap: Snapshot, generator: Generator): View
    reads generator
  {
    View(generator.protectedFqdns, generator.variations, snap.programs, generator.ps)
  }

  method ProgramsUntilMatch(d: string, snap: Snapshot, ps: Suffixes) returns (alert: Option<Alert>, skips: nat)
    requires AutomatonFor(snap.automaton, snap.programs)
    ensures (alert, skips) == FirstProgram(d, snap.programs, ps)
  {
    hide AutomatonScan, PrepareTypo, ProgramDecision;
    var matched := if snap.automaton.Some? then Some(AutomatonScan(d, snap.automaton.value)) else None;
    ghost var all := if snap.automaton.Some? then snap.automaton.value else {};
    var prepared := PrepareTypo(d, ps);
    skips := 0;
    for i := 0 to |snap.programs|
      invariant FirstProgram(d, snap.programs, ps)
             == (FirstProgram(d, snap.programs[i..], ps).0, skips + FirstProgram(d, snap.programs[i..], ps).1)
    {
      assert snap.programs[i..][1..] == snap.programs[i + 1..];
      var m, skipped := MatchKeywordOrSimilarity(d, snap.programs[i], matched, all, prepared, ps);
      if skipped {
        skips := skips + 1;
      }
      if m.Some? {
        return Some((m.value, snap.programs[i].name)), skips;
      }
    }
    return None, skips;
  }

  lemma NextProgramWith(sets: ProgramSets, i: nat, d: string)
    requires i < |sets|
    ensures ProgramsWith(sets[..i + 1], d) == ProgramsWith(sets[..i], d) + if d in sets[i].1 then [sets[i].0] else []
  {
    assert sets[..i + 1][..i] == sets[..i];
  }

  method ProtectedDomainPrograms(sets: ProgramSets, d: string) returns (found: seq<(string, string)>)
    ensures Programs(found) == ProgramsWith(sets, d)
    ensures forall k | 0 <= k < |found| :: found[k].1 == d && IsListed(sets, found[k])
  {
    found := [];
    for i := 0 to |sets|
      invariant Programs(found) == ProgramsWith(sets[..i], d)
      invariant forall k | 0 <= k < |found| :: found[k].1 == d && IsListed(sets, found[k])
    {
      NextProgramWith(sets, i, d);
      hide ProgramsWith;
      if d in sets[i].1 {
        assert IsListed(sets, (sets[i].0, d));
        found := found + [(sets[i].0, d)];
      }
    }
    assert sets[..|sets|] == sets;
  }

  lemma NextKnownLine(programs: seq<string>, i: nat, d: string, outcome: SkipOutcome, ids: map<string, string>)
    requires i < |programs|
    ensures KnownLines(programs[..i + 1], d, outcome, ids) == KnownLines(programs[..i], d, outcome, ids)
      + if programs[i] in ids && ids[programs[i]] != "" then [(programs[i], d, outcome)] else []
  {
    assert programs[..i + 1][..i] == programs[..i];
  }

  /** One log line per program found whose id is known. */
  method AppendSkipLogs(d: string, found: seq<(string, string)>, outcome: SkipOutcome, ids: map<string, string>)
    returns (logs: seq<SkipLog>)
    ensures LinesIn(logs) == KnownLines(Programs(found), d, outcome, ids)
    ensures forall log | log in logs :: log.domain == d && log.outcome == outcome && (log.program, log.protectedDomain) in found
  {
    logs := [];
    ghost var programs := Programs(found);
    for i := 0 to |found|
      invariant LinesIn(logs) == KnownLines(programs[..i], d, outcome, ids)
      invariant forall log | log in logs :: log.domain == d && log.outcome == outcome && (log.program, log.protectedDomain) in found
    {
      NextKnownLine(programs, i, d, outcome, ids);
      hide KnownLines;
      var (program, protectedDomain) := found[i];
      if program in ids && ids[program] != "" {
        logs := logs + [SkipLog(program, protectedDomain, d, outcome)];
      }
    }
    assert programs[..|found|] == programs;
  }

  /** The log lines for a skipped name. */
  method SkipLogs(d: string, snap: Snapshot, outcome: SkipOutcome, ghost fqdns: set<string>) returns (logs: seq<SkipLog>)
    requires if IsSubdomainOfAny(d, fqdns) then outcome.LegitimateSubdomain? else d in fqdns && outcome.ProtectedDomain?
    ensures LinesIn(logs) == LinesFor(d, snap.protectedSets, snap.ids, fqdns)
    ensures forall log | log in logs :: IsTrueLog(log, [d], snap.protectedSets, fqdns)
  {
    hide IsSubdomainOfAny, ProgramsAbove, ProgramsWith, KnownLines, EndsAfter, IsListed, LinesIn, Programs;
    var found;
    if outcome == LegitimateSubdomain {
      found := LegitimateSubdomainPrograms(snap.protectedSets, d);
    } else {
      found := ProtectedDomainPrograms(snap.protectedSets, d);
    }
    logs := AppendSkipLogs(d, found, outcome, snap.ids);
    forall log | log in logs
      ensures IsTrueLog(log, [d], snap.protectedSets, fqdns)
    {
      var k :| 0 <= k < |found| && found[k] == (log.program, log.protectedDomain);
    }
  }

  /** The names alerted so far. */
  ghost predicate IsAlerted(alerted: set<string>, names: seq<string>, v: View)
  {
    forall d :: d in alerted <==> d in names && Decide(d, v).0.Some?
  }

  /** One name through the alert rules, when it has not been alerted yet. */
  method MatchName(d: string, snap: Snapshot, generator: Generator, collectLogs: bool)
    returns (alert: Option<Alert>, skips: nat, logs: seq<SkipLog>)
    requires Normal(d) == d && AutomatonFor(snap.automaton, snap.programs)
    ensures (alert, skips) == Decide(d, ViewOf(snap, generator))
    ensures AreLogsOf(logs, [d], snap.protectedSets, snap.ids, generator.protectedFqdns, collectLogs)
  {
    OneName(d, snap.protectedSets, snap.ids, generator.protectedFqdns);
    hide Normal, IsSubdomainOfAny, FirstProgram, AutomatonFor, FindVariation, IsTrueLog, KnownLines, ProgramsAbove, ProgramsWith;
    logs := [];
    var legitimate := generator.IsLegitimateSubdomain(d);
    if legitimate {
      if collectLogs {
        logs := SkipLogs(d, snap, LegitimateSubdomain, generator.protectedFqdns);
      }
      return None, 0, logs;
    }
    if d in generator.protectedFqdns {
      if collectLogs {
        logs := SkipLogs(d, snap, ProtectedDomain, generator.protectedFqdns);
      }
      return None, 0, logs;
    }
    var info := generator.Match(d);
    if info.Some? {
      var m := MatchResult(info.value.protectedDomain, d, VARIATION_SCORE, Dnstwist(info.value.fuzzer));
      return Some((m, info.value.program)), 0, logs;
    }
    alert, skips := ProgramsUntilMatch(d, snap, generator.ps);
  }

  /**
   * Matching a certificate is one pure decision per distinct name, in first-seen order; the count is the
   * number of alerts. Collecting logs changes none of it; the lines are those of the skipped names, in order.
   */
  method MatchCertificate(domains: seq<string>, snap: Snapshot, generator: Generator, collectLogs: bool)
    returns (pending: seq<Alert>, matchesFound: nat, similaritySkipped: nat, assets: seq<AssetMatch>, logs: seq<SkipLog>)
    requires AutomatonFor(snap.automaton, snap.programs)
    requires DistinctNames(snap.assets) && IsApexIndex(snap.assetIndex, snap.assets)
    ensures pending == AlertsOf(Dedup(NormalNames(domains)), ViewOf(snap, generator))
    ensures matchesFound == |pending|
    ensures similaritySkipped == SkipsOf(NormalNames(domains), ViewOf(snap, generator))
    ensures assets == AssetsOf(NormalNames(domains), snap.assets, generator.ps)
    ensures SeenIsKeys(KeysOf(assets), assets)
    ensures AreLogsOf(logs, NormalNames(domains), snap.protectedSets, snap.ids, generator.protectedFqdns, collectLogs)
  {
    hide Normal, AutomatonFor, DistinctNames, IsApexIndex, Decide, AlertsOf, Dedup, SkipsOf, IndexedMatches, AssetHost,
         Alerted, AreLogsOf, IsTrueLog, LinesIn, LinesOf;
    pending, matchesFound, similaritySkipped, assets, logs := [], 0, 0, [], [];
    var alerted: set<string>, seen: set<(string, string)> := {}, {};
    ghost var v, names := ViewOf(snap, generator), NormalNames(domains);
    Start(v, snap.protectedSets, snap.ids, collectLogs);
    for i := 0 to |domains|
      invariant Alerted(pending, similaritySkipped, alerted, names[..i], v) && matchesFound == |pending|
      invariant assets == AssetsOf(names[..i], snap.assets, generator.ps)
      invariant seen == KeysOf(assets) && SeenIsKeys(seen, assets)
      invariant AreLogsOf(logs, names[..i], snap.protectedSets, snap.ids, generator.protectedFqdns, collectLogs)
    {
      hide AssetsOf, SeenIsKeys, NormalNames, KeysOf;
      var d := Normal(domains[i]);
      NamesGrow(domains, i);
      AssetsStep(names[..i], d, snap.assets, generator.ps);
      seen, assets := MatchAssetsForDomain(d, snap.assets, snap.assetIndex, generator.ps, seen, assets);
      SeenAreKeys(seen, assets);
      AlertedMore(pending, similaritySkipped, alerted, names[..i], d, v);
      if d in alerted {
        NoMoreLogs(logs, names[..i], d, v, snap.protectedSets, snap.ids, collectLogs);
        continue;
      }
      NormalTwice(domains[i]);
      var alert, skips, more := MatchName(d, snap, generator, collectLogs);
      MoreLogs(logs, more, names[..i], d, snap.protectedSets, snap.ids, generator.protectedFqdns, collectLogs);
      logs := logs + more;
      similaritySkipped := similaritySkipped + skips;
      if alert.Some? {
        alerted := alerted + {d};
        matchesFound := matchesFound + 1;
        pending := pending + [alert.value];
      }
    }
    assert names[..|domains|] == names;
    AlertedAll(pending, similaritySkipped, alerted, names, v);
  }

  /** The alerts and the skip count of the names so far, and which of them have been alerted. */
  ghost predicate Alerted(pending: seq<Alert>, skipped: nat, alerted: set<string>, names: seq<string>, v: View)
  {
    pending == AlertsOf(Dedup(names), v) && skipped == SkipsOf(names, v) && IsAlerted(alerted, names, v)
  }

  lemma Start(v: View, sets: ProgramSets, ids: map<string, string>, collectLogs: bool)
    ensures Alerted([], 0, {}, [], v) && AreLogsOf([], [], sets, ids, v.fqdns, collectLogs)
  {
  }

  lemma AlertedAll(pending: seq<Alert>, skipped: nat, alerted: set<string>, names: seq<string>, v: View)
    requires Alerted(pending, skipped, alerted, names, v)
    ensures pending == AlertsOf(Dedup(names), v) && skipped == SkipsOf(names, v)
  {
  }

  /** One more name: nothing if it has been alerted, else its decision. */
  lemma AlertedMore(pending: seq<Alert>, skipped: nat, alerted: set<string>, names: seq<string>, d: string, v: View)
    requires Alerted(pending, skipped, alerted, names, v)
    ensures d in alerted ==> Decide(d, v).0.Some? && Alerted(pending, skipped, alerted, names + [d], v)
    ensures d !in alerted ==> var (alert, skips) := Decide(d, v);
      if alert.Some? then Alerted(pending + [alert.value], skipped + skips, alerted + {d}, names + [d], v)
      else Alerted(pending, skipped + skips, alerted, names + [d], v)
  {
    hide Decide, AlertsOf, Dedup, SkipsOf, IsAlerted;
    NextName(names, d, v);
    SkipsStep(names, d, v);
    AlertedStep(alerted, names, d, v);
    if d in alerted {
      assert alerted + {d} == alerted;
    }
  }

  lemma NamesGrow(domains: seq<string>, i: nat)
    requires i < |domains|
    ensures NormalNames(domains)[..i + 1] == NormalNames(domains)[..i] + [Normal(domains[i])]
    ensures Normal(domains[i]) in NormalNames(domains)
  {
    hide Normal;
    assert NormalNames(domains)[i] == Normal(domains[i]);
  }

  lemma AssetsStep(names: seq<string>, d: string, states: seq<AssetState>, ps: Suffixes)
    ensures AssetsOf(names + [d], states, ps)
         == AssetsOf(names, states, ps) + IndexedMatches(AssetHost(d), states, ps, KeysOf(AssetsOf(names, states, ps)))
  {
    hide IndexedMatches, KeysOf;
    assert (names + [d])[..|names|] == names;
  }

  lemma SeenAreKeys(seen: set<(string, string)>, out: seq<AssetMatch>)
    requires SeenIsKeys(seen, out)
    ensures seen == KeysOf(out)
  {
    forall key | key in seen ensures key in KeysOf(out) {
      var i :| 0 <= i < |out| && (out[i].0, out[i].1) == key;
      assert out[i] in out;
    }
  }

  lemma AlertedStep(alerted: set<string>, names: seq<string>, d: string, v: View)
    requires IsAlerted(alerted, names, v)
    ensures IsAlerted(if Decide(d, v).0.Some? then alerted + {d} else alerted, names + [d], v)
    ensures d in alerted <==> d in names && Decide(d, v).0.Some?
  {
    hide Decide;
  }

  lemma OneName(d: string, sets: ProgramSets, ids: map<string, string>, fqdns: set<string>)
    ensures LinesOf([d], sets, ids, fqdns) == LinesFor(d, sets, ids, fqdns)
  {
    hide LinesFor;
    LinesStep([], d, sets, ids, fqdns);
    assert [] + [d] == [d];
  }

  lemma NoMoreLogs(logs: seq<SkipLog>, names: seq<string>, d: string, v: View, sets: ProgramSets, ids: map<string, string>,
                   collectLogs: bool)
    requires AreLogsOf(logs, names, sets, ids, v.fqdns, collectLogs) && Decide(d, v).0.Some?
    ensures AreLogsOf(logs, names + [d], sets, ids, v.fqdns, collectLogs)
  {
    hide Decide, IsSubdomainOfAny, EndsAfter, IsListed, LinesFor, LinesOf;
    AlertedGivesNoLine(d, v, sets, ids);
    LinesStep(names, d, sets, ids, v.fqdns);
  }

  lemma MoreLogs(logs: seq<SkipLog>, more: seq<SkipLog>, names: seq<string>, d: string, sets: ProgramSets,
                 ids: map<string, string>, fqdns: set<string>, collectLogs: bool)
    requires AreLogsOf(logs, names, sets, ids, fqdns, collectLogs) && AreLogsOf(more, [d], sets, ids, fqdns, collectLogs)
    ensures AreLogsOf(logs + more, names + [d], sets, ids, fqdns, collectLogs)
  {
    hide IsSubdomainOfAny, EndsAfter, IsListed, LinesFor, LinesOf, LinesIn;
    OneName(d, sets, ids, fqdns);
    LinesStep(names, d, sets, ids, fqdns);
    LinesJoin(logs, more);
  }

  lemma LinesJoin(a: seq<SkipLog>, b: seq<SkipLog>)
    ensures LinesIn(a + b) == LinesIn(a) + LinesIn(b)
  {
  }
}
