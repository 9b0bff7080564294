/** Scoring a certificate name against protected domains (`protected_domain_similarity.py`); scores are rationals. */
module Similarity {
  import opened Text
  import opened EditDistance
  import opened DomainLabels

  const MAX_LABELS_FOR_SUFFIX_SCAN: nat := 32
  const COLLAPSED_MATCH_NON_LITERAL_CAP: real := 0.99

  datatype PreparedProtected = PreparedProtected(domain: string, literal: string, apex: string, collapsed: string)
  datatype PreparedFragment = PreparedFragment(literal: string, apex: string, collapsed: string)

  // ----- preparing names

  function Keep(s: string, p: char -> bool): string
  {
    if s == "" then "" else (if p(s[0]) then [s[0]] else []) + Keep(s[1..], p)
  }

  function NormalizeLiteral(domain: string): string
  {
    TrimRight(Strip(Lower(domain)), IsDot)
  }

  function Collapse(domain: string): string
  {
    Keep(NormalizeLiteral(domain), IsAlnum)
  }

  function NonEmpty(parts: seq<string>): seq<string>
  {
    if parts == [] then [] else (if parts[0] != "" then [parts[0]] else []) + NonEmpty(parts[1..])
  }

  function TypoSuffixHostnames(typo: string): seq<string>
  {
    var raw := NormalizeLiteral(typo);
    var all := NonEmpty(Split(raw, '.'));
    var labels := LastLabels(all);
    var n := |labels|;
    if n == 0 then [] else if n < 2 then [raw] else LabelSuffixes(labels)
  }

  /** The suffixes of two labels or more, longest first. */
  function LabelSuffixes(labels: seq<string>): (s: seq<string>)
    requires labels != []
    ensures |s| == |labels| - 1 && forall i | 0 <= i < |s| :: s[i] == Join(labels[i..], '.')
  {
    seq(|labels| - 1, i requires 0 <= i < |labels| - 1 => Join(labels[i..], '.'))
  }

  /** Blanks and case do not matter to the literal form, nor do dots at the end. */
  lemma LiteralIs(a: string, d: string, dots: string, b: string)
    requires IsBlank(a) && IsBlank(b) && AllAre(dots, IsDot)
    requires d != "" && !IsSpace(d[0]) && !IsSpace(d[|d| - 1]) && d[|d| - 1] != '.'
    ensures NormalizeLiteral(a + d + dots + b) == Lower(d)
  {
    hide AllAre, IsBlank, Lower, Strip, TrimRight, IsSpace;
    var t := d + dots;
    DottedEnd(d, dots);
    NormalFormIs(a, t, b);
    assert a + d + dots + b == a + t + b;
    DotsStay(d, dots);
    TrimRightIs(Lower(d), dots, IsDot);
  }

  lemma DottedEnd(d: string, dots: string)
    requires AllAre(dots, IsDot) && d != "" && !IsSpace(d[0]) && !IsSpace(d[|d| - 1])
    ensures var t := d + dots; !IsSpace(t[0]) && !IsSpace(t[|t| - 1])
  {
    assert dots != "" ==> dots[|dots| - 1] in dots;
  }

  lemma DotsStay(d: string, dots: string)
    requires AllAre(dots, IsDot) && d != "" && d[|d| - 1] != '.'
    ensures Lower(d + dots) == Lower(d) + dots && Lower(d) != "" && !IsDot(Lower(d)[|d| - 1])
  {
    forall i | 0 <= i < |dots| ensures Lower(d + dots)[|d| + i] == dots[i] {
      assert dots[i] in dots;
    }
  }

  lemma KeepFirst(s: string, p: char -> bool)
    requires s != ""
    ensures Keep(s, p) == (if p(s[0]) then [s[0]] else []) + Keep(s[1..], p)
  {
  }

  lemma {:induction false} KeepOf(a: string, b: string, p: char -> bool)
    ensures Keep(a + b, p) == Keep(a, p) + Keep(b, p)
  {
    if a == "" {
      assert a + b == b;
    } else {
      KeepFirst(a, p);
      KeepFirst(a + b, p);
      hide Keep;
      assert (a + b)[1..] == a[1..] + b;
      KeepOf(a[1..], b, p);
    }
  }

  /** The collapsed form keeps the letters and digits, in order, and nothing else. */
  lemma KeptCharacter(x: string, c: char, y: string)
    ensures Keep(x + [c] + y, IsAlnum)
         == Keep(x, IsAlnum) + (if '0' <= c <= '9' || 'A' <= c <= 'Z' || 'a' <= c <= 'z' then [c] else "") + Keep(y, IsAlnum)
    ensures Keep("", IsAlnum) == ""
  {
    assert Keep([c], IsAlnum) == if IsAlnum(c) then [c] else "" by { assert [c][1..] == ""; }
    hide Keep;
    KeepOf(x + [c], y, IsAlnum);
    KeepOf(x, [c], IsAlnum);
    KeepOf("", "", IsAlnum);
    assert "" + "" == "";
  }

  lemma {:induction false} NoEmptyPart(parts: seq<string>)
    requires "" !in parts
    ensures NonEmpty(parts) == parts
  {
    if parts != [] {
      NoEmptyPart(parts[1..]);
      assert parts == [parts[0]] + parts[1..];
    }
  }

  /** The labels that are looked at. */
  function LastLabels(labels: seq<string>): (r: seq<string>)
    ensures r == if |labels| > 32 then labels[|labels| - 32..] else labels
  {
    if |labels| > MAX_LABELS_FOR_SUFFIX_SCAN then labels[|labels| - MAX_LABELS_FOR_SUFFIX_SCAN..] else labels
  }

  lemma ManyFragments(typo: string)
    requires "" !in Split(NormalizeLiteral(typo), '.') && |Split(NormalizeLiteral(typo), '.')| >= 2
    ensures TypoSuffixHostnames(typo) == LabelSuffixes(LastLabels(Split(NormalizeLiteral(typo), '.')))
  {
    hide Split, NormalizeLiteral, NonEmpty, LabelSuffixes;
    NoEmptyPart(Split(NormalizeLiteral(typo), '.'));
  }

  /** What follows a label of the last 32. */
  lemma SuffixOfLast(labels: seq<string>, x: string)
    requires |labels| >= 2 && forall lab | lab in labels :: '.' !in lab
    ensures x in LabelSuffixes(LastLabels(labels))
      <==> exists k :: 0 <= k < |labels| && Join(labels[k..], '.') == x && 2 <= |Split(x, '.')| <= 32
  {
    hide Split, Join, LabelSuffixes, LastLabels;
    var some := LastLabels(labels);
    var skip, s := |labels| - |some|, LabelSuffixes(LastLabels(labels));
    forall k | 0 <= k < |labels| ensures |Split(Join(labels[k..], '.'), '.')| == |labels| - k {
      SplitJoin(labels[k..], '.');
    }
    forall i | 0 <= i < |s| ensures s[i] == Join(labels[skip + i..], '.') {
      assert some[i..] == labels[skip + i..];
    }
    if k :| 0 <= k < |labels| && Join(labels[k..], '.') == x && 2 <= |Split(x, '.')| <= 32 {
      assert s[k - skip] == x;
    }
  }

  /** The name and the names above it that have 2 to 32 labels. */
  ghost predicate IsNameOrAbove(raw: string, x: string)
  {
    (x == raw || EndsAfter(raw, '.', x)) && 2 <= |Split(x, '.')| <= 32
  }

  lemma SuffixIsNameOrAbove(raw: string, x: string)
    requires |Split(raw, '.')| >= 2
    ensures x in LabelSuffixes(LastLabels(Split(raw, '.'))) <==> IsNameOrAbove(raw, x)
  {
    hide Split, LabelSuffixes, LastLabels, EndsAfter;
    IsFragment(raw, x);
    SuffixOfLast(Split(raw, '.'), x);
  }

  /**
   * The fragments of a name without empty labels are the name and the names above it that have 2 to 32 labels,
   * longest first; a name of one label is its own fragment.
   */
  lemma FragmentsExactly(typo: string)
    requires "" !in Split(NormalizeLiteral(typo), '.')
    ensures var raw, frags := NormalizeLiteral(typo), TypoSuffixHostnames(typo);
      if '.' !in raw then frags == [raw]
      else (forall x :: x in frags <==> IsNameOrAbove(raw, x))
           && forall i, j | 0 <= i < j < |frags| :: |frags[i]| > |frags[j]|
  {
    hide Split, TypoSuffixHostnames, NormalizeLiteral, LabelSuffixes, LastLabels, IsNameOrAbove;
    var raw := NormalizeLiteral(typo);
    EmptySplits();
    if '.' !in raw {
      OneFragment(typo);
    } else {
      TwoLabelsAtLeast(raw);
      ManyFragments(typo);
      forall x ensures x in LabelSuffixes(LastLabels(Split(raw, '.'))) <==> IsNameOrAbove(raw, x) {
        SuffixIsNameOrAbove(raw, x);
      }
      LongestFirst(LastLabels(Split(raw, '.')));
    }
  }

  lemma LongestFirst(labels: seq<string>)
    requires labels != []
    ensures var s := LabelSuffixes(labels); forall i, j | 0 <= i < j < |s| :: |s[i]| > |s[j]|
  {
    hide Join;
    forall i, j | 0 <= i < j < |labels| - 1 ensures |LabelSuffixes(labels)[i]| > |LabelSuffixes(labels)[j]| {
      LaterIsShorter(labels, i, j);
    }
  }

  lemma OneFragment(typo: string)
    requires '.' !in NormalizeLiteral(typo) && NormalizeLiteral(typo) != ""
    ensures TypoSuffixHostnames(typo) == [NormalizeLiteral(typo)]
  {
    var raw := NormalizeLiteral(typo);
    SplitWithout(raw, '.');
    hide NormalizeLiteral, Split;
    NoEmptyPart([raw]);
  }

  lemma TwoLabelsAtLeast(raw: string)
    requires '.' in raw
    ensures |Split(raw, '.')| >= 2
  {
  }

  /** The name and what follows its dots are its label suffixes. */
  lemma IsFragment(raw: string, x: string)
    ensures (x == raw || EndsAfter(raw, '.', x)) <==> exists k :: 0 <= k < |Split(raw, '.')| && Join(Split(raw, '.')[k..], '.') == x
  {
    SuffixesAreLabelSuffixes(raw, '.', x);
    hide Split, EndsAfter;
    var labels := Split(raw, '.');
    if x == raw {
      var k: nat := 0;
      assert labels[k..] == labels;
      assert Join(labels[k..], '.') == x;
    }
    forall k | 0 <= k < |labels| && Join(labels[k..], '.') == x
      ensures x == raw || EndsAfter(raw, '.', x)
    {
      if k == 0 {
        assert labels[k..] == labels;
      } else {
        assert 1 <= k < |Split(raw, '.')| && Join(Split(raw, '.')[k..], '.') == x;
      }
    }
  }

  lemma LaterIsShorter(labels: seq<string>, i: nat, j: nat)
    requires i < j < |labels|
    ensures |Join(labels[i..], '.')| > |Join(labels[j..], '.')|
  {
    assert labels[i..] == labels[i..j] + labels[j..];
    JoinAppend(labels[i..j], labels[j..], '.');
  }

  function PrepareProtected(domain: string, ps: Suffixes): PreparedProtected
  {
    PreparedProtected(domain, NormalizeLiteral(domain), ExtractApex(domain, ps), Collapse(domain))
  }

  function PrepareFragment(cand: string, ps: Suffixes): PreparedFragment
  {
    PreparedFragment(cand, ExtractApex(cand, ps), Collapse(cand))
  }

  function PrepareTypo(typo: string, ps: Suffixes): seq<PreparedFragment>
  {
    var cands := TypoSuffixHostnames(typo);
    seq(|cands|, i requires 0 <= i < |cands| => PrepareFragment(cands[i], ps))
  }

  // ----- scores

  /** One minus the edit distance over the longer length; two empty texts are alike. */
  function ExactSimilarity(a: string, b: string): real
  {
    var m := Max(|a|, |b|);
    if m == 0 then 1.0 else 1.0 - Dist(a, b) as real / m as real
  }

  /** The library call: a similarity below the cutoff comes back as zero. */
  function NormalizedSimilarity(a: string, b: string, cutoff: real): real
  {
    var s := ExactSimilarity(a, b);
    if s >= cutoff then s else 0.0
  }

  function CollapsedScore(frag: PreparedFragment, prot: PreparedProtected, cutoff: real): real
  {
    var s := NormalizedSimilarity(frag.collapsed, prot.collapsed, cutoff);
    if frag.collapsed == prot.collapsed && frag.literal != prot.literal && s > COLLAPSED_MATCH_NON_LITERAL_CAP
    then COLLAPSED_MATCH_NON_LITERAL_CAP else s
  }

  function PairSimilarity(frag: PreparedFragment, prot: PreparedProtected, cutoff: real): real
  {
    var apexSim := NormalizedSimilarity(frag.apex, prot.apex, cutoff);
    var collSim := CollapsedScore(frag, prot, cutoff);
    if collSim > apexSim then collSim else apexSim
  }

  lemma ExactSimilarityRange(a: string, b: string)
    ensures 0.0 <= ExactSimilarity(a, b) <= 1.0
    ensures ExactSimilarity(a, b) == 1.0 <==> a == b
  {
    Bounds(a, b);
    ZeroIffEqual(a, b);
    var m, d := Max(|a|, |b|), Dist(a, b);
    if m > 0 {
      Quotient(d, m);
    }
  }

  lemma Quotient(d: nat, m: nat)
    requires d <= m && m > 0
    ensures 0.0 <= d as real / m as real <= 1.0
    ensures d as real / m as real == 0.0 <==> d == 0
  {
  }

  /** The similarity in terms of edits: what it lacks to one, times the longer length, is the length of a shortest script. */
  lemma SimilarityIsScripts(a: string, b: string)
    requires a != "" || b != ""
    ensures var lack := (1.0 - ExactSimilarity(a, b)) * Max(|a|, |b|) as real;
      (exists script :: Run(script, a) == Some(b) && |script| as real == lack)
      && forall script | Run(script, a) == Some(b) :: |script| as real >= lack
  {
    hide Run, Dist;
    var script := ShortestScript(a, b);
    LackIsDistance(a, b);
    forall other | Run(other, a) == Some(b) ensures |other| >= |script| {
      NoScriptIsShorter(other, a);
    }
  }

  lemma UndoDivision(d: real, m: real, q: real)
    requires m != 0.0 && q == d / m
    ensures q * m == d && (1.0 - (1.0 - q)) * m == d
  {
    assert 1.0 - (1.0 - q) == q;
  }

  lemma LackIsDistance(a: string, b: string)
    requires a != "" || b != ""
    ensures (1.0 - ExactSimilarity(a, b)) * Max(|a|, |b|) as real == Dist(a, b) as real
  {
    hide Dist;
    var m, d := Max(|a|, |b|) as real, Dist(a, b) as real;
    UndoDivision(d, m, d / m);
  }

  /** The apexes are similar enough, or the collapsed forms; equal ones of different names count for 0.99 at most. */
  ghost predicate AreNear(f: PreparedFragment, p: PreparedProtected, t: real)
  {
    ExactSimilarity(f.apex, p.apex) >= t
    || (ExactSimilarity(f.collapsed, p.collapsed) >= t && (f.collapsed == p.collapsed && f.literal != p.literal ==> t <= 0.99))
  }

  /** Which pairs reach a positive score. */
  lemma PairReachesExactly(f: PreparedFragment, p: PreparedProtected, t: real)
    requires t > 0.0
    ensures PairSimilarity(f, p, 0.0) >= t <==> AreNear(f, p, t)
  {
    ExactSimilarityRange(f.apex, p.apex);
    ExactSimilarityRange(f.collapsed, p.collapsed);
    hide ExactSimilarity;
  }

  /** The cutoff is exact on the pairs that reach it, and never lifts another pair up to it. */
  lemma PairCutoff(frag: PreparedFragment, prot: PreparedProtected, cutoff: real)
    ensures var exact, cut := PairSimilarity(frag, prot, 0.0), PairSimilarity(frag, prot, cutoff);
      0.0 <= cut <= exact <= 1.0 && if exact >= cutoff then cut == exact else cut < cutoff
  {
    ExactSimilarityRange(frag.apex, prot.apex);
    ExactSimilarityRange(frag.collapsed, prot.collapsed);
  }

  // ----- the best match

  /** A score that leads to an alert at this threshold: at zero, where thresholds start, it must still be positive. */
  predicate Reaches(score: real, threshold: real)
  {
    score >= threshold && score > 0.0
  }

  ghost predicate BoundedBy(typo: seq<PreparedFragment>, prot: PreparedProtected, cutoff: real, s: real)
  {
    forall j | 0 <= j < |typo| :: PairSimilarity(typo[j], prot, cutoff) <= s
  }

  ghost predicate Attains(typo: seq<PreparedFragment>, prot: PreparedProtected, cutoff: real, s: real)
  {
    exists j :: 0 <= j < |typo| && PairSimilarity(typo[j], prot, cutoff) == s
  }

  /** The `i`-th protected domain is the first that reaches the score `s`, and none scores above it. */
  ghost predicate FirstMaximiser(typo: seq<PreparedFragment>, prots: seq<PreparedProtected>, cutoff: real, s: real, i: int)
  {
    0 <= i < |prots| && Attains(typo, prots[i], cutoff, s)
    && (forall k | 0 <= k < |prots| :: BoundedBy(typo, prots[k], cutoff, s))
    && (forall k | 0 <= k < i :: !Attains(typo, prots[k], cutoff, s))
  }

  /** `(s, p)` is the first maximiser with its positive score, or nobody with zero when no pair scores above zero. */
  ghost predicate IsBest(typo: seq<PreparedFragment>, prots: seq<PreparedProtected>, cutoff: real, s: real, p: Option<string>)
  {
    match p
    case None => s == 0.0 && forall k | 0 <= k < |prots| :: BoundedBy(typo, prots[k], cutoff, 0.0)
    case Some(domain) =>
      s > 0.0 && exists i :: FirstMaximiser(typo, prots, cutoff, s, i) && prots[i].domain == domain
  }

  method BestMatch(typo: seq<PreparedFragment>, prots: seq<PreparedProtected>, cutoff: real)
    returns (bestS: real, bestP: Option<string>)
    ensures IsBest(typo, prots, cutoff, bestS, bestP)
    ensures (bestS, bestP) == Best(typo, prots, cutoff)
  {
    hide PairSimilarity, FirstMaximiser;
    bestS, bestP := 0.0, None;
    for i := 0 to |prots|
      invariant IsBest(typo, prots[..i], cutoff, bestS, bestP)
    {
      ghost var oldS, oldP := bestS, bestP;
      for j := 0 to |typo|
        invariant bestS >= oldS && (bestS == oldS ==> bestP == oldP)
        invariant BoundedBy(typo[..j], prots[i], cutoff, bestS)
        invariant bestS > oldS ==> bestP == Some(prots[i].domain) && Attains(typo[..j], prots[i], cutoff, bestS)
      {
        var s := PairSimilarity(typo[j], prots[i], cutoff);
        if s > bestS {
          bestS, bestP := s, Some(prots[i].domain);
          assert typo[..j + 1][j] == typo[j];
        } else if bestS > oldS {
          ghost var k :| 0 <= k < j && PairSimilarity(typo[..j][k], prots[i], cutoff) == bestS;
          assert typo[..j + 1][k] == typo[..j][k];
        }
        assert typo[..j + 1] == typo[..j] + [typo[j]];
      }
      assert typo[..|typo|] == typo && prots[..i + 1] == prots[..i] + [prots[i]];
      BestGrows(typo, prots[..i], prots[i], cutoff, oldS, oldP, bestS, bestP);
    }
    assert prots[..|prots|] == prots;
    BestIsBest(typo, prots, cutoff);
    BestIsUnique(typo, prots, cutoff, bestS, bestP, Best(typo, prots, cutoff).0, Best(typo, prots, cutoff).1);
  }

  lemma BoundGrows(typo: seq<PreparedFragment>, prots: seq<PreparedProtected>, cutoff: real,
                   s: real, p: Option<string>, s': real)
    requires IsBest(typo, prots, cutoff, s, p) && s' >= s
    ensures forall k | 0 <= k < |prots| :: BoundedBy(typo, prots[k], cutoff, s')
    ensures s' > s ==> forall k | 0 <= k < |prots| :: !Attains(typo, prots[k], cutoff, s')
  {
    hide PairSimilarity;
    forall k | 0 <= k < |prots|
      ensures BoundedBy(typo, prots[k], cutoff, s')
      ensures s' > s ==> !Attains(typo, prots[k], cutoff, s')
    {
      assert BoundedBy(typo, prots[k], cutoff, s);
    }
  }

  /** One more protected domain, scored after the others. */
  lemma BestGrows(typo: seq<PreparedFragment>, prots: seq<PreparedProtected>, last: PreparedProtected, cutoff: real,
                  s: real, p: Option<string>, s': real, p': Option<string>)
    requires IsBest(typo, prots, cutoff, s, p)
    requires s' >= s && BoundedBy(typo, last, cutoff, s')
    requires s' == s ==> p' == p
    requires s' > s ==> p' == Some(last.domain) && Attains(typo, last, cutoff, s')
    ensures IsBest(typo, prots + [last], cutoff, s', p')
  {
    hide PairSimilarity, BoundedBy, Attains;
    var now := prots + [last];
    BoundGrows(typo, prots, cutoff, s, p, s');
    assert forall k | 0 <= k < |now| :: now[k] == if k < |prots| then prots[k] else last;
    if s' > s {
      assert FirstMaximiser(typo, now, cutoff, s', |prots|);
    } else if p.Some? {
      var i :| FirstMaximiser(typo, prots, cutoff, s, i) && prots[i].domain == p.value;
      assert FirstMaximiser(typo, now, cutoff, s', i);
    }
  }

  /** There is only one best match. */
  lemma BestIsUnique(typo: seq<PreparedFragment>, prots: seq<PreparedProtected>, cutoff: real,
                     s: real, p: Option<string>, s': real, p': Option<string>)
    requires IsBest(typo, prots, cutoff, s, p) && IsBest(typo, prots, cutoff, s', p')
    ensures s == s' && p == p'
  {
    hide PairSimilarity;
    if p.Some? && p'.Some? {
      var i :| FirstMaximiser(typo, prots, cutoff, s, i) && prots[i].domain == p.value;
      var i' :| FirstMaximiser(typo, prots, cutoff, s', i') && prots[i'].domain == p'.value;
      assert BoundedBy(typo, prots[i], cutoff, s') && BoundedBy(typo, prots[i'], cutoff, s);
      assert s == s';
      assert i == i';
    }
  }

  // ----- the best match as a function

  /** The highest of zero and the scores of the fragments against one protected domain. */
  function TopScore(typo: seq<PreparedFragment>, prot: PreparedProtected, cutoff: real): real
  {
    if typo == [] then 0.0 else
    var t, s := TopScore(typo[..|typo| - 1], prot, cutoff), PairSimilarity(typo[|typo| - 1], prot, cutoff);
    if s > t then s else t
  }

  function Best(typo: seq<PreparedFragment>, prots: seq<PreparedProtected>, cutoff: real): (real, Option<string>)
  {
    if prots == [] then (0.0, None) else
    var last := prots[|prots| - 1];
    var (s, p) := Best(typo, prots[..|prots| - 1], cutoff);
    var t := TopScore(typo, last, cutoff);
    if t > s then (t, Some(last.domain)) else (s, p)
  }

  lemma {:induction false} TopScoreIsTop(typo: seq<PreparedFragment>, prot: PreparedProtected, cutoff: real)
    ensures var t := TopScore(typo, prot, cutoff);
      t >= 0.0 && BoundedBy(typo, prot, cutoff, t) && (t > 0.0 ==> Attains(typo, prot, cutoff, t))
  {
    hide PairSimilarity;
    if typo != [] {
      var init := typo[..|typo| - 1];
      TopScoreIsTop(init, prot, cutoff);
      var t := TopScore(typo, prot, cutoff);
      if TopScore(init, prot, cutoff) == t && t > 0.0 {
        var j :| 0 <= j < |init| && PairSimilarity(init[j], prot, cutoff) == t;
        assert typo[j] == init[j];
      }
    }
  }

  lemma {:induction false} BestIsBest(typo: seq<PreparedFragment>, prots: seq<PreparedProtected>, cutoff: real)
    ensures IsBest(typo, prots, cutoff, Best(typo, prots, cutoff).0, Best(typo, prots, cutoff).1)
  {
    hide PairSimilarity, BoundedBy, Attains, FirstMaximiser;
    if prots != [] {
      var init, last := prots[..|prots| - 1], prots[|prots| - 1];
      var (s, p) := Best(typo, init, cutoff);
      var t := TopScore(typo, last, cutoff);
      BestIsBest(typo, init, cutoff);
      TopScoreIsTop(typo, last, cutoff);
      var (s', p') := Best(typo, prots, cutoff);
      BoundRaised(typo, last, cutoff, t, s');
      BestGrows(typo, init, last, cutoff, s, p, s', p');
      assert prots == init + [last];
    }
  }

  lemma BoundRaised(typo: seq<PreparedFragment>, prot: PreparedProtected, cutoff: real, t: real, s: real)
    requires BoundedBy(typo, prot, cutoff, t) && s >= t
    ensures BoundedBy(typo, prot, cutoff, s)
  {
    hide PairSimilarity;
  }

  lemma CutoffPerDomain(typo: seq<PreparedFragment>, prot: PreparedProtected, cutoff: real, s: real)
    requires cutoff > 0.0 && BoundedBy(typo, prot, 0.0, s)
    ensures s >= cutoff ==> BoundedBy(typo, prot, cutoff, s)
    ensures s >= cutoff ==> (Attains(typo, prot, cutoff, s) <==> Attains(typo, prot, 0.0, s))
    ensures s < cutoff ==> forall t | t >= cutoff :: !Attains(typo, prot, cutoff, t)
  {
    hide PairSimilarity;
    forall j | 0 <= j < |typo|
      ensures var exact, cut := PairSimilarity(typo[j], prot, 0.0), PairSimilarity(typo[j], prot, cutoff);
        cut <= exact && if exact >= cutoff then cut == exact else cut < cutoff
    {
      PairCutoff(typo[j], prot, cutoff);
    }
    if s >= cutoff && Attains(typo, prot, 0.0, s) {
      var j :| 0 <= j < |typo| && PairSimilarity(typo[j], prot, 0.0) == s;
      assert PairSimilarity(typo[j], prot, cutoff) == s;
    }
  }

  /**
   * Searching with a cutoff refines searching without one: when the exact best reaches the cutoff,
   * score and domain are the same; when it does not, neither does the answer.
   */
  lemma CutoffRefinesBest(typo: seq<PreparedFragment>, prots: seq<PreparedProtected>, cutoff: real,
                          s: real, p: Option<string>, sCut: real, pCut: Option<string>)
    requires cutoff >= 0.0
    requires IsBest(typo, prots, 0.0, s, p) && IsBest(typo, prots, cutoff, sCut, pCut)
    ensures s >= cutoff ==> sCut == s && pCut == p
    ensures s < cutoff ==> sCut < cutoff
  {
    hide PairSimilarity;
    if cutoff == 0.0 {
      BestIsUnique(typo, prots, 0.0, s, p, sCut, pCut);
      return;
    }
    forall k | 0 <= k < |prots|
      ensures s >= cutoff ==> BoundedBy(typo, prots[k], cutoff, s)
      ensures s >= cutoff ==> (Attains(typo, prots[k], cutoff, s) <==> Attains(typo, prots[k], 0.0, s))
      ensures s < cutoff ==> forall t | t >= cutoff :: !Attains(typo, prots[k], cutoff, t)
    {
      assert BoundedBy(typo, prots[k], 0.0, s);
      CutoffPerDomain(typo, prots[k], cutoff, s);
    }
    if s >= cutoff {
      var i :| FirstMaximiser(typo, prots, 0.0, s, i) && prots[i].domain == p.value;
      assert FirstMaximiser(typo, prots, cutoff, s, i);
      BestIsUnique(typo, prots, cutoff, s, p, sCut, pCut);
    } else if pCut.Some? {
      var i :| FirstMaximiser(typo, prots, cutoff, sCut, i) && prots[i].domain == pCut.value;
    }
  }

  /** The best score reaches a threshold exactly when some pair does. */
  lemma BestReaches(typo: seq<PreparedFragment>, prots: seq<PreparedProtected>, threshold: real)
    ensures Reaches(Best(typo, prots, 0.0).0, threshold)
       <==> exists f, p :: f in typo && p in prots && Reaches(PairSimilarity(f, p, 0.0), threshold)
    ensures Best(typo, prots, 0.0).0 > 0.0 <==> Best(typo, prots, 0.0).1.Some?
  {
    hide PairSimilarity, Best;
    var (s, p) := Best(typo, prots, 0.0);
    BestIsBest(typo, prots, 0.0);
    if Reaches(s, threshold) {
      var i :| FirstMaximiser(typo, prots, 0.0, s, i) && prots[i].domain == p.value;
      var j :| 0 <= j < |typo| && PairSimilarity(typo[j], prots[i], 0.0) == s;
      assert typo[j] in typo && prots[i] in prots;
    }
    if f, q :| f in typo && q in prots && Reaches(PairSimilarity(f, q, 0.0), threshold) {
      var i :| 0 <= i < |prots| && prots[i] == q;
      assert BoundedBy(typo, prots[i], 0.0, s);
    }
  }

  /** So the best score reaches a positive threshold exactly when the apexes or the collapsed forms of some pair do. */
  lemma BestReachesExactly(typo: seq<PreparedFragment>, prots: seq<PreparedProtected>, t: real)
    requires t > 0.0
    ensures Best(typo, prots, 0.0).0 >= t <==> exists f, p :: f in typo && p in prots && AreNear(f, p, t)
  {
    hide Best, PairSimilarity, AreNear;
    BestReaches(typo, prots, t);
    forall f, p | f in typo && p in prots
      ensures PairSimilarity(f, p, 0.0) >= t <==> AreNear(f, p, t)
    {
      PairReachesExactly(f, p, t);
    }
  }

  // ----- the length gate

  method CollapsedLengths(prepared: seq<PreparedProtected>) returns (lengths: seq<nat>)
    ensures forall n :: n in lengths <==> exists p :: p in prepared && p.collapsed != "" && |p.collapsed| == n
    ensures forall i, j | 0 <= i < j < |lengths| :: lengths[i] != lengths[j]
  {
    lengths := [];
    var seen: set<nat> := {};
    for i := 0 to |prepared|
      invariant forall n :: n in lengths <==> n in seen
      invariant forall n :: n in seen <==> exists p :: p in prepared[..i] && p.collapsed != "" && |p.collapsed| == n
      invariant forall i, j | 0 <= i < j < |lengths| :: lengths[i] != lengths[j]
    {
      var p := prepared[i];
      assert prepared[..i + 1] == prepared[..i] + [p];
      if p.collapsed != "" {
        var n := |p.collapsed|;
        if n !in seen {
          seen := seen + {n};
          lengths := lengths + [n];
        }
      }
    }
    assert prepared[..|prepared|] == prepared;
  }

  /** The share of the longer length that the two lengths differ by. */
  function LengthGap(la: nat, lb: nat): real
    requires la > 0 || lb > 0
  {
    Abs(la - lb) as real / Max(la, lb) as real
  }

  ghost predicate GateCloses(typo: seq<PreparedFragment>, lengths: seq<nat>, threshold: real)
  {
    lengths != [] && threshold < 1.0
    && forall f, n | f in typo && n in lengths && f.collapsed != "" && n > 0 ::
         LengthGap(|f.collapsed|, n) > 1.0 - threshold
  }

  /** A pair of lengths is too far apart exactly when no two texts of these lengths are similar enough. */
  lemma LengthGapIsExact(a: string, n: nat, threshold: real)
    requires a != "" && n > 0
    ensures LengthGap(|a|, n) > 1.0 - threshold <==> forall b | |b| == n :: ExactSimilarity(a, b) < threshold
  {
    var t := NearestOfLength(a, n);
    hide Dist;
    assert ExactSimilarity(a, t) == 1.0 - LengthGap(|a|, n);
    forall b | |b| == n ensures ExactSimilarity(a, b) <= 1.0 - LengthGap(|a|, n) {
      Bounds(a, b);
      QuotientMonotone(Abs(|a| - n), Dist(a, b), Max(|a|, n));
    }
  }

  /**
   * The gate closes exactly when, whatever the protected names of these lengths are, no collapsed fragment could
   * reach the threshold; but never without lengths, nor at a threshold of one.
   */
  lemma GateClosesExactly(typo: seq<PreparedFragment>, lengths: seq<nat>, threshold: real)
    ensures GateCloses(typo, lengths, threshold)
      <==> lengths != [] && threshold < 1.0
           && forall f, b | f in typo && f.collapsed != "" && b != "" && |b| in lengths :: ExactSimilarity(f.collapsed, b) < threshold
  {
    hide LengthGap, ExactSimilarity;
    forall f, n | f in typo && n in lengths && f.collapsed != "" && n > 0
      ensures LengthGap(|f.collapsed|, n) > 1.0 - threshold <==> forall b | |b| == n :: ExactSimilarity(f.collapsed, b) < threshold
    {
      LengthGapIsExact(f.collapsed, n, threshold);
    }
    if forall f, b | f in typo && f.collapsed != "" && b != "" && |b| in lengths :: ExactSimilarity(f.collapsed, b) < threshold {
      forall f, n | f in typo && n in lengths && f.collapsed != "" && n > 0
        ensures LengthGap(|f.collapsed|, n) > 1.0 - threshold
      {
        assert forall b | |b| == n :: ExactSimilarity(f.collapsed, b) < threshold;
      }
    }
  }

  method ImpossibleByLength(typo: seq<PreparedFragment>, lengths: seq<nat>, threshold: real) returns (r: bool)
    ensures r == GateCloses(typo, lengths, threshold)
  {
    if lengths == [] || threshold >= 1.0 {
      return false;
    }
    var maxEditFrac := 1.0 - threshold;
    for i := 0 to |typo|
      invariant forall f, n | f in typo[..i] && n in lengths && f.collapsed != "" && n > 0 ::
        LengthGap(|f.collapsed|, n) > maxEditFrac
    {
      var f := typo[i];
      assert typo[..i + 1] == typo[..i] + [f];
      if f.collapsed == "" {
        continue;
      }
      for j := 0 to |lengths|
        invariant forall n | n in lengths[..j] && n > 0 :: LengthGap(|f.collapsed|, n) > maxEditFrac
      {
        assert lengths[..j + 1] == lengths[..j] + [lengths[j]];
        if lengths[j] > 0 && LengthGap(|f.collapsed|, lengths[j]) <= maxEditFrac {
          assert f in typo && lengths[j] in lengths;
          return false;
        }
      }
      assert lengths[..|lengths|] == lengths;
    }
    assert typo[..|typo|] == typo;
    return true;
  }

  ghost predicate LengthsOf(lengths: seq<nat>, prots: seq<PreparedProtected>)
  {
    forall n :: n in lengths <==> exists p :: p in prots && p.collapsed != "" && |p.collapsed| == n
  }

  /** A closed gate is right about the collapsed scores. */
  lemma GateSafeForCollapsed(typo: seq<PreparedFragment>, prots: seq<PreparedProtected>, lengths: seq<nat>,
                             threshold: real, f: PreparedFragment, p: PreparedProtected)
    requires GateCloses(typo, lengths, threshold) && LengthsOf(lengths, prots)
    requires f in typo && p in prots && f.collapsed != "" && p.collapsed != ""
    ensures ExactSimilarity(f.collapsed, p.collapsed) < threshold
    ensures CollapsedScore(f, p, 0.0) < threshold
  {
    var la, lb := |f.collapsed|, |p.collapsed|;
    assert lb in lengths;
    Bounds(f.collapsed, p.collapsed);
    var m, d := Max(la, lb), Dist(f.collapsed, p.collapsed);
    QuotientMonotone(Abs(la - lb), d, m);
    ExactSimilarityRange(f.collapsed, p.collapsed);
  }

  lemma QuotientMonotone(a: nat, b: nat, m: nat)
    requires a <= b && m > 0
    ensures a as real / m as real <= b as real / m as real
  {
  }

  /** A pair whose score the lengths say nothing about: a near apex, or two names without letters or digits. */
  ghost predicate BlindSpot(f: PreparedFragment, p: PreparedProtected, threshold: real)
  {
    Reaches(ExactSimilarity(f.apex, p.apex), threshold)
    || (f.collapsed == "" && p.collapsed == ""
        && (if f.literal == p.literal then 1.0 else COLLAPSED_MATCH_NON_LITERAL_CAP) >= threshold)
  }

  lemma ScoreWithEmptyCollapsed(f: PreparedFragment, p: PreparedProtected)
    requires f.collapsed == "" || p.collapsed == ""
    ensures CollapsedScore(f, p, 0.0)
         == if f.collapsed != p.collapsed then 0.0 else if f.literal == p.literal then 1.0 else COLLAPSED_MATCH_NON_LITERAL_CAP
  {
    Bounds(f.collapsed, p.collapsed);
    ExactSimilarityRange(f.collapsed, p.collapsed);
  }

  lemma PairBlindSpot(typo: seq<PreparedFragment>, prots: seq<PreparedProtected>, lengths: seq<nat>,
                      threshold: real, f: PreparedFragment, p: PreparedProtected)
    requires GateCloses(typo, lengths, threshold) && LengthsOf(lengths, prots)
    requires f in typo && p in prots
    ensures Reaches(PairSimilarity(f, p, 0.0), threshold) <==> BlindSpot(f, p, threshold)
  {
    ExactSimilarityRange(f.apex, p.apex);
    if f.collapsed != "" && p.collapsed != "" {
      GateSafeForCollapsed(typo, prots, lengths, threshold, f, p);
    } else {
      ScoreWithEmptyCollapsed(f, p);
    }
  }

  /**
   * What a closed gate throws away, exactly: some pair reaches the threshold if and only if some pair
   * is in the gate's blind spot. So skipping is safe just when there is none.
   */
  lemma GateLosesExactlyBlindSpots(typo: seq<PreparedFragment>, prots: seq<PreparedProtected>, lengths: seq<nat>, threshold: real)
    requires GateCloses(typo, lengths, threshold) && LengthsOf(lengths, prots)
    ensures (exists f, p :: f in typo && p in prots && Reaches(PairSimilarity(f, p, 0.0), threshold))
       <==> (exists f, p :: f in typo && p in prots && BlindSpot(f, p, threshold))
  {
    hide PairSimilarity, GateCloses, BlindSpot;
    forall f, p | f in typo && p in prots
      ensures Reaches(PairSimilarity(f, p, 0.0), threshold) <==> BlindSpot(f, p, threshold)
    {
      PairBlindSpot(typo, prots, lengths, threshold, f, p);
    }
  }

  // ----- a concrete loss

  lemma TwoReplaced(s: string, i: nat, c: char, j: nat, d: char)
    requires i < |s| && j < |s|
    ensures Dist(s, s[i := c][j := d]) <= 2
  {
    hide Dist;
    var u := s[i := c];
    OneEditIsNear(Replace(i, c), s);
    OneEditIsNear(Replace(j, d), u);
    assert s[..i] + [c] + s[i + 1..] == u && u[..j] + [d] + u[j + 1..] == u[j := d];
    Triangle(s, u, u[j := d]);
  }

  const TYPO: PreparedFragment := PreparedFragment("exampel.com", "exampel.com", "exampelcom")
  const PROTECTED: PreparedProtected :=
    PreparedProtected("mail.example.com", "mail.example.com", "example.com", "mailexamplecom")

  lemma TwoEditsInEleven(f: PreparedFragment, p: PreparedProtected)
    requires |f.collapsed| == 10 && |p.collapsed| == 14
    requires |f.apex| == 11 && |p.apex| == 11 && Dist(f.apex, p.apex) <= 2
    ensures GateCloses([f], [|p.collapsed|], 0.75) && LengthsOf([|p.collapsed|], [p])
    ensures PairSimilarity(f, p, 0.0) >= 9.0 / 11.0 > 0.75
  {
    assert LengthGap(10, 14) == 4.0 / 14.0;
    QuotientMonotone(Dist(f.apex, p.apex), 2, 11);
    assert ExactSimilarity(f.apex, p.apex) >= 9.0 / 11.0;
    assert p in [p];
  }

  /**
   * The gate's own comment calls skipping safe; it is not. At the default threshold it drops the typo
   * `exampel.com` of the protected `mail.example.com`, whose apex similarity is at least 9/11.
   */
  lemma GateLosesNearApex(f: PreparedFragment, p: PreparedProtected)
    requires f == TYPO && p == PROTECTED
    ensures GateCloses([f], [|p.collapsed|], 0.75) && LengthsOf([|p.collapsed|], [p])
    ensures PairSimilarity(f, p, 0.0) >= 9.0 / 11.0 > 0.75
  {
    TheTexts(f, p);
    hide GateCloses, PairSimilarity;
    TwoReplaced(f.apex, 5, 'l', 6, 'e');
    TwoEditsInEleven(f, p);
  }

  lemma TheTexts(f: PreparedFragment, p: PreparedProtected)
    requires f == TYPO && p == PROTECTED
    ensures |f.collapsed| == 10 && |p.collapsed| == 14 && |f.apex| == 11 && |p.apex| == 11
    ensures p.apex == f.apex[5 := 'l'][6 := 'e']
  {
  }
}
