/** Preparing plain host names for scoring, and a protected domain whose typo the length gate throws away. */
module PreparedNames {
  import opened Text
  import opened DomainLabels
  import opened Similarity
  import ScopeRegex
  import ScopeMatcher

  /** Labels of lower-case letters and digits. */
  predicate IsPlain(labels: seq<string>)
  {
    forall lab | lab in labels :: IsPlainLabel(lab)
  }

  predicate IsPlainLabel(lab: string)
  {
    lab != "" && forall c | c in lab :: 'a' <= c <= 'z' || '0' <= c <= '9'
  }

  lemma PlainLabelIsText(lab: string)
    requires IsPlainLabel(lab)
    ensures ScopeRegex.IsLabelText(lab) && forall c | c in lab :: IsAlnum(c)
  {
  }

  function Concat(labels: seq<string>): string
  {
    if labels == [] then "" else labels[0] + Concat(labels[1..])
  }

  lemma {:induction false} KeepEverything(a: string, p: char -> bool)
    requires forall c | c in a :: p(c)
    ensures Keep(a, p) == a
  {
    if a != "" {
      KeepEverything(a[1..], p);
    }
  }

  lemma {:induction false} CollapsedJoin(labels: seq<string>)
    requires IsPlain(labels)
    ensures Keep(Join(labels, '.'), IsAlnum) == Concat(labels)
  {
    if labels != [] {
      assert IsPlainLabel(labels[0]) && IsPlain(labels[1..]);
      PlainLabelIsText(labels[0]);
      KeepEverything(labels[0], IsAlnum);
      if |labels| == 1 {
        assert labels[1..] == [] && labels[0] + "" == labels[0];
      } else {
        CollapsedJoin(labels[1..]);
        KeepOf(labels[0] + ".", Join(labels[1..], '.'), IsAlnum);
        KeepOf(labels[0], ".", IsAlnum);
        DotIsDropped();
        assert labels[0] + "" == labels[0];
      }
    }
  }

  lemma DotIsDropped()
    ensures Keep(".", IsAlnum) == ""
  {
    assert "."[1..] == "";
  }

  lemma LabelsAreTexts(labels: seq<string>)
    requires IsPlain(labels)
    ensures forall lab | lab in labels :: ScopeRegex.IsLabelText(lab)
  {
    hide ScopeRegex.IsLabelText;
    forall lab | lab in labels ensures ScopeRegex.IsLabelText(lab) {
      assert IsPlainLabel(lab);
      PlainLabelIsText(lab);
    }
  }

  lemma LastIsNoDot(labels: seq<string>)
    requires labels != [] && forall lab | lab in labels :: ScopeRegex.IsLabelText(lab)
    ensures var h := Join(labels, '.'); h != "" && h[|h| - 1] != '.'
  {
    var h := Join(labels, '.');
    ScopeMatcher.JoinedLabelChars(labels);
    ScopeMatcher.LabelCharIsPlain(h[|h| - 1]);
  }

  lemma NormalForms(h: string, labels: seq<string>, ps: Suffixes)
    requires h != "" && h[|h| - 1] != '.' && Lower(h) == h && Strip(h) == h && Split(h, '.') == labels
    ensures NormalizeLiteral(h) == h && Collapse(h) == Keep(h, IsAlnum) && ExtractApex(h, ps) == Join(ApexLabels(labels, ps), '.')
  {
    hide Strip, Lower, Split, Join, Keep, ApexLabels;
    assert NormalizeLiteral(h) == h;
  }

  /** A plain name is its own literal; its apex is taken label by label and its collapsed form drops the dots. */
  lemma PlainNameIsPrepared(labels: seq<string>, ps: Suffixes)
    requires labels != [] && IsPlain(labels)
    ensures var h := Join(labels, '.');
      NormalizeLiteral(h) == h && Collapse(h) == Concat(labels) && ExtractApex(h, ps) == Join(ApexLabels(labels, ps), '.')
  {
    hide Strip, Lower, Split, Join, Keep, Concat, IsPlain, ApexLabels, NormalizeLiteral, Collapse, ExtractApex;
    hide ScopeMatcher.NormHost, ScopeRegex.IsLabelText;
    LabelsAreTexts(labels);
    ScopeMatcher.LabelTextsAreNormal(labels);
    LastIsNoDot(labels);
    CollapsedJoin(labels);
    NormalForms(Join(labels, '.'), labels, ps);
  }

  /** The protected domain of a plain name, however it is written: with blanks around it or in upper case. */
  lemma ProtectedIsPrepared(a: string, written: string, b: string, labels: seq<string>, ps: Suffixes)
    requires labels != [] && IsPlain(labels) && IsBlank(a) && IsBlank(b) && Lower(written) == Join(labels, '.')
    ensures PrepareProtected(a + written + b, ps)
         == PreparedProtected(a + written + b, Join(labels, '.'), Join(ApexLabels(labels, ps), '.'), Concat(labels))
  {
    hide Lower, Split, Join, Keep, Concat, IsPlain, ApexLabels, NormalizeLiteral, ExtractApex, IsBlank, AllAre;
    hide ScopeRegex.IsLabelText;
    var h := Join(labels, '.');
    LabelsAreTexts(labels);
    PlainNameIsPrepared(labels, ps);
    EndsOfPlain(written, labels);
    LiteralOf(a, written, b);
    NamesAreNormalised(a, written, b, ps);
    CollapseOf(a + written + b, h);
  }

  lemma LiteralOf(a: string, written: string, b: string)
    requires IsBlank(a) && IsBlank(b) && written != ""
    requires !IsSpace(written[0]) && !IsSpace(written[|written| - 1]) && written[|written| - 1] != '.'
    ensures NormalizeLiteral(a + written + b) == Lower(written)
  {
    hide NormalizeLiteral, IsBlank, Lower;
    assert a + written + "" + b == a + written + b;
    LiteralIs(a, written, "", b);
  }

  lemma CollapseOf(raw: string, h: string)
    requires NormalizeLiteral(raw) == h && NormalizeLiteral(h) == h
    ensures Collapse(raw) == Collapse(h)
  {
    hide NormalizeLiteral;
  }

  lemma EndsOfPlain(written: string, labels: seq<string>)
    requires labels != [] && Lower(written) == Join(labels, '.') && forall lab | lab in labels :: ScopeRegex.IsLabelText(lab)
    ensures written != "" && !IsSpace(written[0]) && !IsSpace(written[|written| - 1]) && written[|written| - 1] != '.'
  {
    var h := Join(labels, '.');
    ScopeMatcher.JoinedLabelChars(labels);
    hide Join, Lower, IsSpace, LowerChar;
    ScopeMatcher.LabelCharIsPlain(h[0]);
    ScopeMatcher.LabelCharIsPlain(h[|h| - 1]);
    LowerKeepsSpace(written[0]);
    LowerKeepsSpace(written[|written| - 1]);
    DotIsLower();
  }

  lemma DotIsLower()
    ensures LowerChar('.') == '.'
  {
  }

  /** The fragments of a plain name of 2 to 32 labels: for each label but the last, the name from there on. */
  lemma TypoIsPrepared(labels: seq<string>, ps: Suffixes)
    requires 2 <= |labels| <= 32 && IsPlain(labels)
    ensures var typo := PrepareTypo(Join(labels, '.'), ps);
      |typo| == |labels| - 1
      && forall i | 0 <= i < |typo| ::
        typo[i] == PreparedFragment(Join(labels[i..], '.'), Join(ApexLabels(labels[i..], ps), '.'), Concat(labels[i..]))
  {
    var h := Join(labels, '.');
    PlainFragments(labels, ps);
    hide Join, Concat, ApexLabels, PrepareFragment, TypoSuffixHostnames, IsPlain;
    forall i | 0 <= i < |labels| - 1
      ensures PrepareFragment(TypoSuffixHostnames(h)[i], ps)
           == PreparedFragment(Join(labels[i..], '.'), Join(ApexLabels(labels[i..], ps), '.'), Concat(labels[i..]))
    {
      PlainFragmentIsPrepared(labels, i, ps);
    }
  }

  lemma FragmentsOf(h: string, labels: seq<string>)
    requires NormalizeLiteral(h) == h && Split(h, '.') == labels && "" !in labels && 2 <= |labels| <= 32
    ensures TypoSuffixHostnames(h) == LabelSuffixes(labels)
  {
    hide Split, NormalizeLiteral, TypoSuffixHostnames, LabelSuffixes;
    ManyFragments(h);
  }

  lemma NoEmptyLabels(labels: seq<string>)
    requires IsPlain(labels)
    ensures "" !in labels
  {
    forall lab | lab in labels ensures lab != "" {
      assert IsPlainLabel(lab);
    }
  }

  lemma PlainFragments(labels: seq<string>, ps: Suffixes)
    requires 2 <= |labels| <= 32 && IsPlain(labels)
    ensures var frags := TypoSuffixHostnames(Join(labels, '.'));
      |frags| == |labels| - 1 && forall i | 0 <= i < |frags| :: frags[i] == Join(labels[i..], '.')
  {
    hide *;
    NoEmptyLabels(labels);
    LabelsAreTexts(labels);
    PlainNameIsPrepared(labels, ps);
    ScopeMatcher.LabelTextsAreNormal(labels);
    FragmentsOf(Join(labels, '.'), labels);
  }

  lemma PlainFragmentIsPrepared(labels: seq<string>, i: nat, ps: Suffixes)
    requires i < |labels| && IsPlain(labels)
    ensures PrepareFragment(Join(labels[i..], '.'), ps)
         == PreparedFragment(Join(labels[i..], '.'), Join(ApexLabels(labels[i..], ps), '.'), Concat(labels[i..]))
  {
    hide Join, Concat, ApexLabels, NormalizeLiteral, Collapse, ExtractApex, IsPlainLabel;
    PlainNameIsPrepared(labels[i..], ps);
  }

  /** The fragments of a plain name of two labels: the name itself. */
  lemma TwoLabelsAreOneFragment(labels: seq<string>)
    requires |labels| == 2 && IsPlain(labels)
    ensures TypoSuffixHostnames(Join(labels, '.')) == [Join(labels, '.')]
  {
    hide Join, IsPlain, TypoSuffixHostnames;
    PlainFragments(labels, _ => false);
    assert labels[0..] == labels;
  }

  /** `com` is the longest public suffix of the name. */
  ghost predicate EndsInSuffix(labels: seq<string>, com: string, ps: Suffixes)
  {
    |labels| >= 2 && labels[|labels| - 1] == com && ps([com]) && forall k | 0 <= k < |labels| - 1 :: !ps(labels[k..])
  }

  /** Then the apex is the last two labels. */
  lemma {:induction false} ApexUnderCom(labels: seq<string>, com: string, ps: Suffixes)
    requires EndsInSuffix(labels, com, ps) && "" !in labels
    ensures SuffixStart(labels, ps) == |labels| - 1 && ApexLabels(labels, ps) == labels[|labels| - 2..]
  {
    assert labels[|labels| - 1..] == [com];
  }

  lemma LettersArePlain(lab: string)
    requires lab != "" && forall c | c in lab :: 'a' <= c <= 'z'
    ensures IsPlainLabel(lab)
  {
  }

  lemma TwoLabels(a: string, b: string)
    ensures Join([a, b], '.') == a + "." + b && Concat([a, b]) == a + b
  {
    assert [a, b][1..] == [b] && [b][1..] == [] && b + "" == b;
    assert Concat([b]) == b + Concat([]);
  }

  lemma ThreeLabels(a: string, b: string, c: string)
    ensures Join([a, b, c], '.') == a + "." + (b + "." + c) && Concat([a, b, c]) == a + (b + c)
  {
    TwoLabels(b, c);
    assert [a, b, c][1..] == [b, c];
  }

  lemma TheLabels(mail: string, example: string, exampel: string, com: string)
    requires mail == "mail" && example == "example" && exampel == "exampel" && com == "com"
    ensures IsPlain([mail, example, com]) && IsPlain([exampel, com])
  {
    LettersArePlain(mail);
    LettersArePlain(example);
    LettersArePlain(exampel);
    LettersArePlain(com);
    hide IsPlainLabel;
  }

  lemma TheTexts(mail: string, example: string, exampel: string, com: string)
    requires mail == "mail" && example == "example" && exampel == "exampel" && com == "com"
    ensures mail + "." + (example + "." + com) == PROTECTED.domain && mail + (example + com) == PROTECTED.collapsed
    ensures example + "." + com == PROTECTED.apex && exampel + "." + com == TYPO.literal && exampel + com == TYPO.collapsed
  {
  }

  /** A plain name of two labels or more under the suffix, as a protected domain. */
  lemma ProtectedUnderCom(labels: seq<string>, com: string, ps: Suffixes)
    requires IsPlain(labels) && EndsInSuffix(labels, com, ps) && "" !in labels
    ensures var h := Join(labels, '.');
      PrepareProtected(h, ps) == PreparedProtected(h, h, Join(labels[|labels| - 2..], '.'), Concat(labels))
  {
    hide IsPlain, Join, Concat, NormalizeLiteral, Collapse, ExtractApex, SuffixStart, ApexLabels;
    PlainNameIsPrepared(labels, ps);
    ApexUnderCom(labels, com, ps);
  }

  /** A plain name of two labels under the suffix, as a typo. */
  lemma TypoUnderCom(labels: seq<string>, com: string, ps: Suffixes)
    requires |labels| == 2 && IsPlain(labels) && EndsInSuffix(labels, com, ps) && "" !in labels
    ensures var h := Join(labels, '.'); PrepareTypo(h, ps) == [PreparedFragment(h, h, Concat(labels))]
  {
    hide IsPlain, Join, Concat, NormalizeLiteral, Collapse, ExtractApex, SuffixStart, ApexLabels, TypoSuffixHostnames;
    PlainNameIsPrepared(labels, ps);
    ApexUnderCom(labels, com, ps);
    TwoLabelsAreOneFragment(labels);
    assert labels[0..] == labels;
  }

  lemma PreparedAs(mail: string, example: string, exampel: string, com: string,
                   f: PreparedFragment, p: PreparedProtected, ps: Suffixes)
    requires mail == "mail" && example == "example" && exampel == "exampel" && com == "com"
    requires f == TYPO && p == PROTECTED
    requires EndsInSuffix([mail, example, com], com, ps) && EndsInSuffix([exampel, com], com, ps)
    ensures PrepareProtected(p.domain, ps) == p && PrepareTypo(f.literal, ps) == [f]
  {
    hide IsPlain, IsPlainLabel, Join, Concat, PrepareTypo, PrepareProtected;
    TheLabels(mail, example, exampel, com);
    TheTexts(mail, example, exampel, com);
    ThreeLabels(mail, example, com);
    TwoLabels(exampel, com);
    TwoLabels(example, com);
    assert "" !in [mail, example, com] && "" !in [exampel, com];
    ProtectedUnderCom([mail, example, com], com, ps);
    TypoUnderCom([exampel, com], com, ps);
    assert [mail, example, com][1..] == [example, com];
  }

  /** The gate closes although the best match scores at least `score`, which is above the threshold. */
  ghost predicate GateDrops(typo: seq<PreparedFragment>, prot: PreparedProtected, threshold: real, score: real)
  {
    GateCloses(typo, [|prot.collapsed|], threshold) && LengthsOf([|prot.collapsed|], [prot])
    && Best(typo, [prot], 0.0).0 >= score > threshold
  }

  /**
   * From the raw names: at the default threshold the gate closes on `exampel.com` against the protected
   * `mail.example.com`, although the best match scores at least 9/11. Of the suffix list only this matters: `com`
   * is a public suffix and nothing longer at the end of either name is.
   */
  lemma GateDropsTypo(mail: string, example: string, exampel: string, com: string,
                      f: PreparedFragment, p: PreparedProtected, ps: Suffixes)
    requires mail == "mail" && example == "example" && exampel == "exampel" && com == "com"
    requires f == TYPO && p == PROTECTED
    requires EndsInSuffix([mail, example, com], com, ps) && EndsInSuffix([exampel, com], com, ps)
    ensures GateDrops(PrepareTypo(f.literal, ps), PrepareProtected(p.domain, ps), 0.75, 9.0 / 11.0)
  {
    hide PairSimilarity, Best, PrepareTypo, PrepareProtected, EndsInSuffix;
    PreparedAs(mail, example, exampel, com, f, p, ps);
    GateLosesNearApex(f, p);
    hide GateCloses;
    assert f in [f] && p in [p];
    BestReaches([f], [p], 9.0 / 11.0);
  }
}
