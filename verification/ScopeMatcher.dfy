/** Scope entries, the regular expressions they compile to, and the zone each can match under (`scope_matcher.py`). */
module ScopeMatcher {
  import opened Text
  import opened ScopeRegex
  import opened DomainLabels

  /** A raised ValueError is an Err. */
  datatype Result<+T> = Ok(value: T) | Err(error: string)

  function NormHost(hostname: string): string
  {
    Trim(Lower(Strip(hostname)), IsDot)
  }

  // ----- validation

  datatype ScopeEntry = NotAnObject | NoPatternString | Entry(pattern: string, wildcard: bool)
  datatype Rule = Rule(pattern: string, wildcard: bool)

  predicate IsHyphenated(lab: string)
  {
    IsLabelText(lab) && lab[0] != '-' && lab[|lab| - 1] != '-'
  }

  /** The label test; like every `$`, its end anchor lets one final newline through. */
  predicate IsValidLiteralLabel(lab: string)
  {
    0 < |lab| <= 63
    && (lab == "*" || IsHyphenated(lab) || (lab[|lab| - 1] == '\n' && IsHyphenated(lab[..|lab| - 1])))
  }

  predicate AreValidLabels(labels: seq<string>)
  {
    forall i | 0 <= i < |labels| :: labels[i] == "*" || IsValidLiteralLabel(labels[i])
  }

  function ValidateEntry(entry: ScopeEntry): Result<Rule>
  {
    match entry
    case NotAnObject => Err("scope entry must be an object")
    case NoPatternString => Err("scope entry requires non-empty pattern string")
    case Entry(raw, wildcard) =>
      if Strip(raw) == "" then Err("scope entry requires non-empty pattern string")
      else ValidatePattern(NormHost(raw), wildcard)
  }

  function ValidatePattern(pattern: string, wildcard: bool): Result<Rule>
  {
    var labels := Split(pattern, '.');
    if pattern == "" then Err("invalid pattern")
    else if "" in labels then Err("invalid pattern: empty label")
    else if !AreValidLabels(labels) then Err("invalid label in pattern")
    else Ok(Rule(pattern, wildcard || "*" in labels))
  }

  // ----- compilation

  datatype Part = AnyLabel | Exactly(text: string)

  function PartText(p: Part): string
  {
    match p
    case AnyLabel => LABEL_TEXT
    case Exactly(text) => Escape(text)
  }

  /** The parts' texts joined by an escaped dot. */
  function Emit(parts: seq<Part>): string
  {
    if parts == [] then "" else if |parts| == 1 then PartText(parts[0])
    else PartText(parts[0]) + DOT_TEXT + Emit(parts[1..])
  }

  function Literally(labels: seq<string>): seq<Part>
  {
    seq(|labels|, i requires 0 <= i < |labels| => Exactly(labels[i]))
  }

  function InnerParts(labels: seq<string>): seq<Part>
  {
    seq(|labels|, i requires 0 <= i < |labels| => if labels[i] == "*" then AnyLabel else Exactly(labels[i]))
  }

  const SUBDOMAINS: string := "(?:" + LABEL_TEXT + DOT_TEXT + ")"

  function StructuredPatternToRegex(pattern: string): Result<string>
  {
    var labels := Split(pattern, '.');
    if labels[0] == "*" then
      if |labels| < 2 then Err("pattern * alone is invalid")
      else Ok("^" + SUBDOMAINS + "+" + Emit(Literally(labels[1..])) + "$")
    else Ok("^" + Emit(InnerParts(labels)) + "$")
  }

  function CompileStructured(rule: Rule): Result<string>
  {
    if '*' in rule.pattern then StructuredPatternToRegex(rule.pattern)
    else if rule.wildcard then Ok("^" + SUBDOMAINS + "*" + Emit(Literally(Split(rule.pattern, '.'))) + "$")
    else Ok("^" + Emit(Literally(Split(rule.pattern, '.'))) + "$")
  }

  // ----- what a rule means, label by label

  /** `hl` is `zone` below at least `least` further labels. */
  predicate Below(zone: seq<string>, hl: seq<string>, least: nat)
  {
    |hl| >= |zone| + least && hl[|hl| - |zone|..] == zone
    && forall i | 0 <= i < |hl| - |zone| :: IsLabelText(hl[i])
  }

  predicate LabelByLabel(labels: seq<string>, hl: seq<string>)
  {
    |hl| == |labels|
    && forall i | 0 <= i < |hl| :: if labels[i] == "*" then IsLabelText(hl[i]) else hl[i] == labels[i]
  }

  /**
   * The four forms: a leading star stands for one or more labels (and the other labels, even stars, for
   * themselves); inner stars stand for one label each; without stars, a wildcard rule takes the name and
   * everything below it, and a plain rule only the name.
   */
  predicate InRule(rule: Rule, hl: seq<string>)
  {
    var labels := Split(rule.pattern, '.');
    if '*' in rule.pattern then
      if labels[0] == "*" then Below(labels[1..], hl, 1) else LabelByLabel(labels, hl)
    else if rule.wildcard then Below(labels, hl, 0)
    else hl == labels
  }

  // ----- the emitted text parses to this expression

  function PartThen(p: Part, r: Regex): Regex
  {
    match p
    case AnyLabel => Cat(Label, r)
    case Exactly(text) => Literal(text, r)
  }

  function RegexOf(parts: seq<Part>): Regex
    requires parts != []
  {
    PartThen(parts[0], if |parts| == 1 then Eps else Cat(Chr('.'), RegexOf(parts[1..])))
  }

  lemma PartParses(p: Part, t: string)
    requires Unquantified(t) && ParseSequence(t).Some?
    ensures ParseSequence(PartText(p) + t) == Some((PartThen(p, ParseSequence(t).value.0), ParseSequence(t).value.1))
    ensures Unquantified(PartText(p) + t)
  {
    match p
    case AnyLabel => LabelParses(t);
    case Exactly(text) => EscapedParses(text, t);
  }

  lemma EmitStep(parts: seq<Part>)
    requires |parts| > 1
    ensures Emit(parts) + "$" == PartText(parts[0]) + (DOT_TEXT + (Emit(parts[1..]) + "$"))
  {
    assert Emit(parts) == PartText(parts[0]) + DOT_TEXT + Emit(parts[1..]);
    hide PartText, Emit;
    Regroup(PartText(parts[0]), DOT_TEXT, Emit(parts[1..]), "$");
  }

  lemma {:induction false} EmitParses(parts: seq<Part>)
    requires parts != []
    ensures ParseSequence(Emit(parts) + "$") == Some((RegexOf(parts), "$")) && Unquantified(Emit(parts) + "$")
  {
    assert ParseSequence("$") == Some((Eps, "$"));
    if |parts| == 1 {
      PartParses(parts[0], "$");
    } else {
      EmitStep(parts);
      EmitParses(parts[1..]);
      DotParses(Emit(parts[1..]) + "$");
      PartParses(parts[0], DOT_TEXT + (Emit(parts[1..]) + "$"));
    }
  }

  lemma PlainTextParses(parts: seq<Part>)
    requires parts != []
    ensures Parse("^" + Emit(parts) + "$") == Some(RegexOf(parts))
  {
    EmitParses(parts);
    hide Emit, RegexOf, ParseSequence;
    assert ("^" + Emit(parts) + "$")[1..] == Emit(parts) + "$";
  }

  lemma SubdomainText(quantifier: char, t: string)
    ensures ("^" + SUBDOMAINS + [quantifier] + t)[1..] == "(?:" + LABEL_TEXT + DOT_TEXT + ")" + [quantifier] + t
  {
  }

  lemma SubdomainTextParses(quantifier: char, parts: seq<Part>)
    requires parts != [] && (quantifier == '+' || quantifier == '*')
    ensures Parse("^" + SUBDOMAINS + [quantifier] + Emit(parts) + "$")
         == Some(Cat(if quantifier == '+' then Plus(LabelDot) else Star(LabelDot), RegexOf(parts)))
  {
    var t := Emit(parts) + "$";
    EmitParses(parts);
    GroupParses(quantifier, t);
    SubdomainText(quantifier, t);
    assert "^" + SUBDOMAINS + [quantifier] + Emit(parts) + "$" == "^" + SUBDOMAINS + [quantifier] + t;
  }

  // ----- and the expression accepts what the rule means

  predicate PartMatches(p: Part, lab: string)
  {
    match p
    case AnyLabel => IsLabelText(lab)
    case Exactly(text) => lab == text
  }

  predicate Aligned(parts: seq<Part>, hl: seq<string>)
  {
    |parts| == |hl| && forall i | 0 <= i < |hl| :: PartMatches(parts[i], hl[i])
  }

  predicate DotFree(parts: seq<Part>)
  {
    forall i | 0 <= i < |parts| :: parts[i].Exactly? ==> '.' !in parts[i].text
  }

  lemma LastPartMatches(p: Part, h: string)
    ensures Matches(PartThen(p, Eps), h) <==> PartMatches(p, h)
  {
    match p
    case AnyLabel =>
      if Matches(Cat(Label, Eps), h) {
        var i := CatCut(Label, Eps, h);
        assert h[..i] == h;
        LabelMatches(h);
      }
      if IsLabelText(h) {
        LabelMatches(h);
        assert h[..|h|] == h && h[|h|..] == "";
        CatFrom(Label, Eps, h, |h|);
      }
    case Exactly(text) =>
      LiteralMatches(text, Eps, h);
      if text <= h && h[|text|..] == "" { assert h == text; }
      if h == text { assert h[|text|..] == ""; }
  }

  ghost predicate StartsWithPart(p: Part, r: Regex, h: string)
  {
    var i := IndexOf(h, '.');
    i < |h| && PartMatches(p, h[..i]) && Matches(r, h[i + 1..])
  }

  lemma PartDotThen(p: Part, r: Regex, h: string)
    requires p.Exactly? ==> '.' !in p.text
    ensures Matches(PartThen(p, Cat(Chr('.'), r)), h) <==> StartsWithPart(p, r, h)
  {
    match p
    case AnyLabel => LabelDotThen(r, h);
    case Exactly(text) =>
      LiteralMatches(text, Cat(Chr('.'), r), h);
      if text <= h {
        CharThen('.', r, h[|text|..]);
        if h[|text|..] != "" && h[|text|] == '.' {
          FirstAt(h, '.', |text|);
          assert h[|text|..][1..] == h[|text| + 1..];
        }
      }
      if StartsWithPart(p, r, h) {
        assert h[|text|..][0] == h[|text|];
      }
  }

  lemma {:induction false} PartsMatch(parts: seq<Part>, h: string)
    requires parts != [] && DotFree(parts)
    ensures Matches(RegexOf(parts), h) <==> Aligned(parts, Split(h, '.'))
  {
    var i := IndexOf(h, '.');
    if |parts| == 1 {
      LastPartMatches(parts[0], h);
      if PartMatches(parts[0], h) {
        DotFreePart(parts[0], h);
      }
    } else {
      PartDotThen(parts[0], RegexOf(parts[1..]), h);
      if i < |h| {
        PartsMatch(parts[1..], h[i + 1..]);
        AlignedStep(parts, h[..i], Split(h[i + 1..], '.'));
      }
    }
  }

  lemma DotFreePart(p: Part, h: string)
    requires PartMatches(p, h) && (p.Exactly? ==> '.' !in p.text)
    ensures Split(h, '.') == [h]
  {
    if p.AnyLabel? { NoDotInLabel(h); }
  }

  lemma AlignedStep(parts: seq<Part>, lab: string, hl: seq<string>)
    requires parts != []
    ensures Aligned(parts, [lab] + hl) <==> PartMatches(parts[0], lab) && Aligned(parts[1..], hl)
  {
    var all := [lab] + hl;
    if Aligned(parts, all) {
      forall i | 0 <= i < |hl| ensures PartMatches(parts[1..][i], hl[i]) {
        assert PartMatches(parts[i + 1], all[i + 1]);
      }
      assert PartMatches(parts[0], all[0]);
    }
  }

  lemma LiterallyAligned(labels: seq<string>, hl: seq<string>)
    ensures Aligned(Literally(labels), hl) <==> hl == labels
  {
    if Aligned(Literally(labels), hl) {
      forall i | 0 <= i < |hl| ensures hl[i] == labels[i] {
        assert PartMatches(Literally(labels)[i], hl[i]);
      }
    }
  }

  /** One label more above the zone. */
  lemma BelowStep(zone: seq<string>, lab: string, hl: seq<string>, least: nat)
    ensures Below(zone, [lab] + hl, least + 1) <==> IsLabelText(lab) && Below(zone, hl, least)
  {
    var all := [lab] + hl;
    if |hl| >= |zone| {
      assert all[|all| - |zone|..] == hl[|hl| - |zone|..];
      assert forall i | 0 <= i < |hl| - |zone| :: all[i + 1] == hl[i];
      if Below(zone, all, least + 1) {
        assert all[0] == lab;
        forall i | 0 <= i < |hl| - |zone| ensures IsLabelText(hl[i]) {
          assert IsLabelText(all[i + 1]);
        }
      }
    }
  }

  lemma BelowZero(zone: seq<string>, hl: seq<string>)
    ensures Below(zone, hl, 0) <==> hl == zone || Below(zone, hl, 1)
  {
    if |hl| == |zone| {
      assert hl[0..] == hl;
    }
  }

  /** A label and its dot in front of a host below the zone. */
  lemma LabelAboveZone(zone: seq<string>, h: string)
    requires zone != []
    ensures Below(zone, Split(h, '.'), 1)
       <==> var i := IndexOf(h, '.'); i < |h| && IsLabelText(h[..i]) && Below(zone, Split(h[i + 1..], '.'), 0)
  {
    var i := IndexOf(h, '.');
    if i < |h| {
      assert Split(h, '.') == [h[..i]] + Split(h[i + 1..], '.');
      BelowStep(zone, h[..i], Split(h[i + 1..], '.'), 0);
    } else {
      assert |Split(h, '.')| == 1;
    }
  }

  lemma {:induction false} SubdomainsMatch(labels: seq<string>, h: string)
    requires labels != [] && forall lab | lab in labels :: '.' !in lab
    ensures Matches(Cat(Star(LabelDot), RegexOf(Literally(labels))), h) <==> Below(labels, Split(h, '.'), 0)
    decreases |h|
  {
    var r := RegexOf(Literally(labels));
    var i := IndexOf(h, '.');
    if i < |h| {
      SubdomainsMatch(labels, h[i + 1..]);
    }
    LabelDotsThen(r, h);
    PartsMatch(Literally(labels), h);
    LiterallyAligned(labels, Split(h, '.'));
    LabelAboveZone(labels, h);
    BelowZero(labels, Split(h, '.'));
  }

  lemma StarredMatch(labels: seq<string>, h: string)
    requires labels != [] && forall lab | lab in labels :: '.' !in lab
    ensures Matches(Cat(Plus(LabelDot), RegexOf(Literally(labels))), h) <==> Below(labels, Split(h, '.'), 1)
  {
    var i := IndexOf(h, '.');
    if i < |h| {
      SubdomainsMatch(labels, h[i + 1..]);
    }
    LabelDotsPlusThen(RegexOf(Literally(labels)), h);
    LabelAboveZone(labels, h);
  }

  lemma InnerAligned(labels: seq<string>, hl: seq<string>)
    ensures Aligned(InnerParts(labels), hl) <==> LabelByLabel(labels, hl)
  {
    if Aligned(InnerParts(labels), hl) {
      forall i | 0 <= i < |hl| ensures if labels[i] == "*" then IsLabelText(hl[i]) else hl[i] == labels[i] {
        assert PartMatches(InnerParts(labels)[i], hl[i]);
      }
    }
  }

  /** The expression behind a compiled rule. */
  function RuleRegex(rule: Rule): Regex
    requires rule.pattern != "*"
  {
    var labels := Split(rule.pattern, '.');
    if '*' in rule.pattern then
      if labels[0] == "*" && |labels| > 1 then Cat(Plus(LabelDot), RegexOf(Literally(labels[1..])))
      else RegexOf(InnerParts(labels))
    else if rule.wildcard then Cat(Star(LabelDot), RegexOf(Literally(labels)))
    else RegexOf(Literally(labels))
  }

  lemma LoneStar(pattern: string)
    ensures Split(pattern, '.') == ["*"] <==> pattern == "*"
  {
  }

  lemma CompiledTextParses(rule: Rule)
    requires rule.pattern != "*"
    ensures CompileStructured(rule).Ok? && Parse(CompileStructured(rule).value) == Some(RuleRegex(rule))
  {
    LoneStar(rule.pattern);
    var labels := Split(rule.pattern, '.');
    if '*' in rule.pattern {
      if labels[0] == "*" {
        assert labels != ["*"];
        SubdomainTextParses('+', Literally(labels[1..]));
      } else {
        PlainTextParses(InnerParts(labels));
      }
    } else if rule.wildcard {
      SubdomainTextParses('*', Literally(labels));
    } else {
      PlainTextParses(Literally(labels));
    }
  }

  lemma RuleRegexMeaning(rule: Rule, host: string)
    requires rule.pattern != "*"
    ensures Matches(RuleRegex(rule), host) <==> InRule(rule, Split(host, '.'))
  {
    LoneStar(rule.pattern);
    var labels, hl := Split(rule.pattern, '.'), Split(host, '.');
    if '*' in rule.pattern {
      if labels[0] == "*" {
        assert labels != ["*"];
        StarredMatch(labels[1..], host);
      } else {
        PartsMatch(InnerParts(labels), host);
        InnerAligned(labels, hl);
      }
    } else if rule.wildcard {
      SubdomainsMatch(labels, host);
    } else {
      PartsMatch(Literally(labels), host);
      LiterallyAligned(labels, hl);
    }
  }

  /**
   * Compiling preserves meaning: the emitted text, parsed and matched as a regular expression, accepts
   * exactly the newline-free hosts that are in the rule label by label.
   */
  lemma CompilePreservesMeaning(rule: Rule, host: string)
    requires CompileStructured(rule).Ok? && '\n' !in host
    ensures Accepts(CompileStructured(rule).value, host) <==> InRule(rule, Split(host, '.'))
  {
    CompileFailsOnlyOnLoneStar(rule);
    CompiledTextParses(rule);
    RuleRegexMeaning(rule, host);
  }

  /** One newline at the end of a host makes no difference to a pattern without one. */
  lemma FinalNewlineIsIgnored(rule: Rule, host: string)
    requires CompileStructured(rule).Ok? && '\n' !in host && '\n' !in rule.pattern
    ensures Accepts(CompileStructured(rule).value, host + "\n") <==> InRule(rule, Split(host, '.'))
  {
    CompileFailsOnlyOnLoneStar(rule);
    CompiledTextParses(rule);
    var h := host + "\n";
    assert h[..|h| - 1] == host;
    hide CompileStructured, InRule, RuleRegex;
    RuleRegexMeaning(rule, host);
    RuleRegexMeaning(rule, h);
    NewlineInNoRule(rule, h);
  }

  lemma NewlineInNoRule(rule: Rule, h: string)
    requires '\n' in h && '\n' !in rule.pattern
    ensures !InRule(rule, Split(h, '.'))
  {
    var labels, hl := Split(rule.pattern, '.'), Split(h, '.');
    var k := CharInPart(hl, '\n');
    forall lab | lab in labels ensures '\n' !in lab {
      if '\n' in lab {
        PartCharsInJoin(labels, lab, '\n');
      }
    }
    hide Split, Join;
    if IsLabelText(hl[k]) {
      NoDotInLabel(hl[k]);
    }
    var zone := if labels[0] == "*" then labels[1..] else labels;
    assert forall lab | lab in zone :: lab in labels;
    BelowParts(zone, hl);
    assert k < |labels| ==> labels[k] in labels;
    hide IsLabelText;
  }

  lemma BelowParts(zone: seq<string>, hl: seq<string>)
    ensures Below(zone, hl, 0) ==> forall i | 0 <= i < |hl| :: IsLabelText(hl[i]) || hl[i] in zone
  {
    hide IsLabelText;
    if Below(zone, hl, 0) {
      var n := |hl| - |zone|;
      forall i | n <= i < |hl| ensures hl[i] in zone {
        assert zone[i - n] == hl[n..][i - n];
      }
    }
  }

  lemma {:induction false} CharInPart(parts: seq<string>, c: char) returns (i: nat)
    requires c in Join(parts, '.') && c != '.'
    ensures i < |parts| && c in parts[i]
  {
    if |parts| == 1 || c in parts[0] {
      i := 0;
    } else {
      i := CharInPart(parts[1..], c);
      i := i + 1;
    }
  }

  lemma {:induction false} PartCharsInJoin(parts: seq<string>, part: string, c: char)
    requires part in parts && c in part
    ensures c in Join(parts, '.')
  {
    if |parts| > 1 && part != parts[0] {
      PartCharsInJoin(parts[1..], part, c);
    }
  }

  /** Compilation raises on the pattern `*` alone and on no other. */
  lemma CompileFailsOnlyOnLoneStar(rule: Rule)
    ensures CompileStructured(rule).Err? <==> rule.pattern == "*"
  {
    LoneStar(rule.pattern);
    if rule.pattern != "*" {
      CompiledTextParses(rule);
    }
  }

  lemma OneCharIsNormal(s: string)
    requires |s| == 1 && LowerChar(s[0]) == s[0] && !IsSpace(s[0]) && s[0] != '.'
    ensures Strip(s) == s && NormHost(s) == s && Split(s, '.') == [s]
  {
    assert Lower(s) == s;
    assert IndexOf(s, '.') == 1;
  }

  lemma StarPatternIsValid(star: string, wildcard: bool)
    requires |star| == 1 && star[0] == '*' && Split(star, '.') == [star]
    ensures ValidatePattern(star, wildcard) == Ok(Rule(star, true))
  {
    assert star == "*" && [star][0] == star;
  }

  /** Validation lets that pattern through: normalising leaves it alone and its one label is accepted. */
  lemma LoneStarIsValid(star: string, wildcard: bool)
    requires |star| == 1 && star[0] == '*'
    ensures Strip(star) == star && NormHost(star) == star
    ensures ValidatePattern(star, wildcard) == Ok(Rule(star, true))
  {
    OneCharIsNormal(star);
    StarPatternIsValid(star, wildcard);
  }

  // ----- the zone a pattern can match under

  /** What follows the last `c`: the last element of `s.rsplit(c, 1)`. */
  function AfterLast(s: string, c: char): string
  {
    if c in s then AfterLast(s[1..], c) else s
  }

  function RootText(pattern: string): string
  {
    if '*' !in pattern then pattern
    else NormHost(Trim(AfterLast(pattern, '*'), IsDot))
  }

  predicate EndsWith(hl: seq<string>, zone: seq<string>)
  {
    |zone| <= |hl| && hl[|hl| - |zone|..] == zone
  }

  lemma EndsWithTwice(a: seq<string>, b: seq<string>, c: seq<string>)
    requires EndsWith(a, b) && EndsWith(b, c)
    ensures EndsWith(a, c)
  {
    assert a[|a| - |c|..] == a[|a| - |b|..][|b| - |c|..];
  }

  /** The labels that follow the last star. */
  function RootLabels(labels: seq<string>): (r: seq<string>)
    ensures "*" !in r && |r| <= |labels|
  {
    if "*" in labels then RootLabels(labels[1..]) else labels
  }

  lemma {:induction false} LabelsEndWithRoot(labels: seq<string>)
    ensures EndsWith(labels, RootLabels(labels)) && ("*" in labels ==> EndsWith(labels[1..], RootLabels(labels)))
  {
    if "*" in labels {
      LabelsEndWithRoot(labels[1..]);
      EndsWithTwice(labels, labels[1..], RootLabels(labels));
    }
  }

  lemma {:induction false} AfterLastSkips(a: string, b: string, c: char)
    requires c in b
    ensures AfterLast(a + b, c) == AfterLast(b, c)
  {
    if a == "" {
      assert a + b == b;
    } else {
      assert (a + b)[1..] == a[1..] + b && c in a + b;
      AfterLastSkips(a[1..], b, c);
    }
  }

  predicate StarOrStarFree(labels: seq<string>)
  {
    forall lab | lab in labels :: lab == "*" || '*' !in lab
  }

  lemma {:induction false} StarInJoin(labels: seq<string>)
    requires StarOrStarFree(labels)
    ensures '*' in Join(labels, '.') <==> "*" in labels
  {
    if |labels| > 1 {
      StarInJoin(labels[1..]);
      assert labels == [labels[0]] + labels[1..];
    }
  }

  lemma {:induction false} AfterLastStar(labels: seq<string>)
    requires labels != [] && StarOrStarFree(labels) && "*" in labels
    ensures AfterLast(Join(labels, '.'), '*')
         == if RootLabels(labels) == [] then "" else "." + Join(RootLabels(labels), '.')
  {
    var rest := labels[1..];
    var tail := Join(rest, '.');
    StarInJoin(rest);
    StarInJoin(labels);
    if rest == [] {
      assert labels == ["*"] && Join(labels, '.') == "*" && "*"[1..] == "";
    } else if "*" in rest {
      AfterLastStar(rest);
      AfterLastSkips(labels[0] + ".", tail, '*');
      assert Join(labels, '.') == labels[0] + "." + tail;
    } else {
      assert labels[0] == "*" && RootLabels(labels) == rest;
      assert Join(labels, '.') == "*" + "." + tail;
      assert ("*" + "." + tail)[1..] == "." + tail && '*' !in "." + tail;
    }
  }

  /** A label of a host: plain text, in which a star may stand for itself. */
  predicate IsHostText(lab: string)
  {
    lab != "" && forall c | c in lab :: c in LABEL_CHARS || c == '*'
  }

  lemma {:induction false} JoinedHostChars(labels: seq<string>)
    requires labels != [] && forall lab | lab in labels :: IsHostText(lab)
    ensures var h := Join(labels, '.');
      h != "" && IsHostText([h[0]]) && IsHostText([h[|h| - 1]]) && forall c | c in h :: c == '.' || IsHostText([c])
  {
    assert IsHostText(labels[0]);
    if |labels| > 1 {
      JoinedHostChars(labels[1..]);
    }
  }

  lemma {:induction false} JoinedLabelChars(labels: seq<string>)
    requires labels != [] && forall lab | lab in labels :: IsLabelText(lab)
    ensures var h := Join(labels, '.');
      h != "" && h[0] in LABEL_CHARS && h[|h| - 1] in LABEL_CHARS && forall c | c in h :: c == '.' || c in LABEL_CHARS
  {
    assert IsLabelText(labels[0]);
    if |labels| > 1 {
      JoinedLabelChars(labels[1..]);
    }
  }

  lemma LabelCharIsPlain(c: char)
    requires c in LABEL_CHARS
    ensures LowerChar(c) == c && !IsSpace(c) && c != '.' && c != '\n' && c != '*'
  {
  }

  lemma HostCharIsPlain(c: char)
    requires IsHostText([c])
    ensures LowerChar(c) == c && !IsSpace(c) && c != '.' && c != '\n'
  {
    assert c in [c];
  }

  lemma PlainTextIsLower(h: string)
    requires forall c | c in h :: c == '.' || IsHostText([c])
    ensures Lower(h) == h && '\n' !in h
  {
    forall i | 0 <= i < |h| ensures Lower(h)[i] == h[i] && h[i] != '\n' {
      assert h[i] in h;
      if h[i] != '.' { HostCharIsPlain(h[i]); }
    }
  }

  /** A host of host texts is already in normal form. */
  lemma HostTextsAreNormal(labels: seq<string>)
    requires labels != [] && forall lab | lab in labels :: IsHostText(lab)
    ensures var h := Join(labels, '.');
      h != "" && '\n' !in h && Strip(h) == h && Lower(h) == h && NormHost(h) == h && Split(h, '.') == labels
  {
    hide Split, Strip, Lower, NormHost;
    var h := Join(labels, '.');
    JoinedHostChars(labels);
    HostCharIsPlain(h[0]);
    HostCharIsPlain(h[|h| - 1]);
    PlainTextIsLower(h);
    EndsAreKept(h);
    HostTextsAreDotFree(labels);
    hide Join;
    SplitJoin(labels, '.');
  }

  lemma EndsAreKept(h: string)
    requires h != "" && Lower(h) == h
    requires !IsSpace(h[0]) && h[0] != '.' && !IsSpace(h[|h| - 1]) && h[|h| - 1] != '.'
    ensures Strip(h) == h && NormHost(h) == h
  {
    hide Lower, IsSpace, Trim;
  }

  lemma HostTextsAreDotFree(labels: seq<string>)
    requires forall lab | lab in labels :: IsHostText(lab)
    ensures forall lab | lab in labels :: '.' !in lab
  {
    forall lab | lab in labels
      ensures '.' !in lab
    {
      assert IsHostText(lab);
      forall i | 0 <= i < |lab|
        ensures lab[i] != '.'
      {
        assert lab[i] in lab && IsHostText([lab[i]]);
        HostCharIsPlain(lab[i]);
      }
    }
  }

  /** A host of label texts is already in normal form. */
  lemma LabelTextsAreNormal(labels: seq<string>)
    requires labels != [] && forall lab | lab in labels :: IsLabelText(lab)
    ensures var h := Join(labels, '.');
      h != "" && '\n' !in h && Strip(h) == h && Lower(h) == h && NormHost(h) == h && Split(h, '.') == labels
  {
    forall lab | lab in labels
      ensures IsHostText(lab)
    {
      assert IsLabelText(lab);
    }
    HostTextsAreNormal(labels);
  }

  lemma TrimDotBefore(h: string)
    requires h != "" && h[0] != '.' && h[|h| - 1] != '.'
    ensures Trim("." + h, IsDot) == h
  {
    assert ("." + h)[1..] == h;
    assert TrimLeft("." + h, IsDot) == TrimLeft(h, IsDot) == h;
  }

  /** The root text names the labels after the last star. */
  lemma RootTextIsRootLabels(pattern: string)
    requires StarOrStarFree(Split(pattern, '.'))
    requires RootLabels(Split(pattern, '.')) != []
    requires forall lab | lab in RootLabels(Split(pattern, '.')) :: IsLabelText(lab)
    ensures RootText(pattern) == Join(RootLabels(Split(pattern, '.')), '.')
  {
    var labels := Split(pattern, '.');
    StarInJoin(labels);
    if '*' in pattern {
      var h := Join(RootLabels(labels), '.');
      JoinedLabelChars(RootLabels(labels));
      LabelCharIsPlain(h[0]);
      LabelCharIsPlain(h[|h| - 1]);
      AfterLastStar(labels);
      TrimDotBefore(h);
      LabelTextsAreNormal(RootLabels(labels));
    }
  }

  /** Every host in a rule ends with the rule's root labels. */
  lemma HostEndsWithRoot(rule: Rule, hl: seq<string>)
    requires InRule(rule, hl) && StarOrStarFree(Split(rule.pattern, '.'))
    ensures EndsWith(hl, RootLabels(Split(rule.pattern, '.')))
  {
    var labels := Split(rule.pattern, '.');
    var root := RootLabels(labels);
    assert '*' in rule.pattern <==> "*" in labels by { StarInJoin(labels); }
    LabelsEndWithRoot(labels);
    hide RootLabels, Split, Join, StarOrStarFree, IsLabelText;
    if '*' !in rule.pattern {
      assert root == labels by { NoStarNoLoss(labels); }
    } else if labels[0] == "*" {
      EndsWithTwice(hl, labels[1..], root);
    } else {
      LabelByLabelEnd(labels, hl, root);
    }
  }

  lemma NoStarNoLoss(labels: seq<string>)
    requires "*" !in labels
    ensures RootLabels(labels) == labels
  {
  }

  lemma LabelByLabelEnd(labels: seq<string>, hl: seq<string>, root: seq<string>)
    requires LabelByLabel(labels, hl) && EndsWith(labels, root) && "*" !in root
    ensures EndsWith(hl, root)
  {
    hide IsLabelText;
    var k := |labels| - |root|;
    forall i | 0 <= i < |root| ensures hl[k..][i] == root[i] {
      assert labels[k..][i] == labels[k + i];
      assert root[i] in root;
    }
  }

  // ----- the matcher of one program

  datatype Matcher = Matcher(inScope: seq<string>, outOfScope: seq<string>, apexRoots: set<string>)

  /** The entry's rule, or nothing when it is invalid. */
  function RuleOf(entry: ScopeEntry): seq<Rule>
  {
    match ValidateEntry(entry) case Ok(rule) => [rule] case Err(_) => []
  }

  function ValidRules(entries: seq<ScopeEntry>): seq<Rule>
  {
    if entries == [] then [] else RuleOf(entries[0]) + ValidRules(entries[1..])
  }

  /** The texts of rules that all compile. */
  function CompiledTexts(rules: seq<Rule>): seq<string>
    requires forall r | r in rules :: CompileStructured(r).Ok?
  {
    seq(|rules|, i requires 0 <= i < |rules| => CompileStructured(rules[i]).value)
  }

  ghost predicate IsApexRoot(rules: seq<Rule>, ps: Suffixes, apex: string)
  {
    '.' in apex && exists r :: r in rules && RootText(r.pattern) != "" && apex == ExtractApex(RootText(r.pattern), ps)
  }

  lemma ValidRulesGrow(entries: seq<ScopeEntry>, i: nat)
    requires i < |entries|
    ensures ValidRules(entries[..i + 1]) == ValidRules(entries[..i]) + RuleOf(entries[i])
  {
    hide RuleOf;
    ValidRulesAppend(entries[..i], [entries[i]]);
    assert entries[..i + 1] == entries[..i] + [entries[i]];
    assert [entries[i]][1..] == [];
  }

  lemma {:induction false} ValidRulesAppend(a: seq<ScopeEntry>, b: seq<ScopeEntry>)
    ensures ValidRules(a + b) == ValidRules(a) + ValidRules(b)
  {
    hide RuleOf;
    if a == [] {
      assert a + b == b;
    } else {
      assert (a + b)[1..] == a[1..] + b;
      ValidRulesAppend(a[1..], b);
    }
  }

  ghost predicate AllCompile(rules: seq<Rule>)
  {
    forall r | r in rules :: CompileStructured(r).Ok?
  }

  /** Validates and compiles entries in order; invalid ones are skipped, a failing compilation ends it. */
  method CompileEntries(entries: seq<ScopeEntry>, ps: Suffixes) returns (r: Result<(seq<string>, set<string>)>)
    ensures r.Ok? <==> AllCompile(ValidRules(entries))
    ensures r.Ok? ==> r.value.0 == CompiledTexts(ValidRules(entries))
    ensures r.Ok? ==> forall apex :: apex in r.value.1 <==> IsApexRoot(ValidRules(entries), ps, apex)
  {
    hide ValidateEntry, CompileStructured, ExtractApex, RootText;
    var texts: seq<string>, apexRoots: set<string> := [], {};
    for i := 0 to |entries|
      invariant AllCompile(ValidRules(entries[..i]))
      invariant texts == CompiledTexts(ValidRules(entries[..i]))
      invariant forall apex :: apex in apexRoots <==> IsApexRoot(ValidRules(entries[..i]), ps, apex)
    {
      ValidRulesGrow(entries, i);
      match ValidateEntry(entries[i]) {
        case Err(_) =>
        case Ok(rule) =>
          match CompileStructured(rule) {
            case Err(e) =>
              LaterRule(entries, i, rule);
              return Err(e);
            case Ok(text) =>
              texts := texts + [text];
              var root := RootText(rule.pattern);
              var apex := if root != "" then ExtractApex(root, ps) else "";
              ApexRootsGrow(ValidRules(entries[..i]), rule, ps, apexRoots, root, apex);
              if '.' in apex {
                apexRoots := apexRoots + {apex};
              }
          }
      }
    }
    assert entries[..|entries|] == entries;
    return Ok((texts, apexRoots));
  }

  lemma ApexRootsGrow(rules: seq<Rule>, rule: Rule, ps: Suffixes, roots: set<string>, root: string, apex: string)
    requires forall a :: a in roots <==> IsApexRoot(rules, ps, a)
    requires root == RootText(rule.pattern) && apex == if root != "" then ExtractApex(root, ps) else ""
    ensures forall a :: a in (if '.' in apex then roots + {apex} else roots) <==> IsApexRoot(rules + [rule], ps, a)
  {
    hide ExtractApex, RootText;
    forall a ensures IsApexRoot(rules + [rule], ps, a) <==> IsApexRoot(rules, ps, a) || (a == apex && '.' in apex) {
      if a == apex && '.' in apex {
        assert rule in rules + [rule] && root != "";
      }
    }
  }

  /** Structured rules only. The lone star that validation lets through makes the whole build fail. */
  method BuildMatcher(scopeDomains: seq<ScopeEntry>, outOfScopeDomains: seq<ScopeEntry>, ps: Suffixes)
    returns (r: Result<Matcher>)
    ensures r.Ok? <==> AllCompile(ValidRules(scopeDomains)) && AllCompile(ValidRules(outOfScopeDomains))
    ensures r.Ok? ==> BuiltFrom(r.value, ValidRules(scopeDomains), ValidRules(outOfScopeDomains), ps)
  {
    var ins := CompileEntries(scopeDomains, ps);
    if ins.Err? {
      return Err(ins.error);
    }
    var outs := CompileEntries(outOfScopeDomains, ps);
    if outs.Err? {
      return Err(outs.error);
    }
    return Ok(Matcher(ins.value.0, outs.value.0, ins.value.1));
  }

  ghost predicate BuiltFrom(m: Matcher, ins: seq<Rule>, outs: seq<Rule>, ps: Suffixes)
  {
    AllCompile(ins) && AllCompile(outs)
    && m.inScope == CompiledTexts(ins) && m.outOfScope == CompiledTexts(outs)
    && forall apex :: apex in m.apexRoots <==> IsApexRoot(ins, ps, apex)
  }

  /** One valid entry with the pattern `*` is enough to make the build fail, and nothing else does. */
  lemma BuildFailsOnlyOnLoneStar(entries: seq<ScopeEntry>)
    ensures AllCompile(ValidRules(entries)) <==> forall r | r in ValidRules(entries) :: r.pattern != "*"
  {
    forall r | r in ValidRules(entries) ensures CompileStructured(r).Ok? <==> r.pattern != "*" {
      CompileFailsOnlyOnLoneStar(r);
    }
  }

  lemma LaterRule(entries: seq<ScopeEntry>, i: nat, rule: Rule)
    requires i < |entries| && ValidateEntry(entries[i]) == Ok(rule)
    ensures rule in ValidRules(entries)
  {
    hide ValidateEntry;
    var a, b := ValidRules(entries[..i + 1]), ValidRules(entries[i + 1..]);
    assert rule in a by { ValidRulesGrow(entries, i); }
    ValidRulesAppend(entries[..i + 1], entries[i + 1..]);
    assert entries == entries[..i + 1] + entries[i + 1..];
    assert rule in a + b;
  }

  predicate MatcherMatches(m: Matcher, hostname: string)
  {
    var host := NormHost(hostname);
    host != ""
    && AnyText(m.inScope, host) && !AnyText(m.outOfScope, host)
  }

  predicate AnyText(texts: seq<string>, host: string)
  {
    exists i | 0 <= i < |texts| :: Accepts(texts[i], host)
  }

  ghost predicate AnyRule(rules: seq<Rule>, hl: seq<string>)
  {
    exists r :: r in rules && InRule(r, hl)
  }

  lemma AnyTextIsAnyRule(rules: seq<Rule>, host: string)
    requires '\n' !in host && AllCompile(rules)
    ensures AnyText(CompiledTexts(rules), host) <==> AnyRule(rules, Split(host, '.'))
  {
    hide CompileStructured, Accepts, InRule;
    var texts, hl := CompiledTexts(rules), Split(host, '.');
    forall i | 0 <= i < |rules| ensures Accepts(texts[i], host) <==> InRule(rules[i], hl) {
      CompilePreservesMeaning(rules[i], host);
    }
    if AnyText(texts, host) {
      var i :| 0 <= i < |texts| && Accepts(texts[i], host);
      assert rules[i] in rules && InRule(rules[i], hl);
    }
    if AnyRule(rules, hl) {
      var r :| r in rules && InRule(r, hl);
      var i :| 0 <= i < |rules| && rules[i] == r;
      assert Accepts(texts[i], host);
    }
  }

  /** In scope means: in some in-scope rule, label by label, and in no out-of-scope rule. */
  lemma MatcherMeaning(m: Matcher, ins: seq<Rule>, outs: seq<Rule>, ps: Suffixes, hostname: string)
    requires BuiltFrom(m, ins, outs, ps) && '\n' !in NormHost(hostname)
    ensures var host := NormHost(hostname);
      MatcherMatches(m, hostname)
      <==> host != "" && AnyRule(ins, Split(host, '.')) && !AnyRule(outs, Split(host, '.'))
  {
    hide CompileStructured, Accepts, InRule, NormHost;
    AnyTextIsAnyRule(ins, NormHost(hostname));
    AnyTextIsAnyRule(outs, NormHost(hostname));
  }

  // ----- from the entries to the hosts in scope

  /** Letters, digits and, inside, hyphens. */
  ghost predicate IsPlainLabel(lab: string)
  {
    lab != "" && lab[0] != '-' && lab[|lab| - 1] != '-'
    && forall c | c in lab :: 'a' <= c <= 'z' || '0' <= c <= '9' || c == '-'
  }

  /** A star, or a plain label of up to 63 characters, among them the final newline that the end anchor lets through. */
  ghost predicate IsScopeLabel(lab: string)
  {
    lab == "*" || (|lab| <= 63 && exists plain :: IsPlainLabel(plain) && (lab == plain || lab == plain + "\n"))
  }

  ghost predicate IsScopePattern(p: string)
  {
    p != "" && forall lab | lab in Split(p, '.') :: IsScopeLabel(lab)
  }

  /** The hosts an entry admits, label by label. */
  ghost predicate Admits(entry: ScopeEntry, hl: seq<string>)
  {
    entry.Entry? && IsScopePattern(NormHost(entry.pattern))
    && PatternAdmits(Split(NormHost(entry.pattern), '.'), entry.wildcard, hl)
  }

  ghost predicate PatternAdmits(labels: seq<string>, wildcard: bool, hl: seq<string>)
    requires labels != []
  {
    if "*" !in labels then hl == labels || (wildcard && IsUnder(labels, hl))
    else if labels[0] == "*" then IsUnder(labels[1..], hl)
    else LabelByLabel(labels, hl)
  }

  /** The zone with one label or more in front. */
  ghost predicate IsUnder(zone: seq<string>, hl: seq<string>)
  {
    exists q :: q != [] && (forall lab | lab in q :: IsLabelText(lab)) && hl == q + zone
  }

  lemma BelowIsUnder(zone: seq<string>, hl: seq<string>)
    ensures Below(zone, hl, 1) <==> IsUnder(zone, hl)
  {
    hide IsLabelText;
    if Below(zone, hl, 1) {
      var q := hl[..|hl| - |zone|];
      forall lab | lab in q ensures IsLabelText(lab) {
        var i :| 0 <= i < |q| && q[i] == lab;
        assert hl[i] == lab;
      }
      assert hl == q + zone;
    }
    if q :| q != [] && (forall lab | lab in q :: IsLabelText(lab)) && hl == q + zone {
      assert hl[|q|..] == zone;
      forall i | 0 <= i < |q| ensures IsLabelText(hl[i]) {
        assert hl[i] in q;
      }
    }
  }

  lemma HyphenatedIsPlain(lab: string)
    ensures lab != "" ==> (IsHyphenated(lab) <==> IsPlainLabel(lab))
  {
  }

  lemma ValidLabelIsScopeLabel(lab: string)
    requires lab != ""
    ensures lab == "*" || IsValidLiteralLabel(lab) <==> IsScopeLabel(lab)
  {
    hide IsPlainLabel, IsHyphenated;
    HyphenatedIsPlain(lab);
    var init, last := lab[..|lab| - 1], lab[|lab| - 1];
    assert lab == init + [last];
    if init != "" {
      HyphenatedIsPlain(init);
    }
    NothingIsPlain();
    if plain :| IsPlainLabel(plain) && lab == plain + "\n" {
      assert init == plain && last == '\n';
    }
  }

  lemma NothingIsPlain()
    ensures !IsPlainLabel("") && !IsHyphenated("")
  {
  }

  lemma PatternIsValidExactly(p: string, wildcard: bool)
    ensures ValidatePattern(p, wildcard).Ok? <==> IsScopePattern(p)
    ensures ValidatePattern(p, wildcard).Ok? ==> ValidatePattern(p, wildcard) == Ok(Rule(p, wildcard || "*" in Split(p, '.')))
  {
    var labels := Split(p, '.');
    hide Split, IsValidLiteralLabel, IsScopeLabel;
    forall lab | lab in labels && lab != "" ensures lab == "*" || IsValidLiteralLabel(lab) <==> IsScopeLabel(lab) {
      ValidLabelIsScopeLabel(lab);
    }
    EmptyIsNoScopeLabel();
    if IsScopePattern(p) {
      forall i | 0 <= i < |labels| ensures labels[i] == "*" || IsValidLiteralLabel(labels[i]) {
        assert labels[i] in labels;
      }
    }
  }

  lemma EmptyIsNoScopeLabel()
    ensures !IsScopeLabel("")
  {
  }

  lemma BlankIsNoPattern(raw: string)
    requires Strip(raw) == ""
    ensures NormHost(raw) == ""
  {
    assert Lower("") == "";
  }

  /** An entry is valid exactly when its normalised text is a scope pattern; its rule carries that text. */
  lemma EntryIsValidExactly(raw: string, wildcard: bool)
    ensures ValidateEntry(Entry(raw, wildcard)).Ok? <==> IsScopePattern(NormHost(raw))
    ensures IsScopePattern(NormHost(raw))
      ==> RuleOf(Entry(raw, wildcard)) == [Rule(NormHost(raw), wildcard || "*" in Split(NormHost(raw), '.'))]
    ensures ValidateEntry(NotAnObject).Err? && ValidateEntry(NoPatternString).Err?
  {
    hide NormHost, ValidatePattern, ValidateEntry, Split, IsScopePattern;
    PatternIsValidExactly(NormHost(raw), wildcard);
    EntryIsItsPattern(raw, wildcard);
    NoEntryNoRule();
  }

  lemma NoEntryNoRule()
    ensures ValidateEntry(NotAnObject).Err? && ValidateEntry(NoPatternString).Err?
  {
  }

  lemma EntryIsItsPattern(raw: string, wildcard: bool)
    ensures var e, p := ValidateEntry(Entry(raw, wildcard)), ValidatePattern(NormHost(raw), wildcard);
      (e.Ok? <==> p.Ok?) && (p.Ok? ==> e == p)
  {
    if Strip(raw) == "" {
      BlankIsNoPattern(raw);
      NothingIsNoPattern(wildcard);
    }
    hide NormHost, ValidatePattern, Strip;
  }

  lemma NothingIsNoPattern(wildcard: bool)
    ensures ValidatePattern("", wildcard).Err?
  {
  }

  lemma LiteralLabelIsStarFree(lab: string)
    requires IsValidLiteralLabel(lab) && lab != "*"
    ensures '*' !in lab
  {
    if !IsHyphenated(lab) {
      assert lab == lab[..|lab| - 1] + [lab[|lab| - 1]];
    }
  }

  lemma ValidLabelsAreStarOrStarFree(labels: seq<string>)
    requires AreValidLabels(labels)
    ensures StarOrStarFree(labels)
  {
    forall lab | lab in labels ensures lab == "*" || '*' !in lab {
      if lab != "*" {
        var i :| 0 <= i < |labels| && labels[i] == lab;
        LiteralLabelIsStarFree(labels[i]);
      }
    }
  }

  lemma ScopePatternStars(p: string)
    requires IsScopePattern(p)
    ensures '*' in p <==> "*" in Split(p, '.')
  {
    PatternIsValidExactly(p, false);
    hide Split, IsScopePattern, IsValidLiteralLabel;
    ValidLabelsAreStarOrStarFree(Split(p, '.'));
    StarInJoin(Split(p, '.'));
  }

  /** The rule of an entry holds exactly the hosts the entry admits. */
  lemma EntryMeaning(entry: ScopeEntry, hl: seq<string>)
    ensures (exists r :: r in RuleOf(entry) && InRule(r, hl)) <==> Admits(entry, hl)
  {
    match entry
    case Entry(raw, wildcard) =>
      var p := NormHost(raw);
      hide NormHost, IsScopePattern, InRule, ValidateEntry, PatternAdmits, Split;
      EntryIsValidExactly(raw, wildcard);
      if IsScopePattern(p) {
        ScopePatternStars(p);
        RuleAdmits(p, wildcard, hl);
        OnlyRule(RuleOf(entry), Rule(p, wildcard || "*" in Split(p, '.')), hl);
      } else {
        NoRule(RuleOf(entry), hl);
      }
    case _ =>
  }

  lemma OnlyRule(rules: seq<Rule>, rule: Rule, hl: seq<string>)
    requires rules == [rule]
    ensures (exists r :: r in rules && InRule(r, hl)) <==> InRule(rule, hl)
  {
    hide InRule;
    assert rule in rules;
  }

  lemma NoRule(rules: seq<Rule>, hl: seq<string>)
    requires rules == []
    ensures !exists r :: r in rules && InRule(r, hl)
  {
  }

  lemma RuleAdmits(p: string, wildcard: bool, hl: seq<string>)
    requires IsScopePattern(p) && ('*' in p <==> "*" in Split(p, '.'))
    ensures InRule(Rule(p, wildcard || "*" in Split(p, '.')), hl) <==> PatternAdmits(Split(p, '.'), wildcard, hl)
  {
    var labels := Split(p, '.');
    hide Split, IsUnder, Below, LabelByLabel, IsScopePattern;
    BelowIsUnder(labels, hl);
    BelowIsUnder(labels[1..], hl);
    BelowZero(labels, hl);
  }

  lemma {:induction false} RulesOfEntries(entries: seq<ScopeEntry>)
    ensures forall r :: r in ValidRules(entries) <==> exists e :: e in entries && r in RuleOf(e)
  {
    hide RuleOf;
    if entries != [] {
      RulesOfEntries(entries[1..]);
      assert entries == [entries[0]] + entries[1..];
    }
  }

  ghost predicate AnyAdmits(entries: seq<ScopeEntry>, hl: seq<string>)
  {
    exists e :: e in entries && Admits(e, hl)
  }

  lemma AnyRuleIsAnyEntry(entries: seq<ScopeEntry>, hl: seq<string>)
    ensures AnyRule(ValidRules(entries), hl) <==> AnyAdmits(entries, hl)
  {
    hide RuleOf, Admits, InRule, ValidRules;
    RulesOfEntries(entries);
    forall e | e in entries ensures (exists r :: r in RuleOf(e) && InRule(r, hl)) <==> Admits(e, hl) {
      EntryMeaning(e, hl);
    }
    if r :| r in ValidRules(entries) && InRule(r, hl) {
      var e :| e in entries && r in RuleOf(e);
      assert Admits(e, hl);
    }
    if e :| e in entries && Admits(e, hl) {
      var r :| r in RuleOf(e) && InRule(r, hl);
      assert r in ValidRules(entries);
    }
  }

  /** From the configured entries to the answer: in scope are the hosts some in-scope entry admits and no other does. */
  lemma MatcherAdmits(m: Matcher, scopeDomains: seq<ScopeEntry>, outOfScopeDomains: seq<ScopeEntry>, ps: Suffixes,
                      hostname: string)
    requires BuiltFrom(m, ValidRules(scopeDomains), ValidRules(outOfScopeDomains), ps) && '\n' !in NormHost(hostname)
    ensures var host := NormHost(hostname);
      MatcherMatches(m, hostname)
      <==> host != "" && AnyAdmits(scopeDomains, Split(host, '.')) && !AnyAdmits(outOfScopeDomains, Split(host, '.'))
  {
    hide BuiltFrom, MatcherMatches, NormHost, ValidRules, AnyRule, AnyAdmits;
    var hl := Split(NormHost(hostname), '.');
    MatcherMeaning(m, ValidRules(scopeDomains), ValidRules(outOfScopeDomains), ps, hostname);
    AnyRuleIsAnyEntry(scopeDomains, hl);
    AnyRuleIsAnyEntry(outOfScopeDomains, hl);
  }

  /**
   * What the wildcard flag decides. Without a star the name itself is always admitted, and a name with more labels
   * in front exactly when the flag is set. With a star the flag makes no difference.
   */
  lemma WildcardFlag(raw: string, wildcard: bool, q: seq<string>, hl: seq<string>)
    requires IsScopePattern(NormHost(raw)) && q != [] && forall lab | lab in q :: IsLabelText(lab)
    ensures var labels := Split(NormHost(raw), '.');
      if "*" in labels then Admits(Entry(raw, true), hl) <==> Admits(Entry(raw, false), hl)
      else Admits(Entry(raw, wildcard), labels) && (Admits(Entry(raw, wildcard), q + labels) <==> wildcard)
  {
    hide NormHost, Split, IsScopePattern, IsLabelText;
    var labels := Split(NormHost(raw), '.');
    assert |q + labels| > |labels|;
  }

  /** Blanks and dots around a host, and upper case in it, do not matter. */
  lemma NormHostIs(a: string, front: string, h: string, back: string, b: string)
    requires IsBlank(a) && IsBlank(b) && AllAre(front, IsDot) && AllAre(back, IsDot)
    requires h != "" && !IsSpace(h[0]) && !IsSpace(h[|h| - 1]) && h[0] != '.' && h[|h| - 1] != '.'
    ensures NormHost(a + front + h + back + b) == Lower(h)
  {
    hide IsBlank, AllAre, Strip, Lower, Trim, IsSpace, LowerChar;
    var t := front + h + back;
    assert a + front + h + back + b == a + t + b;
    DottedEnds(front, h, back);
    StripIs(a, t, b);
    DotsStayLower(front, h, back);
    TrimIs(front, Lower(h), back, IsDot);
  }

  lemma StripIs(a: string, t: string, b: string)
    requires IsBlank(a) && IsBlank(b) && t != "" && !IsSpace(t[0]) && !IsSpace(t[|t| - 1])
    ensures Strip(a + t + b) == t
  {
    hide AllAre, IsSpace, Trim;
    TrimIs(a, t, b, IsSpace);
  }

  lemma DottedEnds(front: string, h: string, back: string)
    requires AllAre(front, IsDot) && AllAre(back, IsDot)
    requires h != "" && !IsSpace(h[0]) && !IsSpace(h[|h| - 1])
    ensures var t := front + h + back; t != "" && !IsSpace(t[0]) && !IsSpace(t[|t| - 1])
  {
    assert front != "" ==> front[0] in front;
    assert back != "" ==> back[|back| - 1] in back;
  }

  lemma DotsStayLower(front: string, h: string, back: string)
    requires AllAre(front, IsDot) && AllAre(back, IsDot) && h != "" && h[0] != '.' && h[|h| - 1] != '.'
    ensures Lower(front + h + back) == front + Lower(h) + back
    ensures Lower(h) != "" && !IsDot(Lower(h)[0]) && !IsDot(Lower(h)[|h| - 1])
  {
    forall i | 0 <= i < |front| ensures LowerChar(front[i]) == front[i] {
      assert front[i] in front;
    }
    forall i | 0 <= i < |back| ensures LowerChar(back[i]) == back[i] {
      assert back[i] in back;
    }
  }

  /** Carried through a whole build: with one star-free entry, a name above its own is in scope exactly with the flag. */
  lemma SubdomainNeedsFlag(raw: string, wildcard: bool, lab: string, m: Matcher, ps: Suffixes)
    requires BuiltFrom(m, ValidRules([Entry(raw, wildcard)]), ValidRules([]), ps)
    requires IsScopePattern(NormHost(raw)) && IsLabelText(lab)
    requires forall l | l in Split(NormHost(raw), '.') :: IsLabelText(l)
    ensures MatcherMatches(m, NormHost(raw)) && (MatcherMatches(m, lab + "." + NormHost(raw)) <==> wildcard)
  {
    hide *;
    var labels, e := Split(NormHost(raw), '.'), Entry(raw, wildcard);
    StarIsNoText();
    WildcardFlag(raw, wildcard, [lab], []);
    LabelTextsAreNormal(labels);
    LabelTextsAreNormal([lab] + labels);
    JoinFront(lab, labels);
    OnlyAdmitted(e, m, ps, NormHost(raw));
    OnlyAdmitted(e, m, ps, lab + "." + NormHost(raw));
  }

  lemma JoinFront(lab: string, labels: seq<string>)
    requires labels != []
    ensures Join([lab] + labels, '.') == lab + "." + Join(labels, '.')
  {
    assert ([lab] + labels)[1..] == labels;
  }

  lemma OnlyAdmitted(e: ScopeEntry, m: Matcher, ps: Suffixes, h: string)
    requires BuiltFrom(m, ValidRules([e]), ValidRules([]), ps) && NormHost(h) == h && h != "" && '\n' !in h
    ensures MatcherMatches(m, h) <==> Admits(e, Split(h, '.'))
  {
    hide BuiltFrom, MatcherMatches, NormHost, ValidRules, Admits, Split;
    MatcherAdmits(m, [e], [], ps, h);
    assert e in [e];
  }

  lemma StarIsNoText()
    ensures !IsLabelText("*")
  {
    assert "*"[0] in "*";
    LabelCharIsNoStar('*');
  }

  lemma LabelCharIsNoStar(c: char)
    ensures c == '*' ==> c !in LABEL_CHARS
  {
  }
}
