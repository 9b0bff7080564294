/**
 * The fragment of Python regular expressions that scope patterns compile to: its text, a parser for the
 * text, and the language of the parsed expression.
 */
module ScopeRegex {
  import opened Text

  datatype Regex = Eps | Chr(c: char) | Class(chars: set<char>) | Cat(a: Regex, b: Regex) | Star(r: Regex)

  function Plus(r: Regex): Regex { Cat(r, Star(r)) }

  /** The whole of `s` is in the language of `r`. */
  predicate Matches(r: Regex, s: string)
    decreases r, |s|, 1
  {
    match r
    case Eps => s == ""
    case Chr(c) => s == [c]
    case Class(chars) => |s| == 1 && s[0] in chars
    case Cat(a, b) => exists i | 0 <= i <= |s| :: CatAt(r, s, i)
    case Star(a) => s == "" || exists i | 0 < i <= |s| :: StarAt(r, s, i)
  }

  /** `s` splits at `i` into a text of the first part and one of the second. */
  predicate CatAt(r: Regex, s: string, i: int)
    requires r.Cat?
    decreases r, |s|, 0
  {
    0 <= i <= |s| && Matches(r.a, s[..i]) && Matches(r.b, s[i..])
  }

  /** `s` splits at `i` into one round of the repetition and the rest of it. */
  predicate StarAt(r: Regex, s: string, i: int)
    requires r.Star?
    decreases r, |s|, 0
  {
    0 < i <= |s| && Matches(r.r, s[..i]) && Matches(r, s[i..])
  }

  // ----- parsing

  /** Characters with a meaning of their own outside a character class. */
  predicate IsMeta(c: char)
  {
    c in "\\^$.|?*+()[]{}"
  }

  predicate Between(lo: char, c: char, hi: char)
  {
    lo <= c <= hi
  }

  function Range(lo: char, hi: char): set<char>
  {
    set c: char | Between(lo, c, hi)
  }

  /** A class body up to its closing bracket: single characters and ranges. */
  function ParseClass(t: string): (r: Option<(set<char>, string)>)
    ensures r.Some? ==> |r.value.1| < |t|
  {
    if t == "" then None
    else if t[0] == ']' then Some(({}, t[1..]))
    else if |t| >= 3 && t[1] == '-' && t[2] != ']' then
      match ParseClass(t[3..])
      case None => None
      case Some((cs, rest)) => Some((Range(t[0], t[2]) + cs, rest))
    else
      match ParseClass(t[1..])
      case None => None
      case Some((cs, rest)) => Some(({t[0]} + cs, rest))
  }

  function ParseAtom(t: string): (r: Option<(Regex, string)>)
    requires t != ""
    ensures r.Some? ==> |r.value.1| < |t|
    decreases |t|, 0
  {
    if t[0] == '[' then
      match ParseClass(t[1..])
      case None => None
      case Some((cs, rest)) => Some((Class(cs), rest))
    else if "(?:" <= t then
      match ParseSequence(t[3..])
      case None => None
      case Some((r, rest)) => if rest != "" && rest[0] == ')' then Some((r, rest[1..])) else None
    else if t[0] == '\\' then
      if |t| >= 2 && !IsAlnum(t[1]) then Some((Chr(t[1]), t[2..])) else None
    else if IsMeta(t[0]) then None
    else Some((Chr(t[0]), t[1..]))
  }

  /** Items up to the end of the text, of the group, or of the anchored pattern. */
  function ParseSequence(t: string): (r: Option<(Regex, string)>)
    ensures r.Some? ==> |r.value.1| <= |t|
    decreases |t|, 1
  {
    if t == "" || t[0] == ')' || t[0] == '$' then Some((Eps, t))
    else match ParseAtom(t)
      case None => None
      case Some((a, rest)) =>
        var (q, after) :=
          if rest != "" && rest[0] == '+' then (Plus(a), rest[1..])
          else if rest != "" && rest[0] == '*' then (Star(a), rest[1..])
          else (a, rest);
        match ParseSequence(after)
        case None => None
        case Some((r, end)) => Some((Cat(q, r), end))
  }

  /** Parses an expression anchored at both ends. */
  function Parse(text: string): Option<Regex>
  {
    if text == "" || text[0] != '^' then None
    else match ParseSequence(text[1..])
      case Some((r, "$")) => Some(r)
      case _ => None
  }

  /** `re.compile(text).match(host)`: the end anchor also matches before a final newline. */
  predicate Accepts(text: string, host: string)
  {
    match Parse(text)
    case None => false
    case Some(r) =>
      Matches(r, host) || (host != "" && host[|host| - 1] == '\n' && Matches(r, host[..|host| - 1]))
  }

  // ----- escaping, and what the parser makes of it

  /** `re.escape` for one character. */
  function EscapeChar(c: char): string
  {
    if c in "()[]{}?*+-|^$\\.&~# \t\n\r" || c as int == 11 || c as int == 12 then ['\\', c] else [c]
  }

  function Escape(s: string): string
  {
    if s == "" then "" else EscapeChar(s[0]) + Escape(s[1..])
  }

  /** `r` after the characters of `s`. */
  function Literal(s: string, r: Regex): Regex
  {
    if s == "" then r else Cat(Chr(s[0]), Literal(s[1..], r))
  }

  /** Nothing at the front of `t` would be taken for a repetition of what precedes it. */
  predicate Unquantified(t: string)
  {
    t == "" || (t[0] != '+' && t[0] != '*')
  }

  lemma ItemParses(t: string, a: Regex, rest: string)
    requires t != "" && t[0] != ')' && t[0] != '$' && ParseAtom(t) == Some((a, rest))
    requires Unquantified(rest) && ParseSequence(rest).Some?
    ensures ParseSequence(t) == Some((Cat(a, ParseSequence(rest).value.0), ParseSequence(rest).value.1))
  {
  }

  lemma EscapedAtom(c: char, t: string)
    ensures var e := EscapeChar(c) + t;
      e[0] != ')' && e[0] != '$' && Unquantified(e) && ParseAtom(e) == Some((Chr(c), t))
  {
    var e := EscapeChar(c) + t;
    assert e[|EscapeChar(c)|..] == t;
  }

  lemma EscapedCharParses(c: char, t: string)
    requires Unquantified(t) && ParseSequence(t).Some?
    ensures ParseSequence(EscapeChar(c) + t) == Some((Cat(Chr(c), ParseSequence(t).value.0), ParseSequence(t).value.1))
    ensures Unquantified(EscapeChar(c) + t)
  {
    EscapedAtom(c, t);
    ItemParses(EscapeChar(c) + t, Chr(c), t);
  }

  lemma EscapeStep(s: string, t: string)
    requires s != ""
    ensures Escape(s) + t == EscapeChar(s[0]) + (Escape(s[1..]) + t)
  {
  }

  lemma {:induction false} EscapedParses(s: string, t: string)
    requires Unquantified(t) && ParseSequence(t).Some?
    ensures ParseSequence(Escape(s) + t) == Some((Literal(s, ParseSequence(t).value.0), ParseSequence(t).value.1))
    ensures Unquantified(Escape(s) + t)
  {
    if s == "" {
      assert Escape(s) + t == t;
    } else {
      EscapeStep(s, t);
      EscapedParses(s[1..], t);
      EscapedCharParses(s[0], Escape(s[1..]) + t);
    }
  }

  // ----- the label class and the subdomain group

  const LABEL_CHARS: set<char> := Range('a', 'z') + (Range('0', '9') + ({'-'} + {}))
  const LABEL_TEXT: string := "[a-z0-9-]+"
  const DOT_TEXT: string := "\\."

  const Label: Regex := Plus(Class(LABEL_CHARS))
  /** One label and its dot. */
  const LabelDot: Regex := Cat(Label, Cat(Chr('.'), Eps))

  lemma LabelClassParses(t: string)
    ensures ParseClass("a-z0-9-]" + t) == Some((LABEL_CHARS, t))
  {
    var c := "a-z0-9-]" + t;
    assert c[3..] == "0-9-]" + t && c[3..][3..] == "-]" + t && c[3..][3..][1..] == "]" + t;
    assert ParseClass("]" + t) == Some(({}, t)) by { assert ("]" + t)[1..] == t; }
    assert ParseClass("-]" + t) == Some(({'-'} + {}, t));
    assert ParseClass("0-9-]" + t) == Some((Range('0', '9') + ({'-'} + {}), t));
  }

  lemma LabelParses(t: string)
    requires ParseSequence(t).Some?
    ensures ParseSequence(LABEL_TEXT + t) == Some((Cat(Label, ParseSequence(t).value.0), ParseSequence(t).value.1))
  {
    var s := LABEL_TEXT + t;
    assert s[1..] == "a-z0-9-]" + ("+" + t);
    LabelClassParses("+" + t);
    assert ParseAtom(s) == Some((Class(LABEL_CHARS), "+" + t));
    assert ("+" + t)[1..] == t;
  }

  lemma DotParses(t: string)
    requires Unquantified(t) && ParseSequence(t).Some?
    ensures ParseSequence(DOT_TEXT + t) == Some((Cat(Chr('.'), ParseSequence(t).value.0), ParseSequence(t).value.1))
    ensures Unquantified(DOT_TEXT + t)
  {
    assert EscapeChar('.') == DOT_TEXT;
    EscapedCharParses('.', t);
  }

  lemma GroupParses(quantifier: char, t: string)
    requires quantifier == '+' || quantifier == '*'
    requires ParseSequence(t).Some?
    ensures ParseSequence("(?:" + LABEL_TEXT + DOT_TEXT + ")" + [quantifier] + t)
         == Some((Cat(if quantifier == '+' then Plus(LabelDot) else Star(LabelDot), ParseSequence(t).value.0),
                  ParseSequence(t).value.1))
  {
    var end := ")" + [quantifier] + t;
    var s := "(?:" + LABEL_TEXT + DOT_TEXT + ")" + [quantifier] + t;
    assert s[3..] == LABEL_TEXT + (DOT_TEXT + end);
    assert ParseSequence(end) == Some((Eps, end));
    DotParses(end);
    LabelParses(DOT_TEXT + end);
    assert ParseAtom(s) == Some((LabelDot, end[1..]));
    assert end[1..] == [quantifier] + t && end[1..][1..] == t;
  }

  // ----- the languages

  predicate IsLabelText(s: string)
  {
    s != "" && forall c | c in s :: c in LABEL_CHARS
  }

  lemma CatFrom(a: Regex, b: Regex, s: string, i: nat)
    requires i <= |s| && Matches(a, s[..i]) && Matches(b, s[i..])
    ensures Matches(Cat(a, b), s)
  {
    assert CatAt(Cat(a, b), s, i);
  }

  lemma CatCut(a: Regex, b: Regex, s: string) returns (i: nat)
    requires Matches(Cat(a, b), s)
    ensures i <= |s| && Matches(a, s[..i]) && Matches(b, s[i..])
  {
    var r := Cat(a, b);
    i :| 0 <= i <= |s| && CatAt(r, s, i);
  }

  lemma StarFrom(a: Regex, s: string, i: nat)
    requires 0 < i <= |s| && Matches(a, s[..i]) && Matches(Star(a), s[i..])
    ensures Matches(Star(a), s)
  {
    assert StarAt(Star(a), s, i);
  }

  lemma StarCut(a: Regex, s: string) returns (i: nat)
    requires Matches(Star(a), s) && s != ""
    ensures 0 < i <= |s| && Matches(a, s[..i]) && Matches(Star(a), s[i..])
  {
    var r := Star(a);
    i :| 0 < i <= |s| && StarAt(r, s, i);
  }

  lemma CharThen(c: char, r: Regex, h: string)
    ensures Matches(Cat(Chr(c), r), h) <==> h != "" && h[0] == c && Matches(r, h[1..])
  {
    if Matches(Cat(Chr(c), r), h) {
      var i := CatCut(Chr(c), r, h);
      assert h[..i] == [c];
    }
    if h != "" && h[0] == c && Matches(r, h[1..]) {
      assert h[..1] == [c];
      CatFrom(Chr(c), r, h, 1);
    }
  }

  lemma {:induction false} LiteralMatches(s: string, r: Regex, h: string)
    ensures Matches(Literal(s, r), h) <==> s <= h && Matches(r, h[|s|..])
  {
    if s == "" {
      assert h[0..] == h;
    } else {
      CharThen(s[0], Literal(s[1..], r), h);
      if h != "" {
        LiteralMatches(s[1..], r, h[1..]);
        assert h == [h[0]] + h[1..] && s == [s[0]] + s[1..];
        if |s| <= |h| { assert h[1..][|s| - 1..] == h[|s|..]; }
      }
    }
  }

  lemma {:induction false} StarClassMatches(chars: set<char>, s: string)
    ensures Matches(Star(Class(chars)), s) <==> forall c | c in s :: c in chars
    decreases |s|
  {
    if s != "" {
      StarClassMatches(chars, s[1..]);
      assert s == [s[0]] + s[1..];
      if Matches(Star(Class(chars)), s) {
        var i := StarCut(Class(chars), s);
        assert i == 1;
        assert s[..1][0] == s[0];
      }
      if forall c | c in s :: c in chars {
        StarFrom(Class(chars), s, 1);
      }
    }
  }

  lemma LabelMatches(s: string)
    ensures Matches(Label, s) <==> IsLabelText(s)
  {
    if Matches(Label, s) {
      var i := CatCut(Class(LABEL_CHARS), Star(Class(LABEL_CHARS)), s);
      StarClassMatches(LABEL_CHARS, s[i..]);
      assert s == s[..i] + s[i..];
    }
    if IsLabelText(s) {
      StarClassMatches(LABEL_CHARS, s[1..]);
      CatFrom(Class(LABEL_CHARS), Star(Class(LABEL_CHARS)), s, 1);
    }
  }

  lemma NoDotInLabel(s: string)
    requires IsLabelText(s)
    ensures '.' !in s && '\n' !in s
  {
  }

  ghost predicate StartsWithLabelDot(r: Regex, h: string)
  {
    var i := IndexOf(h, '.');
    i < |h| && IsLabelText(h[..i]) && Matches(r, h[i + 1..])
  }

  /** A label, a dot, and then `r`: the label is what stands before the first dot. */
  lemma LabelDotThen(r: Regex, h: string)
    ensures Matches(Cat(Label, Cat(Chr('.'), r)), h) <==> StartsWithLabelDot(r, h)
  {
    if Matches(Cat(Label, Cat(Chr('.'), r)), h) {
      var i := CatCut(Label, Cat(Chr('.'), r), h);
      LabelMatches(h[..i]);
      NoDotInLabel(h[..i]);
      CharThen('.', r, h[i..]);
      FirstAt(h, '.', i);
      assert h[i..][1..] == h[i + 1..];
    }
    if StartsWithLabelDot(r, h) {
      var k := IndexOf(h, '.');
      LabelMatches(h[..k]);
      assert h[k..][1..] == h[k + 1..];
      CharThen('.', r, h[k..]);
      CatFrom(Label, Cat(Chr('.'), r), h, k);
    }
  }

  lemma FirstAt(h: string, c: char, i: nat)
    requires i < |h| && h[i] == c && c !in h[..i]
    ensures IndexOf(h, c) == i
  {
    assert h == h[..i] + [c] + h[i + 1..];
    IndexOfHead(h[..i], c, h[i + 1..]);
  }

  lemma LabelDotIs(s: string)
    ensures Matches(LabelDot, s) <==> s != "" && s[|s| - 1] == '.' && IsLabelText(s[..|s| - 1])
  {
    LabelDotThen(Eps, s);
    if s != "" && s[|s| - 1] == '.' && IsLabelText(s[..|s| - 1]) {
      FirstAt(s, '.', |s| - 1);
    }
  }

  lemma LabelDotGroupThen(r: Regex, h: string)
    ensures Matches(Cat(LabelDot, r), h) <==> StartsWithLabelDot(r, h)
  {
    if Matches(Cat(LabelDot, r), h) {
      var i := CatCut(LabelDot, r, h);
      LabelDotIs(h[..i]);
      assert h[..i][..i - 1] == h[..i - 1];
      FirstAt(h, '.', i - 1);
    }
    if StartsWithLabelDot(r, h) {
      var k := IndexOf(h, '.');
      LabelDotIs(h[..k + 1]);
      assert h[..k + 1][..k] == h[..k];
      CatFrom(LabelDot, r, h, k + 1);
    }
  }

  lemma CutTwice(s: string, i: nat, j: nat)
    requires j <= i <= |s|
    ensures s[..i][..j] == s[..j] && s[..i][j..] == s[j..][..i - j] && s[i..] == s[j..][i - j..]
  {
  }

  lemma CatToRight(a: Regex, b: Regex, c: Regex, s: string)
    requires Matches(Cat(Cat(a, b), c), s)
    ensures Matches(Cat(a, Cat(b, c)), s)
  {
    var i := CatCut(Cat(a, b), c, s);
    var j := CatCut(a, b, s[..i]);
    CutTwice(s, i, j);
    CatFrom(b, c, s[j..], i - j);
    CatFrom(a, Cat(b, c), s, j);
  }

  lemma CatToLeftAt(a: Regex, b: Regex, c: Regex, s: string, j: nat, i: nat)
    requires j <= i <= |s| && Matches(a, s[..j]) && Matches(b, s[j..][..i - j]) && Matches(c, s[j..][i - j..])
    ensures Matches(Cat(Cat(a, b), c), s)
  {
    CutTwice(s, i, j);
    CatFrom(a, b, s[..i], j);
    CatFrom(Cat(a, b), c, s, i);
  }

  lemma CatToLeft(a: Regex, b: Regex, c: Regex, s: string)
    requires Matches(Cat(a, Cat(b, c)), s)
    ensures Matches(Cat(Cat(a, b), c), s)
  {
    var j := CatCut(a, Cat(b, c), s);
    var k := CatCut(b, c, s[j..]);
    CatToLeftAt(a, b, c, s, j, j + k);
  }

  lemma StarUnfoldsOnce(a: Regex, r: Regex, h: string)
    requires Matches(Cat(Star(a), r), h)
    ensures Matches(r, h) || Matches(Cat(a, Cat(Star(a), r)), h)
  {
    var i := CatCut(Star(a), r, h);
    if i == 0 {
      assert h[0..] == h;
    } else {
      var j := StarCut(a, h[..i]);
      CutTwice(h, i, j);
      CatFrom(Star(a), r, h[j..], i - j);
      CatFrom(a, Cat(Star(a), r), h, j);
    }
  }

  lemma StarFolds(a: Regex, r: Regex, h: string)
    requires Matches(r, h) || Matches(Cat(a, Cat(Star(a), r)), h)
    ensures Matches(Cat(Star(a), r), h)
  {
    if Matches(r, h) {
      assert h[..0] == "" && h[0..] == h;
      CatFrom(Star(a), r, h, 0);
    } else {
      var j := CatCut(a, Cat(Star(a), r), h);
      if j == 0 {
        assert h[0..] == h;
      } else {
        var k := CatCut(Star(a), r, h[j..]);
        CutTwice(h, j + k, j);
        StarFrom(a, h[..j + k], j);
        CatFrom(Star(a), r, h, j + k);
      }
    }
  }

  /** Any number of labels with their dots, and then `r`. */
  lemma LabelDotsThen(r: Regex, h: string)
    ensures Matches(Cat(Star(LabelDot), r), h) <==> (Matches(r, h) || StartsWithLabelDot(Cat(Star(LabelDot), r), h))
  {
    if Matches(Cat(Star(LabelDot), r), h) {
      StarUnfoldsOnce(LabelDot, r, h);
    }
    if Matches(r, h) || Matches(Cat(LabelDot, Cat(Star(LabelDot), r)), h) {
      StarFolds(LabelDot, r, h);
    }
    LabelDotGroupThen(Cat(Star(LabelDot), r), h);
  }

  /** At least one label with its dot, then any number, and then `r`. */
  lemma LabelDotsPlusThen(r: Regex, h: string)
    ensures Matches(Cat(Plus(LabelDot), r), h) <==> StartsWithLabelDot(Cat(Star(LabelDot), r), h)
  {
    if Matches(Cat(Plus(LabelDot), r), h) {
      CatToRight(LabelDot, Star(LabelDot), r, h);
    }
    if Matches(Cat(LabelDot, Cat(Star(LabelDot), r)), h) {
      CatToLeft(LabelDot, Star(LabelDot), r, h);
    }
    LabelDotGroupThen(Cat(Star(LabelDot), r), h);
  }
}
