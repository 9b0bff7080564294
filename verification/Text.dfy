/** Host names and keys as text: splitting at a separator, joining, trimming and lower-casing (ASCII). */
module Text {

  datatype Option<+T> = None | Some(value: T) {
    function GetOr(default: T): T
    {
      match this case Some(v) => v case None => default
    }
  }

  /** The first position of `c` in `s`, or `|s|` when there is none. */
  function IndexOf(s: string, c: char): (i: nat)
    ensures i <= |s|
    ensures c !in s[..i] && forall k | 0 <= k < i :: s[k] != c
    ensures i < |s| ==> s[i] == c
  {
    if s == "" || s[0] == c then 0 else 1 + IndexOf(s[1..], c)
  }

  /** Python's `s.split(sep)`: never empty, and no part holds the separator. */
  function Split(s: string, sep: char): (parts: seq<string>)
    ensures |parts| >= 1
    ensures forall p | p in parts :: sep !in p
    ensures Join(parts, sep) == s
  {
    var i := IndexOf(s, sep);
    if i == |s| then [s] else [s[..i]] + Split(s[i + 1..], sep)
  }

  /** Python's `sep.join(parts)`. */
  function Join(parts: seq<string>, sep: char): string
  {
    if parts == [] then "" else if |parts| == 1 then parts[0]
    else parts[0] + [sep] + Join(parts[1..], sep)
  }

  lemma {:induction false} IndexOfHead(a: string, c: char, rest: string)
    requires c !in a
    ensures IndexOf(a + [c] + rest, c) == |a|
  {
    if a != "" {
      assert (a + [c] + rest)[1..] == a[1..] + [c] + rest;
      IndexOfHead(a[1..], c, rest);
    }
  }

  lemma SplitWithout(a: string, sep: char)
    requires sep !in a
    ensures Split(a, sep) == [a]
  {
    assert forall k | 0 <= k < |a| :: a[k] in a;
    assert IndexOf(a, sep) == |a|;
  }

  lemma CutAround(a: string, c: char, rest: string)
    ensures (a + [c] + rest)[..|a|] == a && (a + [c] + rest)[|a| + 1..] == rest
  {
  }

  lemma SplitFirst(a: string, sep: char, rest: string)
    requires sep !in a
    ensures Split(a + [sep] + rest, sep) == [a] + Split(rest, sep)
  {
    IndexOfHead(a, sep, rest);
    CutAround(a, sep, rest);
  }

  /** Splitting undoes joining whenever the parts hold no separator. */
  lemma {:induction false} SplitJoin(parts: seq<string>, sep: char)
    requires |parts| >= 1 && forall p | p in parts :: sep !in p
    ensures Split(Join(parts, sep), sep) == parts
  {
    hide Split;
    var first, rest := parts[0], parts[1..];
    assert first in parts && parts == [first] + rest;
    if |parts| == 1 {
      SplitWithout(first, sep);
    } else {
      SplitFirst(first, sep, Join(rest, sep));
      SplitJoin(rest, sep);
    }
  }

  /** `d` ends with the separator followed by `p`. */
  predicate EndsAfter(d: string, sep: char, p: string)
  {
    |p| < |d| && d[|d| - |p| - 1] == sep && d[|d| - |p|..] == p
  }

  lemma {:induction false} JoinAppend(a: seq<string>, b: seq<string>, sep: char)
    requires a != [] && b != []
    ensures Join(a + b, sep) == Join(a, sep) + [sep] + Join(b, sep)
  {
    if |a| == 1 {
      assert (a + b)[1..] == b;
    } else {
      assert (a + b)[1..] == a[1..] + b;
      JoinAppend(a[1..], b, sep);
    }
  }

  lemma LabelSuffixFollowsSeparator(d: string, sep: char, i: nat)
    requires 1 <= i < |Split(d, sep)|
    ensures EndsAfter(d, sep, Join(Split(d, sep)[i..], sep))
  {
    var parts := Split(d, sep);
    assert parts == parts[..i] + parts[i..];
    JoinAppend(parts[..i], parts[i..], sep);
  }

  lemma SplitAppend(a: string, b: string, sep: char)
    ensures Split(a + [sep] + b, sep) == Split(a, sep) + Split(b, sep)
  {
    JoinAppend(Split(a, sep), Split(b, sep), sep);
    SplitJoin(Split(a, sep) + Split(b, sep), sep);
  }

  lemma SeparatorStartsLabelSuffix(d: string, sep: char, p: string) returns (i: nat)
    requires EndsAfter(d, sep, p)
    ensures 1 <= i < |Split(d, sep)| && Join(Split(d, sep)[i..], sep) == p
  {
    var a := d[..|d| - |p| - 1];
    assert d == a + [sep] + p;
    SplitAppend(a, p, sep);
    i := |Split(a, sep)|;
    assert Split(d, sep)[i..] == Split(p, sep);
  }

  /** The proper label suffixes of a name are exactly the texts that follow one of its separators. */
  lemma SuffixesAreLabelSuffixes(d: string, sep: char, p: string)
    ensures EndsAfter(d, sep, p) <==> exists i :: 1 <= i < |Split(d, sep)| && Join(Split(d, sep)[i..], sep) == p
  {
    if EndsAfter(d, sep, p) {
      var i := SeparatorStartsLabelSuffix(d, sep, p);
    }
    forall i | 1 <= i < |Split(d, sep)| && Join(Split(d, sep)[i..], sep) == p ensures EndsAfter(d, sep, p) {
      LabelSuffixFollowsSeparator(d, sep, i);
    }
  }

  function Max(a: int, b: int): int { if a >= b then a else b }

  predicate IsAlnum(c: char)
  {
    '0' <= c <= '9' || 'A' <= c <= 'Z' || 'a' <= c <= 'z'
  }

  function Flatten<T>(lists: seq<seq<T>>): seq<T>
  {
    if lists == [] then [] else Flatten(lists[..|lists| - 1]) + lists[|lists| - 1]
  }

  lemma FlattenOneMore<T>(lists: seq<seq<T>>, list: seq<T>)
    ensures Flatten(lists + [list]) == Flatten(lists) + list
  {
    assert (lists + [list])[..|lists|] == lists;
  }

  lemma Regroup<T>(a: seq<T>, b: seq<T>, c: seq<T>, d: seq<T>)
    ensures a + b + c + d == a + (b + (c + d))
  {
  }

  // ASCII white space, as `str.strip` and `\s` see it.
  predicate IsSpace(c: char)
  {
    9 <= c as int <= 13 || 28 <= c as int <= 32
  }

  predicate IsDot(c: char) { c == '.' }
  predicate IsStarOrDot(c: char) { c == '*' || c == '.' }

  function TrimLeft(s: string, drop: char -> bool): (t: string)
    ensures t == "" || !drop(t[0])
    ensures |t| <= |s| && s[|s| - |t|..] == t
    ensures s != "" && !drop(s[0]) ==> t == s
  {
    if s != "" && drop(s[0]) then TrimLeft(s[1..], drop) else s
  }

  function TrimRight(s: string, drop: char -> bool): (t: string)
    ensures t == "" || !drop(t[|t| - 1])
    ensures t <= s
    ensures s != "" && !drop(s[|s| - 1]) ==> t == s
  {
    if s != "" && drop(s[|s| - 1]) then TrimRight(s[..|s| - 1], drop) else s
  }

  function Trim(s: string, drop: char -> bool): (t: string)
    ensures t == "" || (!drop(t[0]) && !drop(t[|t| - 1]))
    ensures s != "" && !drop(s[0]) && !drop(s[|s| - 1]) ==> t == s
  {
    TrimRight(TrimLeft(s, drop), drop)
  }

  predicate AllAre(s: string, drop: char -> bool)
  {
    forall c | c in s :: drop(c)
  }

  /** Trimming on the left drops all that is to drop and stops there. */
  lemma {:induction false} TrimLeftIs(a: string, t: string, drop: char -> bool)
    requires AllAre(a, drop) && (t == "" || !drop(t[0]))
    ensures TrimLeft(a + t, drop) == t
  {
    if a == "" {
      assert a + t == t;
    } else {
      assert (a + t)[1..] == a[1..] + t;
      TrimLeftIs(a[1..], t, drop);
    }
  }

  lemma {:induction false} TrimRightIs(t: string, b: string, drop: char -> bool)
    requires AllAre(b, drop) && (t == "" || !drop(t[|t| - 1]))
    ensures TrimRight(t + b, drop) == t
  {
    if b == "" {
      assert t + b == t;
    } else {
      var init := b[..|b| - 1];
      assert (t + b)[..|t + b| - 1] == t + init && (t + b)[|t + b| - 1] == b[|b| - 1];
      TrimRightIs(t, init, drop);
    }
  }

  /** What is left between two trimmed ends. */
  lemma TrimIs(a: string, t: string, b: string, drop: char -> bool)
    requires AllAre(a, drop) && AllAre(b, drop)
    requires t != "" && !drop(t[0]) && !drop(t[|t| - 1])
    ensures Trim(a + t + b, drop) == t
  {
    assert a + t + b == a + (t + b);
    TrimLeftIs(a, t + b, drop);
    TrimRightIs(t, b, drop);
  }

  function Strip(s: string): string
  {
    Trim(s, IsSpace)
  }

  function LowerChar(c: char): char
  {
    if 'A' <= c <= 'Z' then c + ('a' - 'A') else c
  }

  function Lower(s: string): (t: string)
    ensures |t| == |s|
    ensures forall i | 0 <= i < |s| :: t[i] == LowerChar(s[i])
  {
    seq(|s|, i requires 0 <= i < |s| => LowerChar(s[i]))
  }

  predicate IsBlank(s: string)
  {
    AllAre(s, IsSpace)
  }

  /** White space around a text, and upper case in it, make no difference to its lower-case stripped form. */
  lemma NormalFormIs(a: string, t: string, b: string)
    requires IsBlank(a) && IsBlank(b) && t != "" && !IsSpace(t[0]) && !IsSpace(t[|t| - 1])
    ensures Strip(Lower(a + t + b)) == Lower(t) && Lower(Strip(a + t + b)) == Lower(t)
  {
    hide AllAre, LowerChar, IsSpace, Trim;
    BlankStaysBlank(a);
    BlankStaysBlank(b);
    LowerKeepsSpace(t[0]);
    LowerKeepsSpace(t[|t| - 1]);
    LowerOfParts(a, t, b);
    TrimIs(a, t, b, IsSpace);
    TrimIs(Lower(a), Lower(t), Lower(b), IsSpace);
  }

  lemma LowerOfParts(a: string, t: string, b: string)
    ensures Lower(a + t + b) == Lower(a) + Lower(t) + Lower(b)
  {
    hide LowerChar;
  }

  lemma LowerKeepsSpace(c: char)
    ensures IsSpace(LowerChar(c)) <==> IsSpace(c)
  {
  }

  lemma BlankStaysBlank(a: string)
    requires IsBlank(a)
    ensures IsBlank(Lower(a))
  {
    forall c | c in Lower(a) ensures IsSpace(c) {
      var i :| 0 <= i < |a| && Lower(a)[i] == c;
      assert a[i] in a;
      LowerKeepsSpace(a[i]);
    }
  }

  predicate IsLower(s: string)
  {
    forall c | c in s :: LowerChar(c) == c
  }

  lemma LoweredIsLower(s: string)
    ensures IsLower(Lower(s))
  {
    forall c | c in Lower(s)
      ensures LowerChar(c) == c
    {
      var i :| 0 <= i < |s| && Lower(s)[i] == c;
    }
  }

  lemma LowerIsItself(s: string)
    requires IsLower(s)
    ensures Lower(s) == s
  {
    hide LowerChar;
    forall i | 0 <= i < |s|
      ensures Lower(s)[i] == s[i]
    {
      assert s[i] in s;
    }
  }

  lemma LoweredStaysSo(t: string)
    requires t != "" && !IsSpace(t[0]) && !IsSpace(t[|t| - 1])
    ensures Lower(Strip(Lower(t))) == Lower(t) && Strip(Lower(Lower(t))) == Lower(t)
  {
    hide LowerChar, IsSpace;
    LoweredIsLower(t);
    LowerIsItself(Lower(t));
    LowerKeepsSpace(t[0]);
    LowerKeepsSpace(t[|t| - 1]);
  }

  /** Lower-casing and stripping twice is the same as doing it once. */
  lemma LowerStripIdempotent(s: string)
    ensures Strip(Lower(Strip(Lower(s)))) == Strip(Lower(s))
  {
    hide IsLower, Lower;
    var t := Strip(Lower(s));
    LoweredIsLower(s);
    StrippedIsLower(Lower(s));
    LowerIsItself(t);
    hide Strip;
    assert Strip(t) == t by { StripTwice(Lower(s)); }
  }

  lemma StripTwice(s: string)
    ensures Strip(Strip(s)) == Strip(s)
  {
  }

  lemma StrippedIsLower(s: string)
    requires IsLower(s)
    ensures IsLower(Strip(s))
  {
    hide TrimLeft, TrimRight, LowerChar;
    var a := TrimLeft(s, IsSpace);
    var t := TrimRight(a, IsSpace);
    forall c | c in t
      ensures LowerChar(c) == c
    {
      assert c in a;
      assert c in s[|s| - |a|..];
    }
  }
}
