/** The two-row Levenshtein loop of `protected_domain_similarity.py`, and why its answer is the edit distance. */
module EditDistance {
  import opened Text

  function Min(a: int, b: int): int { if a <= b then a else b }
  function Abs(a: int): int { if a >= 0 then a else -a }

  /** All but the last character. */
  function Front(s: string): string
    requires s != ""
  {
    s[..|s| - 1]
  }

  function Last(s: string): char
    requires s != ""
  {
    s[|s| - 1]
  }

  function Mismatch(a: char, b: char): nat { if a == b then 0 else 1 }

  /** The cell of the distance table for `s` and `t`; the rows of the loop hold it for prefixes. */
  function Dist(s: string, t: string): nat
    decreases |s| + |t|
  {
    if s == "" then |t| else if t == "" then |s|
    else Min(Min(Dist(Front(s), t) + 1, Dist(s, Front(t)) + 1),
             Dist(Front(s), Front(t)) + Mismatch(Last(s), Last(t)))
  }

  // ----- what "distance" means: single-character edits, applied one after the other

  datatype Edit = Insert(at: nat, c: char) | Delete(at: nat) | Replace(at: nat, c: char)

  function Apply(e: Edit, s: string): Option<string>
  {
    match e
    case Insert(at, c) => if at <= |s| then Some(s[..at] + [c] + s[at..]) else None
    case Delete(at) => if at < |s| then Some(s[..at] + s[at + 1..]) else None
    case Replace(at, c) => if at < |s| then Some(s[..at] + [c] + s[at + 1..]) else None
  }

  /** Runs a whole script; None when some edit points outside the text it is applied to. */
  function Run(script: seq<Edit>, s: string): Option<string>
  {
    if script == [] then Some(s)
    else match Apply(script[0], s)
      case None => None
      case Some(u) => Run(script[1..], u)
  }

  // ----- the metric laws

  lemma {:induction false} Symmetric(s: string, t: string)
    ensures Dist(s, t) == Dist(t, s)
    decreases |s| + |t|
  {
    if s != "" && t != "" {
      Symmetric(Front(s), t);
      Symmetric(s, Front(t));
      Symmetric(Front(s), Front(t));
    }
  }

  /** The distance lies between the difference of the lengths and the longer length. */
  lemma {:induction false} Bounds(s: string, t: string)
    ensures Abs(|s| - |t|) <= Dist(s, t) <= Max(|s|, |t|)
    decreases |s| + |t|
  {
    if s != "" && t != "" {
      Bounds(Front(s), t);
      Bounds(s, Front(t));
      Bounds(Front(s), Front(t));
    }
  }

  lemma {:induction false} ZeroIffEqual(s: string, t: string)
    ensures Dist(s, t) == 0 <==> s == t
    decreases |s| + |t|
  {
    if s != "" && t != "" {
      ZeroIffEqual(Front(s), Front(t));
      assert s == Front(s) + [Last(s)] && t == Front(t) + [Last(t)];
    }
  }

  lemma {:induction false} Triangle(a: string, b: string, c: string)
    ensures Dist(a, c) <= Dist(a, b) + Dist(b, c)
    decreases |a| + |b| + |c|
  {
    Bounds(a, b);
    Bounds(b, c);
    Bounds(a, c);
    if a != "" && b != "" && c != "" {
      Triangle(Front(a), b, c);
      Triangle(a, b, Front(c));
      Triangle(a, Front(b), c);
      Triangle(a, Front(b), Front(c));
      Triangle(Front(a), Front(b), c);
      Triangle(Front(a), Front(b), Front(c));
    }
  }

  /** No text of a given length is nearer than the difference of the lengths, and some text is as near. */
  lemma {:induction false} NearestOfLength(s: string, n: nat) returns (t: string)
    ensures |t| == n && Dist(s, t) == Abs(|s| - n)
    decreases |s| + n
  {
    if n < |s| {
      t := NearestOfLength(Front(s), n);
      Bounds(s, t);
    } else if n > |s| {
      t := NearestOfLength(s, n - 1);
      t := t + ['x'];
      assert Front(t) + ['x'] == t;
      Bounds(s, t);
    } else {
      t := s;
      ZeroIffEqual(s, t);
    }
  }

  // ----- optimality

  lemma {:induction false} CommonSuffix(s: string, t: string, w: string)
    ensures Dist(s + w, t + w) <= Dist(s, t)
  {
    if w == "" {
      assert s + w == s && t + w == t;
    } else {
      CommonSuffix(s, t, Front(w));
      assert Front(s + w) == s + Front(w) && Front(t + w) == t + Front(w);
    }
  }

  lemma OneCharacterMore(p: string, c: char, w: string)
    ensures Dist(p + w, p + [c] + w) <= 1 && Dist(p + [c] + w, p + w) <= 1
  {
    ZeroIffEqual(p, p);
    assert Front(p + [c]) == p;
    CommonSuffix(p, p + [c], w);
    CommonSuffix(p + [c], p, w);
  }

  lemma OneCharacterReplaced(p: string, c: char, d: char, w: string)
    ensures Dist(p + [c] + w, p + [d] + w) <= 1
  {
    ZeroIffEqual(p, p);
    assert Front(p + [c]) == p && Front(p + [d]) == p;
    CommonSuffix(p + [c], p + [d], w);
  }

  lemma OneEditIsNear(e: Edit, s: string)
    requires Apply(e, s).Some?
    ensures Dist(s, Apply(e, s).value) <= 1
  {
    hide Dist;
    match e
    case Insert(at, c) =>
      CutAt(s, at);
      OneCharacterMore(s[..at], c, s[at..]);
    case Delete(at) =>
      CutOut(s, at);
      OneCharacterMore(s[..at], s[at], s[at + 1..]);
    case Replace(at, c) =>
      CutOut(s, at);
      OneCharacterReplaced(s[..at], s[at], c, s[at + 1..]);
  }

  lemma CutAt(s: string, at: nat)
    requires at <= |s|
    ensures s == s[..at] + s[at..]
  {
  }

  lemma CutOut(s: string, at: nat)
    requires at < |s|
    ensures s == s[..at] + [s[at]] + s[at + 1..]
  {
  }

  /** No script is shorter than the distance. */
  lemma {:induction false} NoScriptIsShorter(script: seq<Edit>, s: string)
    requires Run(script, s).Some?
    ensures Dist(s, Run(script, s).value) <= |script|
  {
    if script == [] {
      ZeroIffEqual(s, s);
    } else {
      var u := Apply(script[0], s).value;
      OneEditIsNear(script[0], s);
      NoScriptIsShorter(script[1..], u);
      Triangle(s, u, Run(script, s).value);
    }
  }

  lemma {:induction false} RunAppend(a: seq<Edit>, b: seq<Edit>, s: string)
    requires Run(a, s).Some?
    ensures Run(a + b, s) == Run(b, Run(a, s).value)
  {
    if a == [] {
      assert a + b == b;
    } else {
      assert (a + b)[1..] == a[1..] + b;
      RunAppend(a[1..], b, Apply(a[0], s).value);
    }
  }

  /** A script never looks past the text it edits, so a suffix rides along unchanged. */
  lemma {:induction false} RunBeforeSuffix(script: seq<Edit>, s: string, w: string)
    requires Run(script, s).Some?
    ensures Run(script, s + w) == Some(Run(script, s).value + w)
  {
    if script != [] {
      var e := script[0];
      var u := Apply(e, s).value;
      assert Apply(e, s + w) == Some(u + w) by {
        assert (s + w)[..e.at] == s[..e.at];
        assert (s + w)[e.at..] == s[e.at..] + w;
        if !e.Insert? { assert (s + w)[e.at + 1..] == s[e.at + 1..] + w; }
        assert Apply(e, s + w).value == u + w;
      }
      RunBeforeSuffix(script[1..], u, w);
    }
  }

  lemma EndWithInsert(script: seq<Edit>, s: string, t: string)
    requires t != "" && Run(script, s) == Some(Front(t))
    ensures Run(script + [Insert(|t| - 1, Last(t))], s) == Some(t)
  {
    var last := [Insert(|t| - 1, Last(t))];
    RunAppend(script, last, s);
    assert Front(t)[..|t| - 1] + [Last(t)] + Front(t)[|t| - 1..] == t;
    assert Run(last, Front(t)) == Run(last[1..], t);
  }

  lemma StartWithDelete(script: seq<Edit>, s: string)
    requires s != ""
    ensures Run([Delete(|s| - 1)] + script, s) == Run(script, Front(s))
  {
    assert s[..|s| - 1] + s[|s|..] == Front(s);
    assert ([Delete(|s| - 1)] + script)[1..] == script;
  }

  lemma UnderLast(script: seq<Edit>, s: string, t: string) returns (longer: seq<Edit>)
    requires s != "" && t != "" && Run(script, Front(s)) == Some(Front(t))
    ensures |longer| == |script| + Mismatch(Last(s), Last(t)) && Run(longer, s) == Some(t)
  {
    var c := Last(t);
    RunBeforeSuffix(script, Front(s), [c]);
    assert t == Front(t) + [c];
    if Last(s) == c {
      assert s == Front(s) + [c];
      longer := script;
    } else {
      longer := [Replace(|s| - 1, c)] + script;
      assert s[..|s| - 1] + [c] + s[|s|..] == Front(s) + [c];
      assert longer[1..] == script;
    }
  }

  /** Some script is exactly as long as the distance. */
  lemma {:induction false} ShortestScript(s: string, t: string) returns (script: seq<Edit>)
    ensures |script| == Dist(s, t) && Run(script, s) == Some(t)
    decreases |s| + |t|
  {
    if s == "" && t == "" {
      script := [];
    } else if s == "" || (t != "" && Dist(s, t) == Dist(s, Front(t)) + 1) {
      script := ShortestScript(s, Front(t));
      EndWithInsert(script, s, t);
      script := script + [Insert(|t| - 1, Last(t))];
    } else if t == "" || Dist(s, t) == Dist(Front(s), t) + 1 {
      script := ShortestScript(Front(s), t);
      StartWithDelete(script, s);
      script := [Delete(|s| - 1)] + script;
    } else {
      script := ShortestScript(Front(s), Front(t));
      script := UnderLast(script, s, t);
    }
  }

  ghost predicate Turns(script: seq<Edit>, s: string, t: string)
  {
    Run(script, s) == Some(t)
  }

  /** `d` is the least number of single-character edits that turn `s` into `t`. */
  ghost predicate IsEditDistance(d: nat, s: string, t: string)
  {
    (exists script :: Turns(script, s, t) && |script| == d)
    && forall script :: Turns(script, s, t) ==> d <= |script|
  }

  lemma DistIsEditDistance(s: string, t: string)
    ensures IsEditDistance(Dist(s, t), s, t)
  {
    var best := ShortestScript(s, t);
    assert Turns(best, s, t);
    forall script | Turns(script, s, t) ensures Dist(s, t) <= |script| {
      NoScriptIsShorter(script, s);
    }
  }

  // ----- the loop

  /** Row `i` of the table: the distances from `s1[..i]` to every prefix of `s2` shorter than `n`. */
  ghost predicate IsRow(row: seq<int>, s1: string, i: nat, s2: string, n: nat)
    requires i <= |s1| && n <= |s2| + 1
  {
    |row| == n && forall j | 0 <= j < n :: row[j] == Dist(s1[..i], s2[..j])
  }

  lemma FirstRow(row: seq<int>, s1: string, s2: string)
    requires |row| == |s2| + 1 && forall j | 0 <= j < |row| :: row[j] == j
    ensures IsRow(row, s1, 0, s2, |s2| + 1)
  {
  }

  lemma RowStart(s1: string, i: nat, s2: string)
    requires i < |s1|
    ensures IsRow([i + 1], s1, i + 1, s2, 1)
  {
  }

  lemma NextCell(previous: seq<int>, current: seq<int>, s1: string, i: nat, s2: string, j: nat)
    requires i < |s1| && j < |s2|
    requires IsRow(previous, s1, i, s2, |s2| + 1) && IsRow(current, s1, i + 1, s2, j + 1)
    ensures IsRow(current + [Min(Min(previous[j + 1] + 1, current[j] + 1), previous[j] + Mismatch(s1[i], s2[j]))],
                  s1, i + 1, s2, j + 2)
  {
    assert Front(s1[..i + 1]) == s1[..i] && Front(s2[..j + 1]) == s2[..j];
  }

  method LevenshteinDistance(s1: string, s2: string) returns (d: int)
    ensures d == Dist(s1, s2)
    ensures d >= 0 && IsEditDistance(d, s1, s2)
    decreases |s1| < |s2|
  {
    DistIsEditDistance(s1, s2);
    if |s1| < |s2| {
      d := LevenshteinDistance(s2, s1);
      Symmetric(s1, s2);
      return;
    }
    if |s2| == 0 {
      return |s1|;
    }
    var previous := seq(|s2| + 1, j requires 0 <= j => j);
    FirstRow(previous, s1, s2);
    for i := 0 to |s1|
      invariant IsRow(previous, s1, i, s2, |s2| + 1)
    {
      var current := [i + 1];
      RowStart(s1, i, s2);
      for j := 0 to |s2|
        invariant IsRow(current, s1, i + 1, s2, j + 1)
      {
        NextCell(previous, current, s1, i, s2, j);
        var insertions := previous[j + 1] + 1;
        var deletions := current[j] + 1;
        var substitutions := previous[j] + Mismatch(s1[i], s2[j]);
        current := current + [Min(Min(insertions, deletions), substitutions)];
      }
      previous := current;
    }
    assert s1[..|s1|] == s1 && s2[..|s2|] == s2;
    return previous[|previous| - 1];
  }
}
