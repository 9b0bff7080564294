/** Registrable apexes over an abstract public-suffix list (`domain_labels.py`). */
module DomainLabels {
  import opened Text

  /** Membership in the public-suffix list, as a test on label sequences. */
  type Suffixes = seq<string> -> bool

  /** Where the longest public suffix of the labels starts; `|labels|` when there is none. */
  function SuffixStart(labels: seq<string>, ps: Suffixes): (i: nat)
    ensures i <= |labels|
    ensures i < |labels| ==> ps(labels[i..])
    ensures forall k | 0 <= k < i :: !ps(labels[k..])
  {
    if labels == [] || ps(labels) then
      assert labels[0..] == labels; 0
    else
      var i := SuffixStart(labels[1..], ps);
      assert forall k | 0 <= k < i + 1 :: !ps(labels[k..]) by {
        forall k | 0 <= k < i + 1 ensures !ps(labels[k..]) {
          if k == 0 { assert labels[0..] == labels; } else { assert labels[k..] == labels[1..][k - 1..]; }
        }
      }
      assert i + 1 < |labels| ==> labels[i + 1..] == labels[1..][i..];
      i + 1
  }

  /** The labels of the registrable apex: one label more than the public suffix, or the whole name. */
  function ApexLabels(labels: seq<string>, ps: Suffixes): seq<string>
  {
    var i := SuffixStart(labels, ps);
    if 0 < i < |labels| && labels[i - 1] != "" then labels[i - 1..] else labels
  }

  function ExtractApex(name: string, ps: Suffixes): string
  {
    var n := Lower(Strip(name));
    if n == "" then "" else Join(ApexLabels(Split(n, '.'), ps), '.')
  }

  function WithoutPublicSuffix(name: string, ps: Suffixes): Option<string>
  {
    var n := Lower(Strip(name));
    var labels := Split(n, '.');
    var i := SuffixStart(labels, ps);
    if n == "" || i == |labels| || i == 0 then None
    else
      var sub := Join(labels[..i - 1], '.');
      if sub != "" then Some(sub + "." + labels[i - 1])
      else if labels[i - 1] != "" then Some(labels[i - 1]) else None
  }

  // ----- what key and apex are, in terms of the text

  /** A public suffix starts at the `i`-th label and no longer one does. */
  ghost predicate LongestSuffixAt(labels: seq<string>, i: int, ps: Suffixes)
  {
    0 <= i < |labels| && ps(labels[i..]) && forall j | 0 <= j < i :: !ps(labels[j..])
  }

  /** The name is the key, a dot, and its longest public suffix. */
  ghost predicate IsKeyOf(n: string, key: string, ps: Suffixes)
  {
    exists i :: i > 0 && LongestSuffixAt(Split(n, '.'), i, ps) && key + "." + Join(Split(n, '.')[i..], '.') == n
  }

  /** The apex is one label in front of the longest public suffix, or the whole name if that leaves no such label. */
  ghost predicate IsApexOf(n: string, apex: string, ps: Suffixes)
  {
    if exists i :: i > 0 && LongestSuffixAt(Split(n, '.'), i, ps)
    then (apex == n || EndsAfter(n, '.', apex))
      && exists i, lab :: i > 0 && LongestSuffixAt(Split(n, '.'), i, ps) && '.' !in lab
                          && apex == lab + "." + Join(Split(n, '.')[i..], '.')
    else apex == n
  }

  lemma SuffixStartIs(labels: seq<string>, i: int, ps: Suffixes)
    requires LongestSuffixAt(labels, i, ps)
    ensures SuffixStart(labels, ps) == i
  {
  }

  lemma NoLongestSuffix(labels: seq<string>, ps: Suffixes)
    ensures var i := SuffixStart(labels, ps); i < |labels| ==> LongestSuffixAt(labels, i, ps)
  {
  }

  /** A name cut before its `i`-th label, and before the label in front of that. */
  lemma CutAtLabel(n: string, i: nat)
    requires 0 < i < |Split(n, '.')|
    ensures var labels := Split(n, '.');
      n == Join(labels[..i], '.') + "." + Join(labels[i..], '.')
      && Join(labels[i - 1..], '.') == labels[i - 1] + "." + Join(labels[i..], '.')
      && (i > 1 ==> Join(labels[..i], '.') == Join(labels[..i - 1], '.') + "." + labels[i - 1]
                    && EndsAfter(n, '.', Join(labels[i - 1..], '.')))
      && (i == 1 ==> Join(labels[..i], '.') == labels[0])
  {
    hide Split, Join, EndsAfter;
    var labels := Split(n, '.');
    JoinCut(labels, i);
    JoinFrom(labels, i - 1);
    JoinUpTo(labels, i);
    if i > 1 {
      LabelSuffixFollowsSeparator(n, '.', i - 1);
    }
  }

  lemma JoinCut(labels: seq<string>, i: nat)
    requires 0 < i < |labels|
    ensures Join(labels, '.') == Join(labels[..i], '.') + "." + Join(labels[i..], '.')
  {
    hide Join;
    assert labels == labels[..i] + labels[i..];
    JoinAppend(labels[..i], labels[i..], '.');
  }

  lemma JoinFrom(labels: seq<string>, i: nat)
    requires i + 1 < |labels|
    ensures Join(labels[i..], '.') == labels[i] + "." + Join(labels[i + 1..], '.')
  {
    assert labels[i..][1..] == labels[i + 1..];
  }

  lemma JoinUpTo(labels: seq<string>, i: nat)
    requires 0 < i <= |labels|
    ensures Join(labels[..i], '.') == if i == 1 then labels[0] else Join(labels[..i - 1], '.') + "." + labels[i - 1]
  {
    OneLabel(labels[i - 1]);
    hide Join;
    var init, last := labels[..i - 1], labels[i - 1];
    assert labels[..i] == init + [last];
    if i > 1 {
      JoinAppend(init, [last], '.');
    } else {
      assert init + [last] == [last];
    }
  }

  lemma OneLabel(lab: string)
    ensures Join([lab], '.') == lab
  {
  }

  lemma JoinIsNotEmpty(labels: seq<string>)
    requires labels != [] && "" !in labels
    ensures Join(labels, '.') != ""
  {
  }

  lemma SameKey(a: string, b: string, suffix: string)
    requires a + "." + suffix == b + "." + suffix
    ensures a == b
  {
    var n := a + "." + suffix;
    assert n[..|n| - |suffix| - 1] == a && n[..|n| - |suffix| - 1] == b;
  }

  lemma EmptySplits()
    ensures Split("", '.') == [""]
  {
  }

  lemma KeyText(n: string, i: nat)
    requires 0 < i < |Split(n, '.')| && "" !in Split(n, '.')
    ensures var labels := Split(n, '.');
      var sub := Join(labels[..i - 1], '.');
      (if sub != "" then sub + "." + labels[i - 1] else labels[i - 1]) == Join(labels[..i], '.') && labels[i - 1] != ""
  {
    var labels := Split(n, '.');
    CutAtLabel(n, i);
    hide Split;
    if i > 1 {
      assert "" !in labels[..i - 1];
      JoinIsNotEmpty(labels[..i - 1]);
    }
  }

  lemma KeyBeforeSuffix(name: string, ps: Suffixes)
    requires "" !in Split(Lower(Strip(name)), '.')
    ensures var labels := Split(Lower(Strip(name)), '.');
      var i := SuffixStart(labels, ps);
      WithoutPublicSuffix(name, ps) == if 0 < i < |labels| then Some(Join(labels[..i], '.')) else None
  {
    hide Split, SuffixStart, Strip, Lower, Join;
    var n := Lower(Strip(name));
    var i := SuffixStart(Split(n, '.'), ps);
    EmptySplits();
    if 0 < i < |Split(n, '.')| {
      KeyText(n, i);
    }
  }

  /** Exactly when the name is a key followed by its longest public suffix has it that key. */
  lemma KeyMeaning(name: string, key: string, ps: Suffixes)
    requires "" !in Split(Lower(Strip(name)), '.')
    ensures WithoutPublicSuffix(name, ps) == Some(key) <==> IsKeyOf(Lower(Strip(name)), key, ps)
  {
    var n := Lower(Strip(name));
    var labels, i := Split(n, '.'), SuffixStart(Split(n, '.'), ps);
    KeyBeforeSuffix(name, ps);
    NoLongestSuffix(labels, ps);
    hide Split, SuffixStart, WithoutPublicSuffix, LongestSuffixAt, Strip, Lower;
    if 0 < i < |labels| {
      CutAtLabel(n, i);
    }
    if IsKeyOf(n, key, ps) {
      var k :| k > 0 && LongestSuffixAt(labels, k, ps) && key + "." + Join(labels[k..], '.') == n;
      SuffixStartIs(labels, k, ps);
      assert i < |labels| by { LongestIsInside(labels, k, ps); }
      SameKey(key, Join(labels[..i], '.'), Join(labels[i..], '.'));
    }
  }

  lemma LongestIsInside(labels: seq<string>, i: int, ps: Suffixes)
    requires LongestSuffixAt(labels, i, ps)
    ensures i < |labels|
  {
  }

  /** The apex as the text says it. */
  lemma ApexMeaning(name: string, ps: Suffixes)
    requires "" !in Split(Lower(Strip(name)), '.')
    ensures IsApexOf(Lower(Strip(name)), ExtractApex(name, ps), ps)
  {
    hide Split, SuffixStart, Strip, Lower, LongestSuffixAt, Join;
    var n := Lower(Strip(name));
    var labels := Split(n, '.');
    var i := SuffixStart(labels, ps);
    EmptySplits();
    NoLongestSuffix(labels, ps);
    if 0 < i < |labels| {
      CutAtLabel(n, i);
      assert labels[i - 1] in labels;
      assert i == 1 ==> labels[i - 1..] == labels;
    } else if k :| k > 0 && LongestSuffixAt(labels, k, ps) {
      SuffixStartIs(labels, k, ps);
      LongestIsInside(labels, k, ps);
    }
  }

  lemma ApexIsUnique(n: string, a: string, b: string, ps: Suffixes)
    requires IsApexOf(n, a, ps) && IsApexOf(n, b, ps)
    ensures a == b
  {
    hide Split, Join;
    if exists i :: i > 0 && LongestSuffixAt(Split(n, '.'), i, ps) {
      var i, x :| i > 0 && LongestSuffixAt(Split(n, '.'), i, ps) && '.' !in x && a == x + "." + Join(Split(n, '.')[i..], '.');
      var j, y :| j > 0 && LongestSuffixAt(Split(n, '.'), j, ps) && '.' !in y && b == y + "." + Join(Split(n, '.')[j..], '.');
      assert i == j;
      SameLabel(n, a, b, x, y, Join(Split(n, '.')[i..], '.'));
    }
  }

  lemma SameLabel(n: string, a: string, b: string, x: string, y: string, suffix: string)
    requires a == x + "." + suffix && b == y + "." + suffix && '.' !in x && '.' !in y
    requires (a == n || EndsAfter(n, '.', a)) && (b == n || EndsAfter(n, '.', b))
    ensures a == b
  {
    assert a == n[|n| - |a|..] && b == n[|n| - |b|..];
    if |a| < |b| {
      LongerHasDot(n, a, b, y, suffix);
    } else if |b| < |a| {
      LongerHasDot(n, b, a, x, suffix);
    }
  }

  lemma LongerHasDot(n: string, a: string, b: string, y: string, suffix: string)
    requires EndsAfter(n, '.', a) && |suffix| < |a| < |b| <= |n| && b == y + "." + suffix && b == n[|n| - |b|..]
    ensures '.' in y
  {
    var k := |b| - |a| - 1;
    assert y[k] == b[k] == n[|n| - |a| - 1];
  }

  /** Blanks around a name and upper case in it change neither key nor apex. */
  lemma NamesAreNormalised(a: string, name: string, b: string, ps: Suffixes)
    requires IsBlank(a) && IsBlank(b) && name != "" && !IsSpace(name[0]) && !IsSpace(name[|name| - 1])
    ensures ExtractApex(a + name + b, ps) == ExtractApex(Lower(name), ps)
    ensures WithoutPublicSuffix(a + name + b, ps) == WithoutPublicSuffix(Lower(name), ps)
  {
    hide Strip, Lower, SuffixStart, Split, Join, IsSpace, IsBlank;
    NormalFormIs(a, name, b);
    LoweredStaysSo(name);
  }

  /** The zone is more than a public suffix. */
  ghost predicate ProperRoot(root: seq<string>, ps: Suffixes)
  {
    0 < SuffixStart(root, ps) < |root|
  }

  /** No public suffix starts among the labels above the zone. */
  ghost predicate NoneAbove(pre: seq<string>, root: seq<string>, ps: Suffixes)
  {
    forall k | 0 <= k < |pre| :: !ps(pre[k..] + root)
  }

  lemma {:induction false} SuffixStartBelow(pre: seq<string>, root: seq<string>, ps: Suffixes)
    requires NoneAbove(pre, root, ps)
    ensures SuffixStart(pre + root, ps) == |pre| + SuffixStart(root, ps)
  {
    if pre == [] {
      assert pre + root == root;
    } else {
      assert pre[0..] == pre;
      assert (pre + root)[1..] == pre[1..] + root;
      assert forall k | 0 <= k < |pre[1..]| :: pre[1..][k..] == pre[k + 1..];
      SuffixStartBelow(pre[1..], root, ps);
    }
  }

  lemma SuffixStartAt(hl: seq<string>, k: nat, ps: Suffixes)
    requires k < |hl| && ps(hl[k..])
    ensures SuffixStart(hl, ps) <= k
  {
  }

  lemma ApexIsLonger(hl: seq<string>, n: nat, ps: Suffixes)
    requires n < |hl| && "" !in hl && (SuffixStart(hl, ps) <= |hl| - n || SuffixStart(hl, ps) == |hl|)
    ensures |ApexLabels(hl, ps)| > n
  {
  }

  lemma TailBelow(pre: seq<string>, root: seq<string>, k: nat)
    ensures k <= |pre| ==> (pre + root)[k..] == pre[k..] + root
    ensures |pre| <= k <= |pre| + |root| ==> (pre + root)[k..] == root[k - |pre|..]
  {
  }

  /** A host below a root shares its apex exactly when the root is more than a suffix and none starts above it. */
  lemma ApexBelowRoot(pre: seq<string>, root: seq<string>, ps: Suffixes)
    requires pre != [] && root != [] && "" !in pre + root
    ensures ApexLabels(pre + root, ps) == ApexLabels(root, ps) <==> ProperRoot(root, ps) && NoneAbove(pre, root, ps)
    ensures ProperRoot(root, ps) ==> |ApexLabels(root, ps)| >= 2
  {
    var hl, s := pre + root, SuffixStart(root, ps);
    assert forall lab | lab in root :: lab in hl;
    hide SuffixStart;
    if NoneAbove(pre, root, ps) {
      SuffixStartBelow(pre, root, ps);
      if ProperRoot(root, ps) {
        TailBelow(pre, root, |pre| + s - 1);
      } else {
        ApexIsLonger(hl, |root|, ps);
      }
    } else {
      var k :| 0 <= k < |pre| && ps(pre[k..] + root);
      TailBelow(pre, root, k);
      SuffixStartAt(hl, k, ps);
      ApexIsLonger(hl, |root|, ps);
    }
  }
}
