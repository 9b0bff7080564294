/**
 * Last-execution thresholds: the API's parser and stored form (`api/app/last_execution_threshold.py`) and the
 * runner's two parsers (`runner/app/last_execution_threshold.py`).
 */
module Threshold {
  import opened Text

  /** A value as JSON may hold it; anything else is `Other`. */
  datatype Value = Null | Bool(b: bool) | Int(i: int) | Float(r: real) | NotFinite | Str(s: string) | Other

  /** Hours; the parser's own error; or the exception `int` raises on an infinity or a NaN. */
  datatype Outcome = Hours(hours: int) | Rejected | Crashed

  predicate IsDigit(c: char) { '0' <= c <= '9' }

  function DigitsAt(s: string): (n: nat)
    ensures n <= |s| && (forall k :: 0 <= k < n ==> IsDigit(s[k])) && (n < |s| ==> !IsDigit(s[n]))
  {
    if s == "" || !IsDigit(s[0]) then 0 else 1 + DigitsAt(s[1..])
  }

  /** The suffix in lower case, when nothing but blanks follows it. */
  function SuffixAt(s: string): Option<string>
  {
    if s == "" then Some("")
    else if LowerChar(s[0]) in {'h', 'd', 'w'} && TrimLeft(s[1..], IsSpace) == "" then Some([LowerChar(s[0])])
    else None
  }

  /** Matches the threshold pattern: the digits, and the suffix, empty if there is none. */
  function Match(s: string): Option<(string, string)>
  {
    var t := TrimLeft(s, IsSpace);
    var n := DigitsAt(t);
    var suffix := SuffixAt(TrimLeft(t[n..], IsSpace));
    if n == 0 || suffix.None? then None else Some((t[..n], suffix.value))
  }

  function Digit(c: char): (d: nat)
    ensures d <= 9
  {
    if IsDigit(c) then (c - '0') as int else 0
  }

  function ParseInt(digits: string): nat
  {
    if digits == "" then 0 else 10 * ParseInt(digits[..|digits| - 1]) + Digit(digits[|digits| - 1])
  }

  function PrintInt(n: nat): (digits: string)
    ensures digits != "" && forall k :: 0 <= k < |digits| ==> IsDigit(digits[k])
  {
    if n < 10 then [DigitChar(n)] else PrintInt(n / 10) + [DigitChar(n % 10)]
  }

  function DigitChar(d: nat): (c: char)
    requires d <= 9
    ensures IsDigit(c) && Digit(c) == d
  {
    '0' + d as char
  }

  /** Printing an integer and reading it back. */
  lemma {:induction false} PrintedIntIsRead(n: nat)
    ensures ParseInt(PrintInt(n)) == n
  {
    if n >= 10 {
      PrintedIntIsRead(n / 10);
      var init := PrintInt(n / 10);
      assert PrintInt(n)[..|PrintInt(n)| - 1] == init;
    } else {
      assert PrintInt(n)[..0] == "";
    }
  }

  /** Zeros in front of a number do not count. */
  lemma {:induction false} LeadingZero(digits: string)
    ensures ParseInt("0" + digits) == ParseInt(digits)
  {
    if digits == "" {
      assert ("0" + digits)[..0] == "";
    } else {
      var init := digits[..|digits| - 1];
      assert ("0" + digits)[..|digits|] == "0" + init;
      LeadingZero(init);
    }
  }

  function Times(n: int, suffix: string): int
  {
    if suffix == "d" then n * 24 else if suffix == "w" then n * 24 * 7 else n
  }

  // ----- the API

  function ToHours(v: Value): Outcome
  {
    match v
    case Null => Rejected
    case Bool(_) => Rejected
    case Int(i) => if i < 1 then Rejected else Hours(i)
    case Float(r) => if r.Floor as real != r || r.Floor < 1 then Rejected else Hours(r.Floor)
    case NotFinite => Crashed
    case Str(s) =>
      var m := Match(Strip(s));
      if Strip(s) == "" || m.None? || ParseInt(m.value.0) < 1 then Rejected else Hours(Times(ParseInt(m.value.0), m.value.1))
    case Other => Rejected
  }

  /** The form to store: plain hours as an integer, days and weeks as compact text. */
  function Coerce(v: Value): Option<Value>
  {
    if !ToHours(v).Hours? then None else
    match v
    case Int(i) => Some(Int(i))
    case Float(r) => Some(Int(r.Floor))
    case Str(s) =>
      var m := Match(Strip(s));
      if m.None? then None
      else if m.value.1 == "" || m.value.1 == "h" then Some(Int(ParseInt(m.value.0)))
      else Some(Str(PrintInt(ParseInt(m.value.0)) + m.value.1))
    case _ => None
  }

  /** What the pattern accepts: blanks, digits, blanks, at most one suffix letter in either case, blanks. */
  ghost predicate HasForm(s: string, digits: string, suffix: string)
  {
    exists a, b, c, written :: IsForm(s, digits, suffix, a, b, c, written)
  }

  ghost predicate IsForm(s: string, digits: string, suffix: string, a: string, b: string, c: string, written: string)
  {
    s == a + digits + b + written + c && IsBlank(a) && IsBlank(b) && IsBlank(c)
    && digits != "" && (forall k :: 0 <= k < |digits| ==> IsDigit(digits[k]))
    && Lower(written) == suffix && suffix in {"", "h", "d", "w"}
  }

  lemma TrimmedOnce(s: string)
    requires s != "" && IsSpace(s[0])
    ensures TrimLeft(s, IsSpace) == TrimLeft(s[1..], IsSpace)
  {
  }

  lemma {:induction false} DroppedIsBlank(s: string, k: nat)
    requires k < |s| - |TrimLeft(s, IsSpace)|
    ensures IsSpace(s[k])
  {
    hide TrimLeft, IsSpace;
    if k > 0 {
      TrimmedOnce(s);
      DroppedIsBlank(s[1..], k - 1);
    }
  }

  /** Trimming drops blanks and nothing else. */
  lemma OnlyBlanksTrimmed(s: string) returns (a: string)
    ensures IsBlank(a) && s == a + TrimLeft(s, IsSpace)
  {
    var t := TrimLeft(s, IsSpace);
    a := s[..|s| - |t|];
    forall k | 0 <= k < |a|
      ensures IsSpace(a[k])
    {
      DroppedIsBlank(s, k);
    }
    Cut(s, |a|);
  }

  lemma Cut(s: string, n: nat)
    requires n <= |s|
    ensures s == s[..n] + s[n..] && |s[..n]| == n && forall k :: 0 <= k < n ==> s[..n][k] == s[k]
  {
  }

  lemma {:induction false} DigitsThen(digits: string, t: string)
    requires (forall k :: 0 <= k < |digits| ==> IsDigit(digits[k])) && (t == "" || !IsDigit(t[0]))
    ensures DigitsAt(digits + t) == |digits|
  {
    if digits == "" {
      assert digits + t == t;
    } else {
      assert (digits + t)[1..] == digits[1..] + t;
      DigitsThen(digits[1..], t);
    }
  }

  /** The matcher finds the digits and the suffix of exactly the texts of that form. */
  lemma MatchMeaning(s: string, digits: string, suffix: string)
    ensures Match(s) == Some((digits, suffix)) <==> HasForm(s, digits, suffix)
  {
    if Match(s) == Some((digits, suffix)) {
      MatchedHasForm(s, digits, suffix);
    }
    if HasForm(s, digits, suffix) {
      var a, b, c, written :| IsForm(s, digits, suffix, a, b, c, written);
      FormIsMatched(s, digits, suffix, a, b, c, written);
    }
  }

  lemma SuffixHasForm(s: string, suffix: string) returns (written: string, c: string)
    requires SuffixAt(s) == Some(suffix)
    ensures s == written + c && IsBlank(c) && Lower(written) == suffix && suffix in {"", "h", "d", "w"}
  {
    if s == "" {
      written, c := "", "";
      assert Lower("") == "";
    } else {
      written, c := [s[0]], s[1..];
      var a := OnlyBlanksTrimmed(c);
      assert a + "" == a;
      assert Lower(written) == suffix;
    }
  }

  lemma FormIsSuffix(written: string, c: string, suffix: string)
    requires IsBlank(c) && Lower(written) == suffix && suffix in {"", "h", "d", "w"}
    requires written == "" ==> c == ""
    ensures SuffixAt(written + c) == Some(suffix) && (written != "" ==> !IsSpace(written[0]) && !IsDigit(written[0]))
  {
    if written == "" {
      assert written + c == "";
    } else {
      assert |Lower(written)| == |written| && written == [written[0]] && [LowerChar(written[0])] == suffix;
      assert (written + c)[1..] == c && c + "" == c;
      TrimLeftIs(c, "", IsSpace);
    }
  }

  lemma MatchedSplits(s: string, digits: string, suffix: string) returns (a: string, b: string, rest: string)
    requires Match(s) == Some((digits, suffix))
    ensures s == a + (digits + (b + rest)) && IsBlank(a) && IsBlank(b) && SuffixAt(rest) == Some(suffix)
    ensures digits != "" && forall k :: 0 <= k < |digits| ==> IsDigit(digits[k])
  {
    hide SuffixAt, IsBlank, IsSpace, IsDigit;
    var t := TrimLeft(s, IsSpace);
    var n := DigitsAt(t);
    var after := t[n..];
    assert digits == t[..n] && n > 0;
    Cut(t, n);
    forall k | 0 <= k < |digits|
      ensures IsDigit(digits[k])
    {
      assert IsDigit(t[k]) && digits[k] == t[k];
    }
    rest := TrimLeft(after, IsSpace);
    assert SuffixAt(rest) == Some(suffix);
    hide TrimLeft, DigitsAt, Match;
    a := OnlyBlanksTrimmed(s);
    b := OnlyBlanksTrimmed(after);
  }

  lemma MatchedHasForm(s: string, digits: string, suffix: string)
    requires Match(s) == Some((digits, suffix))
    ensures HasForm(s, digits, suffix) && suffix in {"", "h", "d", "w"}
  {
    hide Match, SuffixAt, Lower, IsBlank, IsDigit;
    var a, b, rest := MatchedSplits(s, digits, suffix);
    var written, c := SuffixHasForm(rest, suffix);
    Reassociate(a, digits, b, written, c, s, digits + (b + rest), b + rest, rest);
    assert IsForm(s, digits, suffix, a, b, c, written);
  }

  lemma Reassociate(a: string, d: string, b: string, w: string, c: string, s: string, t: string, after: string, rest: string)
    requires s == a + t && t == d + after && after == b + rest && rest == w + c
    ensures s == a + d + b + w + c
  {
  }

  lemma Nest(a: string, d: string, b: string, tail: string)
    ensures a + (d + (b + tail)) == a + d + b + tail
    ensures (d + (b + tail))[|d|..] == b + tail && (d + (b + tail))[..|d|] == d
  {
  }

  /** With no suffix the blanks after the digits are one stretch. */
  lemma FormIsMatched(s: string, digits: string, suffix: string, a: string, b: string, c: string, written: string)
    requires IsForm(s, digits, suffix, a, b, c, written)
    ensures Match(s) == Some((digits, suffix))
    decreases |c|
  {
    hide IsBlank, Match, Lower;
    if written == "" && c != "" {
      OneStretch(a + digits, b, c);
      FormIsMatched(s, digits, suffix, a, b + c, "", "");
    } else {
      FormIsSuffix(written, c, suffix);
      Unnested(a, digits, b, written, c);
      SplitIsMatched(s, digits, suffix, a, b, written + c);
    }
  }

  lemma Unnested(a: string, d: string, b: string, w: string, c: string)
    ensures a + d + b + w + c == a + (d + (b + (w + c)))
  {
  }

  lemma OneStretch(p: string, b: string, c: string)
    requires IsBlank(b) && IsBlank(c)
    ensures p + b + "" + c == p + (b + c) + "" + "" && IsBlank(b + c) && IsBlank("")
  {
  }

  lemma SplitIsMatched(s: string, digits: string, suffix: string, a: string, b: string, tail: string)
    requires s == a + (digits + (b + tail)) && IsBlank(a) && IsBlank(b) && SuffixAt(tail) == Some(suffix)
    requires digits != "" && forall k :: 0 <= k < |digits| ==> IsDigit(digits[k])
    requires tail == "" || (!IsSpace(tail[0]) && !IsDigit(tail[0]))
    ensures Match(s) == Some((digits, suffix))
  {
    Nest(a, digits, b, tail);
    assert IsDigit(digits[0]) && !IsSpace(digits[0]);
    assert b != "" ==> b[0] in b;
    assert b + tail == "" || !IsDigit((b + tail)[0]);
    hide TrimLeft, DigitsAt, SuffixAt;
    TrimLeftIs(a, digits + (b + tail), IsSpace);
    TrimLeftIs(b, tail, IsSpace);
    DigitsThen(digits, b + tail);
  }

  lemma PlainSum(d: string, w: string)
    ensures "" + d + "" + w + "" == d + w
  {
  }

  lemma StrippedAlready(s: string)
    requires s != "" && !IsSpace(s[0]) && !IsSpace(s[|s| - 1])
    ensures Strip(s) == s
  {
  }

  lemma CompactIsMatched(digits: string, suffix: string)
    requires digits != "" && forall k :: 0 <= k < |digits| ==> IsDigit(digits[k])
    requires |suffix| == 1 && suffix[0] in {'d', 'w'}
    ensures var s := digits + suffix;
      Strip(s) == s != "" && Match(s) == Some((digits, suffix))
  {
    var s := digits + suffix;
    assert IsDigit(digits[0]) && s[0] == digits[0] && s[|s| - 1] == suffix[0];
    StrippedAlready(s);
    hide Strip, Match, IsSpace;
    assert Lower(suffix) == suffix && suffix == [suffix[0]];
    PlainSum(digits, suffix);
    FormIsMatched(s, digits, suffix, "", "", "", suffix);
  }

  /** The number of hours is at least one: a whole number, or digits times 24 for days and 168 for weeks. */
  ghost predicate Means(v: Value, hours: int)
  {
    hours >= 1
    && match v
       case Int(i) => hours == i
       case Float(r) => r == hours as real
       case Str(s) =>
         exists digits, suffix :: HasForm(Strip(s), digits, suffix)
           && hours == ParseInt(digits) * if suffix == "d" then 24 else if suffix == "w" then 168 else 1
       case _ => false
  }

  /** The parser gives the hours a value means, crashes on an infinity or a NaN, and rejects everything else. */
  lemma HoursMeaning(v: Value, hours: int)
    ensures ToHours(v) == Hours(hours) <==> Means(v, hours)
    ensures ToHours(v) == Crashed <==> v == NotFinite
  {
    hide Strip, ParseInt, Match, HasForm;
    if v.Str? {
      var t := Strip(v.s);
      forall digits, suffix ensures Match(t) == Some((digits, suffix)) <==> HasForm(t, digits, suffix) {
        MatchMeaning(t, digits, suffix);
      }
      FormIsNotEmpty(t);
      if Match(t).Some? {
        MatchedHasForm(t, Match(t).value.0, Match(t).value.1);
      }
    }
  }

  /** What is stored for a text: days and weeks keep their unit, with the number in plain digits; hours become a number. */
  lemma StoredForm(s: string, digits: string, suffix: string)
    requires HasForm(Strip(s), digits, suffix) && ParseInt(digits) >= 1
    ensures Coerce(Str(s))
         == Some(if suffix == "d" || suffix == "w" then Str(PrintInt(ParseInt(digits)) + suffix) else Int(ParseInt(digits)))
  {
    hide Strip, ParseInt, PrintInt, Match, HasForm;
    MatchMeaning(Strip(s), digits, suffix);
    FormIsNotEmpty(Strip(s));
    MatchedHasForm(Strip(s), digits, suffix);
  }

  lemma FormIsNotEmpty(t: string)
    ensures forall digits, suffix | HasForm(t, digits, suffix) :: t != ""
  {
    forall digits, suffix | HasForm(t, digits, suffix) ensures t != "" {
      var a, b, c, written :| IsForm(t, digits, suffix, a, b, c, written);
    }
  }

  /** Storing preserves the hours and changes nothing the second time; it fails exactly where parsing does. */
  lemma StoringPreservesHours(v: Value)
    ensures Coerce(v).Some? <==> ToHours(v).Hours?
    ensures Coerce(v).Some? ==> ToHours(Coerce(v).value) == ToHours(v) && Coerce(Coerce(v).value) == Coerce(v)
  {
    hide Strip, ParseInt, PrintInt, Match, HasForm;
    if v.Str? && ToHours(v).Hours? {
      var m := Match(Strip(v.s)).value;
      MatchedHasForm(Strip(v.s), m.0, m.1);
      if m.1 in {"d", "w"} {
        PrintedIntIsRead(ParseInt(m.0));
        CompactIsMatched(PrintInt(ParseInt(m.0)), m.1);
      }
    }
  }

  // ----- the runner

  /** The runner's parser with a default. */
  function RunnerHours(v: Value, default: int): Outcome
  {
    match v
    case Null => Hours(default)
    case Bool(_) => Hours(default)
    case Int(i) => if i < 1 then Hours(default) else Hours(i)
    case Float(r) => if r.Floor as real != r then Hours(default) else if r.Floor < 1 then Hours(default) else Hours(r.Floor)
    case NotFinite => Crashed
    case Str(s) =>
      var t := Strip(s);
      if t == "" || Match(t).None? then Hours(default) else
      var (digits, suffix) := Match(t).value;
      var n := ParseInt(digits);
      if n < 1 then Hours(default)
      else if suffix == "" || suffix == "h" then Hours(n)
      else if suffix == "d" then Hours(n * 24)
      else if suffix == "w" then Hours(n * 24 * 7)
      else Hours(default)
    case Other => Hours(default)
  }

  /** The runner's parser that returns none. */
  function TryHours(v: Value): Outcome
  {
    match v
    case Null => Rejected
    case Bool(_) => Rejected
    case Int(i) => if i >= 1 then Hours(i) else Rejected
    case Float(r) => if r.Floor as real != r then Rejected else if r.Floor >= 1 then Hours(r.Floor) else Rejected
    case NotFinite => Crashed
    case Str(s) =>
      var t := Strip(s);
      if t == "" || Match(t).None? then Rejected else
      var (digits, suffix) := Match(t).value;
      var n := ParseInt(digits);
      if n < 1 then Rejected
      else if suffix == "" || suffix == "h" then Hours(n)
      else if suffix == "d" then Hours(n * 24)
      else if suffix == "w" then Hours(n * 24 * 7)
      else Rejected
    case Other => Rejected
  }

  /** The runner's parsers give the API's hours where the API accepts, and fall back or give none where it rejects. */
  lemma RunnerAgrees(v: Value, default: int)
    ensures TryHours(v) == ToHours(v)
    ensures RunnerHours(v, default) == if ToHours(v) == Rejected then Hours(default) else ToHours(v)
  {
    hide Strip, ParseInt, Match, HasForm;
    if v.Str? && Match(Strip(v.s)).Some? {
      var m := Match(Strip(v.s)).value;
      MatchedHasForm(Strip(v.s), m.0, m.1);
    }
  }

  /** So what the API stores is what the runner schedules by. */
  lemma StoredIsScheduled(v: Value, default: int)
    requires Coerce(v).Some?
    ensures RunnerHours(Coerce(v).value, default) == ToHours(v) && TryHours(Coerce(v).value) == ToHours(v)
  {
    StoringPreservesHours(v);
    RunnerAgrees(Coerce(v).value, default);
  }
}
