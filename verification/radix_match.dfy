/**
  The pattern `/@radix-ui\/([\w-]+)@\d+\.\d+\.\d+/` of fix-radix-imports.js,
  matched at the front of a string.

  `\w` is taken without the `u` flag, so it is `[A-Za-z0-9_]`; `\d` is `[0-9]`.
  Because neither `[\w-]` nor `\d` contains `@` or `.`, the greedy quantifiers
  in front of a literal `@` or `.` never need to give characters back; only the
  last `\d+` is free, and the engine takes it as long as possible.
 */
module RadixMatch {
  import opened Wrappers

  const Prefix: string := "@radix-ui/"

  /** The characters of the prefix that the proofs below look at. */
  lemma PrefixChars()
    ensures |Prefix| == 10 && Prefix[0] == '@' && Prefix[1] == 'r'
  {
  }

  /** The prefix has its only `@` at the front. */
  lemma PrefixOneAt(j: int)
    requires 0 < j < |Prefix|
    ensures Prefix[j] != '@'
  {
  }

  predicate IsWordChar(c: char) {
    'a' <= c <= 'z' || 'A' <= c <= 'Z' || '0' <= c <= '9' || c == '_'
  }

  /** The class `[\w-]` of a package name. */
  predicate IsNameChar(c: char) {
    IsWordChar(c) || c == '-'
  }

  /** The class `\d`. */
  predicate IsDigit(c: char) {
    '0' <= c <= '9'
  }

  datatype CharClass = NameClass | DigitClass

  predicate InClass(c: char, k: CharClass) {
    match k
    case NameClass => IsNameChar(c)
    case DigitClass => IsDigit(c)
  }

  /** Every character of `s` lies in class `k`. */
  predicate AllIn(s: string, k: CharClass) {
    |s| == 0 || (InClass(s[0], k) && AllIn(s[1..], k))
  }

  lemma {:induction false} AllInIndex(s: string, k: CharClass, j: int)
    requires AllIn(s, k) && 0 <= j < |s|
    ensures InClass(s[j], k)
  {
    if j > 0 {
      AllInIndex(s[1..], k, j - 1);
    }
  }

  lemma {:induction false} AllInConcat(a: string, b: string, k: CharClass)
    requires AllIn(a, k) && AllIn(b, k)
    ensures AllIn(a + b, k)
  {
    if |a| == 0 {
      assert a + b == b;
    } else {
      AllInConcat(a[1..], b, k);
      assert (a + b)[1..] == a[1..] + b;
    }
  }

  /** A non-empty run of class `k`: what `[\w-]+` or `\d+` accepts. */
  predicate IsRun(s: string, k: CharClass) {
    |s| > 0 && AllIn(s, k)
  }

  /** `t` is the character `c` followed by `tail`. */
  lemma PeelChar(t: string, c: char, tail: string)
    requires |t| > 0 && t[0] == c && t[1..] == tail
    ensures t == [c] + tail
  {
  }

  lemma Assoc(a: string, b: string, c: string)
    ensures (a + b) + c == a + (b + c)
  {
  }

  /**
    Splits `t` into the longest front run of class `k` and what follows it:
    what a greedy `k*` consumes.
   */
  function SplitRun(t: string, k: CharClass): (r: (string, string))
    ensures r.0 + r.1 == t
    ensures AllIn(r.0, k)
    ensures |r.1| > 0 ==> !InClass(r.1[0], k)
  {
    if |t| > 0 && InClass(t[0], k) then
      var (run, rest) := SplitRun(t[1..], k);
      var front := [t[0]] + run;
      assert front[0] == t[0] && front[1..] == run;
      Assoc([t[0]], run, rest);
      PeelChar(t, t[0], t[1..]);
      (front, rest)
    else
      ([], t)
  }

  /** One occurrence: `@radix-ui/<name>@<major>.<minor>.<patch>`. */
  datatype Match = Match(name: string, major: string, minor: string, patch: string) {

    /** The text `"@radix-ui/$1"` puts in place of the occurrence. */
    function Replacement(): string {
      Prefix + name
    }

    /** The dropped part `@<major>.<minor>.<patch>`, followed by `rest`. */
    function VersionThen(rest: string): string {
      "@" + (major + ("." + (minor + ("." + (patch + rest)))))
    }

    /** The whole occurrence, followed by `rest`. */
    function SourceThen(rest: string): string {
      Replacement() + VersionThen(rest)
    }

    /** How many characters of the input the occurrence spans. */
    function Length(): nat {
      |Prefix| + |name| + 3 + |major| + |minor| + |patch|
    }

    /** How many characters the replacement drops. */
    function VersionLength(): nat {
      3 + |major| + |minor| + |patch|
    }

    /** The components are runs of the classes the pattern names. */
    predicate WellFormed() {
      IsRun(name, NameClass) && IsRun(major, DigitClass) && IsRun(minor, DigitClass) && IsRun(patch, DigitClass)
    }
  }

  lemma SourceLength(m: Match, rest: string)
    ensures |m.VersionThen(rest)| == m.VersionLength() + |rest|
    ensures |m.SourceThen(rest)| == m.Length() + |rest|
    ensures m.Length() == |m.Replacement()| + m.VersionLength()
  {
  }

  /** `m` is one way the pattern can match at the front of `s`, leaving `rest` (before greediness picks one). */
  ghost predicate Accepts(s: string, m: Match, rest: string) {
    m.WellFormed() && s == m.SourceThen(rest)
  }

  /** `m` is the match the engine reports at the front of `s`: accepted, with the last `\d+` maximal. */
  ghost predicate IsMatchOf(s: string, m: Match, rest: string) {
    Accepts(s, m, rest) && (|rest| > 0 ==> !IsDigit(rest[0]))
  }

  /** A match at the front of the input together with the text after it. */
  datatype Found = Found(m: Match, rest: string)

  /**
    `@<major>.<minor>.<patch>` at the front of `t`, with the last digit run taken
    greedily. The result carries the three runs (under an empty name) and what
    follows the occurrence.
   */
  function MatchVersion(t: string): (r: Option<Found>)
    ensures r.Some? ==>
      var v := r.value.m;
      && v.name == ""
      && IsRun(v.major, DigitClass) && IsRun(v.minor, DigitClass) && IsRun(v.patch, DigitClass)
      && t == v.VersionThen(r.value.rest)
      && (|r.value.rest| > 0 ==> !IsDigit(r.value.rest[0]))
  {
    if !(|t| > 0 && t[0] == '@') then None
    else
      var (major, t2) := SplitRun(t[1..], DigitClass);
      if major == [] || !(|t2| > 0 && t2[0] == '.') then None
      else
        var (minor, t3) := SplitRun(t2[1..], DigitClass);
        if minor == [] || !(|t3| > 0 && t3[0] == '.') then None
        else
          var (patch, rest) := SplitRun(t3[1..], DigitClass);
          if patch == [] then None
          else
            PeelChar(t3, '.', patch + rest);
            PeelChar(t2, '.', minor + t3);
            PeelChar(t, '@', major + t2);
            Some(Found(Match("", major, minor, patch), rest))
  }

  /** Taking a known front off a string. */
  lemma DropPrefix(s: string, p: string, u: string)
    requires s == p + u
    ensures p <= s && s[|p|..] == u
  {
  }

  /** `s` begins with `p`, compared character by character. */
  predicate StartsWith(s: string, p: string) {
    |p| == 0 || (|s| > 0 && s[0] == p[0] && StartsWith(s[1..], p[1..]))
  }

  lemma {:induction false} StartsWithTake(s: string, p: string)
    requires StartsWith(s, p)
    ensures |p| <= |s| && s[..|p|] == p
  {
    if |p| > 0 {
      StartsWithTake(s[1..], p[1..]);
      assert s[..|p|] == [s[0]] + s[1..][..|p| - 1];
      assert p == [p[0]] + p[1..];
    }
  }

  lemma {:induction false} StartsWithConcat(p: string, u: string)
    ensures StartsWith(p + u, p)
  {
    if |p| > 0 {
      StartsWithConcat(p[1..], u);
      assert (p + u)[1..] == p[1..] + u;
    }
  }

  /** Putting a known front back in front of what follows it. */
  lemma PrefixSplit(s: string, p: string, name: string, t: string)
    requires StartsWith(s, p) && |p| <= |s| && s[|p|..] == name + t
    ensures s == (p + name) + t
  {
    StartsWithTake(s, p);
    var front, back := s[..|p|], s[|p|..];
    assert s == front + back;
    calc {
      s;
      front + back;
      p + (name + t);
      { Assoc(p, name, t); }
      (p + name) + t;
    }
  }

  /**
    The match at the very front of `s`, if the pattern matches there.
    Each step consumes what the corresponding regex atom consumes.
   */
  function MatchFront(s: string): (r: Option<Found>)
    ensures r.Some? ==> IsMatchOf(s, r.value.m, r.value.rest)
  {
    if !StartsWith(s, Prefix) then None
    else
      StartsWithTake(s, Prefix);
      var (name, t) := SplitRun(s[|Prefix|..], NameClass);
      if name == [] then None
      else
        match MatchVersion(t)
        case None => None
        case Some(Found(v, rest)) =>
          PrefixChars();
          var m := v.(name := name);
          assert m.VersionThen(rest) == v.VersionThen(rest);
          PrefixSplit(s, Prefix, name, t);
          assert m.WellFormed();
          assert s == m.SourceThen(rest);
          assert IsMatchOf(s, m, rest);
          Some(Found(m, rest))
  }

  /** A greedy split is determined by where the class stops. */
  lemma {:induction false} SplitRunExact(t: string, k: CharClass, run: string, rest: string)
    requires t == run + rest
    requires AllIn(run, k)
    requires |rest| > 0 ==> !InClass(rest[0], k)
    ensures SplitRun(t, k) == (run, rest)
  {
    if |run| == 0 {
      assert t == rest;
    } else {
      assert t[0] == run[0];
      assert t[1..] == run[1..] + rest;
      SplitRunExact(t[1..], k, run[1..], rest);
      assert [t[0]] + run[1..] == run;
    }
  }

  /** `MatchVersion` finds every well-formed version suffix whose last digit run is maximal. */
  lemma MatchVersionComplete(t: string, v: Match, rest: string)
    requires v.name == ""
    requires IsRun(v.major, DigitClass) && IsRun(v.minor, DigitClass) && IsRun(v.patch, DigitClass)
    requires t == v.VersionThen(rest)
    requires |rest| > 0 ==> !IsDigit(rest[0])
    ensures MatchVersion(t) == Some(Found(v, rest))
  {
    var t3 := "." + (v.patch + rest);
    var t2 := "." + (v.minor + t3);
    DropPrefix(t, "@", v.major + t2);
    SplitRunExact(t[1..], DigitClass, v.major, t2);
    DropPrefix(t2, ".", v.minor + t3);
    SplitRunExact(t2[1..], DigitClass, v.minor, t3);
    DropPrefix(t3, ".", v.patch + rest);
    SplitRunExact(t3[1..], DigitClass, v.patch, rest);
    assert t[0] == '@' && t2[0] == '.' && t3[0] == '.';
    assert v.major != [] && v.minor != [] && v.patch != [];
  }

  /** The engine finds the match whenever there is one: `MatchFront` is complete for `IsMatchOf`. */
  lemma MatchFrontComplete(s: string, m: Match, rest: string)
    requires IsMatchOf(s, m, rest)
    ensures MatchFront(s) == Some(Found(m, rest))
  {
    var t := m.VersionThen(rest);
    Assoc(Prefix, m.name, t);
    DropPrefix(s, Prefix, m.name + t);
    StartsWithConcat(Prefix, m.name + t);
    SplitRunExact(s[|Prefix|..], NameClass, m.name, t);
    var v := m.(name := "");
    assert v.VersionThen(rest) == t;
    MatchVersionComplete(t, v, rest);
  }

  /**
    The pattern matches at the front of `s` exactly when some decomposition is
    accepted; the one reported is the decomposition whose last digit run is
    maximal (`MatchFrontComplete`).
   */
  lemma MatchFrontExact(s: string)
    ensures MatchFront(s).Some? <==> exists m, rest :: Accepts(s, m, rest)
  {
    if m, rest0 :| Accepts(s, m, rest0) {
      var (more, rest) := SplitRun(rest0, DigitClass);
      var g := m.(patch := m.patch + more);
      Assoc(m.patch, more, rest);
      assert m.patch + (more + rest) == g.patch + rest;
      assert s == g.SourceThen(rest);
      AllInConcat(m.patch, more, DigitClass);
      assert IsMatchOf(s, g, rest);
      MatchFrontComplete(s, g, rest);
    }
  }

  /** What every match starts with: `@` then `r`. */
  lemma MatchStartsWithAtR(s: string)
    requires MatchFront(s).Some?
    ensures |s| >= 2 && s[0] == '@' && s[1] == 'r'
  {
    var f := MatchFront(s).value;
    hide MatchFront;
    PrefixChars();
    Assoc(Prefix, f.m.name, f.m.VersionThen(f.rest));
    assert s == Prefix + (f.m.name + f.m.VersionThen(f.rest));
    assert s[0] == Prefix[0] && s[1] == Prefix[1];
  }

  /** The shortest occurrence is the prefix, one name character and `@d.d.d`. */
  lemma MatchLengthBounds(s: string)
    requires MatchFront(s).Some?
    ensures var f := MatchFront(s).value;
      && |s| == f.m.Length() + |f.rest|
      && 17 <= f.m.Length() && f.m.VersionLength() >= 6
  {
    var f := MatchFront(s).value;
    SourceLength(f.m, f.rest);
  }

  /** Inside the version suffix, past its leading `@`, there is no `@`. */
  lemma {:induction false} NoAtInVersion(m: Match, rest: string, i: nat)
    requires m.WellFormed()
    requires 0 < i < m.VersionLength()
    ensures |m.VersionThen(rest)| > i && m.VersionThen(rest)[i] != '@'
  {
    var w2 := "." + (m.patch + rest);
    var w1 := "." + (m.minor + w2);
    var x := m.major + w1;
    assert m.VersionThen(rest) == "@" + x;
    assert m.VersionThen(rest)[i] == x[i - 1];
    var k := i - 1;
    if k < |m.major| {
      AllInIndex(m.major, DigitClass, k);
      assert x[k] == m.major[k];
    } else if k == |m.major| {
      assert x[k] == w1[0];
    } else if k < |m.major| + 1 + |m.minor| {
      AllInIndex(m.minor, DigitClass, k - |m.major| - 1);
      assert x[k] == m.minor[k - |m.major| - 1];
    } else if k == |m.major| + 1 + |m.minor| {
      assert x[k] == w2[0];
    } else {
      var p := k - |m.major| - |m.minor| - 2;
      AllInIndex(m.patch, DigitClass, p);
      assert x[k] == m.patch[p];
    }
  }

  /**
    Occurrences cannot overlap: an `@` followed by `r` occurs in an occurrence
    only at its first character. The prefix has one `@`, the name and the
    digits have none, and the `@` after the name is followed by a digit.
   */
  lemma {:induction false} NoAtRInside(m: Match, rest: string, j: nat)
    requires m.WellFormed()
    requires 0 < j < m.Length()
    ensures var u := m.SourceThen(rest); j < |u| && (u[j] != '@' || (j + 1 < |u| && u[j + 1] != 'r'))
  {
    PrefixChars();
    SourceLength(m, rest);
    var u := m.SourceThen(rest);
    var v := m.VersionThen(rest);
    var a := |m.Replacement()|;
    assert u == (Prefix + m.name) + v;
    if j < |Prefix| {
      PrefixOneAt(j);
      assert u[j] == Prefix[j];
    } else if j < a {
      AllInIndex(m.name, NameClass, j - |Prefix|);
      assert u[j] == m.name[j - |Prefix|];
    } else if j == a {
      var w1 := "." + (m.minor + ("." + (m.patch + rest)));
      assert v == "@" + (m.major + w1);
      AllInIndex(m.major, DigitClass, 0);
      assert (m.major + w1)[0] == m.major[0];
      assert u[j + 1] == v[1];
    } else {
      NoAtInVersion(m, rest, j - a);
      assert u[j] == v[j - a];
    }
  }

  /** No occurrence starts strictly inside the occurrence found at the front of `s`. */
  lemma NoMatchInside(s: string, f: Found, j: nat)
    requires MatchFront(s) == Some(f)
    requires 0 < j < f.m.Length()
    ensures j < |s| && MatchFront(s[j..]).None?
  {
    NoAtRInside(f.m, f.rest, j);
    if MatchFront(s[j..]).Some? {
      MatchStartsWithAtR(s[j..]);
      assert false;
    }
  }

  /** What follows an occurrence is what the match reports as `rest`. */
  lemma SourceThenSuffix(m: Match, rest: string)
    ensures m.Length() <= |m.SourceThen(rest)| && m.SourceThen(rest)[m.Length()..] == rest
  {
    var w2 := "." + (m.patch + rest);
    var w1 := "." + (m.minor + w2);
    var v := "@" + (m.major + w1);
    DropPrefix(m.SourceThen(rest), m.Replacement(), v);
    DropPrefix(v, "@", m.major + w1);
    DropPrefix(m.major + w1, m.major, w1);
    DropPrefix(w1, ".", m.minor + w2);
    DropPrefix(m.minor + w2, m.minor, w2);
    DropPrefix(w2, ".", m.patch + rest);
    DropPrefix(m.patch + rest, m.patch, rest);
    SourceLength(m, rest);
  }
}
