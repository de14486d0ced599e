/**
  `content.replace(radixRegex, "@radix-ui/$1")` with the global flag, and the
  "write only if changed" decision of `fixFile` in fix-radix-imports.js.

  The global replace scans left to right: at each position it either finds an
  occurrence there, emits the replacement and resumes after the occurrence, or
  keeps the character and moves on by one. `Scan` records that walk as a list
  of segments; `Original` and `Render` read the input and the output off it.
 */
module RadixRewrite {
  import opened Wrappers
  import opened RadixMatch

  /** One step of the scan: a character copied through, or an occurrence replaced. */
  datatype Segment = Keep(c: char) | Replace(m: Match)

  /** How many input characters a segment covers. */
  function Width(g: Segment): nat {
    match g
    case Keep(_) => 1
    case Replace(m) => m.Length()
  }

  /** The input text the segments cover. */
  function Original(segs: seq<Segment>): string {
    if |segs| == 0 then []
    else
      match segs[0]
      case Keep(c) => [c] + Original(segs[1..])
      case Replace(m) => m.SourceThen(Original(segs[1..]))
  }

  /** The output text: kept characters, and `@radix-ui/<name>` for each occurrence. */
  function Render(segs: seq<Segment>): string {
    if |segs| == 0 then []
    else
      match segs[0]
      case Keep(c) => [c] + Render(segs[1..])
      case Replace(m) => m.Replacement() + Render(segs[1..])
  }

  /** Some segment is a replacement. */
  predicate HasReplace(segs: seq<Segment>) {
    |segs| > 0 && (segs[0].Replace? || HasReplace(segs[1..]))
  }

  /** Every replaced segment is an occurrence the pattern accepts. */
  predicate ReplacementsWellFormed(segs: seq<Segment>) {
    forall k :: 0 <= k < |segs| && segs[k].Replace? ==> segs[k].m.WellFormed()
  }

  /**
    The left-to-right, non-overlapping scan of `String.prototype.replace` with
    a global pattern. The segments spell out the input exactly.
   */
  function Scan(s: string): (segs: seq<Segment>)
    ensures Original(segs) == s
    ensures ReplacementsWellFormed(segs)
    decreases |s|
  {
    if |s| == 0 then []
    else
      match MatchFront(s)
      case Some(f) =>
        MatchLengthBounds(s);
        [Replace(f.m)] + Scan(f.rest)
      case None =>
        assert s == [s[0]] + s[1..];
        [Keep(s[0])] + Scan(s[1..])
  }

  /** Replacing can only shorten the text; it shortens it exactly when something is replaced. */
  lemma {:induction false} RenderLength(segs: seq<Segment>)
    requires ReplacementsWellFormed(segs)
    ensures |Render(segs)| <= |Original(segs)|
    ensures |Render(segs)| < |Original(segs)| <==> HasReplace(segs)
    ensures !HasReplace(segs) ==> Render(segs) == Original(segs)
  {
    if |segs| > 0 {
      assert ReplacementsWellFormed(segs[1..]) by {
        forall k | 0 <= k < |segs[1..]| && segs[1..][k].Replace?
          ensures segs[1..][k].m.WellFormed()
        {
          assert segs[1..][k] == segs[k + 1];
        }
      }
      RenderLength(segs[1..]);
      match segs[0]
      case Keep(c) =>
      case Replace(m) =>
        SourceLength(m, Original(segs[1..]));
    }
  }

  /** The text the script writes back: the result of the global replace. */
  function Rewrite(s: string): (r: string)
    ensures |r| <= |s|
    ensures s == [] ==> r == []
  {
    RenderLength(Scan(s));
    Render(Scan(s))
  }

  /** An occurrence of the pattern starts at position `i` of `s`. */
  ghost predicate MatchesAt(s: string, i: int) {
    0 <= i < |s| && MatchFront(s[i..]).Some?
  }

  /** The pattern occurs somewhere in `s`. */
  ghost predicate ContainsMatch(s: string) {
    exists i :: MatchesAt(s, i)
  }

  /** The first segment covers `Width` characters of the input. */
  lemma OriginalConsLength(segs: seq<Segment>)
    requires |segs| > 0
    ensures |Original(segs)| == Width(segs[0]) + |Original(segs[1..])|
  {
    if segs[0].Replace? {
      SourceLength(segs[0].m, Original(segs[1..]));
    }
  }

  /** The scan replaced an occurrence starting at input position `i`. */
  ghost predicate ReplacedAt(segs: seq<Segment>, i: int) {
    |segs| > 0 && ((i == 0 && segs[0].Replace?) || ReplacedAt(segs[1..], i - Width(segs[0])))
  }

  /** Replaced positions lie inside the input. */
  lemma {:induction false} ReplacedAtInBounds(segs: seq<Segment>, i: int)
    requires ReplacedAt(segs, i)
    ensures 0 <= i < |Original(segs)|
  {
    PrefixChars();
    OriginalConsLength(segs);
    if !(i == 0 && segs[0].Replace?) {
      ReplacedAtInBounds(segs[1..], i - Width(segs[0]));
    }
  }

  /** The scan replaced somewhere exactly when some segment is a replacement. */
  lemma {:induction false} HasReplaceIffReplacedAt(segs: seq<Segment>)
    ensures HasReplace(segs) <==> exists i :: ReplacedAt(segs, i)
  {
    if |segs| > 0 {
      var w: int := Width(segs[0]);
      HasReplaceIffReplacedAt(segs[1..]);
      if HasReplace(segs) {
        if segs[0].Replace? {
          assert ReplacedAt(segs, 0);
        } else {
          var i :| ReplacedAt(segs[1..], i);
          assert ReplacedAt(segs, i + w);
        }
        assert exists j :: ReplacedAt(segs, j);
      }
      if i :| ReplacedAt(segs, i) {
        if !segs[0].Replace? {
          assert ReplacedAt(segs[1..], i - w);
          assert exists j :: ReplacedAt(segs[1..], j);
        }
        assert HasReplace(segs);
      }
    }
  }

  /** Positions past a known front of the text are positions of what follows it. */
  lemma MatchesAtSuffix(s: string, k: nat, i: int)
    requires k <= |s| && k <= i
    ensures MatchesAt(s, i) <==> MatchesAt(s[k..], i - k)
  {
    if i <= |s| {
      assert s[i..] == s[k..][i - k..];
    }
  }

  /**
    The scan replaces every occurrence of the pattern in the input, and nothing
    else: occurrences never overlap, so none is hidden inside another.
   */
  lemma {:induction false} EveryOccurrenceReplaced(s: string, i: int)
    ensures ReplacedAt(Scan(s), i) <==> MatchesAt(s, i)
    decreases |s|, 1
  {
    hide MatchFront;
    if |s| > 0 {
      match MatchFront(s)
      case Some(f) => OccurrencesAfterMatch(s, f, i);
      case None => OccurrencesAfterKeep(s, i);
    }
  }

  /** The step of `EveryOccurrenceReplaced` where the scan replaces an occurrence at the front. */
  lemma {:induction false} OccurrencesAfterMatch(s: string, f: Found, i: int)
    requires |s| > 0 && MatchFront(s) == Some(f)
    ensures ReplacedAt(Scan(s), i) <==> MatchesAt(s, i)
    decreases |s|, 0
  {
    hide MatchFront;
    var segs := Scan(s);
    var L := f.m.Length();
    MatchLengthBounds(s);
    assert segs == [Replace(f.m)] + Scan(f.rest);
    assert segs[1..] == Scan(f.rest);
    if i == 0 {
      assert s[0..] == s;
    } else if 0 < i < L {
      NoMatchInside(s, f, i);
      if ReplacedAt(Scan(f.rest), i - L) {
        ReplacedAtInBounds(Scan(f.rest), i - L);
      }
    } else if i < 0 {
      if ReplacedAt(segs, i) {
        ReplacedAtInBounds(segs, i);
      }
    } else {
      SourceThenSuffix(f.m, f.rest);
      assert s[L..] == f.rest;
      EveryOccurrenceReplaced(f.rest, i - L);
      MatchesAtSuffix(s, L, i);
    }
  }

  /** The step of `EveryOccurrenceReplaced` where the scan keeps the first character. */
  lemma {:induction false} OccurrencesAfterKeep(s: string, i: int)
    requires |s| > 0 && MatchFront(s).None?
    ensures ReplacedAt(Scan(s), i) <==> MatchesAt(s, i)
    decreases |s|, 0
  {
    hide MatchFront;
    var segs := Scan(s);
    assert segs == [Keep(s[0])] + Scan(s[1..]);
    assert segs[1..] == Scan(s[1..]);
    if i == 0 {
      assert s[0..] == s;
      if ReplacedAt(Scan(s[1..]), -1) {
        ReplacedAtInBounds(Scan(s[1..]), -1);
      }
    } else if 0 < i {
      EveryOccurrenceReplaced(s[1..], i - 1);
      MatchesAtSuffix(s, 1, i);
    } else {
      if ReplacedAt(segs, i) {
        ReplacedAtInBounds(segs, i);
      }
    }
  }

  /** The scan replaces something exactly when the pattern occurs in the input. */
  lemma ScanReplacesIffMatch(s: string)
    ensures HasReplace(Scan(s)) <==> ContainsMatch(s)
  {
    hide MatchFront;
    var segs := Scan(s);
    HasReplaceIffReplacedAt(segs);
    if HasReplace(segs) {
      var i :| ReplacedAt(segs, i);
      EveryOccurrenceReplaced(s, i);
      assert MatchesAt(s, i);
    }
    if ContainsMatch(s) {
      var i :| MatchesAt(s, i);
      EveryOccurrenceReplaced(s, i);
      assert ReplacedAt(segs, i);
    }
  }

  /** Text with no occurrence comes back unchanged, and text with one does not. */
  lemma RewriteUnchangedIffNoMatch(s: string)
    ensures Rewrite(s) == s <==> !ContainsMatch(s)
    ensures |Rewrite(s)| < |s| <==> ContainsMatch(s)
  {
    ScanReplacesIffMatch(s);
    RenderLength(Scan(s));
  }

  /** `a` can be obtained from `b` by deleting characters. */
  predicate IsSubsequence(a: string, b: string)
    decreases |b|
  {
    |a| == 0 || (|b| > 0 && ((a[0] == b[0] && IsSubsequence(a[1..], b[1..])) || IsSubsequence(a, b[1..])))
  }

  lemma {:induction false} SubsequenceSkip(a: string, v: string, b: string)
    requires IsSubsequence(a, b)
    ensures IsSubsequence(a, v + b)
    decreases |v|
  {
    if |v| > 0 {
      SubsequenceSkip(a, v[1..], b);
      assert (v + b)[1..] == v[1..] + b;
      assert IsSubsequence(a, (v + b)[1..]);
    } else {
      assert v + b == b;
    }
  }

  lemma {:induction false} SubsequenceCommonPrefix(p: string, a: string, b: string)
    requires IsSubsequence(a, b)
    ensures IsSubsequence(p + a, p + b)
    decreases |p|
  {
    if |p| > 0 {
      SubsequenceCommonPrefix(p[1..], a, b);
      assert (p + a)[1..] == p[1..] + a;
      assert (p + b)[1..] == p[1..] + b;
      assert (p + a)[0] == (p + b)[0];
      assert IsSubsequence((p + a)[1..], (p + b)[1..]);
    } else {
      assert p + a == a && p + b == b;
    }
  }

  /** Dropping the version suffix of one occurrence keeps what follows it as a subsequence. */
  lemma SubsequenceSkipVersion(m: Match, a: string, rest: string)
    requires IsSubsequence(a, rest)
    ensures IsSubsequence(a, m.VersionThen(rest))
  {
    SubsequenceSkip(a, m.patch, rest);
    SubsequenceSkip(a, ".", m.patch + rest);
    SubsequenceSkip(a, m.minor, "." + (m.patch + rest));
    SubsequenceSkip(a, ".", m.minor + ("." + (m.patch + rest)));
    SubsequenceSkip(a, m.major, "." + (m.minor + ("." + (m.patch + rest))));
    SubsequenceSkip(a, "@", m.major + ("." + (m.minor + ("." + (m.patch + rest)))));
  }

  lemma {:induction false} RenderIsSubsequence(segs: seq<Segment>)
    ensures IsSubsequence(Render(segs), Original(segs))
  {
    if |segs| == 0 {
    } else {
      var tail := segs[1..];
      RenderIsSubsequence(tail);
      match segs[0]
      case Keep(c) =>
        SubsequenceCommonPrefix([c], Render(tail), Original(tail));
      case Replace(m) =>
        SubsequenceSkipVersion(m, Render(tail), Original(tail));
        SubsequenceCommonPrefix(m.Replacement(), Render(tail), m.VersionThen(Original(tail)));
    }
  }

  /**
    Everything outside the replaced spans survives in its original order: the
    output is the input with some characters deleted.
   */
  lemma RewriteKeepsOrder(s: string)
    ensures IsSubsequence(Rewrite(s), s)
  {
    RenderIsSubsequence(Scan(s));
  }

  /** The rewrite of text that starts with an occurrence. */
  lemma RewriteStepMatch(t: string, f: Found)
    requires MatchFront(t) == Some(f)
    ensures f.m.Length() <= |t| && t[f.m.Length()..] == f.rest
    ensures Rewrite(t) == f.m.Replacement() + Rewrite(f.rest)
  {
    hide MatchFront;
    SourceThenSuffix(f.m, f.rest);
    assert |t| > 0;
    assert Scan(t) == [Replace(f.m)] + Scan(f.rest);
  }

  /** The rewrite of non-empty text that does not start with an occurrence. */
  lemma RewriteStepKeep(t: string)
    requires |t| > 0 && MatchFront(t).None?
    ensures Rewrite(t) == [t[0]] + Rewrite(t[1..])
  {
    hide MatchFront;
    assert Scan(t) == [Keep(t[0])] + Scan(t[1..]);
  }

  /**
    The engine's loop: keep a write position, look for an occurrence at each
    input position, and append either the replacement or the character.
   */
  method ReplaceAll(s: string) returns (out: string)
    ensures out == Rewrite(s)
  {
    hide MatchFront;
    hide Rewrite;
    out := [];
    var i := 0;
    while i < |s|
      invariant 0 <= i <= |s|
      invariant out + Rewrite(s[i..]) == Rewrite(s)
      decreases |s| - i
    {
      var t := s[i..];
      match MatchFront(t)
      case Some(f) =>
        RewriteStepMatch(t, f);
        assert s[i + f.m.Length()..] == f.rest;
        out := out + f.m.Replacement();
        i := i + f.m.Length();
      case None =>
        RewriteStepKeep(t);
        assert t[1..] == s[i + 1..];
        out := out + [s[i]];
        i := i + 1;
    }
    assert s[i..] == [];
  }

  /**
    `fixFile`: the new content to write, or `None` when the replace left the
    text as it was and the file is not touched.
   */
  function FixFile(content: string): (write: Option<string>)
    ensures write.Some? <==> ContainsMatch(content)
    ensures write.Some? ==> write.value == Rewrite(content) && |write.value| < |content|
  {
    RewriteUnchangedIffNoMatch(content);
    var updated := Rewrite(content);
    if updated != content then Some(updated) else None
  }

  /** Strings shorter than the shortest occurrence contain none. */
  lemma ShortTextHasNoMatch(s: string)
    requires |s| < 17
    ensures !ContainsMatch(s)
  {
    forall i | 0 <= i < |s|
      ensures !MatchesAt(s, i)
    {
      if MatchFront(s[i..]).Some? {
        MatchLengthBounds(s[i..]);
      }
    }
  }

  /** Text shorter than the shortest occurrence is written back as it is. */
  lemma ShortTextUnchanged(s: string)
    requires |s| < 17
    ensures Rewrite(s) == s
  {
    ShortTextHasNoMatch(s);
    RewriteUnchangedIffNoMatch(s);
  }

  /**
    The rewrite is not idempotent: a second version suffix right after an
    occurrence becomes a new occurrence once the first suffix is gone.
   */
  lemma RewriteNotIdempotent()
    ensures Rewrite("@radix-ui/x@1.2.3@4.5.6") == "@radix-ui/x@4.5.6"
    ensures Rewrite(Rewrite("@radix-ui/x@1.2.3@4.5.6")) == "@radix-ui/x"
  {
    RewriteDropsFirstVersion();
    RewriteDropsSecondVersion();
  }

  /** First pass over the example of `RewriteNotIdempotent`. */
  lemma RewriteDropsFirstVersion()
    ensures Rewrite("@radix-ui/x@1.2.3@4.5.6") == "@radix-ui/x@4.5.6"
  {
    hide MatchFront;
    hide Rewrite;
    var m := Match("x", "1", "2", "3");
    RewriteAfterOccurrence("@radix-ui/x@1.2.3@4.5.6", m, "@4.5.6");
    ShortTextUnchanged("@4.5.6");
    assert m.Replacement() + "@4.5.6" == "@radix-ui/x@4.5.6";
  }

  /** Second pass over the example of `RewriteNotIdempotent`. */
  lemma RewriteDropsSecondVersion()
    ensures Rewrite("@radix-ui/x@4.5.6") == "@radix-ui/x"
  {
    hide MatchFront;
    hide Rewrite;
    var m := Match("x", "4", "5", "6");
    RewriteAfterOccurrence("@radix-ui/x@4.5.6", m, "");
    assert m.Replacement() + [] == "@radix-ui/x";
  }

  /** Text that is the occurrence `m` followed by `rest` loses the version suffix of `m`. */
  lemma RewriteAfterOccurrence(s: string, m: Match, rest: string)
    requires IsMatchOf(s, m, rest)
    ensures Rewrite(s) == m.Replacement() + Rewrite(rest)
  {
    hide MatchFront;
    hide Rewrite;
    MatchFrontComplete(s, m, rest);
    RewriteStepMatch(s, Found(m, rest));
  }
}
