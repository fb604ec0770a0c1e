/** The handful of Python `str` operations the application's core relies on,
    written over `string` (a `seq<char>`). Each carries a contract that
    characterises its result, so that the modules built on them can reason
    about content and not only about lengths. */
module Text {
  import opened Wrappers

  /** The characters for which Python's `str.isspace()` holds; `str.strip()`
      with no argument removes exactly these. */
  predicate IsSpace(c: char) {
    || c == ' '
    || ('\t' <= c <= '\r')
    || ('\U{1C}' <= c <= '\U{1F}')
    || c == '\U{85}' || c == '\U{A0}' || c == '\U{1680}'
    || ('\U{2000}' <= c <= '\U{200A}')
    || c == '\U{2028}' || c == '\U{2029}' || c == '\U{202F}'
    || c == '\U{205F}' || c == '\U{3000}'
  }

  /** The length of the longest all-whitespace prefix of `s`. */
  function LeadingSpaces(s: string): (k: nat)
    ensures k <= |s|
    ensures forall i :: 0 <= i < k ==> IsSpace(s[i])
    ensures k == |s| || !IsSpace(s[k])
  {
    if |s| > 0 && IsSpace(s[0]) then 1 + LeadingSpaces(s[1..]) else 0
  }

  /** The length of the longest all-whitespace suffix of `s`. */
  function TrailingSpaces(s: string): (k: nat)
    ensures k <= |s|
    ensures forall i :: |s| - k <= i < |s| ==> IsSpace(s[i])
    ensures k == |s| || !IsSpace(s[|s| - 1 - k])
  {
    if |s| > 0 && IsSpace(s[|s| - 1]) then 1 + TrailingSpaces(s[..|s| - 1]) else 0
  }

  /** Python's `s.strip()`: the slice of `s` left after removing whitespace at
      both ends. */
  function Strip(s: string): (r: string)
    ensures |r| <= |s|
    ensures LeadingSpaces(s) + |r| <= |s|
    ensures r == s[LeadingSpaces(s)..LeadingSpaces(s) + |r|]
    ensures forall i :: LeadingSpaces(s) + |r| <= i < |s| ==> IsSpace(s[i])
    ensures r == [] || (!IsSpace(r[0]) && !IsSpace(r[|r| - 1]))
    ensures forall c :: c in r ==> c in s
  {
    var rest := s[LeadingSpaces(s)..];
    var r := rest[..|rest| - TrailingSpaces(rest)];
    assert forall c :: c in r ==> c in rest;
    r
  }

  /** A string with no whitespace at either end is its own strip. */
  lemma StripFixesTrimmed(s: string)
    requires s == [] || (!IsSpace(s[0]) && !IsSpace(s[|s| - 1]))
    ensures Strip(s) == s
  {
    if s != [] {
      assert LeadingSpaces(s) == 0;
      assert TrailingSpaces(s) == 0;
      assert s[0..] == s;
    }
  }

  /** Python's `s[:n]`. */
  function Take(s: string, n: nat): (r: string)
    ensures |r| <= n
    ensures |s| <= n ==> r == s
    ensures |s| > n ==> r == s[..n]
    ensures forall c :: c in r ==> c in s
  {
    if |s| <= n then s else s[..n]
  }

  /** `s` with every character of `bad` deleted, order kept. For a single
      character `c`, `Keep(s, {c})` is Python's `s.replace(c, '')`. */
  function Keep(s: string, bad: set<char>): (r: string)
    ensures |r| <= |s|
    ensures forall c :: c in r ==> c in s && c !in bad
  {
    if s == [] then []
    else (if s[0] in bad then [] else [s[0]]) + Keep(s[1..], bad)
  }

  /** Deleting one set of characters and then another is deleting their union. */
  lemma {:induction false} KeepKeep(s: string, a: set<char>, b: set<char>)
    ensures Keep(Keep(s, a), b) == Keep(s, a + b)
  {
    if s != [] {
      KeepKeep(s[1..], a, b);
      var head := if s[0] in a then [] else [s[0]];
      assert Keep(s, a) == head + Keep(s[1..], a);
      KeepConcat(head, Keep(s[1..], a), b);
    }
  }

  /** `Keep` distributes over concatenation. */
  lemma {:induction false} KeepConcat(x: string, y: string, bad: set<char>)
    ensures Keep(x + y, bad) == Keep(x, bad) + Keep(y, bad)
  {
    if x == [] {
      assert x + y == y;
    } else {
      assert (x + y)[1..] == x[1..] + y;
      KeepConcat(x[1..], y, bad);
    }
  }

  /** A string that contains none of `bad` is unchanged by `Keep`. */
  lemma {:induction false} KeepClean(s: string, bad: set<char>)
    requires forall c :: c in s ==> c !in bad
    ensures Keep(s, bad) == s
  {
    if s != [] {
      assert s[0] in s;
      assert forall c :: c in s[1..] ==> c in s;
      KeepClean(s[1..], bad);
      assert s == [s[0]] + s[1..];
    }
  }

  /** `pat` occurs in `s` starting at index `i`. */
  predicate OccursAt(s: string, pat: string, i: nat) {
    i + |pat| <= |s| && s[i..i + |pat|] == pat
  }

  /** The first index at or after `from` where `pat` occurs in `s` (Python's
      `s.find(pat, from)`, with `None` for -1). */
  function IndexFrom(s: string, pat: string, from: nat): (r: Option<nat>)
    ensures r.Some? ==> from <= r.value && OccursAt(s, pat, r.value)
    ensures r.Some? ==> forall j :: from <= j < r.value ==> !OccursAt(s, pat, j)
    ensures r.None? ==> forall j: nat :: from <= j ==> !OccursAt(s, pat, j)
    decreases |s| - from
  {
    if from + |pat| > |s| then None
    else if s[from..from + |pat|] == pat then Some(from)
    else IndexFrom(s, pat, from + 1)
  }

  /** Python's `pat in s` for strings. */
  predicate Contains(s: string, pat: string) {
    IndexFrom(s, pat, 0).Some?
  }

  lemma ContainsMeansOccurs(s: string, pat: string)
    ensures Contains(s, pat) <==> exists j: nat :: OccursAt(s, pat, j)
  {
    if Contains(s, pat) {
      assert OccursAt(s, pat, IndexFrom(s, pat, 0).value);
    }
  }

  /** An occurrence anywhere makes `Contains` true. */
  lemma OccursContains(s: string, pat: string, i: nat)
    requires OccursAt(s, pat, i)
    ensures Contains(s, pat)
  {
  }

  /** A string lacking the first character of `pat` does not contain `pat`. */
  lemma MissingHeadNotContains(s: string, pat: string)
    requires |pat| > 0 && pat[0] !in s
    ensures !Contains(s, pat)
  {
    forall j: nat | j + |pat| <= |s|
      ensures !OccursAt(s, pat, j)
    {
      assert s[j..j + |pat|][0] == s[j];
      assert s[j] in s;
    }
  }

  /** The first index of character `c` in `s`. */
  function FindChar(s: string, c: char): (r: Option<nat>)
    ensures r.Some? ==> r.value < |s| && s[r.value] == c && c !in s[..r.value]
    ensures r.None? ==> c !in s
  {
    if |s| == 0 then None
    else if s[0] == c then Some(0)
    else match FindChar(s[1..], c)
      case None => None
      case Some(i) =>
        assert s[..i + 1] == [s[0]] + s[1..][..i];
        Some(i + 1)
  }

  /** The last index of character `c` in `s`. */
  function FindLastChar(s: string, c: char): (r: Option<nat>)
    ensures r.Some? ==> r.value < |s| && s[r.value] == c
    ensures r.None? ==> c !in s
  {
    if |s| == 0 then None
    else if s[|s| - 1] == c then Some(|s| - 1)
    else
      assert s == s[..|s| - 1] + [s[|s| - 1]];
      FindLastChar(s[..|s| - 1], c)
  }

  /** The last `c` in `x + [c] + y` is right after `x` when `y` has none. */
  lemma {:induction false} FindLastCharBefore(x: string, c: char, y: string)
    requires c !in y
    ensures FindLastChar(x + [c] + y, c) == Some(|x|)
  {
    var s := x + [c] + y;
    if y != [] {
      var y' := y[..|y| - 1];
      assert y[|y| - 1] in y;
      assert s[..|s| - 1] == x + [c] + y';
      assert forall d :: d in y' ==> d in y;
      FindLastCharBefore(x, c, y');
    }
  }

  /** A character in neither part is not in the concatenation. */
  lemma NotInConcat(c: char, a: string, b: string)
    requires c !in a && c !in b
    ensures c !in a + b
  {
  }

  /** Python's `sep.join(parts)` for a one-character separator. */
  function JoinChar(parts: seq<string>, sep: char): string {
    if |parts| == 0 then ""
    else if |parts| == 1 then parts[0]
    else parts[0] + [sep] + JoinChar(parts[1..], sep)
  }

  /** Python's `s.split(sep)` for a one-character separator: the pieces
      between successive occurrences of `sep`. */
  function SplitChar(s: string, sep: char): (parts: seq<string>)
    ensures |parts| >= 1
    ensures forall i :: 0 <= i < |parts| ==> sep !in parts[i]
    ensures JoinChar(parts, sep) == s
    decreases |s|
  {
    match FindChar(s, sep)
    case None => [s]
    case Some(i) =>
      var rest := SplitChar(s[i + 1..], sep);
      var parts := [s[..i]] + rest;
      assert parts[1..] == rest;
      assert s == s[..i] + [sep] + s[i + 1..];
      parts
  }

  /** Splitting a joined list of separator-free pieces gives the pieces back. */
  lemma {:induction false} SplitJoin(parts: seq<string>, sep: char)
    requires |parts| >= 1
    requires forall i :: 0 <= i < |parts| ==> sep !in parts[i]
    ensures SplitChar(JoinChar(parts, sep), sep) == parts
  {
    if |parts| == 1 {
      assert FindChar(parts[0], sep).None?;
    } else {
      var s := JoinChar(parts, sep);
      var p := parts[0];
      assert s == p + [sep] + JoinChar(parts[1..], sep);
      FindCharPast(p, sep, JoinChar(parts[1..], sep));
      assert s[..|p|] == p;
      assert s[|p| + 1..] == JoinChar(parts[1..], sep);
      SplitJoin(parts[1..], sep);
      assert parts == [p] + parts[1..];
    }
  }

  /** The first `sep` in `p + [sep] + q` is right after `p` when `p` has none. */
  lemma FindCharPast(p: string, sep: char, q: string)
    requires sep !in p
    ensures FindChar(p + [sep] + q, sep) == Some(|p|)
  {
    var s := p + [sep] + q;
    assert s[|p|] == sep;
    assert s[..|p|] == p;
    assert forall i :: 0 <= i < |p| ==> s[i] == p[i];
  }

  /** Python's `s.replace(pat, rep)` for a non-empty `pat`: occurrences are
      replaced left to right without overlapping. */
  function ReplaceAll(s: string, pat: string, rep: string): (r: string)
    requires |pat| > 0
    ensures |rep| <= |pat| ==> |r| <= |s|
    ensures |s| < |pat| ==> r == s
    ensures rep == pat ==> r == s
    ensures OccursAt(s, pat, 0) ==> |r| >= |rep| && r[..|rep|] == rep
    decreases |s|
  {
    if |s| < |pat| then s
    else if s[..|pat|] == pat then rep + ReplaceAll(s[|pat|..], pat, rep)
    else [s[0]] + ReplaceAll(s[1..], pat, rep)
  }

  /** `pat` occurs nowhere in `s`. */
  predicate NoOccurrence(s: string, pat: string) {
    forall i :: 0 <= i < |s| ==> !OccursAt(s, pat, i)
  }

  /** A string in which `pat` does not occur is left unchanged. */
  lemma {:induction false} ReplaceAllAbsent(s: string, pat: string, rep: string)
    requires |pat| > 0 && NoOccurrence(s, pat)
    ensures ReplaceAll(s, pat, rep) == s
    decreases |s|
  {
    if |s| >= |pat| {
      assert !OccursAt(s, pat, 0);
      ReplaceAllSkip(s, pat, rep);
      forall i | 0 <= i < |s[1..]|
        ensures !OccursAt(s[1..], pat, i)
      {
        assert !OccursAt(s, pat, i + 1);
        if i + |pat| <= |s[1..]| {
          assert s[1..][i..i + |pat|] == s[i + 1..i + 1 + |pat|];
        }
      }
      ReplaceAllAbsent(s[1..], pat, rep);
      assert [s[0]] + s[1..] == s;
    }
  }

  /** Replacing `pat` in `x + pat + y`, where no occurrence starts inside
      `x`, keeps `x`, replaces that occurrence, and goes on with `y`. */
  lemma {:induction false} ReplaceAllSplit(x: string, pat: string, rep: string, y: string)
    requires |pat| > 0
    requires forall i :: 0 <= i < |x| ==> !OccursAt(x + pat + y, pat, i)
    ensures ReplaceAll(x + pat + y, pat, rep) == x + rep + ReplaceAll(y, pat, rep)
    decreases |x|
  {
    if x == [] {
      assert x + pat + y == pat + y;
      ReplaceAllHead(pat, rep, y);
    } else {
      NoOccurrenceShift(x, pat, y);
      ReplaceAllSplit(x[1..], pat, rep, y);
      ReplaceAllSplitStep(x, pat, rep, y);
    }
  }

  /** Dropping the first character of `x` keeps `x` free of occurrences. */
  lemma NoOccurrenceShift(x: string, pat: string, y: string)
    requires x != []
    requires forall i :: 0 <= i < |x| ==> !OccursAt(x + pat + y, pat, i)
    ensures forall i :: 0 <= i < |x[1..]| ==> !OccursAt(x[1..] + pat + y, pat, i)
    ensures !OccursAt(x + pat + y, pat, 0)
  {
    var s, t := x + pat + y, x[1..] + pat + y;
    assert s[1..] == t;
    forall i | 0 <= i < |x[1..]|
      ensures !OccursAt(t, pat, i)
    {
      assert !OccursAt(s, pat, i + 1);
      if i + |pat| <= |t| {
        assert t[i..i + |pat|] == s[i + 1..i + 1 + |pat|];
      }
    }
  }

  /** The step of `ReplaceAllSplit`: the first character of `x` is kept. */
  lemma ReplaceAllSplitStep(x: string, pat: string, rep: string, y: string)
    requires |pat| > 0 && x != []
    requires !OccursAt(x + pat + y, pat, 0)
    requires ReplaceAll(x[1..] + pat + y, pat, rep) == x[1..] + rep + ReplaceAll(y, pat, rep)
    ensures ReplaceAll(x + pat + y, pat, rep) == x + rep + ReplaceAll(y, pat, rep)
  {
    ReplaceAllConsSplit(x, pat, rep, y);
    ConsConcat(x, rep, ReplaceAll(y, pat, rep));
  }

  lemma ReplaceAllConsSplit(x: string, pat: string, rep: string, y: string)
    requires |pat| > 0 && x != []
    requires !OccursAt(x + pat + y, pat, 0)
    ensures ReplaceAll(x + pat + y, pat, rep) == [x[0]] + ReplaceAll(x[1..] + pat + y, pat, rep)
  {
    ConsConcat(x, pat, y);
    ReplaceAllCons(x[0], x[1..] + pat + y, pat, rep);
  }

  lemma ConsConcat(x: string, a: string, b: string)
    requires x != []
    ensures x + a + b == [x[0]] + (x[1..] + a + b)
  {
  }

  /** Without an occurrence at the start, the first character is kept. */
  lemma ReplaceAllCons(c: char, t: string, pat: string, rep: string)
    requires |pat| > 0 && !OccursAt([c] + t, pat, 0)
    ensures ReplaceAll([c] + t, pat, rep) == [c] + ReplaceAll(t, pat, rep)
  {
    var s := [c] + t;
    assert s[1..] == t;
    if |s| >= |pat| {
      assert s[..|pat|] == s[0..|pat|];
    }
  }

  /** An occurrence at the start is replaced first. */
  lemma ReplaceAllHead(pat: string, rep: string, y: string)
    requires |pat| > 0
    ensures ReplaceAll(pat + y, pat, rep) == rep + ReplaceAll(y, pat, rep)
  {
    assert (pat + y)[..|pat|] == pat;
    assert (pat + y)[|pat|..] == y;
  }

  /** Without an occurrence at the start, the first character is kept. */
  lemma ReplaceAllSkip(s: string, pat: string, rep: string)
    requires |pat| > 0 && |s| >= |pat| && !OccursAt(s, pat, 0)
    ensures ReplaceAll(s, pat, rep) == [s[0]] + ReplaceAll(s[1..], pat, rep)
  {
    assert s[..|pat|] == s[0..|pat|];
  }

  /** Replacing `pat` in `x + pat`, where no occurrence starts inside `x`,
      replaces just that final occurrence. */
  lemma ReplaceAllSuffix(x: string, pat: string, rep: string)
    requires |pat| > 0
    requires forall i :: 0 <= i < |x| ==> !OccursAt(x + pat, pat, i)
    ensures ReplaceAll(x + pat, pat, rep) == x + rep
  {
    assert x + pat + [] == x + pat;
    ReplaceAllSplit(x, pat, rep, []);
    assert x + rep + [] == x + rep;
  }

  /** Lower-casing of one character (ASCII letters only). */
  function LowerChar(c: char): char {
    if 'A' <= c <= 'Z' then (c as int + 32) as char else c
  }

  /** Python's `s.lower()`, restricted to ASCII letters. */
  function ToLower(s: string): (r: string)
    ensures |r| == |s|
    ensures forall i :: 0 <= i < |s| ==> r[i] == LowerChar(s[i])
    ensures forall i :: 0 <= i < |r| ==> !('A' <= r[i] <= 'Z')
  {
    seq(|s|, i requires 0 <= i < |s| => LowerChar(s[i]))
  }

  /** Python's `s.rstrip(c)` for a single character: every trailing `c` is
      removed, not just one. */
  function RStripChar(s: string, c: char): (r: string)
    ensures |r| <= |s| && r == s[..|r|]
    ensures r == [] || r[|r| - 1] != c
    ensures forall i :: |r| <= i < |s| ==> s[i] == c
  {
    if |s| > 0 && s[|s| - 1] == c then RStripChar(s[..|s| - 1], c) else s
  }
}
