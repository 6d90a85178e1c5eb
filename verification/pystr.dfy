/**
 Models of the Python `str` builtins that `latex/utils.py` relies on, over
 `string` (a sequence of Unicode scalar values, like Python 3's `str`):
 `startswith`, the `in` operator, `find`, `split(sep)`, `sep.join`,
 `replace`, `isspace`/`strip` and `splitlines`.
 */
module PyStr {

  datatype Option<T> = None | Some(value: T)

  /** `s.startswith(p)`. */
  predicate StartsWith(s: string, p: string) {
    |p| <= |s| && s[..|p|] == p
  }

  /** `s.startswith(ps)` for a tuple of prefixes, trying them in turn: true
      exactly when one of them is a prefix of `s`. */
  predicate StartsWithAny(s: string, ps: seq<string>): (b: bool)
    ensures b <==> exists i :: 0 <= i < |ps| && StartsWith(s, ps[i])
    decreases |ps|
  {
    |ps| > 0 && (StartsWith(s, ps[0]) || StartsWithAny(s, ps[1..]))
  }

  /** `p in s`: `p` occurs somewhere in `s` (the empty string occurs everywhere). */
  predicate Contains(s: string, p: string)
    decreases |s|
  {
    StartsWith(s, p) || (|s| > 0 && Contains(s[1..], p))
  }

  /** `Contains` is the existence of an index at which `p` starts. */
  lemma {:induction false} ContainsAt(s: string, p: string, k: nat)
    requires k <= |s| && StartsWith(s[k..], p)
    ensures Contains(s, p)
    decreases k
  {
    if k > 0 {
      assert s[1..][k - 1..] == s[k..];
      ContainsAt(s[1..], p, k - 1);
    }
  }

  /** `s.find(p)`, with `None` for Python's `-1`. */
  function IndexOf(s: string, p: string): (r: Option<nat>)
    ensures r.Some? ==> r.value + |p| <= |s|
    decreases |s|
  {
    if StartsWith(s, p) then Some(0)
    else if |s| == 0 then None
    else
      match IndexOf(s[1..], p)
      case None => None
      case Some(k) => Some(k + 1)
  }

  /** `find` fails exactly when `p in s` is false, and otherwise `p` starts
      at the index it returns. */
  lemma {:induction false} IndexOfSpec(s: string, p: string)
    ensures IndexOf(s, p).None? <==> !Contains(s, p)
    ensures IndexOf(s, p).Some? ==> StartsWith(s[IndexOf(s, p).value..], p)
    decreases |s|
  {
    if !StartsWith(s, p) && |s| > 0 {
      IndexOfSpec(s[1..], p);
      if IndexOf(s[1..], p).Some? {
        var k := IndexOf(s[1..], p).value;
        assert s[1..][k..] == s[k + 1..];
      }
    }
  }

  /** `find` returns the FIRST occurrence: `p` starts at no earlier index. */
  lemma {:induction false} IndexOfIsFirst(s: string, p: string)
    requires IndexOf(s, p).Some?
    ensures forall k :: 0 <= k < IndexOf(s, p).value ==> !StartsWith(s[k..], p)
    decreases |s|
  {
    if !StartsWith(s, p) {
      IndexOfIsFirst(s[1..], p);
      forall k | 0 < k < IndexOf(s, p).value
        ensures !StartsWith(s[k..], p)
      {
        assert s[1..][k - 1..] == s[k..];
      }
      assert s[0..] == s;
    }
  }

  /** `find` returns `k` when `p` starts at `k` and at no earlier index. */
  lemma IndexOfAt(s: string, p: string, k: nat)
    requires k <= |s| && StartsWith(s[k..], p)
    requires forall j :: 0 <= j < k ==> !StartsWith(s[j..], p)
    ensures IndexOf(s, p) == Some(k)
  {
    ContainsAt(s, p, k);
    IndexOfSpec(s, p);
    IndexOfIsFirst(s, p);
  }

  /** `sep.join(xs)`. */
  function Join(sep: string, xs: seq<string>): string
    decreases |xs|
  {
    if |xs| == 0 then []
    else if |xs| == 1 then xs[0]
    else xs[0] + sep + Join(sep, xs[1..])
  }

  /** The first element opens `sep.join(xs)` and the last one closes it. */
  lemma {:induction false} JoinEnds(sep: string, xs: seq<string>)
    requires |xs| > 0
    ensures var r := Join(sep, xs);
      && StartsWith(r, xs[0])
      && |xs[|xs| - 1]| <= |r| && r[|r| - |xs[|xs| - 1]|..] == xs[|xs| - 1]
    decreases |xs|
  {
    if |xs| > 1 {
      JoinEnds(sep, xs[1..]);
      var r := Join(sep, xs);
      var t := Join(sep, xs[1..]);
      assert r == xs[0] + sep + t;
      assert r[..|xs[0]|] == xs[0];
      assert r[|r| - |t|..] == t;
    }
  }

  /** `s.split(sep)` with a non-empty separator: the fields between the
      non-overlapping occurrences of `sep`, scanning left to right. */
  function Split(s: string, sep: string): (fields: seq<string>)
    requires |sep| > 0
    ensures |fields| >= 1
    decreases |s|
  {
    match IndexOf(s, sep)
    case None => [s]
    case Some(i) => [s[..i]] + Split(s[i + |sep|..], sep)
  }

  /** `s.split(sep)` has a second field exactly when `sep in s`. */
  lemma SplitHasSecondField(s: string, sep: string)
    requires |sep| > 0
    ensures |Split(s, sep)| >= 2 <==> Contains(s, sep)
  {
    IndexOfSpec(s, sep);
  }

  /** Joining the fields with the separator gives back the string. */
  lemma {:induction false} JoinSplit(s: string, sep: string)
    requires |sep| > 0
    ensures Join(sep, Split(s, sep)) == s
    decreases |s|
  {
    match IndexOf(s, sep)
    case None =>
    case Some(i) =>
      var rest := s[i + |sep|..];
      SplitUnfold(s, sep, i);
      JoinSplit(rest, sep);
      JoinCons(sep, s[..i], Split(rest, sep));
      IndexOfSpec(s, sep);
      Around(s, i, sep);
  }

  /** A string is the text before an occurrence, the occurrence, and the text after it. */
  lemma Around(s: string, i: nat, p: string)
    requires i <= |s| && StartsWith(s[i..], p)
    ensures s == s[..i] + p + s[i + |p|..]
  {
    assert s[i..] == s[i..][..|p|] + s[i + |p|..];
  }

  /** Joining a first field onto at least one more puts one separator between them. */
  lemma JoinCons(sep: string, x: string, xs: seq<string>)
    requires |xs| >= 1
    ensures Join(sep, [x] + xs) == x + sep + Join(sep, xs)
  {
    assert ([x] + xs)[1..] == xs;
  }

  /** A field produced by `Split` never contains the separator. */
  lemma {:induction false} SplitFieldsFree(s: string, sep: string)
    requires |sep| > 0
    ensures forall i :: 0 <= i < |Split(s, sep)| ==> !Contains(Split(s, sep)[i], sep)
    decreases |s|
  {
    match IndexOf(s, sep)
    case None =>
      IndexOfSpec(s, sep);
    case Some(i) =>
      SplitUnfold(s, sep, i);
      SplitFieldsFree(s[i + |sep|..], sep);
      IndexOfIsFirst(s, sep);
      PrefixBeforeFirstFree(s, sep, i);
  }

  /** The text before the first occurrence of `p` does not contain `p`. */
  lemma {:induction false} PrefixBeforeFirstFree(s: string, p: string, i: nat)
    requires i <= |s|
    requires forall k :: 0 <= k < i ==> !StartsWith(s[k..], p)
    requires |p| > 0
    ensures !Contains(s[..i], p)
    decreases i
  {
    if i > 0 {
      assert !StartsWith(s[0..], p);
      assert s[0..] == s;
      assert !StartsWith(s[..i], p);
      assert forall k :: 0 <= k < i - 1 ==> s[1..][k..] == s[k + 1..];
      PrefixBeforeFirstFree(s[1..], p, i - 1);
      assert s[..i][1..] == s[1..][..i - 1];
    }
  }

  /** `s.replace(pat, rep)` with a non-empty `pat`: every non-overlapping
      occurrence, found left to right, is replaced. */
  function ReplaceAll(s: string, pat: string, rep: string): (r: string)
    requires |pat| > 0
    ensures |rep| <= |pat| ==> |r| <= |s|
    decreases |s|
  {
    if |s| == 0 then []
    else if StartsWith(s, pat) then rep + ReplaceAll(s[|pat|..], pat, rep)
    else [s[0]] + ReplaceAll(s[1..], pat, rep)
  }

  /** Without an occurrence nothing is replaced; with one and a shorter
      replacement the string gets strictly shorter. */
  lemma {:induction false} ReplaceAllEffect(s: string, pat: string, rep: string)
    requires |pat| > 0
    ensures !Contains(s, pat) ==> ReplaceAll(s, pat, rep) == s
    ensures |rep| < |pat| && Contains(s, pat) ==> |ReplaceAll(s, pat, rep)| < |s|
    decreases |s|
  {
    if |s| > 0 && !StartsWith(s, pat) {
      ReplaceAllEffect(s[1..], pat, rep);
    }
  }

  /** Python's identity `s.replace(pat, rep) == rep.join(s.split(pat))`:
      the character-by-character scan agrees with the split-based reading. */
  lemma {:induction false} ReplaceAllIsJoinOfSplit(s: string, pat: string, rep: string)
    requires |pat| > 0
    ensures ReplaceAll(s, pat, rep) == Join(rep, Split(s, pat))
    decreases |s|
  {
    if |s| == 0 {
    } else if StartsWith(s, pat) {
      var rest := s[|pat|..];
      SplitAtHead(s, pat);
      ReplaceAllIsJoinOfSplit(rest, pat, rep);
      JoinCons(rep, [], Split(rest, pat));
    } else {
      var t := s[1..];
      ReplaceAllIsJoinOfSplit(t, pat, rep);
      var f := Split(t, pat);
      assert f == [f[0]] + f[1..];
      SplitPastHead(s, pat, f[0], f[1..]);
      JoinHead(rep, s[0], f[0], f[1..]);
    }
  }

  /** A character in front of the first field comes out in front of the join. */
  lemma JoinHead(sep: string, c: char, x: string, xs: seq<string>)
    ensures Join(sep, [[c] + x] + xs) == [c] + Join(sep, [x] + xs)
  {
    if |xs| > 0 {
      assert ([[c] + x] + xs)[1..] == xs;
      assert ([x] + xs)[1..] == xs;
    }
  }

  /** When `s` starts with the separator, the first field is empty. */
  lemma SplitAtHead(s: string, sep: string)
    requires |sep| > 0 && StartsWith(s, sep)
    ensures Split(s, sep) == [[]] + Split(s[|sep|..], sep)
  {
    assert IndexOf(s, sep) == Some(0);
  }

  /** When `s` does not start with the separator, its first character belongs
      to the first field of `s[1..]`. */
  lemma SplitPastHead(s: string, sep: string, x: string, xs: seq<string>)
    requires |sep| > 0 && |s| > 0 && !StartsWith(s, sep)
    requires Split(s[1..], sep) == [x] + xs
    ensures Split(s, sep) == [[s[0]] + x] + xs
  {
    var t := s[1..];
    match IndexOf(t, sep)
    case None =>
      assert IndexOf(s, sep).None?;
      assert [t] == [x] + xs;
      ConsParts([t], x, xs);
      assert s == [s[0]] + t;
    case Some(k) =>
      SplitPastHeadAt(s, sep, k, x, xs);
  }

  lemma SplitPastHeadAt(s: string, sep: string, k: nat, x: string, xs: seq<string>)
    requires |sep| > 0 && |s| > 0 && !StartsWith(s, sep) && IndexOf(s[1..], sep) == Some(k)
    requires Split(s[1..], sep) == [x] + xs
    ensures Split(s, sep) == [[s[0]] + x] + xs
  {
    PrefixThroughTail(s, k, |sep|);
    var rest := Split(s[k + 1 + |sep|..], sep);
    SplitUnfold(s[1..], sep, k);
    ConsParts([s[1..][..k]] + rest, x, xs);
    SplitOnFoundAt(s, sep, k + 1);
  }

  /** Unfolding `Split` at a position known to be the first occurrence. */
  lemma SplitOnFoundAt(s: string, sep: string, i: nat)
    requires |sep| > 0 && 0 < i && 0 < |s| && !StartsWith(s, sep) && IndexOf(s[1..], sep) == Some(i - 1)
    ensures Split(s, sep) == [s[..i]] + Split(s[i + |sep|..], sep)
  {
    assert IndexOf(s, sep) == Some(i);
    SplitUnfold(s, sep, i);
  }

  /** Slices of `s[1..]` shifted back onto `s`. */
  lemma PrefixThroughTail(s: string, k: nat, n: nat)
    requires k + n < |s|
    ensures s[..k + 1] == [s[0]] + s[1..][..k]
    ensures s[1..][k + n..] == s[k + 1 + n..]
  {
  }

  lemma ConsParts<T>(xs: seq<T>, x: T, rest: seq<T>)
    requires xs == [x] + rest
    ensures xs[0] == x && xs[1..] == rest
  {
  }

  lemma SplitUnfold(s: string, sep: string, i: nat)
    requires |sep| > 0 && IndexOf(s, sep) == Some(i)
    ensures Split(s, sep) == [s[..i]] + Split(s[i + |sep|..], sep)
  {
  }

  /** The characters for which Python's `str.isspace()` holds. */
  predicate IsSpace(c: char) {
    c in {' ', '\t', '\n', '\U{0b}', '\U{0c}', '\r', '\U{1c}', '\U{1d}', '\U{1e}', '\U{1f}',
          '\U{85}', '\U{a0}', '\U{1680}', '\U{2028}', '\U{2029}', '\U{202f}', '\U{205f}', '\U{3000}'}
    || ('\U{2000}' <= c <= '\U{200a}')
  }

  /** `s.lstrip()`: the longest suffix of `s` that does not begin with whitespace. */
  function LStrip(s: string): (r: string)
    ensures |r| <= |s| && r == s[|s| - |r|..]
    ensures |r| > 0 ==> !IsSpace(r[0])
    ensures forall i :: 0 <= i < |s| - |r| ==> IsSpace(s[i])
    decreases |s|
  {
    if |s| > 0 && IsSpace(s[0]) then LStrip(s[1..]) else s
  }

  /** `s.rstrip()`: the longest prefix of `s` that does not end with whitespace. */
  function RStrip(s: string): (r: string)
    ensures |r| <= |s| && r == s[..|r|]
    ensures |r| > 0 ==> !IsSpace(r[|r| - 1])
    ensures forall i :: |r| <= i < |s| ==> IsSpace(s[i])
    decreases |s|
  {
    if |s| > 0 && IsSpace(s[|s| - 1]) then RStrip(s[..|s| - 1]) else s
  }

  /** `s.strip()`: no longer than `s`, and neither end is whitespace. */
  function Strip(s: string): (r: string)
    ensures |r| <= |s|
    ensures |r| > 0 ==> !IsSpace(r[0]) && !IsSpace(r[|r| - 1])
  {
    RStrip(LStrip(s))
  }

  /** `s.strip() == ""` exactly when every character of `s` is whitespace. */
  lemma StripEmptyIffAllSpace(s: string)
    ensures Strip(s) == [] <==> forall i :: 0 <= i < |s| ==> IsSpace(s[i])
  {
    var l := LStrip(s);
    if Strip(s) == [] {
      assert l == [];
    }
  }

  /** The line boundaries of Python's `str.splitlines()`. */
  predicate IsLineBreak(c: char) {
    c in {'\n', '\r', '\U{0b}', '\U{0c}', '\U{1c}', '\U{1d}', '\U{1e}', '\U{85}', '\U{2028}', '\U{2029}'}
  }

  predicate NoLineBreak(s: string) {
    forall i :: 0 <= i < |s| ==> !IsLineBreak(s[i])
  }

  /** Index of the first line boundary in `s`, or `|s|` when there is none. */
  function FirstBreak(s: string): (k: nat)
    ensures k <= |s|
    ensures NoLineBreak(s[..k])
    ensures k < |s| ==> IsLineBreak(s[k])
    decreases |s|
  {
    if |s| == 0 || IsLineBreak(s[0]) then 0 else 1 + FirstBreak(s[1..])
  }

  /** `s.splitlines()`: lines end at a boundary (`"\r\n"` counts as one) and
      no empty line is produced for a trailing boundary. */
  function SplitLines(s: string): (lines: seq<string>)
    ensures forall i :: 0 <= i < |lines| ==> NoLineBreak(lines[i])
    ensures |lines| == 0 <==> |s| == 0
    decreases |s|
  {
    if |s| == 0 then []
    else
      var k := FirstBreak(s);
      if k == |s| then [s]
      else
        var width := if s[k] == '\r' && k + 1 < |s| && s[k + 1] == '\n' then 2 else 1;
        [s[..k]] + SplitLines(s[k + width..])
  }

  /** The first boundary is the one with none before it. */
  lemma {:induction false} FirstBreakAt(s: string, k: nat)
    requires k <= |s| && NoLineBreak(s[..k]) && (k < |s| ==> IsLineBreak(s[k]))
    ensures FirstBreak(s) == k
    decreases k
  {
    if k > 0 {
      assert s[..k][0] == s[0];
      assert s[1..][..k - 1] == s[..k][1..];
      FirstBreakAt(s[1..], k - 1);
    }
  }

  /** `splitlines` at a `"\n"` that is the first boundary. */
  lemma SplitLinesAtNewline(s: string, k: nat)
    requires k < |s| && s[k] == '\n' && NoLineBreak(s[..k])
    ensures SplitLines(s) == [s[..k]] + SplitLines(s[k + 1..])
  {
    FirstBreakAt(s, k);
  }

  /** Two lines, each ended by `"\n"`, split back into those two lines. */
  lemma SplitLinesTwo(a: string, b: string)
    requires NoLineBreak(a) && NoLineBreak(b)
    ensures SplitLines(a + "\n" + b + "\n") == [a, b]
  {
    var s := a + "\n" + b + "\n";
    var rest := b + "\n";
    assert s[..|a|] == a && s[|a| + 1..] == rest;
    SplitLinesAtNewline(s, |a|);
    SplitLinesOne(b);
  }

  /** One line ended by `"\n"` splits into that line alone. */
  lemma SplitLinesOne(b: string)
    requires NoLineBreak(b)
    ensures SplitLines(b + "\n") == [b]
  {
    var rest := b + "\n";
    assert rest[..|b|] == b && rest[|b| + 1..] == [];
    SplitLinesAtNewline(rest, |b|);
  }

  /** Lines joined by `"\n"` split back into the same lines, provided none is
      empty and none holds a boundary. */
  lemma {:induction false} SplitLinesOfJoin(lines: seq<string>)
    requires forall i :: 0 <= i < |lines| ==> |lines[i]| > 0 && NoLineBreak(lines[i])
    ensures SplitLines(Join("\n", lines)) == lines
    decreases |lines|
  {
    if |lines| == 1 {
      FirstBreakOfClean(lines[0]);
    } else if |lines| > 1 {
      JoinCons("\n", lines[0], lines[1..]);
      assert lines == [lines[0]] + lines[1..];
      SplitLinesOfLine(lines[0], Join("\n", lines[1..]));
      SplitLinesOfJoin(lines[1..]);
    }
  }

  /** The converse: when every line boundary in `s` is `'\n'` and `s` does
      not end with one, joining `s.splitlines()` with `"\n"` rebuilds `s`. */
  lemma {:induction false} JoinSplitLines(s: string)
    requires forall i :: 0 <= i < |s| && IsLineBreak(s[i]) ==> s[i] == '\n'
    requires |s| == 0 || s[|s| - 1] != '\n'
    ensures Join("\n", SplitLines(s)) == s
    decreases |s|
  {
    var k := FirstBreak(s);
    if 0 < |s| && k < |s| {
      assert s[k] == '\n';
      var rest := s[k + 1..];
      SplitLinesAtNewline(s, k);
      forall i | 0 <= i < |rest| && IsLineBreak(rest[i]) ensures rest[i] == '\n' {
        assert rest[i] == s[k + 1 + i];
      }
      assert |rest| > 0 && rest[|rest| - 1] == s[|s| - 1];
      JoinSplitLines(rest);
      JoinCons("\n", s[..k], SplitLines(rest));
      CutAtBreak(s, k);
    }
  }

  lemma CutAtBreak(s: string, k: nat)
    requires k < |s| && s[k] == '\n'
    ensures s == s[..k] + "\n" + s[k + 1..]
  {
    assert s == s[..k] + s[k..];
    assert s[k..] == [s[k]] + s[k + 1..];
  }

  /** A break-free line followed by `"\n"` is split off as the first line. */
  lemma SplitLinesOfLine(l: string, rest: string)
    requires |l| > 0 && NoLineBreak(l)
    ensures SplitLines(l + "\n" + rest) == [l] + SplitLines(rest)
  {
    var j := l + "\n" + rest;
    assert j == l + ("\n" + rest);
    FirstBreakOfCleanPrefix(l, "\n" + rest);
    assert j[|l|] == '\n';
    assert j[..|l|] == l;
    assert j[|l| + 1..] == rest;
  }

  lemma {:induction false} FirstBreakOfClean(s: string)
    requires NoLineBreak(s)
    ensures FirstBreak(s) == |s|
  {
  }

  lemma {:induction false} FirstBreakOfCleanPrefix(s: string, t: string)
    requires NoLineBreak(s) && |t| > 0 && IsLineBreak(t[0])
    ensures FirstBreak(s + t) == |s|
  {
    var k := FirstBreak(s + t);
    assert (s + t)[|s|] == t[0];
    assert k <= |s|;
  }
}
