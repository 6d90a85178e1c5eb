/**
 `replace_latex_space_seperator`: LaTeX sources are written with a space
 inside every `{{`, `}}`, `{#`, `#}`, `{%` and `%}` so that the Jinja
 template layer does not read them as its own delimiters; before compiling,
 those spaces are taken out again.

 The source does this with six `while pattern in s: s = s.replace(...)`
 loops. `Unspaced` is an order-free description of the same result: drop
 every space whose two neighbours in the ORIGINAL text form a delimiter
 pair. The two agree because dropping such a space never changes the
 neighbours of any other space.
 */
module SpaceSeparator {
  import opened PyStr

  /** The spaced pairs, in the order the source collapses them. */
  const PatternList: seq<string> := ["{ {", "} }", "{ #", "# }", "{ %", "% }"]

  /** One `while pattern in s: s = s.replace(pattern, collapsed)` loop: it
      stops, never lengthens the text, and leaves the pattern absent. */
  function CollapseWhilePresent(s: string, pat: string, rep: string): (r: string)
    requires |pat| > 0 && |rep| < |pat|
    ensures |r| <= |s|
    ensures !Contains(r, pat)
    decreases |s|
  {
    if Contains(s, pat) then
      ReplaceAllEffect(s, pat, rep);
      CollapseWhilePresent(ReplaceAll(s, pat, rep), pat, rep)
    else s
  }

  /** The outer `for pattern in pattern_list` loop, from the pattern at index
      `m` on; each pattern is collapsed to `pattern.replace(" ", "")`. */
  function ApplyPatternsFrom(s: string, m: nat): (r: string)
    requires m <= |PatternList|
    ensures |r| <= |s|
    decreases |PatternList| - m
  {
    if m == |PatternList| then s
    else
      var pat := PatternList[m];
      var collapsed := ReplaceAll(pat, " ", "");
      PatternsHaveSpace();
      ReplaceAllEffect(pat, " ", "");
      ApplyPatternsFrom(CollapseWhilePresent(s, pat, collapsed), m + 1)
  }

  /** `replace_latex_space_seperator(s)`. */
  function ReplaceLatexSpaceSeparator(s: string): (r: string)
    ensures |r| <= |s|
  {
    ApplyPatternsFrom(s, 0)
  }

  // ---------------------------------------------------------------------
  // The order-free description

  /** The six character pairs the template engine reserves. */
  predicate IsDelimiterPair(x: char, y: char) {
    (x == '{' && y in {'{', '#', '%'}) || (y == '}' && x in {'}', '#', '%'})
  }

  function Spaced(x: char, y: char): string {
    [x, ' ', y]
  }

  /** Drops every space whose neighbours in `s` form a delimiter pair. */
  function Unspaced(s: string): string
    decreases |s|
  {
    if |s| == 0 then []
    else if |s| >= 3 && s[1] == ' ' && IsDelimiterPair(s[0], s[2]) then [s[0]] + Unspaced(s[2..])
    else [s[0]] + Unspaced(s[1..])
  }

  /** `s` holds a space between the two characters of a delimiter pair. */
  predicate HasSeparator(s: string)
    decreases |s|
  {
    |s| >= 3 && ((s[1] == ' ' && IsDelimiterPair(s[0], s[2])) || HasSeparator(s[1..]))
  }

  /** `r` is `s` with some space characters deleted and nothing else changed. */
  predicate DropsOnlySpaces(s: string, r: string)
    decreases |s|
  {
    if |s| == 0 then |r| == 0
    else
      (|r| > 0 && r[0] == s[0] && DropsOnlySpaces(s[1..], r[1..]))
      || (s[0] == ' ' && DropsOnlySpaces(s[1..], r))
  }

  // ---------------------------------------------------------------------
  // The pattern list is exactly the six spaced delimiter pairs

  lemma PatternsHaveSpace()
    ensures forall i :: 0 <= i < |PatternList| ==> Contains(PatternList[i], " ")
  {
    forall i | 0 <= i < |PatternList|
      ensures Contains(PatternList[i], " ")
    {
      PatternShape(i);
      var p := PatternList[i];
      assert p[1..][..1] == " ";
    }
  }

  /** Each entry is a spaced delimiter pair, and `pattern.replace(" ", "")`
      is the pair itself. */
  lemma PatternShape(k: nat)
    requires k < |PatternList|
    ensures var p := PatternList[k];
      p == Spaced(p[0], p[2]) && IsDelimiterPair(p[0], p[2])
      && ReplaceAll(p, " ", "") == [p[0], p[2]]
  {
    var p := PatternList[k];
    assert p == Spaced(p[0], p[2]);
    CollapsePattern(p[0], p[2]);
  }

  /** Every delimiter pair has its spaced form in the list. */
  lemma PatternListComplete(x: char, y: char)
    requires IsDelimiterPair(x, y)
    ensures exists k :: 0 <= k < |PatternList| && PatternList[k] == Spaced(x, y)
  {
    if x == '{' && y == '{' { assert PatternList[0] == Spaced(x, y); }
    else if x == '}' && y == '}' { assert PatternList[1] == Spaced(x, y); }
    else if x == '{' && y == '#' { assert PatternList[2] == Spaced(x, y); }
    else if x == '#' && y == '}' { assert PatternList[3] == Spaced(x, y); }
    else if x == '{' && y == '%' { assert PatternList[4] == Spaced(x, y); }
    else { assert PatternList[5] == Spaced(x, y); }
  }

  /** `"a b".replace(" ", "") == "ab"` for non-space `a`, `b`. */
  lemma CollapsePattern(a: char, b: char)
    requires a != ' ' && b != ' '
    ensures ReplaceAll(Spaced(a, b), " ", "") == [a, b]
  {
    var p := Spaced(a, b);
    assert " " == [' '];
    assert [b][..1] == [b];
    assert [b][1..] == [];
    assert ReplaceAll([b], " ", "") == [b];
    assert [' ', b][1..] == [b];
    assert ReplaceAll([' ', b], " ", "") == [b];
    assert p[1..] == [' ', b];
  }

  lemma StartsWithSpaced(s: string, x: char, y: char)
    ensures StartsWith(s, Spaced(x, y)) <==> |s| >= 3 && s[0] == x && s[1] == ' ' && s[2] == y
  {
    if |s| >= 3 && s[0] == x && s[1] == ' ' && s[2] == y {
      assert s[..3] == Spaced(x, y);
    }
  }

  // ---------------------------------------------------------------------
  // One `s.replace("a b", "ab")` pass for a delimiter pair (a, b)

  /** A pass never changes the first character. */
  lemma ReplaceKeepsHead(t: string, a: char, b: char)
    requires IsDelimiterPair(a, b) && |t| > 0
    ensures var r := ReplaceAll(t, Spaced(a, b), [a, b]); |r| > 0 && r[0] == t[0]
  {
    StartsWithSpaced(t, a, b);
  }

  /** A pass passes a leading space through, followed by the pass over the rest. */
  lemma ReplaceAfterSpace(t: string, a: char, b: char)
    requires IsDelimiterPair(a, b) && |t| > 0 && t[0] == ' '
    ensures ReplaceAll(t, Spaced(a, b), [a, b]) == [' '] + ReplaceAll(t[1..], Spaced(a, b), [a, b])
  {
    StartsWithSpaced(t, a, b);
  }

  /** A pass does not change the order-free result, even behind any character `c`. */
  lemma {:induction false} UnspacedAfterReplaceBehind(c: char, t: string, a: char, b: char)
    requires IsDelimiterPair(a, b)
    ensures Unspaced([c] + ReplaceAll(t, Spaced(a, b), [a, b])) == Unspaced([c] + t)
    decreases |t|, 1
  {
    var r := ReplaceAll(t, Spaced(a, b), [a, b]);
    if |t| == 0 {
    } else if t[0] == ' ' {
      ReplaceAfterSpace(t, a, b);
      var r1 := ReplaceAll(t[1..], Spaced(a, b), [a, b]);
      if |t| == 1 {
        assert r == [' '];
      } else {
        ReplaceKeepsHead(t[1..], a, b);
        assert |r| >= 2 && r[1] == t[1];
        assert ([c] + r)[1..] == r && ([c] + t)[1..] == t;
        assert ([c] + r)[2..] == r1 && ([c] + t)[2..] == t[1..];
        if IsDelimiterPair(c, t[1]) {
          UnspacedAfterReplace(t[1..], a, b);
        } else {
          UnspacedAfterReplace(t, a, b);
        }
      }
    } else {
      ReplaceKeepsHead(t, a, b);
      assert ([c] + r)[1..] == r && ([c] + t)[1..] == t;
      UnspacedAfterReplace(t, a, b);
    }
  }

  /** A pass does not change the order-free result. */
  lemma {:induction false} UnspacedAfterReplace(t: string, a: char, b: char)
    requires IsDelimiterPair(a, b)
    ensures Unspaced(ReplaceAll(t, Spaced(a, b), [a, b])) == Unspaced(t)
    decreases |t|, 0
  {
    var pat := Spaced(a, b);
    if |t| == 0 {
    } else if StartsWith(t, pat) {
      StartsWithSpaced(t, a, b);
      var rest := ReplaceAll(t[3..], pat, [a, b]);
      assert ReplaceAll(t, pat, [a, b]) == [a, b] + rest;
      assert ([a, b] + rest)[1..] == [b] + rest;
      UnspacedAfterReplaceBehind(b, t[3..], a, b);
      assert t[2..] == [b] + t[3..];
    } else {
      UnspacedAfterReplaceBehind(t[0], t[1..], a, b);
      assert t == [t[0]] + t[1..];
    }
  }

  /** A pass for (a, b) never creates an occurrence of any spaced pair (x, y). */
  lemma {:induction false} ReplaceCreatesNoPattern(t: string, a: char, b: char, x: char, y: char)
    requires IsDelimiterPair(a, b) && x != ' ' && y != ' '
    requires Contains(ReplaceAll(t, Spaced(a, b), [a, b]), Spaced(x, y))
    ensures Contains(t, Spaced(x, y))
    decreases |t|
  {
    var pat := Spaced(a, b);
    var q := Spaced(x, y);
    var r := ReplaceAll(t, pat, [a, b]);
    if |t| == 0 {
    } else if StartsWith(t, pat) {
      StartsWithSpaced(t, a, b);
      var rest := ReplaceAll(t[3..], pat, [a, b]);
      assert r == [a, b] + rest;
      StartsWithSpaced(r, x, y);
      assert r[1..] == [b] + rest;
      assert r[1..][1..] == rest;
      StartsWithSpaced(r[1..], x, y);
      if StartsWith(r[1..], q) {
        ReplaceAfterSpace(t[3..], a, b);
        ReplaceKeepsHead(t[4..], a, b);
        assert t[2..][..3] == q;
        ContainsAt(t, q, 2);
      } else {
        ReplaceCreatesNoPattern(t[3..], a, b, x, y);
        assert t[3..] == t[1..][1..][1..];
      }
    } else {
      var rest := ReplaceAll(t[1..], pat, [a, b]);
      assert r == [t[0]] + rest;
      assert r[1..] == rest;
      StartsWithSpaced(r, x, y);
      if StartsWith(r, q) {
        ReplaceKeepsHead(t[1..], a, b);
        ReplaceAfterSpace(t[1..], a, b);
        ReplaceKeepsHead(t[2..], a, b);
        StartsWithSpaced(t, x, y);
      } else {
        ReplaceCreatesNoPattern(t[1..], a, b, x, y);
      }
    }
  }

  // ---------------------------------------------------------------------
  // The while loop, the for loop, and the whole function

  /** A `while` loop for (a, b) leaves no spaced (a, b), does not change the
      order-free result, and creates no spaced pair that was not there. */
  lemma {:induction false} CollapseWhilePresentSpec(s: string, a: char, b: char)
    requires IsDelimiterPair(a, b)
    ensures var t := CollapseWhilePresent(s, Spaced(a, b), [a, b]);
      && !Contains(t, Spaced(a, b))
      && Unspaced(t) == Unspaced(s)
      && forall k :: 0 <= k < |PatternList| && Contains(t, PatternList[k]) ==> Contains(s, PatternList[k])
    decreases |s|
  {
    var pat := Spaced(a, b);
    if Contains(s, pat) {
      var s1 := ReplaceAll(s, pat, [a, b]);
      ReplaceAllEffect(s, pat, [a, b]);
      CollapseWhilePresentSpec(s1, a, b);
      UnspacedAfterReplace(s, a, b);
      forall k | 0 <= k < |PatternList| && Contains(s1, PatternList[k])
        ensures Contains(s, PatternList[k])
      {
        PatternShape(k);
        ReplaceCreatesNoPattern(s, a, b, PatternList[k][0], PatternList[k][2]);
      }
    }
  }

  /** Running the loops for the patterns from index `m` on, over a text that
      holds none of the earlier patterns, gives the order-free result. */
  lemma {:induction false} ApplyPatternsSpec(s: string, m: nat)
    requires m <= |PatternList|
    requires forall k :: 0 <= k < m ==> !Contains(s, PatternList[k])
    ensures ApplyPatternsFrom(s, m) == Unspaced(s)
    decreases |PatternList| - m
  {
    if m == |PatternList| {
      SeparatorIffPattern(s);
      UnspacedOfClean(s);
    } else {
      PatternShape(m);
      var p := PatternList[m];
      var t := CollapseWhilePresent(s, p, ReplaceAll(p, " ", ""));
      CollapseWhilePresentSpec(s, p[0], p[2]);
      ApplyPatternsSpec(t, m + 1);
    }
  }

  /** The six loops of the source compute exactly the order-free result. */
  lemma ReplaceLatexSpaceSeparatorIsUnspaced(s: string)
    ensures ReplaceLatexSpaceSeparator(s) == Unspaced(s)
  {
    ApplyPatternsSpec(s, 0);
  }

  // ---------------------------------------------------------------------
  // Properties of the order-free result

  /** `HasSeparator` is `pattern in s` for some pattern of the list. */
  lemma {:induction false} SeparatorIffPattern(s: string)
    ensures HasSeparator(s) <==> exists k :: 0 <= k < |PatternList| && Contains(s, PatternList[k])
    decreases |s|
  {
    if |s| > 0 {
      SeparatorIffPattern(s[1..]);
    }
    if |s| >= 3 && s[1] == ' ' && IsDelimiterPair(s[0], s[2]) {
      PatternListComplete(s[0], s[2]);
      var k :| 0 <= k < |PatternList| && PatternList[k] == Spaced(s[0], s[2]);
      StartsWithSpaced(s, s[0], s[2]);
      assert Contains(s, PatternList[k]);
    }
    if exists k :: 0 <= k < |PatternList| && Contains(s, PatternList[k]) {
      var k :| 0 <= k < |PatternList| && Contains(s, PatternList[k]);
      PatternShape(k);
      var p := PatternList[k];
      StartsWithSpaced(s, p[0], p[2]);
      if !StartsWith(s, p) {
        assert Contains(s[1..], p);
      }
    }
  }

  /** A text without separators is left as it is. */
  lemma {:induction false} UnspacedOfClean(s: string)
    requires !HasSeparator(s)
    ensures Unspaced(s) == s
    decreases |s|
  {
    if |s| > 0 {
      UnspacedOfClean(s[1..]);
    }
  }

  /** A text with a separator gets strictly shorter. */
  lemma {:induction false} UnspacedShrinks(s: string)
    requires HasSeparator(s)
    ensures |Unspaced(s)| < |s|
    decreases |s|
  {
    if !(s[1] == ' ' && IsDelimiterPair(s[0], s[2])) {
      UnspacedShrinks(s[1..]);
    } else {
      UnspacedNoLonger(s[2..]);
    }
  }

  lemma {:induction false} UnspacedNoLonger(s: string)
    ensures |Unspaced(s)| <= |s|
    decreases |s|
  {
    if |s| >= 3 && s[1] == ' ' && IsDelimiterPair(s[0], s[2]) {
      UnspacedNoLonger(s[2..]);
    } else if |s| > 0 {
      UnspacedNoLonger(s[1..]);
    }
  }

  /** The result keeps the first character. */
  lemma UnspacedHead(s: string)
    requires |s| > 0
    ensures |Unspaced(s)| > 0 && Unspaced(s)[0] == s[0]
  {
  }

  /** No separator survives. */
  lemma {:induction false} UnspacedIsClean(s: string)
    ensures !HasSeparator(Unspaced(s))
    decreases |s|
  {
    if |s| > 0 {
      var removed := |s| >= 3 && s[1] == ' ' && IsDelimiterPair(s[0], s[2]);
      var rest := if removed then s[2..] else s[1..];
      var u := Unspaced(rest);
      assert Unspaced(s) == [s[0]] + u;
      UnspacedIsClean(rest);
      assert ([s[0]] + u)[1..] == u;
      if |u| >= 2 {
        UnspacedHead(rest);
        if !removed && s[1] == ' ' {
          assert Unspaced(s[1..]) == [' '] + Unspaced(s[2..]);
          UnspacedHead(s[2..]);
        }
      }
    }
  }

  /** Applying the order-free description twice changes nothing more. */
  lemma UnspacedIdempotent(s: string)
    ensures Unspaced(Unspaced(s)) == Unspaced(s)
  {
    UnspacedIsClean(s);
    UnspacedOfClean(Unspaced(s));
  }

  /** Only spaces are removed; every other character stays, in order. */
  lemma {:induction false} UnspacedDropsOnlySpaces(s: string)
    ensures DropsOnlySpaces(s, Unspaced(s))
    decreases |s|
  {
    if |s| >= 3 && s[1] == ' ' && IsDelimiterPair(s[0], s[2]) {
      UnspacedDropsOnlySpaces(s[2..]);
      assert s[1..][1..] == s[2..];
      assert DropsOnlySpaces(s[1..], Unspaced(s[2..]));
      assert ([s[0]] + Unspaced(s[2..]))[1..] == Unspaced(s[2..]);
    } else if |s| > 0 {
      UnspacedDropsOnlySpaces(s[1..]);
      assert ([s[0]] + Unspaced(s[1..]))[1..] == Unspaced(s[1..]);
    }
  }

  // ---------------------------------------------------------------------
  // What the source promises about `replace_latex_space_seperator`

  /** None of the six spaced patterns is left in the result. */
  lemma ReplaceLeavesNoPattern(s: string)
    ensures forall k :: 0 <= k < |PatternList| ==> !Contains(ReplaceLatexSpaceSeparator(s), PatternList[k])
  {
    ReplaceLatexSpaceSeparatorIsUnspaced(s);
    UnspacedIsClean(s);
    SeparatorIffPattern(Unspaced(s));
  }

  /** Running it twice is the same as running it once. */
  lemma ReplaceIdempotent(s: string)
    ensures ReplaceLatexSpaceSeparator(ReplaceLatexSpaceSeparator(s)) == ReplaceLatexSpaceSeparator(s)
  {
    ReplaceLatexSpaceSeparatorIsUnspaced(s);
    ReplaceLatexSpaceSeparatorIsUnspaced(Unspaced(s));
    UnspacedIdempotent(s);
  }

  /** The text comes back unchanged exactly when it holds none of the patterns. */
  lemma ReplaceUnchangedIffClean(s: string)
    ensures ReplaceLatexSpaceSeparator(s) == s
        <==> forall k :: 0 <= k < |PatternList| ==> !Contains(s, PatternList[k])
  {
    ReplaceLatexSpaceSeparatorIsUnspaced(s);
    SeparatorIffPattern(s);
    if HasSeparator(s) {
      UnspacedShrinks(s);
    } else {
      UnspacedOfClean(s);
    }
  }

  /** Only space characters are deleted; everything else is kept in order. */
  lemma ReplaceDropsOnlySpaces(s: string)
    ensures DropsOnlySpaces(s, ReplaceLatexSpaceSeparator(s))
  {
    ReplaceLatexSpaceSeparatorIsUnspaced(s);
    UnspacedDropsOnlySpaces(s);
  }

  /** One `replace` pass is not enough when the pairs overlap, which is why
      the source loops. */
  lemma OnePassLeavesOverlap()
    ensures ReplaceAll("{ { {", "{ {", "{{") == "{{ {"
    ensures ReplaceLatexSpaceSeparator("{ { {") == "{{{"
  {
    var s := "{ { {";
    assert StartsWith(s, "{ {");
    assert s[3..] == " {";
    assert !StartsWith(" {", "{ {");
    assert " {"[1..] == "{";
    assert ReplaceAll("{", "{ {", "{{") == "{";
    assert ReplaceAll(" {", "{ {", "{{") == " {";
    ReplaceLatexSpaceSeparatorIsUnspaced(s);
    assert s[2..] == "{ {";
    assert "{ {"[2..] == "{";
    assert Unspaced("{") == "{";
    assert Unspaced("{ {") == "{{";
  }
}
