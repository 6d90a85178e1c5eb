/**
 `get_abstract_latex_log`: cuts the human-readable error out of a LaTeX
 compilation log. The text after the first fatal-error marker `"\n! "` is
 taken up to the next such marker or the memory-usage footer, whichever
 comes first; blank lines and known boilerplate lines are dropped and the
 rest is joined with `"\n"`.
 */
module LatexLog {
  import opened PyStr

  /** `LATEX_ERR_LOG_BEGIN_LINE_STARTS`: a fatal error line starts with `! `. */
  const ErrLogBegin: string := "\n! "
  /** `LATEX_ERR_LOG_END_LINE_STARTS`: the footer every LaTeX run prints. */
  const ErrLogEnd: string := "\nHere is how much of TeX's memory"
  /** `LATEX_LOG_OMIT_LINE_STARTS`. */
  const OmitLineStarts: seq<string> := ["See the LaTeX manual or LaTeX", "Type  H <return>  for", " ..."]

  /** The outcome of `get_abstract_latex_log`: the message, or the
      `IndexError` that `log.split(...)[1]` raises when the marker is absent. */
  datatype AbstractLog = Abstracted(msg: string) | IndexError

  /** `log.split(ErrLogBegin)[1].split(ErrLogEnd)[0]`, or `None` where the
      indexing raises: exactly when `log.find(ErrLogBegin)` fails. */
  function ErrorSegment(log: string): (seg: Option<string>)
    ensures seg.None? <==> IndexOf(log, ErrLogBegin).None?
  {
    var fields := Split(log, ErrLogBegin);
    if |fields| < 2 then None
    else Some(Split(fields[1], ErrLogEnd)[0])
  }

  /** A line survives unless it starts with an omitted prefix or is blank
      (`line.strip() == ""`): it survives exactly when it starts with no
      omitted prefix and holds a non-whitespace character. */
  predicate KeepLine(line: string): (keep: bool)
    ensures keep <==> !StartsWithAny(line, OmitLineStarts) && exists i :: 0 <= i < |line| && !IsSpace(line[i])
  {
    StripEmptyIffAllSpace(line);
    !StartsWithAny(line, OmitLineStarts) && Strip(line) != ""
  }

  /** `xs` is `ys` with some elements deleted, the rest kept in order. */
  predicate IsSubsequence<T(==)>(xs: seq<T>, ys: seq<T>)
    decreases |ys|
  {
    if |xs| == 0 then true
    else if |ys| == 0 then false
    else (xs[0] == ys[0] && IsSubsequence(xs[1..], ys[1..])) || IsSubsequence(xs, ys[1..])
  }

  /** The generator `line for line in lines if KeepLine(line)`. */
  function KeptLines(lines: seq<string>): (kept: seq<string>)
    ensures |kept| <= |lines|
    ensures forall i :: 0 <= i < |kept| ==> KeepLine(kept[i])
    decreases |lines|
  {
    if |lines| == 0 then []
    else if KeepLine(lines[0]) then [lines[0]] + KeptLines(lines[1..])
    else KeptLines(lines[1..])
  }

  /** No surviving line is lost. */
  lemma KeptLinesComplete(lines: seq<string>)
    ensures forall i :: 0 <= i < |lines| && KeepLine(lines[i]) ==> lines[i] in KeptLines(lines)
  {
    forall i | 0 <= i < |lines| && KeepLine(lines[i])
      ensures lines[i] in KeptLines(lines)
    {
      KeptLinesCount(lines, lines[i]);
      assert lines[i] in multiset(lines);
    }
  }

  /** Every occurrence of a surviving line is kept, and no occurrence of a
      dropped one: the kept lines count each line exactly as often as the
      input does when it survives, and never otherwise. */
  lemma {:induction false} KeptLinesCount(lines: seq<string>, l: string)
    ensures KeepLine(l) ==> multiset(KeptLines(lines))[l] == multiset(lines)[l]
    ensures !KeepLine(l) ==> multiset(KeptLines(lines))[l] == 0
    decreases |lines|
  {
    if |lines| > 0 {
      var x := lines[0];
      var rest := KeptLines(lines[1..]);
      KeptLinesCount(lines[1..], l);
      assert lines == [x] + lines[1..];
      assert multiset(lines) == multiset{x} + multiset(lines[1..]);
      assert multiset{x}[l] == if x == l then 1 else 0;
      if KeepLine(x) {
        assert KeptLines(lines) == [x] + rest;
        assert multiset(KeptLines(lines)) == multiset{x} + multiset(rest);
      } else {
        assert KeptLines(lines) == rest;
      }
    }
  }

  /** The surviving lines keep their order. */
  lemma {:induction false} KeptLinesOrdered(lines: seq<string>)
    ensures IsSubsequence(KeptLines(lines), lines)
    decreases |lines|
  {
    if |lines| > 0 {
      KeptLinesOrdered(lines[1..]);
      if KeepLine(lines[0]) {
        assert ([lines[0]] + KeptLines(lines[1..]))[1..] == KeptLines(lines[1..]);
      }
    }
  }

  /** `get_abstract_latex_log(log)`. */
  function GetAbstractLatexLog(log: string): (r: AbstractLog)
    ensures r.IndexError? <==> !Contains(log, ErrLogBegin)
  {
    IndexOfSpec(log, ErrLogBegin);
    match ErrorSegment(log)
    case None => IndexError
    case Some(msg) =>
      if |OmitLineStarts| > 0 then Abstracted(Join("\n", KeptLines(SplitLines(msg))))
      else Abstracted(msg)
  }

  // ---------------------------------------------------------------------
  // The window the message is cut from

  /** `log[lo..hi]` is the error window: `lo` is just after the FIRST
      `"\n! "`, and `hi` is the first position from `lo` on where another
      `"\n! "` or the memory footer starts (or the end of the log). */
  predicate ErrorWindow(log: string, lo: nat, hi: nat) {
    && |ErrLogBegin| <= lo <= hi <= |log|
    && StartsWith(log[lo - |ErrLogBegin|..], ErrLogBegin)
    && (forall p :: 0 <= p < lo - |ErrLogBegin| ==> !StartsWith(log[p..], ErrLogBegin))
    && (forall p :: lo <= p < hi ==> !StartsWith(log[p..], ErrLogBegin) && !StartsWith(log[p..], ErrLogEnd))
    && (hi == |log| || StartsWith(log[hi..], ErrLogBegin) || StartsWith(log[hi..], ErrLogEnd))
  }

  /** A log has at most one error window. */
  lemma ErrorWindowUnique(log: string, lo: nat, hi: nat, lo': nat, hi': nat)
    requires ErrorWindow(log, lo, hi) && ErrorWindow(log, lo', hi')
    ensures lo == lo' && hi == hi'
  {
  }

  /** Index of the first occurrence of `p`, or the length when there is none. */
  function FirstOrEnd(s: string, p: string): (k: nat)
    ensures k <= |s|
  {
    match IndexOf(s, p)
    case None => |s|
    case Some(i) => i
  }

  /** `p` starts at no position before `FirstOrEnd(s, p)`, and at that
      position unless it is the end. */
  lemma FirstOrEndSpec(s: string, p: string)
    ensures forall q :: 0 <= q < FirstOrEnd(s, p) ==> !StartsWith(s[q..], p)
    ensures FirstOrEnd(s, p) == |s| || StartsWith(s[FirstOrEnd(s, p)..], p)
  {
    IndexOfSpec(s, p);
    match IndexOf(s, p)
    case None =>
      forall q | 0 <= q < |s| ensures !StartsWith(s[q..], p) {
        if StartsWith(s[q..], p) {
          ContainsAt(s, p, q);
        }
      }
    case Some(i) =>
      IndexOfIsFirst(s, p);
  }

  /** `s.split(p)[0]` is the text before `FirstOrEnd(s, p)`. */
  lemma FirstOrEndSplit(s: string, p: string)
    requires |p| > 0
    ensures Split(s, p)[0] == s[..FirstOrEnd(s, p)]
  {
    match IndexOf(s, p)
    case None =>
      assert s[..|s|] == s;
    case Some(i) =>
      SplitUnfold(s, p, i);
  }

  /** The footer marker holds a line break only at its start, so it cannot
      begin before a `"\n! "` and run into it. */
  lemma EndMarkerSingleBreak()
    ensures forall d :: 0 < d < |ErrLogEnd| ==> ErrLogEnd[d] != '\n'
  {
  }

  /** A prefix that starts with `p` makes the whole string start with `p`,
      and a long enough prefix starts with `p` when the whole does. */
  lemma StartsWithThroughPrefix(x: string, y: string, p: string)
    requires |x| <= |y| && x == y[..|x|]
    ensures StartsWith(x, p) ==> StartsWith(y, p)
    ensures |p| <= |x| && StartsWith(y, p) ==> StartsWith(x, p)
  {
    if StartsWith(x, p) {
      assert y[..|p|] == x[..|p|];
    }
    if |p| <= |x| && StartsWith(y, p) {
      assert y[..|p|] == x[..|p|];
    }
  }

  /** In the text `t` after the first marker, the source keeps `t[..m]`,
      where `m` is the first position at which a marker or the footer starts. */
  function CutPoint(t: string): (m: nat)
    ensures m <= |t|
  {
    FirstOrEnd(t[..FirstOrEnd(t, ErrLogBegin)], ErrLogEnd)
  }

  /** `t.split(ErrLogBegin)[0].split(ErrLogEnd)[0]` ends at the cut point. */
  lemma CutPointSplit(t: string)
    ensures Split(Split(t, ErrLogBegin)[0], ErrLogEnd)[0] == t[..CutPoint(t)]
  {
    var f := t[..FirstOrEnd(t, ErrLogBegin)];
    FirstOrEndSplit(t, ErrLogBegin);
    FirstOrEndSplit(f, ErrLogEnd);
    assert f[..CutPoint(t)] == t[..CutPoint(t)];
  }

  /** Neither marker starts before the cut point, and one starts at it
      unless it is the end. */
  lemma CutPointClear(t: string)
    ensures forall q :: 0 <= q < CutPoint(t) ==> !StartsWith(t[q..], ErrLogBegin) && !StartsWith(t[q..], ErrLogEnd)
    ensures CutPoint(t) == |t| || StartsWith(t[CutPoint(t)..], ErrLogBegin) || StartsWith(t[CutPoint(t)..], ErrLogEnd)
  {
    FirstOrEndSpec(t, ErrLogBegin);
    var k := FirstOrEnd(t, ErrLogBegin);
    var f := t[..k];
    FirstOrEndSpec(f, ErrLogEnd);
    var m := CutPoint(t);
    forall q | 0 <= q < m
      ensures !StartsWith(t[q..], ErrLogEnd)
    {
      NoEndAcrossBoundary(t, k, q);
    }
    if m < |f| {
      assert f[m..] == t[m..][..|f| - m];
      StartsWithThroughPrefix(f[m..], t[m..], ErrLogEnd);
    }
  }

  /** Inside the text before a marker (or the end), a footer that does not fit
      entirely cannot start either. */
  lemma NoEndAcrossBoundary(t: string, k: nat, q: nat)
    requires q < k <= |t|
    requires k == |t| || StartsWith(t[k..], ErrLogBegin)
    requires !StartsWith(t[..k][q..], ErrLogEnd)
    ensures !StartsWith(t[q..], ErrLogEnd)
  {
    var f := t[..k];
    assert f[q..] == t[q..][..k - q];
    if StartsWith(t[q..], ErrLogEnd) {
      StartsWithThroughPrefix(f[q..], t[q..], ErrLogEnd);
      if k < |t| {
        assert t[k..][0] == '\n';
        assert t[q..][k - q] == t[k];
        EndMarkerSingleBreak();
      }
    }
  }

  /** The segment the source cuts out is exactly the error window. */
  lemma ErrorSegmentIsWindow(log: string)
    requires Contains(log, ErrLogBegin)
    ensures exists lo: nat, hi: nat {:trigger ErrorWindow(log, lo, hi)} :: ErrorWindow(log, lo, hi) && ErrorSegment(log) == Some(log[lo..hi])
  {
    IndexOfSpec(log, ErrLogBegin);
    WindowAt(log, IndexOf(log, ErrLogBegin).value);
  }

  /** The window, starting after the marker that `find` located at `i`. */
  lemma WindowAt(log: string, i: nat)
    requires IndexOf(log, ErrLogBegin) == Some(i)
    ensures exists lo: nat, hi: nat {:trigger ErrorWindow(log, lo, hi)} :: ErrorWindow(log, lo, hi) && ErrorSegment(log) == Some(log[lo..hi])
  {
    SegmentAtCut(log, i);
    WindowFromCut(log, i);
  }

  /** The segment runs from just after the first marker to the cut point. */
  lemma SegmentAtCut(log: string, i: nat)
    requires IndexOf(log, ErrLogBegin) == Some(i)
    ensures var lo := i + |ErrLogBegin|; ErrorSegment(log) == Some(log[lo..lo + CutPoint(log[lo..])])
  {
    var lo := i + |ErrLogBegin|;
    ErrorSegmentAt(log, i);
    CutPointSplit(log[lo..]);
    SuffixSlices(log, lo, CutPoint(log[lo..]));
  }

  /** The segment is the first field of what follows the first marker. */
  lemma ErrorSegmentAt(log: string, i: nat)
    requires IndexOf(log, ErrLogBegin) == Some(i)
    ensures ErrorSegment(log) == Some(Split(Split(log[i + |ErrLogBegin|..], ErrLogBegin)[0], ErrLogEnd)[0])
  {
    SplitUnfold(log, ErrLogBegin, i);
  }

  /** From just after the first marker to the cut point is the error window. */
  lemma WindowFromCut(log: string, i: nat)
    requires IndexOf(log, ErrLogBegin) == Some(i)
    ensures var lo := i + |ErrLogBegin|; ErrorWindow(log, lo, lo + CutPoint(log[lo..]))
  {
    var lo := i + |ErrLogBegin|;
    var t := log[lo..];
    var m := CutPoint(t);
    CutPointClear(t);
    SuffixSlices(log, lo, m);
    forall p | lo <= p < lo + m
      ensures !StartsWith(log[p..], ErrLogBegin) && !StartsWith(log[p..], ErrLogEnd)
    {
      assert t[p - lo..] == log[p..];
    }
    assert t[m..] == log[lo + m..];
    IndexOfSpec(log, ErrLogBegin);
    IndexOfIsFirst(log, ErrLogBegin);
    assert log[lo - |ErrLogBegin|..] == log[i..];
  }

  /** Slices of `s[lo..]` read back as slices of `s`. */
  lemma SuffixSlices(s: string, lo: nat, m: nat)
    requires lo + m <= |s|
    ensures s[lo..][..m] == s[lo..lo + m]
    ensures forall q :: 0 <= q <= |s| - lo ==> s[lo..][q..] == s[lo + q..]
  {
  }

  // ---------------------------------------------------------------------
  // The lines of the message

  /** A line that survives is not empty. */
  lemma KeptLineNonEmpty(line: string)
    requires KeepLine(line)
    ensures |line| > 0
  {
  }

  /** Joining non-empty, break-free lines with `"\n"` puts no line break at
      either end and never two line breaks in a row. */
  lemma {:induction false} JoinedLinesShape(lines: seq<string>)
    requires forall i :: 0 <= i < |lines| ==> |lines[i]| > 0 && NoLineBreak(lines[i])
    ensures var j := Join("\n", lines);
      && (|j| > 0 ==> !IsLineBreak(j[0]) && !IsLineBreak(j[|j| - 1]))
      && (forall i :: 0 <= i < |j| - 1 && IsLineBreak(j[i]) ==> !IsLineBreak(j[i + 1]))
    decreases |lines|
  {
    if |lines| > 1 {
      var l := lines[0];
      var rest := Join("\n", lines[1..]);
      JoinCons("\n", l, lines[1..]);
      assert lines == [l] + lines[1..];
      JoinedLinesShape(lines[1..]);
      var j := l + "\n" + rest;
      assert |rest| > 0 by {
        assert |lines[1..][0]| > 0;
        JoinNonEmpty(lines[1..]);
      }
      forall i | 0 <= i < |j| - 1 && IsLineBreak(j[i])
        ensures !IsLineBreak(j[i + 1])
      {
        if i == |l| {
          assert j[i + 1] == rest[0];
        } else if i > |l| {
          assert j[i] == rest[i - |l| - 1];
          assert j[i + 1] == rest[i - |l|];
        }
      }
      assert j[|j| - 1] == rest[|rest| - 1];
      assert j[0] == l[0];
    }
  }

  /** Joining lines whose first one is non-empty gives a non-empty text. */
  lemma JoinNonEmpty(lines: seq<string>)
    requires |lines| > 0 && |lines[0]| > 0
    ensures |Join("\n", lines)| > 0
  {
  }

  /** `"\n\n" in s` means two adjacent newlines. */
  lemma DoubleNewlineAt(s: string)
    requires Contains(s, "\n\n")
    ensures exists i :: 0 <= i < |s| - 1 && s[i] == '\n' && s[i + 1] == '\n'
  {
    IndexOfSpec(s, "\n\n");
    var k := IndexOf(s, "\n\n").value;
    assert s[k..][..2] == "\n\n";
    assert s[k] == '\n' && s[k + 1] == '\n';
  }

  /** The message consists exactly of the surviving lines of the error window,
      in their original order and unedited. */
  lemma AbstractLogLines(log: string)
    requires GetAbstractLatexLog(log).Abstracted?
    ensures var msg := GetAbstractLatexLog(log).msg;
      exists lo: nat, hi: nat {:trigger ErrorWindow(log, lo, hi)} :: ErrorWindow(log, lo, hi)
        && msg == Join("\n", KeptLines(SplitLines(log[lo..hi])))
        && SplitLines(msg) == KeptLines(SplitLines(log[lo..hi]))
  {
    ErrorSegmentIsWindow(log);
    var lo: nat, hi: nat :| ErrorWindow(log, lo, hi) && ErrorSegment(log) == Some(log[lo..hi]);
    KeptMessageShape(SplitLines(log[lo..hi]));
  }

  /** A kept line is one of the input lines. */
  lemma {:induction false} KeptLinesFrom(lines: seq<string>, line: string)
    requires line in KeptLines(lines)
    ensures line in lines
    decreases |lines|
  {
    if KeepLine(lines[0]) && line == lines[0] {
    } else {
      KeptLinesFrom(lines[1..], line);
    }
  }

  /** Every line of the message is non-blank and starts with none of the
      omitted prefixes; the message has no newline at either end and no
      empty line in the middle. */
  lemma AbstractLogClean(log: string)
    requires GetAbstractLatexLog(log).Abstracted?
    ensures var msg := GetAbstractLatexLog(log).msg;
      && (forall i :: 0 <= i < |SplitLines(msg)| ==>
            !StartsWithAny(SplitLines(msg)[i], OmitLineStarts) && Strip(SplitLines(msg)[i]) != "")
      && (|msg| > 0 ==> msg[0] != '\n' && msg[|msg| - 1] != '\n')
      && !Contains(msg, "\n\n")
  {
    KeptMessageShape(SplitLines(ErrorSegment(log).value));
  }

  /** Break-free lines, filtered and joined with `"\n"`, split back into the
      kept lines; the text has no line break at either end and no empty line. */
  lemma KeptMessageShape(lines: seq<string>)
    requires forall i :: 0 <= i < |lines| ==> NoLineBreak(lines[i])
    ensures var msg := Join("\n", KeptLines(lines));
      && SplitLines(msg) == KeptLines(lines)
      && (|msg| > 0 ==> msg[0] != '\n' && msg[|msg| - 1] != '\n')
      && !Contains(msg, "\n\n")
  {
    var kept := KeptLines(lines);
    forall i | 0 <= i < |kept| ensures |kept[i]| > 0 && NoLineBreak(kept[i]) {
      KeptLineNonEmpty(kept[i]);
      KeptLinesFrom(lines, kept[i]);
    }
    SplitLinesOfJoin(kept);
    JoinedLinesShape(kept);
    var msg := Join("\n", kept);
    if Contains(msg, "\n\n") {
      DoubleNewlineAt(msg);
    }
  }

  /** The example log's error segment stops at the second marker. */
  lemma ExampleSegment()
    ensures ErrorSegment("a\n! E.\n \n ...\n\n! N") == Some("E.\n \n ...\n")
  {
    var log := "a\n! E.\n \n ...\n\n! N";
    var t := "E.\n \n ...\n\n! N";
    var seg := "E.\n \n ...\n";
    ExampleFirstMarker();
    ErrorSegmentAt(log, 1);
    assert log[1 + |ErrLogBegin|..] == t;
    ExampleSecondMarker();
    SplitUnfold(t, ErrLogBegin, 10);
    assert t[..10] == seg;
    assert IndexOf(seg, ErrLogEnd) == None;
  }

  lemma ExampleFirstMarker()
    ensures IndexOf("a\n! E.\n \n ...\n\n! N", ErrLogBegin) == Some(1)
  {
    var log := "a\n! E.\n \n ...\n\n! N";
    assert log[0] != '\n';
    assert log[1..][..3] == ErrLogBegin;
    IndexOfAt(log, ErrLogBegin, 1);
  }

  lemma ExampleSecondMarker()
    ensures IndexOf("E.\n \n ...\n\n! N", ErrLogBegin) == Some(10)
  {
    var t := "E.\n \n ...\n\n! N";
    forall j | 0 <= j < 10 ensures !StartsWith(t[j..], ErrLogBegin) {
      assert t[j] != '\n' || t[j + 1] != '!';
      assert t[j..][0] == t[j] && t[j..][1] == t[j + 1];
    }
    assert t[10..][..3] == ErrLogBegin;
    IndexOfAt(t, ErrLogBegin, 10);
  }

  /** The example segment's lines: the error, a blank line and boilerplate. */
  lemma ExampleLines()
    ensures SplitLines("E.\n \n ...\n") == ["E.", " ", " ..."]
  {
    var tail := " \n ...\n";
    ExampleTailLines();
    assert NoLineBreak("E.") by {
      assert !IsLineBreak('E') && !IsLineBreak('.');
    }
    ExampleText();
    SplitLinesOfLine("E.", tail);
  }

  lemma ExampleText()
    ensures "E.\n \n ...\n" == "E." + "\n" + " \n ...\n"
  {
  }

  lemma ExampleTailLines()
    ensures SplitLines(" \n ...\n") == [" ", " ..."]
  {
    assert !IsLineBreak('.') && !IsLineBreak(' ');
    assert " \n ...\n" == " " + "\n" + " ..." + "\n";
    SplitLinesTwo(" ", " ...");
  }

  /** Of the example's lines, the blank one and the boilerplate one are dropped. */
  lemma ExampleKept()
    ensures KeptLines(["E.", " ", " ..."]) == ["E."]
  {
    ExampleKeepLine();
    assert ["E.", " ", " ..."][1..] == [" ", " ..."];
    assert [" ", " ..."][1..] == [" ..."];
    assert [" ..."][1..] == [];
  }

  lemma ExampleKeepLine()
    ensures KeepLine("E.") && !KeepLine(" ") && !KeepLine(" ...")
  {
    assert StartsWith(" ...", OmitLineStarts[2]);
    assert !IsSpace('E') && " "[0] == ' ';
    assert forall k :: 0 <= k < |OmitLineStarts| ==> |OmitLineStarts[k]| > |"E."|;
  }

  /** A log with two error blocks: the message is the first block alone,
      with its blank line and its boilerplate line gone; a log without the
      marker gives the index error. */
  lemma TwoErrorsExample()
    ensures GetAbstractLatexLog("a\n! E.\n \n ...\n\n! N") == Abstracted("E.")
    ensures GetAbstractLatexLog("! E.") == IndexError
  {
    ExampleSegment();
    ExampleLines();
    ExampleKept();
    assert Join("\n", ["E."]) == "E.";
    NoBeginInShortLog();
  }

  /** `"! "` at the very start of the log is not preceded by a newline, so
      it is not the marker and the split has no second field. */
  lemma NoBeginInShortLog()
    ensures GetAbstractLatexLog("! E.") == IndexError
  {
    assert "! E."[..3][0] != ErrLogBegin[0] && "! E."[1..] == " E.";
    assert " E."[..3][0] != ErrLogBegin[0] && " E."[1..] == "E.";
    assert "E."[1..] == "." && "."[1..] == "";
    assert IndexOf("! E.", ErrLogBegin) == None;
    IndexOfSpec("! E.", ErrLogBegin);
  }
}
