# latex2image `latex/utils.py` in Dafny

This project models the pure string logic in `latex2image/latex/utils.py` of the
latex2image Django service, and proves properties of it:

- **Error-log abstraction** (`get_abstract_latex_log`). When a LaTeX run fails, the
  service stores a short message instead of the whole log. The message is the text
  after the first fatal-error marker `"\n! "`. It stops at the next such marker or at
  TeX's memory-usage footer, whichever comes first. Blank lines and known boilerplate
  lines are dropped, and the rest is joined with `"\n"`. A log without the marker
  makes `log.split(...)[1]` raise `IndexError`.
- **Template-delimiter un-spacing** (`replace_latex_space_seperator`). LaTeX sources
  go through the Jinja template engine, so a `{{`, `}}`, `{#`, `#}`, `{%` or `%}` in the
  LaTeX has to be written with a space inside. Before compiling, six
  `while pattern in s: s = s.replace(...)` loops take those spaces out again.
- **The compiler/format allow-table** (`ALLOWED_COMPILER`,
  `ALLOWED_LATEX2IMG_FORMAT`, `ALLOWED_COMPILER_FORMAT_COMBINATION`), read as a
  membership predicate.

Files:

- `pystr.dfy` (module `PyStr`): the Python `str` builtins the code relies on, over
  `string`. These are `startswith`, `in`, `find`, `split(sep)`, `sep.join`,
  `replace`, `isspace`/`strip` and `splitlines`.
- `latex_log.dfy` (module `LatexLog`): the log abstraction and its error window.
- `space_separator.dfy` (module `SpaceSeparator`): the un-spacing loops and an
  order-free reference definition, `Unspaced`, that they are proved equal to.
- `compiler_table.dfy` (module `CompilerTable`): the allow-table.

`Unspaced` drops every space whose two neighbours in the original text form one of
the six delimiter pairs. The main theorem says the source's six loops compute exactly
that. Every other property of the un-spacing is proved on `Unspaced` and carried over.
These include: no pattern is left, idempotence, only spaces are removed, and the result
is unchanged exactly when the input is clean.

The error window is described by the predicate `LatexLog.ErrorWindow(log, lo, hi)`:

- `lo` is just after the first `"\n! "`;
- no marker and no footer starts in `[lo, hi)`;
- at `hi` one of them starts, or the log ends.

## Model

| member | source | states |
|---|---|---|
| LatexLog.GetAbstractLatexLog | latex2image/latex/utils.py:130-142 | The function fails with `IndexError` exactly when the log contains no `"\n! "`, and returns a message otherwise. |
| LatexLog.ErrorSegment | latex2image/latex/utils.py:133-134 | The segment is missing exactly when `find` does not locate the begin marker, i.e. when `split(...)[1]` has no field to index. |
| LatexLog.ErrorSegmentIsWindow | latex2image/latex/utils.py:120-121 | When the marker occurs, the segment is `log[lo..hi]` for a window starting right after the FIRST `"\n! "` and ending at the next `"\n! "`, the first footer, or the end, whichever comes first. |
| LatexLog.ErrorWindowUnique | latex2image/latex/utils.py:133-134 | A log has at most one error window, so the window is determined by the log. |
| LatexLog.CutPointSplit | latex2image/latex/utils.py:134 | `t.split("\n! ")[0].split(footer)[0]` is the prefix of `t` up to the cut point. |
| LatexLog.CutPointClear | latex2image/latex/utils.py:133-134 | Neither the begin marker nor the footer starts before the cut point, and one of them starts at it unless it is the end of the text. |
| LatexLog.KeptLines | latex2image/latex/utils.py:137-141 | Every line the generator keeps starts with no omitted prefix and is not blank after `strip()`. |
| LatexLog.KeepLine | latex2image/latex/utils.py:139-141 | A line survives exactly when it starts with none of the omitted prefixes and holds at least one non-whitespace character. |
| LatexLog.KeptLinesCount | latex2image/latex/utils.py:137-141 | A surviving line occurs among the kept lines exactly as often as among the input lines, and a dropped line never occurs there. |
| LatexLog.KeptLinesComplete | latex2image/latex/utils.py:138-141 | Every input line that passes the filter is among the kept lines. |
| LatexLog.KeptLinesFrom | latex2image/latex/utils.py:138 | Every kept line is one of the input lines. |
| LatexLog.KeptLinesOrdered | latex2image/latex/utils.py:137-138 | The kept lines are a subsequence of the input lines, in their original order. |
| LatexLog.AbstractLogLines | latex2image/latex/utils.py:133-141 | The message is the filtered lines of the error window joined with `"\n"`, and its `splitlines()` are exactly those lines, unedited and in order. Text outside the window never reaches the message. |
| LatexLog.AbstractLogClean | latex2image/latex/utils.py:122-141 | No line of the message starts with "See the LaTeX manual or LaTeX", "Type  H <return>  for" or " ...", and no line is blank. The message has no newline at either end and contains no `"\n\n"`. |
| LatexLog.KeptMessageShape | latex2image/latex/utils.py:137-141 | Filtering break-free lines and joining them with `"\n"` gives a text whose `splitlines()` returns exactly the kept lines, with no newline at either end and no empty line. |
| LatexLog.TwoErrorsExample | latex2image/latex/utils.py:130-142 | On a log with two error blocks, the message is the first block with its whitespace-only line and its boilerplate line removed. A log starting with `"! "` but with no `"\n! "` gives `IndexError`. |
| SpaceSeparator.ReplaceLatexSpaceSeparator | latex2image/latex/utils.py:160-180 | The result is never longer than the input. |
| SpaceSeparator.CollapseWhilePresent | latex2image/latex/utils.py:177-178 | One `while pattern in s` loop stops, never lengthens the text, and ends with the pattern absent. |
| SpaceSeparator.ApplyPatternsFrom | latex2image/latex/utils.py:176-178 | The `for` loop over the patterns from index `m` on never lengthens the text. Its exact result is given by `ApplyPatternsSpec`. |
| SpaceSeparator.ReplaceLatexSpaceSeparatorIsUnspaced | latex2image/latex/utils.py:168-178 | The six loops, run in the source's order, give exactly `Unspaced(s)`: every space between the two characters of a delimiter pair in the input is removed, and nothing else. |
| SpaceSeparator.CollapseWhilePresentSpec | latex2image/latex/utils.py:177-178 | One `while` loop ends with its pattern absent. It does not change `Unspaced` of the text, and it creates none of the six patterns that were not already present. |
| SpaceSeparator.ApplyPatternsSpec | latex2image/latex/utils.py:176-178 | Running the loops from pattern `m` on a text free of the earlier patterns gives `Unspaced` of the text. |
| SpaceSeparator.ReplaceCreatesNoPattern | latex2image/latex/utils.py:177-178 | Collapsing one pattern never creates an occurrence of any spaced pattern, so a later loop cannot re-create an earlier pattern. |
| SpaceSeparator.ReplaceLeavesNoPattern | latex2image/latex/utils.py:168-178 | The output contains none of `{ {`, `} }`, `{ #`, `# }`, `{ %`, `% }`. |
| SpaceSeparator.ReplaceIdempotent | latex2image/latex/utils.py:176-178 | Applying the function twice gives the same result as applying it once. |
| SpaceSeparator.ReplaceUnchangedIffClean | latex2image/latex/utils.py:176-178 | The input comes back unchanged exactly when it contains none of the six patterns. |
| SpaceSeparator.ReplaceDropsOnlySpaces | latex2image/latex/utils.py:176-178 | The output is the input with some space characters deleted. |
| SpaceSeparator.UnspacedShrinks | latex2image/latex/utils.py:177-178 | Un-spacing a text that holds a spaced pair makes it strictly shorter, so the function removes at least one character whenever a pattern is present. |
| SpaceSeparator.SeparatorIffPattern | latex2image/latex/utils.py:168-175 | A text has a space between a delimiter pair exactly when it contains one of the six listed patterns. |
| SpaceSeparator.PatternListComplete | latex2image/latex/utils.py:168-175 | Every delimiter pair the template engine reserves has its spaced form in the pattern list. |
| SpaceSeparator.OnePassLeavesOverlap | latex2image/latex/utils.py:177-178 | A single `replace` of `{ {` on `{ { {` leaves `{{ {`, so the `while` loop is needed. The full function gives `{{{`. |
| SpaceSeparator.UnspacedIdempotent | latex2image/latex/utils.py:176-178 | The reference definition is idempotent. |
| CompilerTable.IsAllowedCombination | latex2image/latex/utils.py:44-52 | A compiler/format pair is allowed exactly when it is latex with png or svg, or xelatex with png. Every allowed pair names an allowed compiler and an allowed format. |
| CompilerTable.TablesAsSets | latex2image/latex/utils.py:44-52 | Read as sets, the tables hold two compilers, two formats and three distinct combinations. |
| CompilerTable.XelatexSvgNotAllowed | latex2image/latex/utils.py:44-52 | (latex, svg) is allowed, (xelatex, svg) is not, though xelatex and svg are each allowed on their own. |
| PyStr.StartsWithAny | latex2image/latex/utils.py:139 | `line.startswith(prefixes)`, trying the prefixes in turn, holds exactly when one of them is a prefix of the line. |
| PyStr.IndexOf | latex2image/latex/utils.py:133 | When `find` succeeds, the whole pattern fits in the text from the index returned. |
| PyStr.IndexOfSpec | latex2image/latex/utils.py:133 | `find` fails exactly when the pattern does not occur, and otherwise the pattern starts at the index returned. |
| PyStr.IndexOfIsFirst | latex2image/latex/utils.py:133 | `find` returns the first occurrence. |
| PyStr.Split | latex2image/latex/utils.py:133-134 | `s.split(sep)` always has at least one field, so `split(...)[0]` never raises. |
| PyStr.JoinEnds | latex2image/latex/utils.py:137 | `sep.join(xs)` of a non-empty list starts with the first element and ends with the last. |
| PyStr.SplitHasSecondField | latex2image/latex/utils.py:133 | `s.split(sep)` has a field at index 1 exactly when `sep in s`. |
| PyStr.JoinSplit | latex2image/latex/utils.py:133-134 | Joining the fields of `s.split(sep)` with `sep` gives back `s`. |
| PyStr.SplitFieldsFree | latex2image/latex/utils.py:133-134 | No field of `s.split(sep)` contains `sep`. |
| PyStr.ReplaceAll | latex2image/latex/utils.py:178 | `replace` with a replacement no longer than the pattern never lengthens the text. |
| PyStr.ReplaceAllIsJoinOfSplit | latex2image/latex/utils.py:178 | `s.replace(pat, rep)` equals `rep.join(s.split(pat))`. |
| PyStr.ReplaceAllEffect | latex2image/latex/utils.py:177-178 | `replace` changes nothing when the pattern is absent. With a shorter replacement and an occurrence, it makes the text strictly shorter. |
| PyStr.LStrip | latex2image/latex/utils.py:141 | `lstrip()` removes exactly the leading whitespace. |
| PyStr.RStrip | latex2image/latex/utils.py:141 | `rstrip()` removes exactly the trailing whitespace. |
| PyStr.Strip | latex2image/latex/utils.py:141 | `strip()` never lengthens the text, and the result neither starts nor ends with whitespace. |
| PyStr.StripEmptyIffAllSpace | latex2image/latex/utils.py:141 | `line.strip() == ""` exactly when every character of the line is whitespace. |
| PyStr.SplitLines | latex2image/latex/utils.py:138 | No line produced by `splitlines()` holds a line boundary, and the result is empty exactly when the text is. |
| PyStr.SplitLinesOfJoin | latex2image/latex/utils.py:137-138 | Non-empty, break-free lines joined with `"\n"` split back into the same lines. |
| PyStr.JoinSplitLines | latex2image/latex/utils.py:137-138 | The converse: when every line boundary of a text is `"\n"` and the text does not end with one, joining its `splitlines()` with `"\n"` gives the text back. |

## Left out

- `popen_wrapper` (latex2image/latex/utils.py:64-92): it spawns a process and decodes its output by platform locale. That is operating-system I/O with no pure contract.
- `file_read` and `file_write` (latex2image/latex/utils.py:99-113): file I/O through Django's `File`.
- `get_all_indirect_subclasses` (latex2image/latex/utils.py:147-157): runtime reflection over Python's class hierarchy, deduplicated through a `set` with no defined order.
- `string_concat` (latex2image/latex/utils.py:57-59) and `CriticalCheckMessage` (latex2image/latex/utils.py:183-187): thin wrappers over Django's lazy formatting and checks framework.
- `latex2image/latex2image/settings.py` and the migrations: these hold configuration read from the environment and a database schema, not logic.
- The compilation pipeline, the result cache and its locking are not part of this model. `utils.py` only supplies the helpers above to them.
- `PyStr.ReplaceAll`: it requires a non-empty pattern. Python's `replace` with an empty pattern inserts the replacement between all characters, but the source never calls it that way.
- `PyStr.Split`: it requires a non-empty separator. Python raises `ValueError` on an empty one, but the source's separators are non-empty constants.
- `PyStr.IsSpace` and `PyStr.IsLineBreak` list Python 3's whitespace and line-boundary characters as fixed sets. They are not derived from the Unicode database.
- Python's `str` holds code points, including lone surrogates. Dafny's `string` holds Unicode scalar values, so lone surrogates are not modelled.
