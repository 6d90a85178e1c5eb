/**
 The compiler and image-format tables of `latex/utils.py`, kept literally:
 `ALLOWED_COMPILER` lists "xelatex" twice and the combination table lists
 ("xelatex", "png") twice while ("xelatex", "svg") is absent. Only
 membership is ever asked of them, so they are read as sets.
 */
module CompilerTable {

  /** `ALLOWED_COMPILER`. */
  const AllowedCompiler: seq<string> := ["latex", "xelatex", "xelatex"]
  /** `ALLOWED_LATEX2IMG_FORMAT`. */
  const AllowedLatex2ImgFormat: seq<string> := ["png", "svg"]
  /** `ALLOWED_COMPILER_FORMAT_COMBINATION`. */
  const AllowedCompilerFormatCombination: seq<(string, string)> :=
    [("latex", "png"), ("latex", "svg"), ("xelatex", "png"), ("xelatex", "png")]

  /** `(compiler, format) in ALLOWED_COMPILER_FORMAT_COMBINATION`: latex may
      produce png or svg, xelatex only png. Every allowed pair names an
      allowed compiler and an allowed format. */
  function IsAllowedCombination(compiler: string, format: string): (ok: bool)
    ensures ok <==>
      || (compiler == "latex" && (format == "png" || format == "svg"))
      || (compiler == "xelatex" && format == "png")
    ensures ok ==> compiler in AllowedCompiler && format in AllowedLatex2ImgFormat
  {
    (compiler, format) in AllowedCompilerFormatCombination
  }

  /** The duplicates collapse: two compilers, two formats, three combinations. */
  lemma TablesAsSets()
    ensures (set c | c in AllowedCompiler) == {"latex", "xelatex"}
    ensures (set f | f in AllowedLatex2ImgFormat) == {"png", "svg"}
    ensures |set p | p in AllowedCompilerFormatCombination| == 3
  {
    var combos := set p | p in AllowedCompilerFormatCombination;
    assert combos == {("latex", "png"), ("latex", "svg"), ("xelatex", "png")};
  }

  /** svg output is allowed with latex but not with xelatex, although both
      the compiler and the format are allowed on their own. */
  lemma XelatexSvgNotAllowed()
    ensures IsAllowedCombination("latex", "svg")
    ensures !IsAllowedCombination("xelatex", "svg")
    ensures "xelatex" in AllowedCompiler && "svg" in AllowedLatex2ImgFormat
  {
  }
}
