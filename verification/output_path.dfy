/** The output path chosen on the command line: the extension of the
    selected format is appended unless the path already ends with it. */
module OutputPath {
  import opened Text

  datatype Format = Pdf | Html | Md

  function Extension(f: Format): (e: string)
    ensures |e| > 1 && e[0] == '.'
  {
    match f
    case Pdf => ".pdf"
    case Html => ".html"
    case Md => ".md"
  }

  /** `if not output.endswith(ext): output += ext`. The result keeps the
      given path as its prefix, ends with the extension, and differs from
      the path exactly when the path lacked the extension. */
  function Normalise(path: string, f: Format): (r: string)
    ensures path <= r && EndsWith(r, Extension(f))
    ensures |r| <= |path| + |Extension(f)|
    ensures r == path <==> EndsWith(path, Extension(f))
  {
    var ext := Extension(f);
    if EndsWith(path, ext) then path else path + ext
  }

  /** Normalising twice is normalising once. */
  lemma NormaliseIdempotent(path: string, f: Format)
    ensures Normalise(Normalise(path, f), f) == Normalise(path, f)
  {
  }

  /** The default output name keeps its `.pdf` when another format is
      chosen: `portfolio.pdf` becomes `portfolio.pdf.html`. */
  lemma DefaultNameOtherFormat()
    ensures Normalise("portfolio.pdf", Pdf) == "portfolio.pdf"
    ensures Normalise("portfolio.pdf", Html) == "portfolio.pdf.html"
    ensures Normalise("portfolio.pdf", Md) == "portfolio.pdf.md"
  {
    assert "portfolio.pdf"[9..] == ".pdf";
    assert "portfolio.pdf"[8..][0] != ".html"[0];
    assert "portfolio.pdf"[10..][0] != ".md"[0];
  }
}
