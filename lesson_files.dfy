/**
 * The file-name helpers of the lesson upload routes: `sanitize_filename`
 * (a PDF name that keeps Unicode, loses path-hostile characters and always
 * gets `.pdf`), `sanitize_html_name` (the same name with `.html`) and
 * `unique_named_path` (`name.ext`, `name-1.ext`, `name-2.ext`, ... in a folder).
 */
module LessonFiles {
  import opened Wrappers
  import opened Text
  import opened FileNames

  /** Names are cut to this many characters. */
  const NameLimit := 180
  const DefaultPdfName := "document.pdf"

  /** The name once cleaned, or the fallback when nothing survives. */
  function PdfBase(name: Option<string>, fallback: string): (r: string)
    ensures CleanName(fallback) ==> CleanName(r)
    ensures r == [] ==> fallback == []
  {
    var cleaned := Scrub(Strip(OrElse(name, fallback)));
    if cleaned == "" then fallback else cleaned
  }

  lemma LowerAppend(a: string, b: string)
    ensures Lower(a + b) == Lower(a) + Lower(b)
  {
  }

  /** Append `.pdf` unless the name already ends in it, in any letter case. */
  function ForcePdf(base: string): (r: string)
    ensures r == base || r == base + ".pdf"
    ensures EndsWith(Lower(r), ".pdf")
    ensures EndsWith(Lower(base), ".pdf") ==> r == base
  {
    if EndsWith(Lower(base), ".pdf") then base
    else
      LowerPdfSuffix(base);
      base + ".pdf"
  }

  lemma LowerPdfSuffix(base: string)
    ensures EndsWith(Lower(base + ".pdf"), ".pdf")
  {
    var l := Lower(base + ".pdf");
    var n := |base|;
    assert l[n] == '.' && l[n + 1] == 'p' && l[n + 2] == 'd' && l[n + 3] == 'f';
    assert l[n..] == ".pdf";
  }

  /** `sanitize_filename`: the cleaned name (or the fallback), with `.pdf`
      forced, cut to 180 characters. */
  function SanitizeFilename(name: Option<string>, fallback: string := DefaultPdfName): (r: string)
    ensures 1 <= |r| <= NameLimit
    ensures r <= ForcePdf(PdfBase(name, fallback))
    ensures |r| < NameLimit ==> r == ForcePdf(PdfBase(name, fallback)) && EndsWith(Lower(r), ".pdf")
    ensures CleanName(fallback) ==> SafeName(r) && NoDoubleSpace(r) && OnlyPlainSpaces(r) && !IsSpace(r[0])
    ensures CleanName(fallback) && |r| < NameLimit ==> CleanName(r)
  {
    var base := PdfBase(name, fallback);
    TruncatedPdfName(base, CleanName(fallback));
    PyPrefix(ForcePdf(base), NameLimit)
  }

  /** What cutting the forced-`.pdf` name to the limit keeps. */
  lemma TruncatedPdfName(base: string, clean: bool)
    requires clean ==> CleanName(base)
    ensures var r := PyPrefix(ForcePdf(base), NameLimit);
      && 1 <= |r| <= NameLimit
      && r <= ForcePdf(base)
      && (|r| < NameLimit ==> r == ForcePdf(base) && EndsWith(Lower(r), ".pdf"))
      && (clean ==> SafeName(r) && NoDoubleSpace(r) && OnlyPlainSpaces(r) && !IsSpace(r[0]))
      && (clean && |r| < NameLimit ==> CleanName(r))
  {
    var full := ForcePdf(base);
    var r := PyPrefix(full, NameLimit);
    if |r| < NameLimit {
      PdfEndNotSpace(r);
    }
    if clean {
      ForcedPdfClean(base);
      PrefixSafe(full, |r|);
      assert r[0] == full[0];
    }
  }

  /** A name ending in `.pdf` in any case does not end in whitespace. */
  lemma PdfEndNotSpace(r: string)
    requires EndsWith(Lower(r), ".pdf")
    ensures !IsSpace(r[|r| - 1])
  {
    assert Lower(r)[|r| - 1] == 'f';
  }

  lemma ForcedPdfClean(base: string)
    requires CleanName(base)
    ensures SafeName(ForcePdf(base)) && NoDoubleSpace(ForcePdf(base)) && OnlyPlainSpaces(ForcePdf(base))
    ensures !IsSpace(ForcePdf(base)[0])
  {
    var full := ForcePdf(base);
    if full != base {
      assert LowerDotted(".pdf");
      LowerDottedSafe(".pdf");
      AppendSafe(base, ".pdf");
      if base == [] { assert full[0] == '.'; }
      else { assert full[0] == base[0]; }
    }
  }

  /** The default name is already clean and already a PDF name. */
  lemma DefaultPdfNameClean()
    ensures CleanName(DefaultPdfName)
    ensures EndsWith(Lower(DefaultPdfName), ".pdf")
  {
    assert LowerDotted(DefaultPdfName);
    LowerDottedSafe(DefaultPdfName);
    CleanWithoutSpaces(DefaultPdfName);
  }

  /** A name from which nothing survives cleaning becomes `document.pdf`. */
  lemma SanitizeFilenameFallsBack(name: Option<string>)
    requires Scrub(Strip(OrElse(name, DefaultPdfName))) == ""
    ensures SanitizeFilename(name) == "document.pdf"
  {
    DefaultPdfNameClean();
    assert PdfBase(name, DefaultPdfName) == DefaultPdfName;
  }

  /** Sanitising a sanitised name that is shorter than the limit changes nothing. */
  lemma SanitizeFilenameIdempotent(name: Option<string>)
    requires |SanitizeFilename(name)| < NameLimit
    ensures SanitizeFilename(Some(SanitizeFilename(name))) == SanitizeFilename(name)
  {
    var r := SanitizeFilename(name);
    DefaultPdfNameClean();
    SanitizeFilenameFixesCleanPdf(r);
  }

  /** A clean PDF name under the limit is its own sanitised form. */
  lemma SanitizeFilenameFixesCleanPdf(p: string)
    requires CleanName(p) && p != [] && EndsWith(Lower(p), ".pdf") && |p| < NameLimit
    ensures SanitizeFilename(Some(p)) == p
  {
    CleanBaseKept(p);
    KeptBaseSanitized(p);
  }

  lemma CleanBaseKept(p: string)
    requires CleanName(p) && p != []
    ensures PdfBase(Some(p), DefaultPdfName) == p
  {
    assert Strip(p) == p;
    ScrubIdempotent(p);
  }

  lemma KeptBaseSanitized(p: string)
    requires p != [] && EndsWith(Lower(p), ".pdf") && |p| < NameLimit
    requires PdfBase(Some(p), DefaultPdfName) == p
    ensures SanitizeFilename(Some(p)) == p
  {
  }

  /** The extension of a name that ends in `.pdf` in any case starts at its
      last four characters. */
  lemma PdfSuffixDot(p: string)
    requires |p| > 4 && EndsWith(Lower(p), ".pdf")
    ensures SuffixDot(p) == Some(|p| - 4)
  {
    var n := |p|;
    assert Lower(p)[n - 4] == '.' && Lower(p)[n - 3] == 'p' && Lower(p)[n - 2] == 'd' && Lower(p)[n - 1] == 'f';
    assert p[n - 4] == '.';
    assert p[n - 3] != '.' && p[n - 2] != '.' && p[n - 1] != '.';
    assert LastIndex(p, '.') == Some(n - 4) by {
      assert p[..n - 1][..n - 2] == p[..n - 2];
      assert p[..n - 2][..n - 3] == p[..n - 3];
    }
  }

  /** The PDF-style name `sanitize_html_name` starts from: `name or "document.pdf"`. */
  function PdfLikeName(name: Option<string>): string {
    SanitizeFilename(Some(OrElse(name, DefaultPdfName)))
  }

  /** `sanitize_html_name`: the PDF name of `name` with its suffix replaced by
      `.html`, cut to the limit. The `fallback` argument is accepted and never
      used. */
  function SanitizeHtmlName(name: Option<string>, fallback: string := "document.html"): (r: string)
    ensures 5 <= |r| <= NameLimit && SafeName(r)
    ensures r <= WithSuffix(PdfLikeName(name), ".html")
    ensures |PdfLikeName(name)| < NameLimit ==> r == WithSuffix(PdfLikeName(name), ".html") && EndsWith(r, ".html")
    ensures 4 < |PdfLikeName(name)| < NameLimit ==> r == PdfLikeName(name)[..|PdfLikeName(name)| - 4] + ".html"
  {
    PdfLikeNameFacts(name);
    HtmlName(PdfLikeName(name))
  }

  /** The suffix swap and cut of `sanitize_html_name`, on the PDF-style name. */
  function HtmlName(pdfLike: string): (r: string)
    requires SafeName(pdfLike) && 1 <= |pdfLike| <= NameLimit
    requires |pdfLike| < NameLimit ==> EndsWith(Lower(pdfLike), ".pdf")
    ensures 5 <= |r| <= NameLimit && SafeName(r)
    ensures r <= WithSuffix(pdfLike, ".html")
    ensures |pdfLike| < NameLimit ==> r == WithSuffix(pdfLike, ".html") && EndsWith(r, ".html")
    ensures 4 < |pdfLike| < NameLimit ==> r == pdfLike[..|pdfLike| - 4] + ".html"
  {
    HtmlNameFacts(pdfLike);
    PyPrefix(WithSuffix(pdfLike, ".html"), NameLimit)
  }

  lemma PdfLikeNameFacts(name: Option<string>)
    ensures var p := PdfLikeName(name);
      SafeName(p) && 1 <= |p| <= NameLimit && (|p| < NameLimit ==> EndsWith(Lower(p), ".pdf"))
  {
    DefaultPdfNameClean();
  }

  /** What swapping the suffix for `.html` and cutting to the limit gives. */
  lemma HtmlNameFacts(pdfLike: string)
    requires SafeName(pdfLike) && 1 <= |pdfLike| <= NameLimit
    requires |pdfLike| < NameLimit ==> EndsWith(Lower(pdfLike), ".pdf")
    ensures var r := PyPrefix(WithSuffix(pdfLike, ".html"), NameLimit);
      && 5 <= |r| <= NameLimit && SafeName(r)
      && r <= WithSuffix(pdfLike, ".html")
      && (|pdfLike| < NameLimit ==> r == WithSuffix(pdfLike, ".html") && EndsWith(r, ".html"))
      && (4 < |pdfLike| < NameLimit ==> r == pdfLike[..|pdfLike| - 4] + ".html")
  {
    var htmlName := WithSuffix(pdfLike, ".html");
    assert SafeName(htmlName) by {
      StemSuffixSplit(pdfLike);
      assert forall c :: c in PathStem(pdfLike) ==> c in pdfLike;
      assert LowerDotted(".html");
      LowerDottedSafe(".html");
    }
    if |pdfLike| < NameLimit {
      if |pdfLike| > 4 {
        PdfSuffixDot(pdfLike);
      } else {
        assert SuffixDot(pdfLike) == None;
      }
    }
    var r := PyPrefix(htmlName, NameLimit);
    assert forall c :: c in r ==> c in htmlName;
  }

  /** The result depends on `name` alone. */
  lemma SanitizeHtmlNameIgnoresFallback(name: Option<string>, f1: string, f2: string)
    ensures SanitizeHtmlName(name, f1) == SanitizeHtmlName(name, f2)
  {
  }

  /** A name that stands for an entry inside a folder rather than the folder
      itself, its parent or a deeper path. */
  predicate PlainName(n: string) {
    n != "" && n != "." && n != ".." && '/' !in n
  }

  /** Both sanitisers produce plain names, which is what the folder search below expects. */
  lemma SanitizedNamesArePlain(name: Option<string>)
    ensures PlainName(SanitizeFilename(name))
    ensures PlainName(SanitizeHtmlName(name))
  {
    DefaultPdfNameClean();
    var p := SanitizeFilename(name);
    assert |p| >= 4 by {
      if |p| < NameLimit { assert EndsWith(Lower(p), ".pdf"); }
    }
  }

  /**
   * `unique_named_path`: the name itself when the folder does not hold it,
   * otherwise the first `stem-i.ext` (i = 1, 2, ...) the folder does not hold.
   */
  method UniqueNamedPath(existing: set<string>, filename: string) returns (path: string)
    requires PlainName(filename)
    ensures path !in existing
    ensures filename !in existing ==> path == filename
    ensures filename in existing ==>
      exists i: nat :: i >= 1 && path == Candidate(PathStem(filename), i, PathSuffix(filename))
        && forall j :: 1 <= j < i ==> Candidate(PathStem(filename), j, PathSuffix(filename)) in existing
  {
    if filename !in existing {
      return filename;
    }
    var i;
    path, i := FirstFree(existing, PathStem(filename), PathSuffix(filename));
  }
}
