/**
 * The upload helpers: `sanitize_filename_unicode` (clean a user-supplied file
 * name, keep Unicode, settle its extension), `ensure_unique_path` (the first
 * free `stem-i.suffix` next to a taken path) and the decision `abs_url` makes
 * between "no URL", "already absolute" and "join onto a base".
 */
module UploadUtils {
  import opened Wrappers
  import opened Text
  import opened FileNames

  // ------------------------------------------------- sanitize_filename_unicode

  /** U+200B zero-width space, U+FEFF byte-order mark, U+2060 word joiner. */
  predicate IsZeroWidth(c: char) {
    c == '\U{200b}' || c == '\U{feff}' || c == '\U{2060}'
  }

  /** Safe for a path and free of the three invisible characters. */
  predicate Sanitized(s: string) {
    SafeName(s) && forall c :: c in s ==> !IsZeroWidth(c)
  }

  /** The base once stripped, rid of invisible, control and forbidden
      characters, whitespace-collapsed and stripped again. */
  function CleanedBase(name: Option<string>, defaultName: string): (r: string)
    ensures CleanName(r) && Sanitized(r)
  {
    var visible := RemoveWhere(Strip(OrElse(name, defaultName)), IsZeroWidth);
    Scrub(visible)
  }

  /** `base.rsplit(".", 1)` for a base that holds a dot: the text before the
      last dot and the text after it. */
  function RSplitDot(base: string): (r: Option<(string, string)>)
    ensures r.None? <==> '.' !in base
    ensures r.Some? ==> r.value.0 + "." + r.value.1 == base && '.' !in r.value.1
  {
    match LastIndex(base, '.')
    case None => None
    case Some(i) =>
      var ext := base[i + 1..];
      assert forall k :: 0 <= k < |ext| ==> ext[k] == base[i + 1 + k];
      assert base[..i] + "." + ext == base;
      Some((base[..i], ext))
  }

  /** The split is the only one whose extension holds no dot. */
  lemma RSplitDotUnique(base: string, stem: string, ext: string)
    requires stem + "." + ext == base && '.' !in ext
    ensures RSplitDot(base) == Some((stem, ext))
  {
    var n := |stem|;
    assert base[n] == '.';
    assert forall j :: n < j < |base| ==> base[j] == ext[j - n - 1];
    assert LastIndex(base, '.') == Some(n);
    assert base[..n] == stem;
    assert base[n + 1..] == ext;
  }

  /** `(default_ext or "").lstrip(".").lower()`. */
  function NormalizeExt(defaultExt: Option<string>): (r: string)
    ensures r == [] || r[0] != '.'
  {
    var d := LStripChar(OrElse(defaultExt, ""), '.');
    assert d != [] ==> LowerChar(d[0]) != '.';
    Lower(d)
  }

  /**
   * The extension rule: with an allow-list, an extension outside it is
   * replaced by the normalised default; without one, the normalised default
   * fills in only for a missing extension.
   */
  function ChooseExt(ext: string, defaultExt: Option<string>, allowedExt: Option<set<string>>): (r: string)
    ensures allowedExt.Some? && ext in allowedExt.value ==> r == ext
    ensures allowedExt.Some? && ext !in allowedExt.value ==> r == NormalizeExt(defaultExt)
    ensures allowedExt.None? && ext != "" ==> r == ext
    ensures allowedExt.None? && ext == "" ==> r == NormalizeExt(defaultExt)
  {
    match allowedExt
    case Some(allowed) =>
      if ext !in allowed then NormalizeExt(defaultExt) else ext
    case None =>
      if ext == "" && defaultExt.Some? && defaultExt.value != "" then NormalizeExt(defaultExt) else ext
  }

  /** `stem[:max_len]` when `max_len` is non-zero and the stem is longer. */
  function TruncateStem(stem: string, maxLen: int): (r: string)
    ensures r <= stem
    ensures maxLen > 0 ==> |r| == if |stem| <= maxLen then |stem| else maxLen
    ensures maxLen == 0 ==> r == stem
    ensures maxLen < 0 ==> |r| == if |stem| + maxLen < 0 then 0 else |stem| + maxLen
  {
    if maxLen != 0 && |stem| > maxLen then PyPrefix(stem, maxLen) else stem
  }

  /** f"{stem}.{ext}" when there is an extension, else the stem. */
  function JoinExt(stem: string, ext: string): string {
    if ext != "" then stem + "." + ext else stem
  }

  /** The cleaned base, or the default name when nothing survives cleaning. */
  function BaseOrDefault(name: Option<string>, defaultName: string): (r: string)
    ensures Sanitized(defaultName) ==> Sanitized(r)
    ensures r == "" ==> defaultName == ""
  {
    var cleaned := CleanedBase(name, defaultName);
    if cleaned == "" then defaultName else cleaned
  }

  /** The stem and the lower-cased extension after the last dot, or the whole
      base and no extension when it holds no dot. */
  function StemAndExt(base: string): (r: (string, string))
    ensures '.' !in r.1
    ensures '.' !in base ==> r == (base, "")
    ensures Sanitized(base) ==> Sanitized(r.0) && Sanitized(r.1)
  {
    match RSplitDot(base)
    case None => (base, "")
    case Some((stem, ext)) =>
      SplitPartsSanitized(base, stem, ext);
      (stem, Lower(ext))
  }

  /** `sanitize_filename_unicode`. */
  function SanitizeFilenameUnicode(name: Option<string>, defaultName: string := "document",
                                   defaultExt: Option<string> := None,
                                   allowedExt: Option<set<string>> := None,
                                   maxLen: int := 180): (r: string)
    ensures Sanitized(defaultName) && (defaultExt.Some? ==> Sanitized(defaultExt.value)) ==> Sanitized(r)
  {
    var parts := StemAndExt(BaseOrDefault(name, defaultName));
    JoinedPartsSanitized(parts.0, parts.1, defaultExt, allowedExt, maxLen,
      Sanitized(defaultName) && (defaultExt.Some? ==> Sanitized(defaultExt.value)));
    JoinExt(TruncateStem(parts.0, maxLen), ChooseExt(parts.1, defaultExt, allowedExt))
  }

  lemma SanitizedSlice(s: string, a: nat, b: nat)
    requires Sanitized(s) && a <= b <= |s|
    ensures Sanitized(s[a..b])
  {
    forall c | c in s[a..b] ensures !IsControl(c) && !IsWinForbidden(c) && !IsZeroWidth(c) {
      var k :| 0 <= k < b - a && s[a..b][k] == c;
      assert s[a + k] in s;
    }
  }

  lemma SanitizedLower(s: string)
    requires Sanitized(s)
    ensures Sanitized(Lower(s))
    ensures '.' !in s ==> '.' !in Lower(s)
  {
    forall c | c in Lower(s) ensures !IsControl(c) && !IsWinForbidden(c) && !IsZeroWidth(c) {
      var k :| 0 <= k < |s| && Lower(s)[k] == c;
      assert s[k] in s;
    }
    if '.' in Lower(s) {
      var k :| 0 <= k < |s| && Lower(s)[k] == '.';
      assert s[k] in s;
    }
  }

  lemma SanitizedConcat(a: string, b: string)
    requires Sanitized(a) && Sanitized(b)
    ensures Sanitized(a + b)
  {
    assert forall c :: c in a + b ==> c in a || c in b;
  }

  lemma SplitPartsSanitized(base: string, stem: string, ext: string)
    requires stem + "." + ext == base && '.' !in ext
    ensures '.' !in Lower(ext)
    ensures Sanitized(base) ==> Sanitized(stem) && Sanitized(Lower(ext))
  {
    if Sanitized(base) {
      assert base[..|stem|] == stem && base[|stem| + 1..] == ext;
      SanitizedSlice(base, 0, |stem|);
      SanitizedSlice(base, |stem| + 1, |base|);
      SanitizedLower(ext);
    }
    LowerKeepsNoDot(ext);
  }

  lemma LowerKeepsNoDot(s: string)
    requires '.' !in s
    ensures '.' !in Lower(s)
  {
    forall k | 0 <= k < |s| ensures Lower(s)[k] != '.' {
      assert s[k] in s;
    }
  }

  lemma JoinedPartsSanitized(stem: string, ext: string, defaultExt: Option<string>,
                             allowedExt: Option<set<string>>, maxLen: int, ok: bool)
    requires ok ==> Sanitized(stem) && Sanitized(ext)
    requires ok ==> defaultExt.Some? ==> Sanitized(defaultExt.value)
    ensures ok ==> Sanitized(JoinExt(TruncateStem(stem, maxLen), ChooseExt(ext, defaultExt, allowedExt)))
  {
    if ok {
      var t := TruncateStem(stem, maxLen);
      TruncatedSanitized(stem, maxLen);
      NormalizedSanitized(defaultExt);
      var e := ChooseExt(ext, defaultExt, allowedExt);
      assert Sanitized(e);
      JoinSanitized(t, e);
    }
  }

  lemma TruncatedSanitized(stem: string, maxLen: int)
    requires Sanitized(stem)
    ensures Sanitized(TruncateStem(stem, maxLen))
  {
    var t := TruncateStem(stem, maxLen);
    SanitizedSlice(stem, 0, |t|);
    assert stem[0..|t|] == t;
  }

  lemma NormalizedSanitized(defaultExt: Option<string>)
    requires defaultExt.Some? ==> Sanitized(defaultExt.value)
    ensures Sanitized(NormalizeExt(defaultExt))
  {
    var d := OrElse(defaultExt, "");
    var l := LStripChar(d, '.');
    SanitizedSlice(d, |d| - |l|, |d|);
    assert d[|d| - |l|..|d|] == l;
    SanitizedLower(l);
  }

  lemma JoinSanitized(t: string, e: string)
    requires Sanitized(t) && Sanitized(e)
    ensures Sanitized(JoinExt(t, e))
  {
    if e != "" {
      assert Sanitized(".");
      SanitizedConcat(t, ".");
      SanitizedConcat(t + ".", e);
    }
  }

  /** A name from which nothing survives cleaning gives the default name. */
  lemma SanitizeFilenameUnicodeFallsBack(name: Option<string>)
    requires CleanedBase(name, "document") == ""
    ensures SanitizeFilenameUnicode(name) == "document"
  {
    DefaultNameParts();
    KeptStem("document", "", None, 180);
  }

  lemma DefaultNameParts()
    ensures StemAndExt("document") == ("document", "")
    ensures NormalizeExt(None) == ""
  {
    assert LowerDotted("document");
    assert forall k :: 0 <= k < 8 ==> "document"[k] != '.';
  }

  /** A stem within the limit and an extension the rule keeps are joined as they are. */
  lemma KeptStem(stem: string, ext: string, defaultExt: Option<string>, maxLen: int)
    requires |stem| <= maxLen && ChooseExt(ext, defaultExt, None) == ext
    ensures JoinExt(TruncateStem(stem, maxLen), ChooseExt(ext, defaultExt, None)) == JoinExt(stem, ext)
  {
  }

  /**
   * With an allow-list that does not admit the empty extension and a default
   * extension that normalises into it, the name always ends in `.e` for an
   * allowed `e`.
   */
  lemma AllowListEnforced(name: Option<string>, defaultName: string, defaultExt: Option<string>,
                          allowed: set<string>, maxLen: int)
    requires "" !in allowed && NormalizeExt(defaultExt) in allowed
    ensures var r := SanitizeFilenameUnicode(name, defaultName, defaultExt, Some(allowed), maxLen);
      exists e :: e in allowed && EndsWith(r, "." + e)
  {
    var e := AllowedExtension(name, defaultName, defaultExt, allowed, maxLen);
  }

  /** The allowed extension the name ends in. */
  lemma AllowedExtension(name: Option<string>, defaultName: string, defaultExt: Option<string>,
                         allowed: set<string>, maxLen: int) returns (e: string)
    requires "" !in allowed && NormalizeExt(defaultExt) in allowed
    ensures e in allowed
    ensures EndsWith(SanitizeFilenameUnicode(name, defaultName, defaultExt, Some(allowed), maxLen), "." + e)
  {
    var parts := StemAndExt(BaseOrDefault(name, defaultName));
    e := ChooseExt(parts.1, defaultExt, Some(allowed));
    JoinEndsWith(TruncateStem(parts.0, maxLen), e);
  }

  lemma JoinEndsWith(stem: string, e: string)
    requires e != ""
    ensures EndsWith(JoinExt(stem, e), "." + e)
  {
    assert JoinExt(stem, e) == stem + ("." + e);
  }

  lemma HtmlAllowed()
    ensures "" !in {"html"} && NormalizeExt(Some("html")) in {"html"}
  {
    assert LStripChar("html", '.') == "html";
    assert Lower("html") == "html";
  }

  lemma DotHtml()
    ensures "." + "html" == ".html"
  {
    var d := "." + "html";
    assert |d| == 5 && d[0] == '.' && d[1] == 'h' && d[2] == 't' && d[3] == 'm' && d[4] == 'l';
  }

  /** The HTML upload settings (`default_ext="html"`, `allowed_ext={"html"}`)
      always give a name ending in `.html`. */
  lemma HtmlUploadNameEndsInHtml(name: Option<string>)
    ensures EndsWith(SanitizeFilenameUnicode(name, "document", Some("html"), Some({"html"})), ".html")
  {
    HtmlAllowed();
    var e := AllowedExtension(name, "document", Some("html"), {"html"}, 180);
    assert e == "html";
    DotHtml();
  }

  /**
   * A clean name with a dotted extension passes through the default settings
   * unchanged but for the extension's letter case.
   */
  lemma CleanNameKeepsStemAndExtension(stem: string, ext: string)
    requires CleanName(stem + "." + ext) && Sanitized(stem + "." + ext)
    requires '.' !in ext && ext != "" && |stem| <= 180
    ensures SanitizeFilenameUnicode(Some(stem + "." + ext)) == stem + "." + Lower(ext)
  {
    var n := stem + "." + ext;
    assert BaseOrDefault(Some(n), "document") == n by { CleanedBaseKeepsClean(n); }
    assert StemAndExt(n) == (stem, Lower(ext)) by { StemAndExtOfSplit(n, stem, ext); }
    assert Lower(ext) != "";
    KeptStem(stem, Lower(ext), None, 180);
  }

  lemma StemAndExtOfSplit(base: string, stem: string, ext: string)
    requires stem + "." + ext == base && '.' !in ext
    ensures StemAndExt(base) == (stem, Lower(ext))
  {
    RSplitDotUnique(base, stem, ext);
  }

  lemma CleanedBaseKeepsClean(n: string)
    requires CleanName(n) && Sanitized(n) && n != []
    ensures BaseOrDefault(Some(n), "document") == n
  {
    assert Strip(n) == n;
    RemoveWhereAbsent(n, IsZeroWidth);
    ScrubIdempotent(n);
  }

  // --------------------------------------------------------- ensure_unique_path

  /** A path: the directory it sits in and its final component. */
  datatype FsPath = FsPath(parent: string, name: string)

  /** The final components taken inside `dir`. */
  function NamesIn(fs: set<FsPath>, dir: string): (r: set<string>)
    ensures forall n :: n in r <==> FsPath(dir, n) in fs
  {
    set p | p in fs && p.parent == dir :: p.name
  }

  /**
   * `ensure_unique_path`: the path itself when it is free, otherwise the first
   * free `stem-i.suffix` (i = 1, 2, ...) in the same directory.
   */
  method EnsureUniquePath(fs: set<FsPath>, path: FsPath) returns (r: FsPath)
    ensures r !in fs
    ensures r.parent == path.parent
    ensures path !in fs ==> r == path
    ensures path in fs ==>
      exists i: nat :: i >= 1 && r.name == Candidate(PathStem(path.name), i, PathSuffix(path.name))
        && forall j :: 1 <= j < i ==> FsPath(path.parent, Candidate(PathStem(path.name), j, PathSuffix(path.name))) in fs
  {
    if path !in fs {
      return path;
    }
    var taken := NamesIn(fs, path.parent);
    var name, i := FirstFree(taken, PathStem(path.name), PathSuffix(path.name));
    r := FsPath(path.parent, name);
  }

  // ------------------------------------------------------------------ abs_url

  /** What `abs_url` hands back: the URL as it came, or the `urljoin` call it
      makes (the join itself is not modelled). */
  datatype AbsUrlResult = AsGiven(url: string) | JoinOnto(base: string, reference: string)

  /** C0 controls and space: what urlsplit strips from the front. */
  predicate IsC0OrSpace(c: char) {
    c <= ' '
  }

  predicate IsTabOrNewline(c: char) {
    c == '\t' || c == '\r' || c == '\n'
  }

  predicate IsAsciiLetter(c: char) {
    'a' <= c <= 'z' || 'A' <= c <= 'Z'
  }

  /** The characters urlsplit accepts in a scheme. */
  predicate IsSchemeChar(c: char) {
    IsAsciiLetter(c) || '0' <= c <= '9' || c == '+' || c == '-' || c == '.'
  }

  function LStripC0(s: string): (r: string)
    ensures r == [] || !IsC0OrSpace(r[0])
    ensures |r| <= |s| && r == s[|s| - |r|..]
    decreases |s|
  {
    if s != [] && IsC0OrSpace(s[0]) then LStripC0(s[1..]) else s
  }

  /** The text urlsplit works on: leading C0 controls and spaces stripped,
      tabs and line breaks removed. */
  function SplitInput(url: string): string {
    RemoveWhere(LStripC0(url), IsTabOrNewline)
  }

  /** Where urlsplit finds a scheme: the first ':' past a leading ASCII letter,
      with only scheme characters before it. */
  function SchemeEnd(u: string): (r: Option<nat>)
    ensures r.Some? ==> 0 < r.value < |u| && u[r.value] == ':' && IsAsciiLetter(u[0])
    ensures r.Some? ==> forall k :: 0 <= k < r.value ==> IsSchemeChar(u[k])
  {
    match FirstIndex(u, ':')
    case Some(i) =>
      if i > 0 && IsAsciiLetter(u[0]) && forall k :: 0 <= k < i ==> IsSchemeChar(u[k]) then Some(i) else None
    case None => None
  }

  /** The network location urlsplit reads after `//`: up to the first '/', '?' or '#'. */
  function Netloc(rest: string): (r: string)
    ensures |r| <= |rest|
    ensures forall c :: c in r ==> c in rest
    decreases |rest|
  {
    if rest == [] || rest[0] == '/' || rest[0] == '?' || rest[0] == '#' then []
    else [rest[0]] + Netloc(rest[1..])
  }

  /** What follows the scheme and its colon, or the whole text when there is no scheme. */
  function AfterScheme(u: string): (r: string)
    ensures |r| <= |u|
  {
    match SchemeEnd(u)
    case Some(i) => u[i + 1..]
    case None => u
  }

  /** urlsplit's "Invalid IPv6 URL" error: a network location with one bracket
      but not the other. */
  predicate UnbalancedNetloc(rest: string) {
    |rest| >= 2 && rest[..2] == "//" &&
      var n := Netloc(rest[2..]);
      ('[' in n) != (']' in n)
  }

  /** `urlparse(url).scheme` is non-empty and urlparse does not raise. */
  predicate IsAbsolute(url: string) {
    SchemeEnd(SplitInput(url)).Some? && !UnbalancedNetloc(AfterScheme(SplitInput(url)))
  }

  /** The base a relative URL is joined onto: the public backend URL when it
      is set, else the request's base URL, either with exactly one trailing '/'. */
  function JoinBase(publicBackendUrl: string, requestBaseUrl: string): (r: string)
    ensures r != [] && r[|r| - 1] == '/'
    ensures |r| < 2 || r[|r| - 2] != '/'
    ensures Strip(publicBackendUrl) != "" ==> r == RStripChar(Strip(publicBackendUrl), '/') + "/"
    ensures Strip(publicBackendUrl) == "" ==> r == RStripChar(requestBaseUrl, '/') + "/"
  {
    var configured := Strip(publicBackendUrl);
    if configured != "" then RStripChar(configured, '/') + "/" else RStripChar(requestBaseUrl, '/') + "/"
  }

  /** `abs_url`, with the public backend URL and the request's base URL as parameters. */
  function AbsUrl(publicBackendUrl: string, requestBaseUrl: string, maybeUrl: Option<string>): (r: Option<AbsUrlResult>)
    ensures r.None? <==> maybeUrl.None? || maybeUrl.value == ""
    ensures r.Some? && IsAbsolute(maybeUrl.value) ==> r.value == AsGiven(maybeUrl.value)
    ensures r.Some? && !IsAbsolute(maybeUrl.value) ==>
      r.value == JoinOnto(JoinBase(publicBackendUrl, requestBaseUrl), LStripChar(maybeUrl.value, '/'))
  {
    if maybeUrl.None? || maybeUrl.value == "" then None
    else if IsAbsolute(maybeUrl.value) then Some(AsGiven(maybeUrl.value))
    else Some(JoinOnto(JoinBase(publicBackendUrl, requestBaseUrl), LStripChar(maybeUrl.value, '/')))
  }

  /** A root-relative path such as `/files/htmls/x.html` is always joined onto
      the base, with its leading slashes dropped. */
  lemma RootRelativeIsJoined(publicBackendUrl: string, requestBaseUrl: string, path: string)
    requires path != [] && path[0] == '/'
    ensures AbsUrl(publicBackendUrl, requestBaseUrl, Some(path)).value.JoinOnto?
    ensures AbsUrl(publicBackendUrl, requestBaseUrl, Some(path)).value.reference == LStripChar(path, '/')
  {
    var s := LStripC0(path);
    assert s == path;
    var u := SplitInput(path);
    assert u[0] == '/' by {
      assert path[0] in path && !IsTabOrNewline(path[0]);
      assert RemoveWhere(path, IsTabOrNewline) == [path[0]] + RemoveWhere(path[1..], IsTabOrNewline);
    }
    assert SchemeEnd(u).None?;
  }

  /** A scheme urlsplit recognises: an ASCII letter, then scheme characters. */
  predicate ValidScheme(scheme: string) {
    scheme != [] && IsAsciiLetter(scheme[0]) && forall k :: 0 <= k < |scheme| ==> IsSchemeChar(scheme[k])
  }

  /** A URL such as `https://host/x` -- a valid scheme, a colon, and no
      brackets, tabs or line breaks after it -- comes back unchanged. */
  lemma SchemedUrlKept(publicBackendUrl: string, requestBaseUrl: string, scheme: string, rest: string)
    requires ValidScheme(scheme)
    requires '[' !in rest && ']' !in rest && forall c :: c in rest ==> !IsTabOrNewline(c)
    ensures AbsUrl(publicBackendUrl, requestBaseUrl, Some(scheme + ":" + rest)) == Some(AsGiven(scheme + ":" + rest))
  {
    var url := scheme + ":" + rest;
    assert SplitInput(url) == url by { SchemedSplitInput(scheme, rest); }
    assert SchemeEnd(url) == Some(|scheme|) by { SchemedSchemeEnd(scheme, rest); }
    assert AfterScheme(url) == rest;
    assert !UnbalancedNetloc(rest) by { NoBracketNetloc(rest); }
    assert IsAbsolute(url);
    assert url != [];
    var r := AbsUrl(publicBackendUrl, requestBaseUrl, Some(url));
    assert r.Some?;
  }

  lemma SchemedSplitInput(scheme: string, rest: string)
    requires ValidScheme(scheme) && forall c :: c in rest ==> !IsTabOrNewline(c)
    ensures SplitInput(scheme + ":" + rest) == scheme + ":" + rest
  {
    var url := scheme + ":" + rest;
    assert url[0] == scheme[0];
    assert LStripC0(url) == url;
    forall c | c in url ensures !IsTabOrNewline(c) {
      var k :| 0 <= k < |url| && url[k] == c;
      if k < |scheme| {
        assert IsSchemeChar(scheme[k]);
      } else if k > |scheme| {
        assert rest[k - |scheme| - 1] == c;
      }
    }
    RemoveWhereAbsent(url, IsTabOrNewline);
  }

  lemma SchemedSchemeEnd(scheme: string, rest: string)
    requires ValidScheme(scheme)
    ensures SchemeEnd(scheme + ":" + rest) == Some(|scheme|)
  {
    var url := scheme + ":" + rest;
    assert url[|scheme|] == ':';
    forall k | 0 <= k < |scheme| ensures url[k] != ':' && IsSchemeChar(url[k]) {
      assert url[k] == scheme[k];
    }
    assert FirstIndex(url, ':') == Some(|scheme|);
  }

  lemma NoBracketNetloc(rest: string)
    requires '[' !in rest && ']' !in rest
    ensures !UnbalancedNetloc(rest)
  {
    if |rest| >= 2 {
      assert forall c :: c in rest[2..] ==> c in rest;
    }
  }
}
