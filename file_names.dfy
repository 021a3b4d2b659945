/**
 * What the two file-name sanitisers and the two "first free name" searches
 * share: the control and Windows-forbidden character classes, the
 * remove/collapse/strip chain, pathlib's stem/suffix split, and the search
 * for the first `stem-i.ext` that is not already taken in a folder. A folder
 * is modelled as the finite set of names it already holds.
 */
module FileNames {
  import opened Wrappers
  import opened Text

  /** `[\u0000-\u001F\u007F]`. */
  predicate IsControl(c: char) {
    c <= '\U{1f}' || c == '\U{7f}'
  }

  /** The characters Windows forbids in a file name: `\ / : * ? " < > |`. */
  predicate IsWinForbidden(c: char) {
    c == '\\' || c == '/' || c == ':' || c == '*' || c == '?' || c == '"' || c == '<' || c == '>' || c == '|'
  }

  /** No control and no Windows-forbidden character. */
  predicate SafeName(s: string) {
    forall c :: c in s ==> !IsControl(c) && !IsWinForbidden(c)
  }

  /** What the shared cleaning chain leaves: a safe name, no leading or
      trailing whitespace, no two whitespace characters in a row, and no
      whitespace other than the plain space. */
  predicate CleanName(s: string) {
    SafeName(s) && Stripped(s) && NoDoubleSpace(s) && OnlyPlainSpaces(s)
  }

  /** Lower-case ASCII letters and dots only, as in the built-in default names. */
  predicate LowerDotted(s: string) {
    forall c :: c in s ==> c == '.' || 'a' <= c <= 'z'
  }

  lemma LowerDottedSafe(s: string)
    requires LowerDotted(s)
    ensures SafeName(s) && forall c :: c in s ==> !IsSpace(c)
  {
  }

  /** A safe name without any whitespace is clean. */
  lemma CleanWithoutSpaces(s: string)
    requires SafeName(s) && forall c :: c in s ==> !IsSpace(c)
    ensures CleanName(s)
  {
    forall i | 0 <= i < |s| ensures !SpacePairAt(s, i) {
      assert s[i] in s;
    }
    if s != [] {
      assert s[0] in s && s[|s| - 1] in s;
    }
  }

  /**
   * Remove control characters, then Windows-forbidden ones, then collapse
   * whitespace runs to one space and strip.
   */
  function Scrub(base: string): (r: string)
    ensures CleanName(r)
    ensures |r| <= |base|
    ensures forall c :: c in r ==> c == ' ' || c in base
  {
    var noBad := RemoveWhere(RemoveWhere(base, IsControl), IsWinForbidden);
    assert SafeName(noBad) && forall c :: c in noBad ==> c in base;
    var collapsed := CollapseSpaces(noBad);
    assert SafeName(collapsed) && OnlyPlainSpaces(collapsed);
    StripKeepsNoDoubleSpace(collapsed);
    StripChars(collapsed);
    Strip(collapsed)
  }

  /** Cleaning a clean name changes nothing. */
  lemma ScrubIdempotent(s: string)
    requires CleanName(s)
    ensures Scrub(s) == s
  {
    RemoveWhereAbsent(s, IsControl);
    RemoveWhereAbsent(s, IsWinForbidden);
    CollapseSingleSpaces(s);
  }

  /** A clean name stays clean when something clean without whitespace is
      appended, and any prefix of it is still safe and free of double spaces. */
  lemma AppendSafe(s: string, t: string)
    requires CleanName(s) && SafeName(t) && forall c :: c in t ==> !IsSpace(c)
    ensures SafeName(s + t) && NoDoubleSpace(s + t) && OnlyPlainSpaces(s + t)
  {
    var u := s + t;
    assert forall c :: c in u ==> c in s || c in t;
    forall i | 0 <= i < |u| ensures !SpacePairAt(u, i) {
      if i < |s| - 1 {
        assert !SpacePairAt(s, i);
      } else if i == |s| - 1 {
        if |t| > 0 { assert u[i + 1] == t[0]; }
      } else if i < |u| - 1 {
        assert u[i + 1] == t[i + 1 - |s|];
      }
    }
  }

  lemma PrefixSafe(s: string, n: nat)
    requires SafeName(s) && NoDoubleSpace(s) && OnlyPlainSpaces(s) && n <= |s|
    ensures SafeName(s[..n]) && NoDoubleSpace(s[..n]) && OnlyPlainSpaces(s[..n])
  {
    assert forall c :: c in s[..n] ==> c in s;
    SliceNoDoubleSpace(s, 0, n);
    assert s[0..n] == s[..n];
  }

  // --------------------------------------------------------- pathlib names

  /** Where pathlib (CPython 3.12) splits a final path component: the last dot,
      provided it is neither the first nor the last character. */
  function SuffixDot(name: string): (r: Option<nat>)
    ensures r.Some? ==> 0 < r.value < |name| - 1 && name[r.value] == '.'
    ensures r.Some? ==> forall j :: r.value < j < |name| ==> name[j] != '.'
  {
    match LastIndex(name, '.')
    case Some(i) => if 0 < i < |name| - 1 then Some(i) else None
    case None => None
  }

  /** `Path(name).suffix`. */
  function PathSuffix(name: string): string {
    match SuffixDot(name)
    case Some(i) => name[i..]
    case None => ""
  }

  /** `Path(name).stem`. */
  function PathStem(name: string): string {
    match SuffixDot(name)
    case Some(i) => name[..i]
    case None => name
  }

  /** The stem and the suffix put back together give the name; a non-empty
      suffix starts with its only dot. */
  lemma StemSuffixSplit(name: string)
    ensures PathStem(name) + PathSuffix(name) == name
    ensures PathSuffix(name) != "" ==> PathSuffix(name)[0] == '.' && '.' !in PathSuffix(name)[1..]
  {
    match SuffixDot(name)
    case Some(i) =>
      assert name[..i] + name[i..] == name;
      assert forall c :: c in name[i..][1..] ==> c != '.' by {
        assert forall k :: 0 <= k < |name| - i - 1 ==> name[i..][1..][k] == name[i + 1 + k];
      }
    case None =>
  }

  /** `Path(name).with_suffix(suffix).name`. */
  function WithSuffix(name: string, suffix: string): string {
    PathStem(name) + suffix
  }

  // ------------------------------------------------------ first free name

  /** f"{stem}-{i}{ext}". */
  function Candidate(stem: string, i: nat, ext: string): string {
    stem + "-" + Decimal(i) + ext
  }

  /** Different counters give different candidates. */
  lemma CandidateInjective(stem: string, a: nat, b: nat, ext: string)
    requires Candidate(stem, a, ext) == Candidate(stem, b, ext)
    ensures a == b
  {
    var ca, cb := Candidate(stem, a, ext), Candidate(stem, b, ext);
    var n := |stem| + 1;
    assert |Decimal(a)| == |Decimal(b)|;
    assert ca[n..n + |Decimal(a)|] == Decimal(a);
    assert cb[n..n + |Decimal(b)|] == Decimal(b);
    DecimalInjective(a, b);
  }

  /** The candidates probed before counter `i`: those for 1 .. i-1. */
  ghost function Probed(stem: string, i: nat, ext: string): set<string>
    decreases i
  {
    if i <= 1 then {} else Probed(stem, i - 1, ext) + {Candidate(stem, i - 1, ext)}
  }

  /** Counter `k >= i` was not among the first i-1 probes, and those i-1 probes
      are i-1 distinct names. */
  lemma {:induction false} ProbedFacts(stem: string, i: nat, ext: string, k: nat)
    requires i >= 1 && k >= i
    ensures Candidate(stem, k, ext) !in Probed(stem, i, ext)
    ensures |Probed(stem, i, ext)| == i - 1
    decreases i
  {
    if i > 1 {
      ProbedFacts(stem, i - 1, ext, k);
      ProbedFacts(stem, i - 1, ext, i - 1);
      if Candidate(stem, k, ext) == Candidate(stem, i - 1, ext) {
        CandidateInjective(stem, k, i - 1, ext);
      }
    }
  }

  /**
   * The `while True` probe loop: tries `stem-1ext`, `stem-2ext`, ... and
   * returns the first one the folder does not hold, with its counter. It stops
   * after at most |existing| + 1 probes, since the taken candidates are
   * distinct members of `existing`.
   */
  method FirstFree(existing: set<string>, stem: string, ext: string) returns (name: string, i: nat)
    ensures i >= 1 && name == Candidate(stem, i, ext)
    ensures name !in existing
    ensures forall j :: 1 <= j < i ==> Candidate(stem, j, ext) in existing
    ensures i <= |existing| + 1
  {
    i := 1;
    name := Candidate(stem, i, ext);
    while name in existing
      invariant i >= 1 && name == Candidate(stem, i, ext)
      invariant forall j :: 1 <= j < i ==> Candidate(stem, j, ext) in existing
      invariant Probed(stem, i, ext) <= existing
      decreases |existing - Probed(stem, i, ext)|
    {
      ProbeStep(existing, stem, ext, i);
      i := i + 1;
      name := Candidate(stem, i, ext);
    }
    ProbedFacts(stem, i, ext, i);
    SubsetSize(Probed(stem, i, ext), existing);
  }

  /** A taken candidate joins the probed names, and fewer unprobed names remain. */
  lemma ProbeStep(existing: set<string>, stem: string, ext: string, i: nat)
    requires i >= 1 && Probed(stem, i, ext) <= existing && Candidate(stem, i, ext) in existing
    ensures Probed(stem, i + 1, ext) <= existing
    ensures |existing - Probed(stem, i + 1, ext)| < |existing - Probed(stem, i, ext)|
  {
    ProbedFacts(stem, i, ext, i);
    assert existing - Probed(stem, i + 1, ext) == (existing - Probed(stem, i, ext)) - {Candidate(stem, i, ext)};
  }

  lemma SubsetSize<T>(a: set<T>, b: set<T>)
    requires a <= b
    ensures |a| <= |b|
  {
    assert b == a + (b - a);
  }
}
