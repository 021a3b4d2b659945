/**
 * The Python string operations the core relies on, over `string` (= seq<char>):
 * `\s` and str.strip(), ASCII case mapping, substring and affix tests,
 * `re.sub(r"\s+", " ", s)`, character-class removal, `str.rfind`, slicing
 * with a possibly negative bound, and decimal formatting of a counter.
 */
module Text {
  import opened Wrappers

  /** Python's str.isspace(): the characters `\s` matches in a str pattern and
      str.strip() removes. */
  predicate IsSpace(c: char) {
    ('\t' <= c <= '\r') || ('\U{1c}' <= c <= ' ') || c == '\U{85}' || c == '\U{a0}' || c == '\U{1680}'
    || ('\U{2000}' <= c <= '\U{200a}') || c == '\U{2028}' || c == '\U{2029}' || c == '\U{202f}'
    || c == '\U{205f}' || c == '\U{3000}'
  }

  /** No two adjacent whitespace characters. */
  predicate NoDoubleSpace(s: string) {
    forall i :: 0 <= i < |s| ==> !SpacePairAt(s, i)
  }

  /** Positions i and i + 1 both hold whitespace. */
  predicate SpacePairAt(s: string, i: int) {
    0 <= i < |s| - 1 && IsSpace(s[i]) && IsSpace(s[i + 1])
  }

  /** Every whitespace character is a plain space. */
  predicate OnlyPlainSpaces(s: string) {
    forall c :: c in s ==> c == ' ' || !IsSpace(c)
  }

  /** Neither end is whitespace. */
  predicate Stripped(s: string) {
    s == [] || (!IsSpace(s[0]) && !IsSpace(s[|s| - 1]))
  }

  /** The non-whitespace characters of `s`, in order. */
  function Unspaced(s: string): string {
    if s == [] then []
    else if IsSpace(s[0]) then Unspaced(s[1..])
    else [s[0]] + Unspaced(s[1..])
  }

  /** Python's `x or default` for an optional string: None and "" both fall back. */
  function OrElse(x: Option<string>, default: string): (r: string)
    ensures x.Some? && x.value != "" ==> r == x.value
    ensures x.None? || x.value == "" ==> r == default
  {
    if x.Some? && x.value != "" then x.value else default
  }

  // ------------------------------------------------------------------ case

  function LowerChar(c: char): char {
    if 'A' <= c <= 'Z' then (c as int + 32) as char else c
  }

  function UpperChar(c: char): char {
    if 'a' <= c <= 'z' then (c as int - 32) as char else c
  }

  /** str.lower(), restricted to ASCII letters. */
  function Lower(s: string): (r: string)
    ensures |r| == |s|
    ensures forall i :: 0 <= i < |s| ==> r[i] == LowerChar(s[i])
  {
    seq(|s|, i requires 0 <= i < |s| => LowerChar(s[i]))
  }

  /** str.upper(), restricted to ASCII letters. */
  function Upper(s: string): (r: string)
    ensures |r| == |s|
    ensures forall i :: 0 <= i < |s| ==> r[i] == UpperChar(s[i])
  {
    seq(|s|, i requires 0 <= i < |s| => UpperChar(s[i]))
  }

  // ------------------------------------------------------------- substrings

  /** Python's `k in s` for strings. */
  predicate Contains(s: string, k: string) {
    exists i :: 0 <= i <= |s| - |k| && OccursAt(s, k, i)
  }

  predicate OccursAt(s: string, k: string, i: int) {
    0 <= i <= |s| - |k| && s[i..i + |k|] == k
  }

  predicate EndsWith(s: string, k: string) {
    |k| <= |s| && s[|s| - |k|..] == k
  }

  /** A string that contains `k` contains every substring of `k`. */
  lemma ContainsTransitive(s: string, k: string, k': string)
    requires Contains(s, k) && Contains(k, k')
    ensures Contains(s, k')
  {
    var i :| 0 <= i <= |s| - |k| && OccursAt(s, k, i);
    var j :| 0 <= j <= |k| - |k'| && OccursAt(k, k', j);
    assert s[i..i + |k|] == k && k[j..j + |k'|] == k';
    forall t | 0 <= t < |k'| ensures s[i + j + t] == k'[t] {
      assert k'[t] == k[j + t] == s[i..i + |k|][j + t];
    }
    assert s[i + j..i + j + |k'|] == k';
    assert OccursAt(s, k', i + j);
  }

  // ----------------------------------------------------------- stripping

  /** str.lstrip(): the longest suffix that does not start with whitespace. */
  function LStrip(s: string): (r: string)
    ensures |r| <= |s| && r == s[|s| - |r|..]
    ensures r == [] || !IsSpace(r[0])
    ensures forall i :: 0 <= i < |s| - |r| ==> IsSpace(s[i])
    decreases |s|
  {
    if s != [] && IsSpace(s[0]) then LStrip(s[1..]) else s
  }

  /** str.rstrip(): the longest prefix that does not end with whitespace. */
  function RStrip(s: string): (r: string)
    ensures |r| <= |s| && r == s[..|r|]
    ensures r == [] || !IsSpace(r[|r| - 1])
    ensures forall i :: |r| <= i < |s| ==> IsSpace(s[i])
    decreases |s|
  {
    if s != [] && IsSpace(s[|s| - 1]) then RStrip(s[..|s| - 1]) else s
  }

  /** str.lstrip(c) for a single character `c`. */
  function LStripChar(s: string, c: char): (r: string)
    ensures |r| <= |s| && r == s[|s| - |r|..]
    ensures r == [] || r[0] != c
    ensures forall i :: 0 <= i < |s| - |r| ==> s[i] == c
    decreases |s|
  {
    if s != [] && s[0] == c then LStripChar(s[1..], c) else s
  }

  /** str.rstrip(c) for a single character `c`. */
  function RStripChar(s: string, c: char): (r: string)
    ensures r <= s
    ensures r == [] || r[|r| - 1] != c
    ensures forall i :: |r| <= i < |s| ==> s[i] == c
    decreases |s|
  {
    if s != [] && s[|s| - 1] == c then RStripChar(s[..|s| - 1], c) else s
  }

  /** str.strip(). */
  function Strip(s: string): (r: string)
    ensures Stripped(r)
    ensures |r| <= |s|
    ensures s != [] && !IsSpace(s[0]) && !IsSpace(s[|s| - 1]) ==> r == s
  {
    StripEnds(s, LStrip(s), RStrip(LStrip(s)));
    RStrip(LStrip(s))
  }

  /** Stripping only removes characters. */
  lemma StripChars(s: string)
    ensures forall c :: c in Strip(s) ==> c in s
  {
    var l := LStrip(s);
    SliceChars(s, |s| - |l|, |s|);
    SliceChars(l, 0, |RStrip(l)|);
  }

  /** Every character of a slice occurs in the whole. */
  lemma SliceChars(s: string, a: nat, b: nat)
    requires a <= b <= |s|
    ensures forall c :: c in s[a..b] ==> c in s
  {
    forall c | c in s[a..b] ensures c in s {
      var k :| 0 <= k < b - a && s[a..b][k] == c;
      assert s[a + k] == c;
    }
  }

  lemma StripEnds(s: string, l: string, r: string)
    requires l == LStrip(s) && r == RStrip(l)
    ensures Stripped(r)
    ensures s != [] && !IsSpace(s[0]) && !IsSpace(s[|s| - 1]) ==> r == s
  {
    if r != [] {
      assert r[0] == l[0];
    }
    if s != [] && !IsSpace(s[0]) {
      assert l == s;
    }
  }

  /** `re.sub(r"\s+", " ", s)`: every maximal run of whitespace becomes one space. */
  function CollapseSpaces(s: string): (r: string)
    ensures |r| <= |s|
    ensures forall c :: c in r ==> c == ' ' || (c in s && !IsSpace(c))
    ensures NoDoubleSpace(r)
    ensures (s == [] || !IsSpace(s[0])) ==> (r == [] || !IsSpace(r[0]))
    decreases |s|
  {
    if s == [] then []
    else if IsSpace(s[0]) then
      var t := LStrip(s[1..]);
      assert forall c :: c in t ==> c in s;
      ConsNoDoubleSpace(' ', CollapseSpaces(t));
      [' '] + CollapseSpaces(t)
    else
      ConsNoDoubleSpace(s[0], CollapseSpaces(s[1..]));
      [s[0]] + CollapseSpaces(s[1..])
  }

  lemma ConsNoDoubleSpace(c: char, u: string)
    requires NoDoubleSpace(u) && (u == [] || !IsSpace(u[0]) || !IsSpace(c))
    ensures NoDoubleSpace([c] + u)
  {
    forall i | 0 <= i < |u| + 1 ensures !SpacePairAt([c] + u, i) {
      if i > 0 { assert !SpacePairAt(u, i - 1); }
    }
  }

  lemma SliceNoDoubleSpace(s: string, a: nat, b: nat)
    requires NoDoubleSpace(s) && a <= b <= |s|
    ensures NoDoubleSpace(s[a..b])
  {
    forall i | 0 <= i < b - a ensures !SpacePairAt(s[a..b], i) {
      assert !SpacePairAt(s, a + i);
    }
  }

  /** Leading whitespace holds no text. */
  lemma {:induction false} LStripKeepsText(s: string)
    ensures Unspaced(LStrip(s)) == Unspaced(s)
    decreases |s|
  {
    if s != [] && IsSpace(s[0]) {
      LStripKeepsText(s[1..]);
    }
  }

  /** Collapsing whitespace keeps every other character, in order. */
  lemma {:induction false} CollapseKeepsText(s: string)
    ensures Unspaced(CollapseSpaces(s)) == Unspaced(s)
    decreases |s|
  {
    if s != [] {
      if IsSpace(s[0]) {
        var t := LStrip(s[1..]);
        LStripKeepsText(s[1..]);
        CollapseKeepsText(t);
        assert CollapseSpaces(s) == [' '] + CollapseSpaces(t);
      } else {
        CollapseKeepsText(s[1..]);
        assert CollapseSpaces(s) == [s[0]] + CollapseSpaces(s[1..]);
      }
    }
  }

  /** Stripping keeps a string free of adjacent whitespace. */
  lemma StripKeepsNoDoubleSpace(s: string)
    requires NoDoubleSpace(s)
    ensures NoDoubleSpace(Strip(s))
  {
    var l := LStrip(s);
    SliceNoDoubleSpace(s, |s| - |l|, |s|);
    assert s[|s| - |l|..|s|] == l;
    var r := RStrip(l);
    SliceNoDoubleSpace(l, 0, |r|);
    assert l[0..|r|] == r;
  }

  /** `re.sub("[...]+", "", s)` for a character class `bad`: drops every
      character of the class and keeps the others in order. */
  function RemoveWhere(s: string, bad: char -> bool): (r: string)
    ensures |r| <= |s|
    ensures forall c :: c in r ==> c in s && !bad(c)
    ensures forall c :: c in s && !bad(c) ==> c in r
  {
    if s == [] then []
    else if bad(s[0]) then RemoveWhere(s[1..], bad)
    else [s[0]] + RemoveWhere(s[1..], bad)
  }

  /** Removing a class the string does not contain changes nothing. */
  lemma {:induction false} RemoveWhereAbsent(s: string, bad: char -> bool)
    requires forall c :: c in s ==> !bad(c)
    ensures RemoveWhere(s, bad) == s
  {
    if s != [] {
      assert forall c :: c in s[1..] ==> c in s;
      RemoveWhereAbsent(s[1..], bad);
    }
  }

  /** Collapsing is the identity on a string whose whitespace is already
      single plain spaces. */
  lemma {:induction false} CollapseSingleSpaces(s: string)
    requires NoDoubleSpace(s) && OnlyPlainSpaces(s)
    ensures CollapseSpaces(s) == s
    decreases |s|
  {
    if s != [] {
      var t := s[1..];
      SliceNoDoubleSpace(s, 1, |s|);
      assert s[1..|s|] == t;
      assert forall c :: c in t ==> c in s;
      CollapseSingleSpaces(t);
      assert s == [s[0]] + t;
      if IsSpace(s[0]) {
        assert s[0] in s;
        assert t == [] || !IsSpace(t[0]) by {
          if t != [] { assert t[0] == s[1]; assert !SpacePairAt(s, 0); }
        }
        CollapseConsSpace(t);
      } else {
        CollapseConsText(s[0], t);
      }
    }
  }

  lemma CollapseConsSpace(t: string)
    requires t == [] || !IsSpace(t[0])
    ensures CollapseSpaces([' '] + t) == [' '] + CollapseSpaces(t)
  {
    assert ([' '] + t)[1..] == t;
  }

  /** A non-empty run of whitespace before text becomes exactly one space. */
  lemma CollapseRun(w: string, t: string)
    requires w != [] && (forall c :: c in w ==> IsSpace(c))
    requires t == [] || !IsSpace(t[0])
    ensures CollapseSpaces(w + t) == [' '] + CollapseSpaces(t)
  {
    assert (w + t)[0] == w[0] && w[0] in w;
    assert (w + t)[1..] == w[1..] + t;
    assert forall c :: c in w[1..] ==> c in w;
    LStripRun(w[1..], t);
  }

  /** `lstrip()` drops a leading whitespace run and nothing more. */
  lemma {:induction false} LStripRun(w: string, t: string)
    requires forall c :: c in w ==> IsSpace(c)
    requires t == [] || !IsSpace(t[0])
    ensures LStrip(w + t) == t
    decreases |w|
  {
    if w == [] {
      assert w + t == t;
    } else {
      assert (w + t)[0] == w[0] && w[0] in w;
      assert (w + t)[1..] == w[1..] + t;
      assert forall c :: c in w[1..] ==> c in w;
      LStripRun(w[1..], t);
    }
  }

  lemma CollapseConsText(c: char, t: string)
    requires !IsSpace(c)
    ensures CollapseSpaces([c] + t) == [c] + CollapseSpaces(t)
  {
    assert ([c] + t)[1..] == t;
  }

  // ------------------------------------------------------- search, slicing

  /** str.rfind(c) for one character: the last index holding `c`, if any. */
  function LastIndex(s: string, c: char): (r: Option<nat>)
    ensures r.Some? ==> r.value < |s| && s[r.value] == c
    ensures r.Some? ==> forall j :: r.value < j < |s| ==> s[j] != c
    ensures r.None? <==> c !in s
    decreases |s|
  {
    if s == [] then None
    else if s[|s| - 1] == c then Some(|s| - 1)
    else
      assert forall d :: d in s ==> d in s[..|s| - 1] || d == s[|s| - 1];
      LastIndex(s[..|s| - 1], c)
  }

  /** str.find(c) for one character: the first index holding `c`, if any. */
  function FirstIndex(s: string, c: char): (r: Option<nat>)
    ensures r.Some? ==> r.value < |s| && s[r.value] == c
    ensures r.Some? ==> forall j :: 0 <= j < r.value ==> s[j] != c
    ensures r.None? <==> c !in s
    decreases |s|
  {
    if s == [] then None
    else if s[0] == c then Some(0)
    else
      match FirstIndex(s[1..], c)
      case None => None
      case Some(i) => Some(i + 1)
  }

  /** Python's `s[:n]`: a negative `n` counts from the end. */
  function PyPrefix(s: string, n: int): (r: string)
    ensures |r| <= |s| && r == s[..|r|]
    ensures 0 <= n ==> |r| == if n < |s| then n else |s|
    ensures n < 0 ==> |r| == if |s| + n < 0 then 0 else |s| + n
  {
    if n >= 0 then (if n < |s| then s[..n] else s)
    else if |s| + n < 0 then []
    else s[..|s| + n]
  }

  // --------------------------------------------------------------- numbers

  function DigitChar(d: nat): (c: char)
    requires d < 10
    ensures '0' <= c <= '9'
  {
    ('0' as int + d) as char
  }

  /** f"{n}" for a natural number. */
  function Decimal(n: nat): (r: string)
    ensures |r| >= 1
    ensures n >= 10 ==> |r| >= 2
    ensures forall c :: c in r ==> '0' <= c <= '9'
    decreases n
  {
    if n < 10 then [DigitChar(n)] else Decimal(n / 10) + [DigitChar(n % 10)]
  }

  /** Distinct numbers print differently. */
  lemma {:induction false} DecimalInjective(a: nat, b: nat)
    requires Decimal(a) == Decimal(b)
    ensures a == b
    decreases a
  {
    if a >= 10 && b >= 10 {
      var da, db := Decimal(a), Decimal(b);
      assert da[..|da| - 1] == Decimal(a / 10);
      assert db[..|db| - 1] == Decimal(b / 10);
      assert da[|da| - 1] == DigitChar(a % 10);
      assert db[|db| - 1] == DigitChar(b % 10);
      DecimalInjective(a / 10, b / 10);
    }
  }
}
