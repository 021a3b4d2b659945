/**
 * The per-span helpers of the PDF converter: the packed-integer colour
 * PyMuPDF reports for a span, the bold/italic guess made from a font name,
 * and the HTML escaping of span text.
 */
module PdfStyle {
  import opened Wrappers
  import opened Text

  // ------------------------------------------------------------- colour

  /** The three 8-bit channels of a packed colour `0xRRGGBB`. */
  datatype Rgb = Rgb(r: int, g: int, b: int)

  const ColourSpan: int := 0x100_0000

  /**
   * `(c >> 16) & 255`, `(c >> 8) & 255` and `c & 255` on Python's unbounded
   * integers. An arithmetic right shift is floor division by a power of two,
   * and `& 255` keeps the residue modulo 256, also for a negative `c`; with a
   * positive divisor Dafny's `/` and `%` are exactly these.
   */
  function Channels(c: int): (ch: Rgb)
    ensures 0 <= ch.r < 256 && 0 <= ch.g < 256 && 0 <= ch.b < 256
  {
    Rgb((c / 65536) % 256, (c / 256) % 256, c % 256)
  }

  /** `_int_rgb_to_css`: f"rgb({r},{g},{b})". */
  function IntRgbToCss(c: int): (css: string)
    ensures |css| >= 10 && css[..4] == "rgb(" && css[|css| - 1] == ')'
  {
    var ch := Channels(c);
    "rgb(" + Decimal(ch.r) + "," + Decimal(ch.g) + "," + Decimal(ch.b) + ")"
  }

  /** Division by 256 or 65536 undoes `q * d + m` for a remainder `m` below `d`. */
  lemma DivOfSum(q: int, m: int, d: int)
    requires d == 256 || d == 65536
    requires 0 <= m < d
    ensures (q * d + m) / d == q && (q * d + m) % d == m
  {
    if d == 256 {
      assert (q * 256 + m) / 256 == q;
    } else {
      assert (q * 65536 + m) / 65536 == q;
    }
  }

  /** For a colour in 0 .. 2^24 - 1 the channels put back together give the colour. */
  lemma ChannelsReconstruct(c: int)
    requires 0 <= c < ColourSpan
    ensures Channels(c).r * 65536 + Channels(c).g * 256 + Channels(c).b == c
  {
    var hi, mid, lo := c / 65536, (c % 65536) / 256, c % 256;
    assert c == hi * 65536 + (c % 65536);
    assert c % 65536 == mid * 256 + lo;
    assert hi < 256;
    DivOfSum(hi * 256 + mid, lo, 256);
    assert c == (hi * 256 + mid) * 256 + lo;
    assert c / 256 == hi * 256 + mid;
    DivOfSum(hi, mid, 256);
  }

  /** Only the low 24 bits of the packed value matter. */
  lemma ChannelsLow24(c: int)
    ensures Channels(c) == Channels(c % ColourSpan)
  {
    RedLow24(c / ColourSpan, c % ColourSpan);
    GreenLow24(c / ColourSpan, c % ColourSpan);
    BlueLow24(c / ColourSpan, c % ColourSpan);
  }

  lemma RedLow24(q: int, m: int)
    requires 0 <= m < ColourSpan
    ensures ((q * ColourSpan + m) / 65536) % 256 == (m / 65536) % 256
  {
    assert q * ColourSpan + m == (q * 256 + m / 65536) * 65536 + m % 65536;
    DivOfSum(q * 256 + m / 65536, m % 65536, 65536);
    DivOfSum(q, m / 65536, 256);
  }

  lemma GreenLow24(q: int, m: int)
    requires 0 <= m < ColourSpan
    ensures ((q * ColourSpan + m) / 256) % 256 == (m / 256) % 256
  {
    var k := m / 256;
    assert q * ColourSpan + m == (q * 65536 + k) * 256 + m % 256;
    DivOfSum(q * 65536 + k, m % 256, 256);
    assert q * 65536 + k == (q * 256 + k / 256) * 256 + k % 256;
    DivOfSum(q * 256 + k / 256, k % 256, 256);
  }

  lemma BlueLow24(q: int, m: int)
    requires 0 <= m < ColourSpan
    ensures (q * ColourSpan + m) % 256 == m % 256
  {
    assert q * ColourSpan + m == (q * 65536 + m / 256) * 256 + m % 256;
    DivOfSum(q * 65536 + m / 256, m % 256, 256);
  }

  /** Two packed values give the same CSS colour exactly when their low 24 bits agree. */
  lemma IntRgbToCssSameColour(a: int, b: int)
    ensures IntRgbToCss(a) == IntRgbToCss(b) <==> a % ColourSpan == b % ColourSpan
  {
    ChannelsLow24(a);
    ChannelsLow24(b);
    if IntRgbToCss(a) == IntRgbToCss(b) {
      CssChannels(a, b);
      ChannelsReconstruct(a % ColourSpan);
      ChannelsReconstruct(b % ColourSpan);
    }
  }

  /** The CSS text determines the three channels. */
  lemma CssChannels(a: int, b: int)
    requires IntRgbToCss(a) == IntRgbToCss(b)
    ensures Channels(a) == Channels(b)
  {
    var x, y := Channels(a), Channels(b);
    CssTail(a);
    CssTail(b);
    var xs, ys := Decimal(x.g) + [','] + (Decimal(x.b) + [')']), Decimal(y.g) + [','] + (Decimal(y.b) + [')']);
    assert Decimal(x.r) + [','] + xs == Decimal(y.r) + [','] + ys;
    DecimalNoComma(x.r);
    DecimalNoComma(y.r);
    CommaSplit(Decimal(x.r), xs, Decimal(y.r), ys);
    DecimalNoComma(x.g);
    DecimalNoComma(y.g);
    CommaSplit(Decimal(x.g), Decimal(x.b) + [')'], Decimal(y.g), Decimal(y.b) + [')']);
    assert Decimal(x.b) == (Decimal(x.b) + [')'])[..|Decimal(x.b)|];
    assert Decimal(y.b) == (Decimal(y.b) + [')'])[..|Decimal(y.b)|];
    DecimalInjective(x.r, y.r);
    DecimalInjective(x.g, y.g);
    DecimalInjective(x.b, y.b);
  }

  /** What follows "rgb(": the three numbers, comma-separated, and ")". */
  lemma CssTail(c: int)
    ensures var ch := Channels(c);
      IntRgbToCss(c)[4..] == Decimal(ch.r) + [','] + (Decimal(ch.g) + [','] + (Decimal(ch.b) + [')']))
  {
    var ch := Channels(c);
    var dr, dg, db := Decimal(ch.r), Decimal(ch.g), Decimal(ch.b);
    assert IntRgbToCss(c) == "rgb(" + (dr + [','] + (dg + [','] + (db + [')'])));
  }

  lemma DecimalNoComma(n: nat)
    ensures ',' !in Decimal(n)
  {
  }

  /** A comma that neither left part holds fixes where the split falls. */
  lemma CommaSplit(x: string, y: string, x': string, y': string)
    requires ',' !in x && ',' !in x' && x + [','] + y == x' + [','] + y'
    ensures x == x' && y == y'
  {
    var s := x + [','] + y;
    assert s[|x|] == ',' && s[|x'|] == ',';
    assert forall i :: 0 <= i < |x| ==> s[i] == x[i];
    assert forall i :: 0 <= i < |x'| ==> s[i] == x'[i];
    assert |x| == |x'|;
    assert x == s[..|x|] && x' == s[..|x'|];
    assert y == s[|x| + 1..] && y' == s[|x'| + 1..];
  }

  // ------------------------------------------------------- bold / italic

  /** `_detect_bold_italic`: keyword search in the lower-cased font name. */
  function DetectBoldItalic(fontName: Option<string>): (flags: (bool, bool))
  {
    var name := Lower(OrElse(fontName, ""));
    (Contains(name, "bold") || Contains(name, "semibold") || Contains(name, "demi")
       || Contains(name, "black") || Contains(name, "heavy"),
     Contains(name, "italic") || Contains(name, "oblique") || Contains(name, "ital"))
  }

  /** No name, or an empty one, is neither bold nor italic. */
  lemma NoFontNamePlain(fontName: Option<string>)
    requires fontName.None? || fontName.value == ""
    ensures DetectBoldItalic(fontName) == (false, false)
  {
    assert Lower("") == "";
    forall k: string | k != [] ensures !Contains("", k) {
    }
  }

  /** The longer keywords add nothing: "semibold" holds "bold" and "italic" holds "ital". */
  lemma KeywordsReduce(fontName: Option<string>)
    ensures var name := Lower(OrElse(fontName, ""));
      DetectBoldItalic(fontName).0 <==>
        Contains(name, "bold") || Contains(name, "demi") || Contains(name, "black") || Contains(name, "heavy")
    ensures var name := Lower(OrElse(fontName, ""));
      DetectBoldItalic(fontName).1 <==> Contains(name, "ital") || Contains(name, "oblique")
  {
    var name := Lower(OrElse(fontName, ""));
    if Contains(name, "semibold") {
      assert OccursAt("semibold", "bold", 4);
      ContainsTransitive(name, "semibold", "bold");
    }
    if Contains(name, "italic") {
      assert OccursAt("italic", "ital", 0);
      ContainsTransitive(name, "italic", "ital");
    }
  }

  /** Letter case in the font name does not matter. */
  lemma FontFlagsIgnoreCase(s: string)
    ensures DetectBoldItalic(Some(Upper(s))) == DetectBoldItalic(Some(s))
    ensures DetectBoldItalic(Some(Lower(s))) == DetectBoldItalic(Some(s))
  {
    assert Lower(Upper(s)) == Lower(s);
    assert Lower(Lower(s)) == Lower(s);
    if s == [] {
      assert Upper(s) == [] && Lower(s) == [];
    }
  }

  // ----------------------------------------------------------- escaping

  predicate IsCR(c: char) {
    c == '\r'
  }

  /** The characters `html.escape` rewrites: `&`, `<`, `>`, and with `quote`
      also the double and the single quote. */
  predicate Special(c: char, quote: bool) {
    c == '&' || c == '<' || c == '>' || (quote && (c == '"' || c == '\''))
  }

  /** What `html.escape` writes for one character. Its chained `replace`
      calls handle `&` first, and no later replacement meets a character an
      earlier one produced, so the rewrite is one character at a time. */
  function EscapeChar(c: char, quote: bool): (r: string)
    ensures !Special(c, quote) ==> r == [c]
    ensures Special(c, quote) ==> |r| >= 4 && r[0] == '&' && forall d :: d in r ==> !Special(d, true) || d == '&'
    ensures '\r' in r ==> c == '\r'
  {
    if c == '&' then "&amp;"
    else if c == '<' then "&lt;"
    else if c == '>' then "&gt;"
    else if quote && c == '"' then "&quot;"
    else if quote && c == '\'' then "&#x27;"
    else [c]
  }

  /** `html.escape(s, quote)`. */
  function EscapeHtml(s: string, quote: bool): (r: string)
    ensures forall c :: c in r ==> !Special(c, quote) || c == '&'
    ensures '\r' in r ==> '\r' in s
    ensures (forall c :: c in s ==> !Special(c, quote)) ==> r == s
    decreases |s|
  {
    if s == [] then []
    else
      var e, rest := EscapeChar(s[0], quote), EscapeHtml(s[1..], quote);
      assert forall c :: c in s[1..] ==> c in s;
      assert (forall c :: c in s ==> !Special(c, quote)) ==> e + rest == s by {
        if forall c :: c in s ==> !Special(c, quote) {
          assert s[0] in s;
          assert s == [s[0]] + s[1..];
        }
      }
      e + rest
  }

  /** Reads the five entities back; every other character stands for itself. */
  function UnescapeHtml(s: string): string
    decreases |s|
  {
    if s == [] then []
    else if |s| >= 5 && s[..5] == "&amp;" then ['&'] + UnescapeHtml(s[5..])
    else if |s| >= 4 && s[..4] == "&lt;" then ['<'] + UnescapeHtml(s[4..])
    else if |s| >= 4 && s[..4] == "&gt;" then ['>'] + UnescapeHtml(s[4..])
    else if |s| >= 6 && s[..6] == "&quot;" then ['"'] + UnescapeHtml(s[6..])
    else if |s| >= 6 && s[..6] == "&#x27;" then ['\''] + UnescapeHtml(s[6..])
    else [s[0]] + UnescapeHtml(s[1..])
  }

  /** Escaping loses nothing. */
  lemma {:induction false} UnescapeEscape(s: string, quote: bool)
    ensures UnescapeHtml(EscapeHtml(s, quote)) == s
    decreases |s|
  {
    if s != [] {
      UnescapeEscape(s[1..], quote);
      UnescapeCons(s[0], quote, EscapeHtml(s[1..], quote));
      assert [s[0]] + s[1..] == s;
    }
  }

  /** One escaped character in front reads back as that character. */
  lemma UnescapeCons(c: char, quote: bool, t: string)
    ensures UnescapeHtml(EscapeChar(c, quote) + t) == [c] + UnescapeHtml(t)
  {
    if c == '&' {
      UnescapeEntity("&amp;", '&', t);
    } else if c == '<' {
      UnescapeEntity("&lt;", '<', t);
    } else if c == '>' {
      UnescapeEntity("&gt;", '>', t);
    } else if quote && c == '"' {
      UnescapeEntity("&quot;", '"', t);
    } else if quote && c == '\'' {
      UnescapeEntity("&#x27;", '\'', t);
    } else {
      UnescapePlain(c, t);
    }
  }

  /** The five entities, each with the character it stands for. */
  predicate IsEntity(e: string, c: char) {
    (e == "&amp;" && c == '&') || (e == "&lt;" && c == '<') || (e == "&gt;" && c == '>')
      || (e == "&quot;" && c == '"') || (e == "&#x27;" && c == '\'')
  }

  lemma UnescapeEntity(e: string, c: char, t: string)
    requires IsEntity(e, c)
    ensures UnescapeHtml(e + t) == [c] + UnescapeHtml(t)
  {
    var u := e + t;
    assert u[..|e|] == e && u[|e|..] == t;
    assert u[1] == e[1];
  }

  lemma UnescapePlain(c: char, t: string)
    requires c != '&'
    ensures UnescapeHtml([c] + t) == [c] + UnescapeHtml(t)
  {
    var u := [c] + t;
    assert u[0] == c && u[1..] == t;
  }

  /** `_sanitize_text`: drop every `\r`, then escape with `quote=False`. */
  function SanitizeText(t: Option<string>): (r: string)
    ensures '\r' !in r && '<' !in r && '>' !in r
  {
    var s := RemoveWhere(OrElse(t, ""), IsCR);
    EscapeHtml(s, false)
  }

  /** Reading the entities back gives the text without its carriage returns. */
  lemma SanitizeTextRoundTrip(t: string)
    ensures UnescapeHtml(SanitizeText(Some(t))) == RemoveWhere(t, IsCR)
  {
    UnescapeEscape(RemoveWhere(OrElse(Some(t), ""), IsCR), false);
  }

  /** Text without `&`, `<`, `>` or `\r` passes unchanged; quotes are not touched. */
  lemma SanitizeTextKeepsPlain(t: string)
    requires forall c :: c in t ==> c != '&' && c != '<' && c != '>' && c != '\r'
    ensures SanitizeText(Some(t)) == t
  {
    RemoveWhereAbsent(t, IsCR);
  }
}
