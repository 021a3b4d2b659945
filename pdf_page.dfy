/**
 * `_render_page_html`: one PDF page as an HTML section holding a text layer
 * of absolutely positioned span divs and, after it, an image layer. The
 * PyMuPDF reports are inputs; the two ways of getting an image's pixels
 * are oracles: `extract` (None when the pixmap could not be built) and
 * `clip` (None when rendering the box raised, which fails the whole page).
 */
module PdfPage {
  import opened Wrappers
  import opened Text
  import opened PdfStyle
  import opened PdfImages

  /** A span of `page.get_text("dict")` with its defaults filled in: bbox
      (0, 0, 0, 0), size 12, colour 0, font "sans-serif". */
  datatype Span = Span(text: string, x0: real, y0: real, size: real, color: int, font: string)

  /** A block of `page.get_text("dict")`: its type and its lines of spans. */
  datatype TextBlock = TextBlock(kind: int, lines: seq<seq<Span>>)

  /** One `<div class="t">`: position and font size in CSS pixels, colour,
      escaped font family, weight and style flags, and escaped text. */
  datatype TextDiv = TextDiv(left: real, top: real, fontSize: real, color: string, family: string,
                             bold: bool, italic: bool, html: string)

  /** One `<img class="img">`: its data URL and its box in CSS pixels. */
  datatype ImgTag = ImgTag(src: string, left: real, top: real, width: real, height: real)

  /** The `<section class="page">`: its size, then the text layer, then the image layer. */
  datatype PageHtml = PageHtml(width: real, height: real, textLayer: seq<TextDiv>, imageLayer: seq<ImgTag>)

  // ------------------------------------------------------------ text layer

  /** The div written for a non-empty span. */
  function SpanDiv(s: Span, scale: real): (d: TextDiv)
    ensures '<' !in d.html && '>' !in d.html && '\r' !in d.html
    ensures d.color == IntRgbToCss(s.color)
  {
    var flags := DetectBoldItalic(Some(s.font));
    TextDiv(s.x0 * scale, s.y0 * scale, s.size * scale, IntRgbToCss(s.color), EscapeHtml(s.font, true),
            flags.0, flags.1, SanitizeText(Some(s.text)))
  }

  /** The divs for one line: one per span with non-empty text. */
  function SpansDivs(spans: seq<Span>, scale: real): seq<TextDiv>
    decreases |spans|
  {
    if spans == [] then []
    else
      var s := spans[|spans| - 1];
      SpansDivs(spans[..|spans| - 1], scale) + (if s.text == "" then [] else [SpanDiv(s, scale)])
  }

  function LinesDivs(lines: seq<seq<Span>>, scale: real): seq<TextDiv>
    decreases |lines|
  {
    if lines == [] then [] else LinesDivs(lines[..|lines| - 1], scale) + SpansDivs(lines[|lines| - 1], scale)
  }

  /** The divs for one block: none unless it is a text block (type 0). */
  function BlockDivs(b: TextBlock, scale: real): seq<TextDiv> {
    if b.kind != 0 then [] else LinesDivs(b.lines, scale)
  }

  /** The text layer of the page, as a reference definition. */
  function TextLayer(blocks: seq<TextBlock>, scale: real): seq<TextDiv>
    decreases |blocks|
  {
    if blocks == [] then [] else TextLayer(blocks[..|blocks| - 1], scale) + BlockDivs(blocks[|blocks| - 1], scale)
  }

  // ----------------------------------------------------------- image layer

  /** `_png_dataurl_from_pixmap`, the base64 payload abstracted as a string. */
  function PngDataUrl(payload: string): (url: string)
    ensures |url| >= 22 && url[..22] == "data:image/png;base64,"
  {
    "data:image/png;base64," + payload
  }

  /** What the image loop does with one record. */
  datatype ImageOutcome = Skip | Emit(tag: ImgTag) | Fail

  /**
   * One pass of the image loop: skip a box with no positive width or height;
   * otherwise extract unless the decision is to clip, fall back to the clip
   * when extraction gives nothing, and fail when the clip raises.
   */
  function ImageFor(m: Meta, scale: real, mode: ImageMode,
                    extract: Meta -> Option<string>, clip: Box -> Option<string>): (o: ImageOutcome)
    requires m.bbox.Some?
    ensures (m.bbox.value.x1 - m.bbox.value.x0) * scale <= 0.0 || (m.bbox.value.y1 - m.bbox.value.y0) * scale <= 0.0
      ==> o == Skip
    ensures o.Emit? ==> o.tag.width > 0.0 && o.tag.height > 0.0
    ensures o.Emit? ==> |o.tag.src| >= 22 && o.tag.src[..22] == "data:image/png;base64,"
  {
    var b := m.bbox.value;
    var width := (b.x1 - b.x0) * scale;
    var height := (b.y1 - b.y0) * scale;
    if width <= 0.0 || height <= 0.0 then Skip
    else
      var useClip := ShouldClip(m, mode);
      var extracted := if useClip then None else extract(m);
      var dataUrl :=
        if extracted.Some? then Some(PngDataUrl(extracted.value))
        else match clip(b) case Some(p) => Some(PngDataUrl(p)) case None => None;
      match dataUrl
      case None => Fail
      case Some(url) =>
        // `if not dataurl: continue`; a data URL is never empty.
        if url == "" then Skip else Emit(ImgTag(url, b.x0 * scale, b.y0 * scale, width, height))
  }

  /** The image layer, as a reference definition: None when a clip raised. */
  function ImageLayer(metas: seq<Meta>, scale: real, mode: ImageMode,
                      extract: Meta -> Option<string>, clip: Box -> Option<string>): (r: Option<seq<ImgTag>>)
    requires forall m :: m in metas ==> m.bbox.Some?
    ensures r.Some? ==> |r.value| <= |metas|
    ensures r.Some? ==> forall t :: t in r.value ==> t.width > 0.0 && t.height > 0.0
    ensures r.Some? ==> forall t :: t in r.value ==> |t.src| >= 22 && t.src[..22] == "data:image/png;base64,"
    decreases |metas|
  {
    if metas == [] then Some([])
    else
      var front := ImageLayer(metas[..|metas| - 1], scale, mode, extract, clip);
      match front
      case None => None
      case Some(tags) =>
        match ImageFor(metas[|metas| - 1], scale, mode, extract, clip)
        case Skip => Some(tags)
        case Emit(t) => Some(tags + [t])
        case Fail => None
  }

  /** The whole page, as a reference definition. */
  function RenderedPage(width: real, height: real, scale: real, textBlocks: seq<TextBlock>,
                        images: seq<ImageEntry>, infos: seq<InfoRecord>, rawBlocks: seq<RawBlock>, mode: ImageMode,
                        extract: Meta -> Option<string>, clip: Box -> Option<string>): Option<PageHtml>
  {
    MergedListShape(images, infos, rawBlocks);
    match ImageLayer(MergedList(images, infos, rawBlocks), scale, mode, extract, clip)
    case None => None
    case Some(tags) => Some(PageHtml(width * scale, height * scale, TextLayer(textBlocks, scale), tags))
  }

  // ------------------------------------------------------------- the loops

  /**
   * `_render_page_html` for a page of the given size in points. None stands
   * for the exception a failed clip raises out of the page.
   */
  method RenderPage(width: real, height: real, scale: real, textBlocks: seq<TextBlock>,
                    images: seq<ImageEntry>, infos: seq<InfoRecord>, rawBlocks: seq<RawBlock>,
                    mode: ImageMode, extract: Meta -> Option<string>, clip: Box -> Option<string>)
    returns (page: Option<PageHtml>)
    ensures page == RenderedPage(width, height, scale, textBlocks, images, infos, rawBlocks, mode, extract, clip)
  {
    var spansHtml := RenderTextLayer(textBlocks, scale);
    var metas := XrefMetaList(images, infos, rawBlocks);
    MergedListShape(images, infos, rawBlocks);
    var imagesHtml := RenderImageLayer(metas, scale, mode, extract, clip);
    if imagesHtml.None? {
      return None;
    }
    page := Some(PageHtml(width * scale, height * scale, spansHtml, imagesHtml.value));
  }

  /** The block loop of `_render_page_html`: the divs of every text block, in order. */
  method RenderTextLayer(textBlocks: seq<TextBlock>, scale: real) returns (spansHtml: seq<TextDiv>)
    ensures spansHtml == TextLayer(textBlocks, scale)
  {
    spansHtml := [];
    var bi := 0;
    while bi < |textBlocks|
      invariant 0 <= bi <= |textBlocks|
      invariant spansHtml == TextLayer(textBlocks[..bi], scale)
    {
      var block := textBlocks[bi];
      assert textBlocks[..bi + 1][..bi] == textBlocks[..bi];
      if block.kind == 0 {
        spansHtml := AppendLines(spansHtml, block.lines, scale);
      }
      bi := bi + 1;
    }
    assert textBlocks[..|textBlocks|] == textBlocks;
  }

  /** The line loop: appends the divs of every line of a text block. */
  method AppendLines(acc: seq<TextDiv>, lines: seq<seq<Span>>, scale: real) returns (r: seq<TextDiv>)
    ensures r == acc + LinesDivs(lines, scale)
  {
    var added: seq<TextDiv> := [];
    var li := 0;
    while li < |lines|
      invariant 0 <= li <= |lines|
      invariant added == LinesDivs(lines[..li], scale)
    {
      LinesStep(lines, li, scale);
      added := AppendSpans(added, lines[li], scale);
      li := li + 1;
    }
    assert lines[..|lines|] == lines;
    r := acc + added;
  }

  lemma LinesStep(lines: seq<seq<Span>>, li: nat, scale: real)
    requires li < |lines|
    ensures LinesDivs(lines[..li + 1], scale) == LinesDivs(lines[..li], scale) + SpansDivs(lines[li], scale)
  {
    assert lines[..li + 1][..li] == lines[..li];
  }

  /** The span loop: appends one div per span whose text is not empty. */
  method AppendSpans(acc: seq<TextDiv>, line: seq<Span>, scale: real) returns (r: seq<TextDiv>)
    ensures r == acc + SpansDivs(line, scale)
  {
    var added: seq<TextDiv> := [];
    var si := 0;
    while si < |line|
      invariant 0 <= si <= |line|
      invariant added == SpansDivs(line[..si], scale)
    {
      var span := line[si];
      SpansStep(line, si, scale);
      if span.text != "" {
        added := added + [SpanDiv(span, scale)];
      }
      si := si + 1;
    }
    assert line[..|line|] == line;
    r := acc + added;
  }

  lemma SpansStep(line: seq<Span>, si: nat, scale: real)
    requires si < |line|
    ensures SpansDivs(line[..si + 1], scale)
            == SpansDivs(line[..si], scale) + (if line[si].text == "" then [] else [SpanDiv(line[si], scale)])
  {
    assert line[..si + 1][..si] == line[..si];
  }

  /** The image loop of `_render_page_html`, over the merged records. */
  method RenderImageLayer(metas: seq<Meta>, scale: real, mode: ImageMode,
                          extract: Meta -> Option<string>, clip: Box -> Option<string>)
    returns (imagesHtml: Option<seq<ImgTag>>)
    requires forall m :: m in metas ==> m.bbox.Some?
    ensures imagesHtml == ImageLayer(metas, scale, mode, extract, clip)
  {
    var tags: seq<ImgTag> := [];
    var mi := 0;
    while mi < |metas|
      invariant 0 <= mi <= |metas|
      invariant ImageLayer(metas[..mi], scale, mode, extract, clip) == Some(tags)
    {
      var meta := metas[mi];
      ImageLayerStep(metas, mi, scale, mode, extract, clip);
      var outcome := RenderImage(meta, scale, mode, extract, clip);
      if outcome.Fail? {
        FailedStays(metas, mi + 1, scale, mode, extract, clip);
        return None;
      }
      if outcome.Emit? {
        tags := tags + [outcome.tag];
      }
      mi := mi + 1;
    }
    assert metas[..|metas|] == metas;
    imagesHtml := Some(tags);
  }

  lemma ImageLayerStep(metas: seq<Meta>, mi: nat, scale: real, mode: ImageMode,
                       extract: Meta -> Option<string>, clip: Box -> Option<string>)
    requires forall m :: m in metas ==> m.bbox.Some?
    requires mi < |metas|
    ensures ImageLayer(metas[..mi + 1], scale, mode, extract, clip)
            == match ImageLayer(metas[..mi], scale, mode, extract, clip)
               case None => None
               case Some(tags) =>
                 match ImageFor(metas[mi], scale, mode, extract, clip)
                 case Skip => Some(tags)
                 case Emit(t) => Some(tags + [t])
                 case Fail => None
  {
    assert metas[..mi + 1][..mi] == metas[..mi];
  }

  /** The body of the image loop for one record. */
  method RenderImage(meta: Meta, scale: real, mode: ImageMode,
                     extract: Meta -> Option<string>, clip: Box -> Option<string>)
    returns (outcome: ImageOutcome)
    requires meta.bbox.Some?
    ensures outcome == ImageFor(meta, scale, mode, extract, clip)
  {
    var b := meta.bbox.value;
    var w := (b.x1 - b.x0) * scale;
    var h := (b.y1 - b.y0) * scale;
    if w <= 0.0 || h <= 0.0 {
      return Skip;
    }
    var useClip := ShouldClip(meta, mode);
    var dataUrl: Option<string> := None;
    if !useClip {
      dataUrl := match extract(meta) case Some(p) => Some(PngDataUrl(p)) case None => None;
    }
    if dataUrl.None? {
      var pix := clip(b);
      if pix.None? {
        return Fail;
      }
      dataUrl := Some(PngDataUrl(pix.value));
    }
    if dataUrl.value == "" {
      return Skip;
    }
    outcome := Emit(ImgTag(dataUrl.value, b.x0 * scale, b.y0 * scale, w, h));
  }

  /** Once a clip has raised, the rest of the records cannot bring the page back. */
  lemma {:induction false} FailedStays(metas: seq<Meta>, n: nat, scale: real, mode: ImageMode,
                                       extract: Meta -> Option<string>, clip: Box -> Option<string>)
    requires forall m :: m in metas ==> m.bbox.Some?
    requires 0 < n <= |metas|
    requires ImageFor(metas[n - 1], scale, mode, extract, clip).Fail?
    ensures ImageLayer(metas, scale, mode, extract, clip).None?
    decreases |metas|
  {
    if n < |metas| {
      FailedStays(metas[..|metas| - 1], n, scale, mode, extract, clip);
    }
  }

  /** Every div of the text layer is the div of a non-empty span of a text block. */
  lemma {:induction false} TextDivOrigin(blocks: seq<TextBlock>, scale: real, d: TextDiv)
    returns (b: TextBlock, line: seq<Span>, s: Span)
    requires d in TextLayer(blocks, scale)
    ensures b in blocks && b.kind == 0 && line in b.lines && s in line
    ensures s.text != "" && d == SpanDiv(s, scale)
    decreases |blocks|
  {
    var front := blocks[..|blocks| - 1];
    var last := blocks[|blocks| - 1];
    if d in TextLayer(front, scale) {
      b, line, s := TextDivOrigin(front, scale, d);
    } else {
      b := last;
      line, s := LinesDivOrigin(last.lines, scale, d);
    }
  }

  lemma {:induction false} LinesDivOrigin(lines: seq<seq<Span>>, scale: real, d: TextDiv)
    returns (line: seq<Span>, s: Span)
    requires d in LinesDivs(lines, scale)
    ensures line in lines && s in line && s.text != "" && d == SpanDiv(s, scale)
    decreases |lines|
  {
    var front := lines[..|lines| - 1];
    if d in LinesDivs(front, scale) {
      line, s := LinesDivOrigin(front, scale, d);
    } else {
      line := lines[|lines| - 1];
      s := SpansDivOrigin(line, scale, d);
    }
  }

  lemma {:induction false} SpansDivOrigin(spans: seq<Span>, scale: real, d: TextDiv) returns (s: Span)
    requires d in SpansDivs(spans, scale)
    ensures s in spans && s.text != "" && d == SpanDiv(s, scale)
    decreases |spans|
  {
    var front := spans[..|spans| - 1];
    if d in SpansDivs(front, scale) {
      s := SpansDivOrigin(front, scale, d);
    } else {
      s := spans[|spans| - 1];
    }
  }

  /** Conversely, every non-empty span of a text block gets its div. */
  lemma {:induction false} TextSpanShown(blocks: seq<TextBlock>, scale: real, i: nat, line: seq<Span>, s: Span)
    requires i < |blocks| && blocks[i].kind == 0 && line in blocks[i].lines && s in line && s.text != ""
    ensures SpanDiv(s, scale) in TextLayer(blocks, scale)
    decreases |blocks|
  {
    if i < |blocks| - 1 {
      TextSpanShown(blocks[..|blocks| - 1], scale, i, line, s);
    } else {
      LinesSpanShown(blocks[i].lines, scale, line, s);
    }
  }

  lemma {:induction false} LinesSpanShown(lines: seq<seq<Span>>, scale: real, line: seq<Span>, s: Span)
    requires line in lines && s in line && s.text != ""
    ensures SpanDiv(s, scale) in LinesDivs(lines, scale)
    decreases |lines|
  {
    if line in lines[..|lines| - 1] {
      LinesSpanShown(lines[..|lines| - 1], scale, line, s);
    } else {
      SpansSpanShown(line, scale, s);
    }
  }

  lemma {:induction false} SpansSpanShown(spans: seq<Span>, scale: real, s: Span)
    requires s in spans && s.text != ""
    ensures SpanDiv(s, scale) in SpansDivs(spans, scale)
    decreases |spans|
  {
    if s in spans[..|spans| - 1] {
      SpansSpanShown(spans[..|spans| - 1], scale, s);
    }
  }

  /** The page fails exactly when the clip raises for some record. */
  lemma {:induction false} ImageLayerFails(metas: seq<Meta>, scale: real, mode: ImageMode,
                                           extract: Meta -> Option<string>, clip: Box -> Option<string>)
    requires forall m :: m in metas ==> m.bbox.Some?
    ensures ImageLayer(metas, scale, mode, extract, clip).None?
            <==> exists i :: 0 <= i < |metas| && ImageFor(metas[i], scale, mode, extract, clip).Fail?
    decreases |metas|
  {
    if metas != [] {
      var front := metas[..|metas| - 1];
      ImageLayerFails(front, scale, mode, extract, clip);
      if exists i :: 0 <= i < |metas| && ImageFor(metas[i], scale, mode, extract, clip).Fail? {
        var i :| 0 <= i < |metas| && ImageFor(metas[i], scale, mode, extract, clip).Fail?;
        FailedStays(metas, i + 1, scale, mode, extract, clip);
      } else {
        assert forall i :: 0 <= i < |front| ==> front[i] == metas[i];
      }
    }
  }

  /** In clip mode the extraction is never attempted. */
  lemma {:induction false} ClipModeNeverExtracts(metas: seq<Meta>, scale: real, e1: Meta -> Option<string>,
                                                 e2: Meta -> Option<string>, clip: Box -> Option<string>)
    requires forall m :: m in metas ==> m.bbox.Some?
    ensures ImageLayer(metas, scale, Clip, e1, clip) == ImageLayer(metas, scale, Clip, e2, clip)
    decreases |metas|
  {
    if metas != [] {
      ClipModeNeverExtracts(metas[..|metas| - 1], scale, e1, e2, clip);
      var m := metas[|metas| - 1];
      assert ShouldClip(m, Clip);
    }
  }

  /** A record whose extraction fails is rendered exactly as in clip mode. */
  lemma ExtractionFallsBackToClip(m: Meta, scale: real, mode: ImageMode,
                                  extract: Meta -> Option<string>, clip: Box -> Option<string>)
    requires m.bbox.Some? && extract(m).None?
    ensures ImageFor(m, scale, mode, extract, clip) == ImageFor(m, scale, Clip, extract, clip)
  {
    assert ShouldClip(m, Clip);
  }

  /** A successful extraction is used as is, and the clip is not rendered. */
  lemma ExtractionWins(m: Meta, scale: real, mode: ImageMode, p: string,
                       extract: Meta -> Option<string>, c1: Box -> Option<string>, c2: Box -> Option<string>)
    requires m.bbox.Some? && extract(m) == Some(p) && !ShouldClip(m, mode)
    requires (m.bbox.value.x1 - m.bbox.value.x0) * scale > 0.0 && (m.bbox.value.y1 - m.bbox.value.y0) * scale > 0.0
    ensures ImageFor(m, scale, mode, extract, c1) == ImageFor(m, scale, mode, extract, c2)
    ensures ImageFor(m, scale, mode, extract, c1).Emit?
    ensures ImageFor(m, scale, mode, extract, c1).tag.src == PngDataUrl(p)
  {
  }
}
