# Lesson backend core, modelled in Dafny

This project models the logic inside a small lesson backend. The backend stores lessons made of text and image blocks. It converts uploaded PDFs into positioned HTML, cleans uploaded file names, and decides who may see which lesson. The model covers six parts:

- **PDF to HTML page layout** (`pdf_to_html.py`), in modules `PdfStyle`, `PdfImages` and `PdfPage`:
  - the packed-integer colour to CSS `rgb(...)` conversion;
  - bold and italic inferred from the font name;
  - HTML escaping of span text;
  - the merge of PyMuPDF's three image reports into one record per xref (`_xref_meta_list`);
  - the extract-or-clip decision (`_should_clip`);
  - the page loop of `_render_page_html`: which spans give a text div, which image records give an `<img>`, the fall-back from extraction to clipping, and the text layer placed before the image layer.

  PyMuPDF's reports are plain input sequences. Image extraction and box clipping are oracle parameters that return an optional opaque image payload. `PdfPage.PngDataUrl` wraps that payload in the PNG data-URL prefix.
- **File-name cleaning** (`api/routers/lessons.py`, `api/utils.py`), in modules `Text`, `FileNames`, `LessonFiles` and `UploadUtils`:
  - `sanitize_filename` and `sanitize_html_name`;
  - `sanitize_filename_unicode`;
  - the first-free-name searches `unique_named_path` and `ensure_unique_path`, over a finite set of existing names;
  - the None and already-absolute branches of `abs_url`.
- **Request access rules** (`api/deps.py`), in module `Access`: `can_view_lesson`, the `require_roles` checker, and the header rule of `get_current_user`.
- **Lesson tables** (`repositories/lessons.py`), in module `LessonsRepo`:
  - `create_lesson` and the two grant operations, as a class over in-memory tables;
  - `get_accessible_lessons_for_user`, as a filter and a sort.
- **User table** (`repositories/users.py`), in module `UsersRepo`: `ensure_user` and `get_user_by_tg`, as a class over the `users` table.

Each loop in the source that builds a result or updates a table becomes a method with loop invariants. Most of these methods (the image merge, the page loops, block numbering, the user scan) are proved equal to a reference function, and the properties are proved about that function. The name searches `FileNames.FirstFree`, `LessonFiles.UniqueNamedPath` and `UploadUtils.EnsureUniquePath` are instead proved against a direct contract: the least free candidate. The `any(...)` tests (`pdf_to_html.py:57-58`, `api/deps.py:49`) are functions with their own contracts, as is everything the source computes without changing state.

## Model

| member | source | states |
|---|---|---|
| PdfStyle.Channels | pdf_to_html.py:50-52 | each of the three channels `(c >> 16) & 255`, `(c >> 8) & 255`, `c & 255` lies in 0..255 |
| PdfStyle.IntRgbToCss | pdf_to_html.py:49-53 | the colour text starts with `rgb(` and ends with `)` |
| PdfStyle.ChannelsReconstruct | pdf_to_html.py:49-53 | for 0 ≤ c < 2^24 the channels give back c as r·65536 + g·256 + b |
| PdfStyle.ChannelsLow24 | pdf_to_html.py:50-52 | only the low 24 bits of the packed value decide the channels |
| PdfStyle.RedLow24 | pdf_to_html.py:50 | the red channel ignores every bit above the 24th |
| PdfStyle.GreenLow24 | pdf_to_html.py:51 | the green channel ignores every bit above the 24th |
| PdfStyle.BlueLow24 | pdf_to_html.py:52 | the blue channel ignores every bit above the 24th |
| PdfStyle.IntRgbToCssSameColour | pdf_to_html.py:49-53 | two packed values give the same CSS text exactly when their low 24 bits agree |
| PdfStyle.CssChannels | pdf_to_html.py:53 | the CSS text determines the three channels |
| PdfStyle.CssTail | pdf_to_html.py:53 | after `rgb(` come the three decimals, separated by commas, then `)` |
| PdfStyle.DecimalNoComma | pdf_to_html.py:53 | a printed channel holds no comma, so the commas separate the channels |
| PdfStyle.CommaSplit | pdf_to_html.py:53 | a comma that neither left part holds fixes where the text splits |
| PdfStyle.DetectBoldItalic | pdf_to_html.py:55-59 | `_detect_bold_italic`; its contract is carried by `NoFontNamePlain`, `KeywordsReduce` and `FontFlagsIgnoreCase` |
| PdfStyle.NoFontNamePlain | pdf_to_html.py:55-59 | a None or empty font name is neither bold nor italic |
| PdfStyle.KeywordsReduce | pdf_to_html.py:56-58 | bold holds exactly when the lower-cased name contains bold, demi, black or heavy; italic holds exactly when it contains ital or oblique |
| PdfStyle.FontFlagsIgnoreCase | pdf_to_html.py:56 | letter case in the font name does not change either flag |
| PdfStyle.EscapeChar | pdf_to_html.py:63 | a non-special character is kept; a special one becomes an entity starting with `&` |
| PdfStyle.EscapeHtml | pdf_to_html.py:63 | the escaped text holds no special character other than `&`; text without specials is unchanged |
| PdfStyle.UnescapeEscape | pdf_to_html.py:63 | reading the entities back gives the original text |
| PdfStyle.UnescapeCons | pdf_to_html.py:63 | one escaped character in front reads back as that character |
| PdfStyle.UnescapeEntity | pdf_to_html.py:63 | each of the five entities reads back as its character |
| PdfStyle.UnescapePlain | pdf_to_html.py:63 | a character other than `&` reads back as itself |
| PdfStyle.SanitizeText | pdf_to_html.py:61-63 | the sanitised text holds no `\r`, `<` or `>` |
| PdfStyle.SanitizeTextRoundTrip | pdf_to_html.py:61-63 | un-escaping the result gives the input with every `\r` removed |
| PdfStyle.SanitizeTextKeepsPlain | pdf_to_html.py:61-63 | text without `&`, `<`, `>` or `\r` passes unchanged, quotes included |
| PdfImages.FromImage | pdf_to_html.py:107-111 | the image-list record keeps xref and cs, has no bbox and no mask, and has an smask exactly when the entry's smask is non-zero |
| PdfImages.ApplyInfo | pdf_to_html.py:119-124 | an info record overwrites bbox, smask and mask only when its own value is present or non-zero; xref and cs are unchanged |
| PdfImages.Fresh | pdf_to_html.py:118 | the record `setdefault` inserts for a new xref: that xref, with no smask, mask, cs or bbox |
| PdfImages.BlockXref | pdf_to_html.py:132 | a raw block's xref: its `image` entry when that is an int, else its `number` |
| PdfImages.ImageBlock | pdf_to_html.py:130-133 | the blocks the third loop uses: type 1 with an int xref |
| PdfImages.ImageXrefs | pdf_to_html.py:107-108 | the image list's xrefs, one per entry, in order |
| PdfImages.FirstSeen | pdf_to_html.py:105-138 | the dict's keys: every xref seen, each once |
| PdfImages.LastImage | pdf_to_html.py:107-111 | the last image-list entry for an xref, present exactly when the list names it |
| PdfImages.LastInfoBox | pdf_to_html.py:119-120 | a bbox from the info records only for an xref they name |
| PdfImages.LastInfoSmask | pdf_to_html.py:121-122 | a truthy smask from the info records only for an xref they name |
| PdfImages.LastInfoMask | pdf_to_html.py:123-124 | a truthy mask from the info records only for an xref they name |
| PdfImages.FirstBlockBox | pdf_to_html.py:129-136 | a bbox from the image blocks only for an xref they name |
| PdfImages.WithBox | pdf_to_html.py:138 | the kept records all have a bbox and each is the record of one of the keys |
| PdfImages.MergedMeta | pdf_to_html.py:107-136 | the reference record of one xref, field by field: smask from the last truthy info smask, else the last image entry's non-zero smask; mask from the last truthy info mask; cs from the last image entry; bbox from the last info record with one, else the first image block with one |
| PdfImages.MergedList | pdf_to_html.py:105-138 | the reference for `_xref_meta_list`: the `MergedMeta` record of every xref the three reports name, in first-seen order, keeping those with a bbox |
| PdfImages.ImageStep | pdf_to_html.py:107-111 | one more image-list entry changes the reference record as the first loop does |
| PdfImages.InfoStep | pdf_to_html.py:114-124 | one more info record changes the reference record as the second loop does |
| PdfImages.BlockStep | pdf_to_html.py:129-136 | one more raw block changes the reference record as the third loop does |
| PdfImages.FillBox | pdf_to_html.py:135-136 | a block's bbox is written only when the record has none yet |
| PdfImages.UnseenIsFresh | pdf_to_html.py:118-134 | an xref none of the reports names has the record `setdefault` inserts |
| PdfImages.FirstSeenStep | pdf_to_html.py:111-134 | a new key goes to the end of the key order; a known key keeps its place |
| PdfImages.Lookup | pdf_to_html.py:118 | `meta.setdefault(xref, {...})` as read: the stored record, else the fresh one |
| PdfImages.AddKey | pdf_to_html.py:111-134 | the dict's key order after assigning `xref`: unchanged when present, else the key goes last |
| PdfImages.InfoXrefsStep | pdf_to_html.py:115-117 | an info record adds its xref only when it is an int |
| PdfImages.BlockXrefsStep | pdf_to_html.py:130-133 | a raw block adds its xref only when it is an image block with an int xref |
| PdfImages.ImageLoopStep | pdf_to_html.py:107-111 | the first loop's body keeps the dict equal to the reference over the entries seen so far |
| PdfImages.InfoLoopStep | pdf_to_html.py:114-124 | the second loop's body keeps the dict equal to the reference over the records seen so far |
| PdfImages.TracksIntro | pdf_to_html.py:105 | a key order and dict that match the reference are in the loop invariant |
| PdfImages.BlockLoopStep | pdf_to_html.py:129-136 | the third loop's body keeps the dict equal to the reference over the blocks seen so far |
| PdfImages.XrefMetaList | pdf_to_html.py:101-138 | the three loops and the final filter return exactly the reference merged list |
| PdfImages.TrackedMap | pdf_to_html.py:105-138 | the finished dict is the reference record of every key, in first-seen order |
| PdfImages.FirstPos | pdf_to_html.py:138 | the first position of an xref in the combined report order |
| PdfImages.FirstSeenOrder | pdf_to_html.py:105-138 | the dict's keys are ordered by their first appearance across the three reports |
| PdfImages.FirstSeenOrderStep | pdf_to_html.py:111-134 | one more report keeps the keys in first-appearance order |
| PdfImages.PrefixPositions | pdf_to_html.py:138 | a later report does not move the first position of an xref already seen |
| PdfImages.OrderExtended | pdf_to_html.py:118-134 | a new xref appended to the keys keeps them in first-appearance order |
| PdfImages.FirstPosPrefix | pdf_to_html.py:138 | appending does not move an existing first position |
| PdfImages.FirstPosLast | pdf_to_html.py:138 | a new xref first appears at the end |
| PdfImages.Xrefs | pdf_to_html.py:138 | the xrefs of the records, one per record |
| PdfImages.OrderSnoc | pdf_to_html.py:138 | appending a key seen after all the others keeps the order |
| PdfImages.WithBoxOrder | pdf_to_html.py:138 | filtering on bbox keeps the first-appearance order and adds no key |
| PdfImages.MergedListShape | pdf_to_html.py:105-138 | every returned record has a bbox, at most one record per xref, in first-appearance order across the three reports |
| PdfImages.MergedListMembers | pdf_to_html.py:105-138 | an xref has a record exactly when some report names it and its record ends with a bbox |
| PdfImages.WithBoxHas | pdf_to_html.py:138 | a key has a kept record exactly when its record has a bbox |
| PdfImages.LastInfoBoxWins | pdf_to_html.py:119-135 | the last info record with a bbox decides the bbox; the raw blocks then change nothing |
| PdfImages.LastInfoBoxAt | pdf_to_html.py:119-120 | a later info record without a bbox does not clear an earlier one |
| PdfImages.FirstBlockBoxWins | pdf_to_html.py:135-136 | with no info bbox, the first image block with a bbox decides it |
| PdfImages.NoInfoBox | pdf_to_html.py:119-120 | info records without a bbox give none |
| PdfImages.FirstBlockBoxAt | pdf_to_html.py:135-136 | a later block does not overwrite the first block bbox |
| PdfImages.NoBlockBox | pdf_to_html.py:135-136 | blocks without a bbox give none |
| PdfImages.CsFromImageList | pdf_to_html.py:110-111 | the colour space comes only from the image list |
| PdfImages.NoZeroMasks | pdf_to_html.py:111-124 | no merged record holds a zero smask or mask |
| PdfImages.ShouldClip | pdf_to_html.py:140-150 | clip mode always clips; extract mode never clips; auto mode does not clip without masks and colour space |
| PdfImages.Truthy | pdf_to_html.py:146 | Python truthiness of an optional mask: None and 0 are falsy |
| PdfImages.AutoClipsMerged | pdf_to_html.py:145-150 | in auto mode a merged record is clipped exactly when it has a mask or soft mask, or its upper-cased colour space contains CMYK or ICC |
| PdfImages.ClipIgnoresCsCase | pdf_to_html.py:145 | the colour-space test ignores letter case |
| PdfPage.SpanDiv | pdf_to_html.py:187-207 | a span's div holds no `<`, `>` or `\r` in its text, and its colour is the span colour's CSS |
| PdfPage.SpansDivs | pdf_to_html.py:183-207 | the reference divs of one line: one `SpanDiv` per span with non-empty text, in order |
| PdfPage.LinesDivs | pdf_to_html.py:182-207 | the reference divs of a block's lines, line after line |
| PdfPage.BlockDivs | pdf_to_html.py:179-207 | no divs for a block whose type is not 0, else the divs of its lines |
| PdfPage.TextLayer | pdf_to_html.py:177-207 | the reference text layer: the divs of every block, in block order |
| PdfPage.PngDataUrl | pdf_to_html.py:65-66 | the data URL starts with `data:image/png;base64,` |
| PdfPage.ImageFor | pdf_to_html.py:212-247 | a box whose scaled width or height is not positive is skipped, before any extraction or clip, and never fails the page; an emitted image has positive width and height and a PNG data URL |
| PdfPage.ImageLayer | pdf_to_html.py:210-247 | when no clip raises, at most one tag per record, each with positive size and a PNG data URL |
| PdfPage.RenderedPage | pdf_to_html.py:163-254 | the reference page: None when the image layer fails, else the section of scaled size holding `TextLayer` and then the image layer of `MergedList` |
| PdfPage.RenderPage | pdf_to_html.py:163-254 | the page is the section of the scaled size holding the text layer, then the image layer, or nothing when a clip raises |
| PdfPage.RenderTextLayer | pdf_to_html.py:177-207 | the block loop gives exactly the reference text layer |
| PdfPage.AppendLines | pdf_to_html.py:182-207 | the line loop appends the divs of every line, in order |
| PdfPage.LinesStep | pdf_to_html.py:182 | one more line adds that line's divs at the end |
| PdfPage.AppendSpans | pdf_to_html.py:183-207 | the span loop appends one div per non-empty span, in order |
| PdfPage.SpansStep | pdf_to_html.py:183-186 | one more span adds its div only when its text is not empty |
| PdfPage.RenderImageLayer | pdf_to_html.py:210-247 | the image loop gives exactly the reference image layer |
| PdfPage.ImageLayerStep | pdf_to_html.py:211 | one more record adds its tag, skips it, or fails the page |
| PdfPage.RenderImage | pdf_to_html.py:212-247 | one record's skip test, extract-or-clip choice and fall-back give the reference outcome |
| PdfPage.FailedStays | pdf_to_html.py:228-230 | once a clip raises, the page fails whatever comes after |
| PdfPage.TextDivOrigin | pdf_to_html.py:179-186 | every text div comes from a non-empty span of a type-0 block |
| PdfPage.LinesDivOrigin | pdf_to_html.py:182-186 | every div of a block comes from a non-empty span of one of its lines |
| PdfPage.SpansDivOrigin | pdf_to_html.py:183-186 | every div of a line comes from one of its non-empty spans |
| PdfPage.TextSpanShown | pdf_to_html.py:179-207 | every non-empty span of a type-0 block gets its div |
| PdfPage.LinesSpanShown | pdf_to_html.py:182-207 | every non-empty span of a block's lines gets its div |
| PdfPage.SpansSpanShown | pdf_to_html.py:183-207 | every non-empty span of a line gets its div |
| PdfPage.ImageLayerFails | pdf_to_html.py:228-230 | the page fails exactly when the clip raises for some record |
| PdfPage.ClipModeNeverExtracts | pdf_to_html.py:218-230 | in clip mode extraction is never attempted |
| PdfPage.ExtractionFallsBackToClip | pdf_to_html.py:221-230 | a record whose extraction fails is rendered exactly as in clip mode |
| PdfPage.ExtractionWins | pdf_to_html.py:221-224 | a successful extraction is used as is and the clip is never rendered |
| Text.OrElse | api/routers/lessons.py:61 | `x or default`: None and the empty string both fall back |
| Text.Lower | api/routers/lessons.py:67 | lower-casing keeps the length and maps each character |
| Text.Upper | pdf_to_html.py:145 | upper-casing keeps the length and maps each character |
| Text.ContainsTransitive | pdf_to_html.py:57-58 | a text that contains `k` contains every substring of `k` |
| Text.Contains | pdf_to_html.py:57-58 | Python's `k in s` for strings: `k` occurs at some position of `s` |
| Text.EndsWith | api/routers/lessons.py:67 | `s.endswith(k)`: the last `len(k)` characters of `s` are `k` |
| Text.LStrip | api/utils.py:66 | the longest suffix not starting with whitespace; only whitespace is dropped |
| Text.RStrip | api/utils.py:66 | the longest prefix not ending with whitespace; only whitespace is dropped |
| Text.LStripChar | api/utils.py:39 | leading copies of one character are dropped, and only those |
| Text.RStripChar | api/utils.py:38 | trailing copies of one character are dropped, and only those |
| Text.Strip | api/routers/lessons.py:61 | the result has no whitespace at either end; a text with none at its ends is unchanged |
| Text.StripChars | api/routers/lessons.py:61 | stripping adds no character |
| Text.SliceChars | api/routers/lessons.py:69 | a slice holds only characters of the whole |
| Text.StripEnds | api/routers/lessons.py:61 | lstrip then rstrip leaves no whitespace at either end |
| Text.CollapseSpaces | api/routers/lessons.py:64 | no two adjacent whitespace characters remain, and no new characters appear; that each run becomes exactly one space is `Text.CollapseRun` |
| Text.ConsNoDoubleSpace | api/routers/lessons.py:64 | adding one character in front keeps the text free of adjacent whitespace when the pair is not both whitespace |
| Text.SliceNoDoubleSpace | api/routers/lessons.py:69 | a slice of a text without adjacent whitespace has none either |
| Text.LStripKeepsText | api/routers/lessons.py:61 | leading whitespace holds no other character |
| Text.CollapseKeepsText | api/routers/lessons.py:64 | collapsing keeps every non-whitespace character, in order |
| Text.StripKeepsNoDoubleSpace | api/routers/lessons.py:64 | the final strip keeps the text free of adjacent whitespace |
| Text.RemoveWhere | api/routers/lessons.py:62-63 | removal keeps every allowed character and drops every forbidden one |
| Text.RemoveWhereAbsent | api/routers/lessons.py:62-63 | removing a class the text does not hold changes nothing |
| Text.CollapseSingleSpaces | api/routers/lessons.py:64 | collapsing a text of single plain spaces changes nothing |
| Text.CollapseConsSpace | api/routers/lessons.py:64 | a single space before text stays a single space |
| Text.CollapseConsText | api/routers/lessons.py:64 | a non-whitespace character is kept |
| Text.CollapseRun | api/routers/lessons.py:64 | a non-empty run of whitespace before text (or the end) becomes exactly one space; with `CollapseConsText` this fixes the result on every input |
| Text.LStripRun | api/routers/lessons.py:64 | `lstrip()` drops a leading whitespace run and keeps the text after it |
| Text.LastIndex | api/utils.py:90 | the last index holding the character, None exactly when it is absent |
| Text.FirstIndex | api/utils.py:89-90 | the first index holding the character, None exactly when it is absent |
| Text.PyPrefix | api/routers/lessons.py:69 | `s[:n]` is a prefix of length min(n, len); a negative n counts from the end |
| Text.DigitChar | api/routers/lessons.py:90 | a digit prints as one of `0`..`9` |
| Text.Decimal | api/routers/lessons.py:90 | a number prints as at least one digit and nothing else |
| Text.DecimalInjective | api/routers/lessons.py:90 | distinct counters print differently |
| FileNames.LowerDottedSafe | api/routers/lessons.py:53-54 | a name made of lower-case letters and dots has no control, forbidden or whitespace character |
| FileNames.CleanWithoutSpaces | api/routers/lessons.py:62-64 | a safe name without whitespace is clean |
| FileNames.Scrub | api/routers/lessons.py:62-64 | the cleaning chain leaves no control or Windows-forbidden character, no adjacent whitespace, no whitespace at the ends, and only characters of the input or spaces |
| FileNames.ScrubIdempotent | api/routers/lessons.py:62-64 | cleaning a clean name changes nothing |
| FileNames.AppendSafe | api/routers/lessons.py:67-68 | appending a safe suffix without whitespace keeps a clean name safe |
| FileNames.PrefixSafe | api/routers/lessons.py:69 | cutting keeps a name safe and free of adjacent whitespace |
| FileNames.SuffixDot | api/routers/lessons.py:86-87 | pathlib's split point: the last dot, not the first character and not the last |
| FileNames.StemSuffixSplit | api/routers/lessons.py:86-87 | stem and suffix put back together give the name; a suffix starts with its only dot |
| FileNames.PathSuffix | api/routers/lessons.py:87 | `Path(name).suffix`: from the suffix dot to the end, else empty |
| FileNames.PathStem | api/routers/lessons.py:86 | `Path(name).stem`: up to the suffix dot, else the whole name |
| FileNames.WithSuffix | api/routers/lessons.py:74 | `Path(name).with_suffix(suffix).name`: the stem followed by the new suffix |
| FileNames.Candidate | api/routers/lessons.py:90 | the probed name `f"{stem}-{i}{ext}"` |
| FileNames.CandidateInjective | api/routers/lessons.py:90 | different counters give different `stem-i.ext` names |
| FileNames.ProbedFacts | api/routers/lessons.py:88-93 | the first i-1 probes are i-1 distinct names, none of them the candidate for a later counter |
| FileNames.FirstFree | api/routers/lessons.py:88-93 | the counter loop returns the least i ≥ 1 whose candidate is free; i is at most the number of existing names plus one |
| FileNames.ProbeStep | api/routers/lessons.py:91-93 | a taken candidate joins the probed names, and fewer unprobed names remain |
| FileNames.SubsetSize | api/routers/lessons.py:88-93 | a subset is no larger than its superset |
| LessonFiles.PdfBase | api/routers/lessons.py:61-66 | the cleaned name, or the fallback when nothing survives; clean when the fallback is |
| LessonFiles.LowerAppend | api/routers/lessons.py:67 | lower-casing distributes over concatenation |
| LessonFiles.ForcePdf | api/routers/lessons.py:67-68 | `.pdf` is appended exactly when the name does not already end in it, in any letter case |
| LessonFiles.LowerPdfSuffix | api/routers/lessons.py:68 | the appended name ends in `.pdf` |
| LessonFiles.SanitizeFilename | api/routers/lessons.py:56-69 | 1 to 180 characters, a prefix of the forced `.pdf` name, free of control and forbidden characters and adjacent whitespace; under 180 it ends in `.pdf` |
| LessonFiles.TruncatedPdfName | api/routers/lessons.py:69 | cutting the forced name to 180 keeps the length bounds, the prefix and the cleanliness |
| LessonFiles.PdfEndNotSpace | api/routers/lessons.py:67-69 | a name ending in `.pdf` does not end in whitespace |
| LessonFiles.ForcedPdfClean | api/routers/lessons.py:67-68 | forcing `.pdf` keeps a clean name safe |
| LessonFiles.DefaultPdfNameClean | api/routers/lessons.py:56 | the fallback `document.pdf` is clean and already a PDF name |
| LessonFiles.SanitizeFilenameFallsBack | api/routers/lessons.py:65-66 | a name from which nothing survives cleaning becomes `document.pdf` |
| LessonFiles.SanitizeFilenameIdempotent | api/routers/lessons.py:56-69 | sanitising a sanitised name shorter than 180 changes nothing |
| LessonFiles.SanitizeFilenameFixesCleanPdf | api/routers/lessons.py:56-69 | a clean PDF name under 180 characters is its own sanitised form |
| LessonFiles.CleanBaseKept | api/routers/lessons.py:61-66 | a clean non-empty name passes the cleaning chain unchanged |
| LessonFiles.KeptBaseSanitized | api/routers/lessons.py:67-69 | a kept `.pdf` name under the limit is returned as is |
| LessonFiles.PdfSuffixDot | api/routers/lessons.py:74 | the suffix of a `.pdf` name starts at its last four characters |
| LessonFiles.SanitizeHtmlName | api/routers/lessons.py:71-75 | 5 to 180 safe characters, a prefix of the PDF name with its suffix replaced by `.html`; under the limit `name.pdf` becomes `name.html` |
| LessonFiles.HtmlName | api/routers/lessons.py:74-75 | swapping the suffix for `.html` and cutting to 180 gives a safe name of 5 to 180 characters ending in `.html` under the limit |
| LessonFiles.PdfLikeNameFacts | api/routers/lessons.py:73 | the PDF-style name is safe, 1 to 180 characters, and ends in `.pdf` under the limit |
| LessonFiles.PdfLikeName | api/routers/lessons.py:73 | `sanitize_filename(name or "document.pdf")`; its contract is carried by `PdfLikeNameFacts` |
| LessonFiles.HtmlNameFacts | api/routers/lessons.py:74-75 | what swapping the suffix and cutting gives, on any safe PDF-style name |
| LessonFiles.SanitizeHtmlNameIgnoresFallback | api/routers/lessons.py:71-73 | the result does not depend on the `fallback` argument |
| LessonFiles.SanitizedNamesArePlain | api/routers/lessons.py:56-75 | both sanitisers give a name that is neither empty nor `.` nor `..` and holds no separator |
| LessonFiles.UniqueNamedPath | api/routers/lessons.py:77-93 | the name itself when free, else `stem-i.ext` for the least free i ≥ 1; never a taken name |
| UploadUtils.CleanedBase | api/utils.py:66-81 | the cleaned base is clean and holds no zero-width, control or forbidden character |
| UploadUtils.RSplitDot | api/utils.py:89-90 | `rsplit(".", 1)`: None exactly when there is no dot; otherwise stem + "." + ext is the base and ext has no dot |
| UploadUtils.RSplitDotUnique | api/utils.py:89-90 | the split is the only one whose extension holds no dot |
| UploadUtils.NormalizeExt | api/utils.py:96-99 | the normalised default extension does not start with a dot |
| UploadUtils.ChooseExt | api/utils.py:94-99 | with an allow-list, a listed extension is kept and any other becomes the default; without one, the default fills only an empty extension |
| UploadUtils.TruncateStem | api/utils.py:102-103 | the stem is cut to `max_len` only when `max_len` is truthy, with Python's slice rule for a negative limit |
| UploadUtils.BaseOrDefault | api/utils.py:83-84 | an empty cleaned base becomes the default name |
| UploadUtils.JoinExt | api/utils.py:105-107 | `stem.ext` when the extension is non-empty, else the stem; its contract is carried by `JoinEndsWith`, `JoinSanitized` and `KeptStem` |
| UploadUtils.StemAndExt | api/utils.py:87-91 | no dot gives the whole base and no extension; the extension never holds a dot |
| UploadUtils.SanitizeFilenameUnicode | api/utils.py:51-107 | with clean defaults, the result holds no zero-width, control or forbidden character |
| UploadUtils.SanitizedSlice | api/utils.py:102-103 | a slice of a sanitised text is sanitised |
| UploadUtils.SanitizedLower | api/utils.py:91 | lower-casing keeps a text sanitised and dot-free |
| UploadUtils.SanitizedConcat | api/utils.py:105-106 | joining sanitised texts gives a sanitised text |
| UploadUtils.SplitPartsSanitized | api/utils.py:89-91 | the stem and the lower-cased extension of a sanitised base are sanitised |
| UploadUtils.LowerKeepsNoDot | api/utils.py:91 | lower-casing adds no dot |
| UploadUtils.JoinedPartsSanitized | api/utils.py:94-107 | choosing, cutting and joining keep the parts sanitised |
| UploadUtils.TruncatedSanitized | api/utils.py:102-103 | cutting the stem keeps it sanitised |
| UploadUtils.NormalizedSanitized | api/utils.py:96-99 | a sanitised default extension stays sanitised once normalised |
| UploadUtils.JoinSanitized | api/utils.py:105-107 | `stem.ext` or `stem` of sanitised parts is sanitised |
| UploadUtils.SanitizeFilenameUnicodeFallsBack | api/utils.py:83-84 | a name from which nothing survives gives `document` |
| UploadUtils.DefaultNameParts | api/utils.py:87-99 | `document` has no extension, and no default extension normalises to nothing |
| UploadUtils.KeptStem | api/utils.py:102-107 | a stem within the limit and an extension the rule keeps are joined as they are |
| UploadUtils.AllowListEnforced | api/utils.py:94-106 | with an allow-list that admits the normalised default and not the empty extension, the name always ends in `.e` for an allowed `e` |
| UploadUtils.AllowedExtension | api/utils.py:94-106 | the allowed extension the name ends in |
| UploadUtils.JoinEndsWith | api/utils.py:105-106 | `stem.ext` ends in `.ext` |
| UploadUtils.HtmlAllowed | api/utils.py:177-178 | the HTML settings admit `html` and not the empty extension |
| UploadUtils.DotHtml | api/utils.py:177-178 | the dot and `html` make `.html` |
| UploadUtils.HtmlUploadNameEndsInHtml | api/utils.py:174-186 | the HTML upload name always ends in `.html` |
| UploadUtils.CleanNameKeepsStemAndExtension | api/utils.py:87-107 | a clean `stem.ext` within the limit comes back with the extension lower-cased |
| UploadUtils.StemAndExtOfSplit | api/utils.py:89-91 | the split of `stem.ext` is the stem and the lower-cased extension |
| UploadUtils.CleanedBaseKeepsClean | api/utils.py:66-84 | a clean non-empty name passes the cleaning unchanged |
| UploadUtils.NamesIn | api/utils.py:116-121 | the names taken in the path's directory |
| UploadUtils.EnsureUniquePath | api/utils.py:110-124 | the path itself when free, else the first free `stem-i.suffix` in the same directory; never a taken path |
| UploadUtils.LStripC0 | api/utils.py:30 | urlparse's leading strip drops C0 controls and spaces, and only those |
| UploadUtils.SplitInput | api/utils.py:30 | the text urlsplit reads: leading C0 controls and spaces stripped, tabs and line breaks removed |
| UploadUtils.SchemeEnd | api/utils.py:30-31 | a scheme ends at a colon after a leading ASCII letter and scheme characters |
| UploadUtils.Netloc | api/utils.py:30 | the network location is part of the text |
| UploadUtils.AfterScheme | api/utils.py:30 | what follows the scheme is part of the text |
| UploadUtils.UnbalancedNetloc | api/utils.py:30 | urlsplit's `Invalid IPv6 URL` error: a `//` network location holding one bracket without the other |
| UploadUtils.IsAbsolute | api/utils.py:29-34 | `urlparse(url).scheme` is non-empty and urlparse does not raise |
| UploadUtils.JoinBase | api/utils.py:36-41 | the join base ends in exactly one `/`: the stripped public URL, else the request's base URL |
| UploadUtils.AbsUrl | api/utils.py:22-42 | None exactly for None or empty input; a URL with a scheme is returned as given; anything else is joined onto the base with leading slashes dropped |
| UploadUtils.RootRelativeIsJoined | api/utils.py:29-42 | a root-relative path is always joined, minus its leading slashes |
| UploadUtils.SchemedUrlKept | api/utils.py:29-32 | a URL with a valid scheme and no bracket is returned unchanged |
| UploadUtils.SchemedSplitInput | api/utils.py:30 | such a URL is what urlparse reads |
| UploadUtils.SchemedSchemeEnd | api/utils.py:30-31 | its scheme ends at the first colon |
| UploadUtils.NoBracketNetloc | api/utils.py:30 | without brackets urlparse does not raise |
| Access.AnyShared | api/deps.py:48-49 | true exactly when some lesson group is one of the user's groups |
| Access.Truthy | api/deps.py:17 | Python truthiness of an optional id: None and 0 are falsy |
| Access.IsStaff | api/deps.py:46 | the role codes hold `admin` or `teacher` |
| Access.CanViewLesson | api/deps.py:37-49 | a lesson without groups is visible to all; a falsy id or a missing profile is refused |
| Access.CanViewLessonIff | api/deps.py:37-49 | visible exactly when the lesson has no groups, or the user's profile has admin or teacher, or shares a group |
| Access.MoreGroupsNeverRevoke | api/deps.py:45-49 | adding roles or groups to a profile never revokes a view |
| Access.RequireRoles | api/deps.py:30-34 | a refusal is always 403 `Forbidden` |
| Access.RequireRolesIff | api/deps.py:30-34 | the gate passes exactly when a profile exists and holds an allowed role; it then returns the profile |
| Access.GetCurrentUser | api/deps.py:13-23 | a falsy header gives 401 and leaves the table and the id counter; otherwise the user with that Telegram id, created if missing, with the table and the counter as `ensure_user` leaves them |
| Access.NoFieldsNoChange | repositories/users.py:22-35 | finding an existing user with no fields passed leaves its row unchanged |
| UsersRepo.IndexOfTg | repositories/users.py:22 | the index of a user with the Telegram id, None exactly when none has it |
| UsersRepo.UserStore.constructor | models.py:41-50 | an empty table whose next id is 1 |
| UsersRepo.UserStore.FindTg | repositories/users.py:22 | the scan finds the first user with the Telegram id, or none |
| UsersRepo.UserStore.GetUserByTg | repositories/users.py:50-51 | the user with this Telegram id, or None when no user has it |
| UsersRepo.UserStore.EnsureUser | repositories/users.py:10-47 | the table, the returned user and the next id become the reference ones, and the keys stay unique |
| UsersRepo.FirstTgIndex | repositories/users.py:22 | the first user with the Telegram id is the one found |
| UsersRepo.NoTgIndex | repositories/users.py:22 | with no such user nothing is found |
| UsersRepo.UpdateKeepsKeys | repositories/users.py:24-32 | updating profile fields keeps ids and Telegram ids unique |
| UsersRepo.CreateKeepsKeys | repositories/users.py:37-46 | adding a user with a fresh id and an unused Telegram id keeps the keys unique |
| UsersRepo.UniqueTgFound | repositories/users.py:22 | with unique Telegram ids, the scan finds the one row that has it |
| UsersRepo.UpdatedFields | repositories/users.py:25-32 | a field passed as None keeps its value; a passed field takes the new value; id, Telegram id and activity are unchanged |
| UsersRepo.Updated | repositories/users.py:25-32 | the existing row with each passed field overwritten; its contract is carried by `UpdatedFields` |
| UsersRepo.Created | repositories/users.py:37-44 | the new active row with the given fields; its contract is carried by `NewUserAppended` |
| UsersRepo.Overwrite | repositories/users.py:25-32 | one field after `if value is not None and field != value: field = value` |
| UsersRepo.EnsuredTable | repositories/users.py:22-47 | the reference table after `ensure_user`: the found row updated in place, else a new row appended |
| UsersRepo.EnsuredUser | repositories/users.py:22-47 | the reference user `ensure_user` returns: the updated found row, else the created one |
| UsersRepo.EnsuredNextId | repositories/users.py:37-46 | the reference autonumber: it moves on only when a row is added |
| UsersRepo.ExistingUserUpdated | repositories/users.py:22-35 | an existing user is updated in its row and returned; no row is added and the id does not move |
| UsersRepo.NewUserAppended | repositories/users.py:37-47 | with no such user, one new active user with the given fields is appended and returned |
| UsersRepo.ExactlyOneWithTg | repositories/users.py:22-47 | afterwards exactly one row has the Telegram id, it is the returned user, and every other row is unchanged |
| UsersRepo.EnsureUserIdempotent | repositories/users.py:22-47 | a second call with the same arguments changes nothing and returns the same user |
| LessonsRepo.NewLesson | repositories/lessons.py:27-34 | status is published exactly when `publish`, and `published_at` is set to now exactly when `publish` |
| LessonsRepo.BlockRow | repositories/lessons.py:39-46 | one `LessonBlock` row: the lesson id, the input's type, text, image URL and caption, and the given position |
| LessonsRepo.NumberedBlocks | repositories/lessons.py:38-46 | one row per input block at position i + 1, with type, text, image URL and caption copied |
| LessonsRepo.NumberBlocks | repositories/lessons.py:38-46 | the enumerate loop gives exactly the numbered rows |
| LessonsRepo.NumberedStep | repositories/lessons.py:38 | one more input adds its row at the end |
| LessonsRepo.NumberedKeepsPositionsUnique | repositories/lessons.py:38-46 | numbering a new lesson's blocks keeps positions unique within each lesson |
| LessonsRepo.WithGrants | repositories/lessons.py:51-67 | merging adds a row for every id and keeps every existing row as it is |
| LessonsRepo.Live | repositories/lessons.py:79 | `expires_at IS NULL OR expires_at > now()` |
| LessonsRepo.HasAccess | repositories/lessons.py:75-90 | the two EXISTS subqueries: a live personal grant, or a live grant to a group the user belongs to |
| LessonsRepo.Accessible | repositories/lessons.py:92-95 | the WHERE clause: published and `HasAccess` |
| LessonsRepo.Merge | repositories/lessons.py:55 | `session.merge` of a grant row with no expiry: an existing row is kept; its contract is carried by `MergeStep` and `WithGrants` |
| LessonsRepo.ExistingIds | repositories/lessons.py:63-64 | the set of listed group ids that are rows of the groups table |
| LessonsRepo.Visible | repositories/lessons.py:92-95 | the kept lessons are exactly the published ones with a live user or group grant, none added |
| LessonsRepo.Insert | repositories/lessons.py:96 | inserting keeps the list in descending key order and adds exactly that lesson |
| LessonsRepo.DescendingTail | repositories/lessons.py:96 | the rest of a descending list is descending and below its head |
| LessonsRepo.ConsDescending | repositories/lessons.py:96 | a head at least as large as the rest keeps the list descending |
| LessonsRepo.SortKey | repositories/lessons.py:96 | `coalesce(published_at, created_at)` |
| LessonsRepo.SortDesc | repositories/lessons.py:96 | the sort is a permutation in descending `coalesce(published_at, created_at)` order |
| LessonsRepo.VisibleCounts | repositories/lessons.py:92-95 | an accessible lesson occurs in the filtered list as often as in the table; any other lesson does not occur |
| LessonsRepo.AccessibleLessons | repositories/lessons.py:70-99 | `get_accessible_lessons_for_user` as filter then sort; its contract is carried by `AccessibleLessonsSpec` and `VisibleCounts` |
| LessonsRepo.AccessibleLessonsSpec | repositories/lessons.py:70-99 | the result holds exactly the accessible lessons, each as often as in the table, newest first |
| LessonsRepo.ExpiredGrantIgnored | repositories/lessons.py:79-88 | a grant whose expiry is not after now gives no access |
| LessonsRepo.LessonStore.constructor | models.py:172-198 | empty lesson, block and grant tables over the given subjects, groups and members |
| LessonsRepo.LessonStore.CreateLesson | repositories/lessons.py:13-48 | an unknown subject gives `Subject not found` with nothing added; otherwise one new lesson and its numbered blocks, nothing else changed |
| LessonsRepo.LessonStore.GrantAccessToUsers | repositories/lessons.py:51-56 | returns the number of ids, duplicates counted, and every listed user gets a grant row; the store invariant is kept |
| LessonsRepo.LessonStore.GrantAccessToGroups | repositories/lessons.py:59-67 | grants go only to existing groups, and the count is the number of distinct existing ids; the store invariant is kept |
| LessonsRepo.LessonStore.GrantAccessToUsersAsWritten | repositories/lessons.py:51-56 | the count is returned while the grant table stays as it was |
| LessonsRepo.LessonStore.GrantAccessToGroupsAsWritten | repositories/lessons.py:59-67 | the count of existing groups is returned while the grant table stays as it was |
| LessonsRepo.MergeStep | repositories/lessons.py:54-55 | one more merge adds that id's row |
| LessonsRepo.SelectExisting | repositories/lessons.py:63-64 | the id query returns each existing listed group once |
| LessonsRepo.ExistingStep | repositories/lessons.py:63-64 | one more listed id adds it only when the group exists |
| LessonsRepo.DistinctCard | repositories/lessons.py:64-67 | a list without repeats has as many elements as its set |
| LessonsRepo.UnawaitedMergeLosesGrant | repositories/lessons.py:54-55 | a listed user with no prior row is in the merged table, so leaving the table unchanged loses that row |
| LessonsRepo.EveryListedUserGranted | repositories/lessons.py:51-56 | every listed user has a grant row afterwards, and no row outside the listed ones is added |

## Left out

- PyMuPDF itself is not modelled. This covers opening documents, `get_text`, `get_images` and `get_image_info`, pixmaps, colour-space conversion, `_pixmap_from_xref_safely` and `_render_clip`. The reports are plain input sequences, and extraction and clipping are oracles that return an optional opaque image payload. A clip that raises is `None` and fails the whole page, as the uncaught exception does.
- `get_image_info` raising is modelled as an empty list of image-info records.
- PNG and base64 encoding are left out. `PdfPage.PngDataUrl` keeps only the `data:image/png;base64,` prefix around an opaque payload.
- CSS number formatting (`:.2f`, `:.3f`) is left out. This is floating-point presentation, so positions and sizes stay `real`. The div and image tags are records, not text.
- The exact text of the style attribute is left out. `PdfPage.SpanDiv` keeps its parts (position, size, colour, the escaped font family, weight and style) as record fields.
- The debug `print` in `_render_page_html` is left out because it is output only.
- The `pdf_to_html` entry point is left out. It checks the file exists, loops over pages, joins them into the HTML shell and writes the file atomically. All of that is I/O and text assembly.
- `_atomic_write_text`, `_write_log`, `mkdir` and file writes are left out because they are I/O.
- The existing files that `unique_named_path` and `ensure_unique_path` check are a finite set of names given as a parameter.
- `urljoin` is not modelled. `UploadUtils.AbsUrl` returns the base and the relative reference it would pass to `urljoin`.
- `PUBLIC_BACKEND_URL` and `request.base_url` are parameters.
- urlparse raising on an unbalanced `[` is modelled only as the netloc bracket rule. Its other `ValueError` cases are not modelled.
- The UTF-8 encode/decode round trip in `sanitize_filename_unicode` is not modelled because it is a no-op on valid strings.
- `uuid4` names in `save_html_to_uploads` are randomness and are left out. Only the name rule of its two other branches is modelled, by `UploadUtils.HtmlUploadNameEndsInHtml`.
- `\s`, `str.strip` and `str.isspace` are modelled by one fixed whitespace predicate. `lower()` and `upper()` change only ASCII letters, because Unicode case mapping is not modelled.
- `get_user_profile` is not part of this model. It is the parameter `profileOf` of `Access.CanViewLesson`, or the optional profile given to `Access.RequireRoles`.
- Database sessions, `flush`, `commit` and autoincrement are not modelled as such. Tables are sequences, sets and maps in a class, and the autonumbers are explicit counters.
- `ensure_user`'s `changed` flag is left out because it only decides whether to flush. Each field is overwritten when it is passed and differs, which gives the same row as overwriting whenever it is passed.
- `Access.GetCurrentUser` does not model `commit`.
- Concurrent requests are not modelled: each operation runs alone against the tables, so interleaved sessions and races between two `ensure_user` calls for one Telegram id are left out.
- The order of rows that tie on `coalesce(published_at, created_at)` is left to the database. `LessonsRepo.SortDesc` fixes one order (insertion), and `LessonsRepo.AccessibleLessonsSpec` states only what any correct order guarantees.
- The order of the ids returned by the `Group.id IN (...)` query is left to the database. `LessonsRepo.SelectExisting` returns them in first-occurrence order, and only the set and the count are stated.
- Time is an integer `now`, and `func.now()` is that same value. Time zones are not modelled.
- The rule that a text block needs text (400) is left out, because the `create_lesson` in the repository has no such rule.
- The FastAPI routes, schemas and other repositories are not part of this model.
- LessonFiles.UniqueNamedPath: requires a plain file name (not empty, not `.` or `..`, no `/`). The folder is modelled as a set of entry names, and such names would address the folder itself or a deeper path. Both sanitisers produce plain names, as `LessonFiles.SanitizedNamesArePlain` shows.

## Findings

| source | as written | input that shows it | evidently intended | confidence | as-written member | corrected member |
|---|---|---|---|---|---|---|
| repositories/lessons.py:54-56 | `session.merge(...)` is called without `await`, and the session is an `AsyncSession`, whose `merge` is a coroutine, so no grant row is added; the count is still returned | `lesson_id=1, user_ids=[7]` with no grant row for (1, 7): returns 1 but user 7 gets no row | every listed user ends up with a grant row for the lesson | high, not executed | LessonsRepo.LessonStore.GrantAccessToUsersAsWritten, LessonsRepo.UnawaitedMergeLosesGrant | LessonsRepo.LessonStore.GrantAccessToUsers |
| repositories/lessons.py:65-67 | the same unawaited `session.merge` for group grants: the existing group ids are counted and returned, but no row is added | `lesson_id=1, group_ids=[3]` with group 3 present and no grant row for (1, 3): returns 1 but group 3 gets no row | every existing listed group ends up with a grant row for the lesson | high, not executed | LessonsRepo.LessonStore.GrantAccessToGroupsAsWritten, LessonsRepo.UnawaitedMergeLosesGrant | LessonsRepo.LessonStore.GrantAccessToGroups |
