/**
 * The image metadata of one PDF page, merged from PyMuPDF's three reports
 * (the page's image list, the image-info records and the raw-dict blocks)
 * into one record per xref, and the choice between extracting an image
 * and rendering its box.
 */
module PdfImages {
  import opened Wrappers
  import opened Text

  /** A bounding box in PDF points: (x0, y0, x1, y1). */
  datatype Box = Box(x0: real, y0: real, x1: real, y1: real)

  /** An entry of `page.get_images(full=True)`: its xref, its soft-mask xref
      (0 when none or when the tuple is too short) and its colour-space name. */
  datatype ImageEntry = ImageEntry(xref: int, smask: int, cs: Option<string>)

  /** A record of `page.get_image_info(xrefs=True)`. `xref` is None when the
      record's xref is not an int; `bbox` is None when missing or empty;
      `smask` and `mask` are 0 when missing or falsy. */
  datatype InfoRecord = InfoRecord(xref: Option<int>, bbox: Option<Box>, smask: int, mask: int)

  /** A block of `page.get_text("rawdict")`: its type, its `image` and
      `number` entries when they are ints, and its bbox. */
  datatype RawBlock = RawBlock(kind: int, image: Option<int>, number: Option<int>, bbox: Option<Box>)

  /** One merged record: the dict `{"xref", "smask", "mask", "cs", "bbox"}`. */
  datatype Meta = Meta(xref: int, smask: Option<int>, mask: Option<int>, cs: Option<string>, bbox: Option<Box>)

  /** The record `setdefault` inserts for an xref not seen before. */
  function Fresh(x: int): Meta {
    Meta(x, None, None, None, None)
  }

  /** The record the image list writes: `smask or None`, no mask, no bbox. */
  function FromImage(e: ImageEntry): (m: Meta)
    ensures m.xref == e.xref && m.cs == e.cs && m.bbox.None? && m.mask.None?
    ensures m.smask.Some? <==> e.smask != 0
  {
    Meta(e.xref, if e.smask != 0 then Some(e.smask) else None, None, e.cs, None)
  }

  /** One image-info record applied to the record of its xref: a present
      bbox, a truthy smask and a truthy mask each overwrite. */
  function ApplyInfo(m: Meta, r: InfoRecord): (m': Meta)
    ensures m'.xref == m.xref && m'.cs == m.cs
    ensures m'.bbox == if r.bbox.Some? then r.bbox else m.bbox
    ensures m'.smask == if r.smask != 0 then Some(r.smask) else m.smask
    ensures m'.mask == if r.mask != 0 then Some(r.mask) else m.mask
  {
    var withBox := if r.bbox.Some? then m.(bbox := r.bbox) else m;
    var withSmask := if r.smask != 0 then withBox.(smask := Some(r.smask)) else withBox;
    if r.mask != 0 then withSmask.(mask := Some(r.mask)) else withSmask
  }

  /** The xref a raw-dict block names: its `image` entry when that is an int,
      else its `number`. */
  function BlockXref(b: RawBlock): Option<int> {
    if b.image.Some? then b.image else b.number
  }

  /** A type-1 (image) block with an int xref: the blocks the third loop uses. */
  predicate ImageBlock(b: RawBlock) {
    b.kind == 1 && BlockXref(b).Some?
  }

  // ------------------------------------------------------ the reference

  function ImageXrefs(images: seq<ImageEntry>): (r: seq<int>)
    ensures |r| == |images|
    ensures forall i :: 0 <= i < |images| ==> r[i] == images[i].xref
  {
    seq(|images|, i requires 0 <= i < |images| => images[i].xref)
  }

  /** The int xrefs of the image-info records, in order. */
  function InfoXrefs(infos: seq<InfoRecord>): seq<int>
    decreases |infos|
  {
    if infos == [] then []
    else
      var r := infos[|infos| - 1];
      InfoXrefs(infos[..|infos| - 1]) + (if r.xref.Some? then [r.xref.value] else [])
  }

  /** The xrefs of the type-1 blocks, in order. */
  function BlockXrefs(blocks: seq<RawBlock>): seq<int>
    decreases |blocks|
  {
    if blocks == [] then []
    else
      var b := blocks[|blocks| - 1];
      BlockXrefs(blocks[..|blocks| - 1]) + (if ImageBlock(b) then [BlockXref(b).value] else [])
  }

  /** Every xref in the order of its first occurrence: a dict's key order. */
  function FirstSeen(xs: seq<int>): (r: seq<int>)
    ensures forall x :: x in r <==> x in xs
    ensures forall i, j :: 0 <= i < j < |r| ==> r[i] != r[j]
    decreases |xs|
  {
    if xs == [] then []
    else
      var d := FirstSeen(xs[..|xs| - 1]);
      assert forall x :: x in xs <==> x in xs[..|xs| - 1] || x == xs[|xs| - 1] by {
        assert xs == xs[..|xs| - 1] + [xs[|xs| - 1]];
      }
      if xs[|xs| - 1] in d then d else d + [xs[|xs| - 1]]
  }

  /** The last image-list entry for `x`. */
  function LastImage(images: seq<ImageEntry>, x: int): (r: Option<ImageEntry>)
    ensures r.Some? ==> r.value in images && r.value.xref == x
    ensures r.None? <==> x !in ImageXrefs(images)
    decreases |images|
  {
    if images == [] then None
    else if images[|images| - 1].xref == x then Some(images[|images| - 1])
    else
      var r := LastImage(images[..|images| - 1], x);
      assert ImageXrefs(images) == ImageXrefs(images[..|images| - 1]) + [images[|images| - 1].xref];
      r
  }

  /** The bbox of the last image-info record for `x` that has one. */
  function LastInfoBox(infos: seq<InfoRecord>, x: int): (r: Option<Box>)
    ensures r.Some? ==> x in InfoXrefs(infos)
    decreases |infos|
  {
    if infos == [] then None
    else
      var r := infos[|infos| - 1];
      if r.xref == Some(x) && r.bbox.Some? then r.bbox else LastInfoBox(infos[..|infos| - 1], x)
  }

  /** The last truthy smask among the image-info records for `x`. */
  function LastInfoSmask(infos: seq<InfoRecord>, x: int): (r: Option<int>)
    ensures r.Some? ==> x in InfoXrefs(infos) && r.value != 0
    decreases |infos|
  {
    if infos == [] then None
    else
      var r := infos[|infos| - 1];
      if r.xref == Some(x) && r.smask != 0 then Some(r.smask) else LastInfoSmask(infos[..|infos| - 1], x)
  }

  /** The last truthy mask among the image-info records for `x`. */
  function LastInfoMask(infos: seq<InfoRecord>, x: int): (r: Option<int>)
    ensures r.Some? ==> x in InfoXrefs(infos) && r.value != 0
    decreases |infos|
  {
    if infos == [] then None
    else
      var r := infos[|infos| - 1];
      if r.xref == Some(x) && r.mask != 0 then Some(r.mask) else LastInfoMask(infos[..|infos| - 1], x)
  }

  /** The bbox of the first image block for `x` that has one. */
  function FirstBlockBox(blocks: seq<RawBlock>, x: int): (r: Option<Box>)
    ensures r.Some? ==> x in BlockXrefs(blocks)
    decreases |blocks|
  {
    if blocks == [] then None
    else
      var f := FirstBlockBox(blocks[..|blocks| - 1], x);
      var b := blocks[|blocks| - 1];
      if f.Some? then f
      else if ImageBlock(b) && BlockXref(b) == Some(x) then b.bbox
      else None
  }

  /**
   * The merged record for `x`, field by field: `cs` from the last image-list
   * entry; the smask from the last truthy image-info smask, else from that
   * entry; the mask from the last truthy image-info mask; the bbox from the
   * last image-info record with one, else from the first image block with one.
   */
  function MergedMeta(images: seq<ImageEntry>, infos: seq<InfoRecord>, blocks: seq<RawBlock>, x: int): Meta {
    var img := LastImage(images, x);
    var infoBox := LastInfoBox(infos, x);
    var smask := LastInfoSmask(infos, x);
    Meta(x,
         if smask.Some? then smask else if img.Some? && img.value.smask != 0 then Some(img.value.smask) else None,
         LastInfoMask(infos, x),
         if img.Some? then img.value.cs else None,
         if infoBox.Some? then infoBox else FirstBlockBox(blocks, x))
  }

  /** Every xref the three reports mention, images first, then infos, then blocks. */
  function AllXrefs(images: seq<ImageEntry>, infos: seq<InfoRecord>, blocks: seq<RawBlock>): seq<int> {
    ImageXrefs(images) + InfoXrefs(infos) + BlockXrefs(blocks)
  }

  /** The records, in key order, that have a bbox. */
  function WithBox(keys: seq<int>, meta: map<int, Meta>): (r: seq<Meta>)
    requires forall k :: k in keys ==> k in meta
    ensures forall m :: m in r ==> m.bbox.Some?
    ensures forall m :: m in r ==> exists k :: k in keys && meta[k] == m
    decreases |keys|
  {
    if keys == [] then []
    else
      var k := keys[|keys| - 1];
      var front := WithBox(keys[..|keys| - 1], meta);
      assert forall m :: m in front ==> exists j :: j in keys && meta[j] == m by {
        forall m | m in front ensures exists j :: j in keys && meta[j] == m {
          var j :| j in keys[..|keys| - 1] && meta[j] == m;
          assert j in keys;
        }
      }
      if meta[k].bbox.Some? then front + [meta[k]] else front
  }

  /** What `_xref_meta_list` returns, as a reference definition. */
  function MergedList(images: seq<ImageEntry>, infos: seq<InfoRecord>, blocks: seq<RawBlock>): seq<Meta> {
    var keys := FirstSeen(AllXrefs(images, infos, blocks));
    WithBox(keys, map x | x in keys :: MergedMeta(images, infos, blocks, x))
  }

  // ------------------------------------------------------- one step more

  lemma ImageStep(images: seq<ImageEntry>, i: nat, x: int)
    requires i < |images|
    ensures MergedMeta(images[..i + 1], [], [], x) ==
      if images[i].xref == x then FromImage(images[i]) else MergedMeta(images[..i], [], [], x)
  {
    assert images[..i + 1][..i] == images[..i];
  }

  lemma InfoStep(images: seq<ImageEntry>, infos: seq<InfoRecord>, j: nat, x: int)
    requires j < |infos|
    ensures MergedMeta(images, infos[..j + 1], [], x) ==
      if infos[j].xref == Some(x) then ApplyInfo(MergedMeta(images, infos[..j], [], x), infos[j])
      else MergedMeta(images, infos[..j], [], x)
  {
    assert infos[..j + 1][..j] == infos[..j];
  }

  lemma BlockStep(images: seq<ImageEntry>, infos: seq<InfoRecord>, blocks: seq<RawBlock>, k: nat, x: int)
    requires k < |blocks|
    ensures var m := MergedMeta(images, infos, blocks[..k], x);
      MergedMeta(images, infos, blocks[..k + 1], x) ==
        if ImageBlock(blocks[k]) && BlockXref(blocks[k]) == Some(x) && m.bbox.None? && blocks[k].bbox.Some?
        then m.(bbox := blocks[k].bbox) else m
  {
    assert blocks[..k + 1][..k] == blocks[..k];
  }

  /** An xref none of the reports mentions has the record `setdefault` would insert. */
  lemma UnseenIsFresh(images: seq<ImageEntry>, infos: seq<InfoRecord>, blocks: seq<RawBlock>, x: int)
    requires x !in AllXrefs(images, infos, blocks)
    ensures MergedMeta(images, infos, blocks, x) == Fresh(x)
  {
  }

  lemma FirstSeenStep(xs: seq<int>, y: int)
    ensures FirstSeen(xs + [y]) == if y in FirstSeen(xs) then FirstSeen(xs) else FirstSeen(xs) + [y]
  {
    assert (xs + [y])[..|xs|] == xs;
  }

  lemma InfoXrefsStep(infos: seq<InfoRecord>, j: nat)
    requires j < |infos|
    ensures InfoXrefs(infos[..j + 1]) == InfoXrefs(infos[..j]) + (if infos[j].xref.Some? then [infos[j].xref.value] else [])
  {
    assert infos[..j + 1][..j] == infos[..j];
  }

  lemma BlockXrefsStep(blocks: seq<RawBlock>, k: nat)
    requires k < |blocks|
    ensures BlockXrefs(blocks[..k + 1]) == BlockXrefs(blocks[..k]) + (if ImageBlock(blocks[k]) then [BlockXref(blocks[k]).value] else [])
  {
    assert blocks[..k + 1][..k] == blocks[..k];
  }

  // ----------------------------------------------------------- the loops

  /** `meta.setdefault(x, {...})` as read. */
  function Lookup(meta: map<int, Meta>, x: int): Meta {
    if x in meta then meta[x] else Fresh(x)
  }

  /** The key order after inserting `x`. */
  function AddKey(keys: seq<int>, x: int): seq<int> {
    if x in keys then keys else keys + [x]
  }

  /** The dict state after the reports seen so far: its key order is that of
      first occurrence and every record is the reference record. */
  ghost predicate Tracks(keys: seq<int>, meta: map<int, Meta>,
                         images: seq<ImageEntry>, infos: seq<InfoRecord>, blocks: seq<RawBlock>) {
    keys == FirstSeen(AllXrefs(images, infos, blocks))
      && (forall x :: x in meta <==> x in keys)
      && (forall x :: x in meta ==> meta[x] == MergedMeta(images, infos, blocks, x))
  }

  lemma ImageLoopStep(keys: seq<int>, meta: map<int, Meta>, images: seq<ImageEntry>, i: nat)
    requires i < |images| && Tracks(keys, meta, images[..i], [], [])
    ensures Tracks(AddKey(keys, images[i].xref), meta[images[i].xref := FromImage(images[i])], images[..i + 1], [], [])
  {
    var e := images[i];
    var keys', meta' := AddKey(keys, e.xref), meta[e.xref := FromImage(e)];
    assert keys' == FirstSeen(AllXrefs(images[..i + 1], [], [])) by {
      assert AllXrefs(images[..i + 1], [], []) == AllXrefs(images[..i], [], []) + [e.xref] by {
        assert ImageXrefs(images[..i + 1]) == ImageXrefs(images[..i]) + [e.xref];
      }
      FirstSeenStep(AllXrefs(images[..i], [], []), e.xref);
    }
    forall x | x in meta'
      ensures meta'[x] == MergedMeta(images[..i + 1], [], [], x)
    {
      ImageStep(images, i, x);
    }
    TracksIntro(keys', meta', images[..i + 1], [], []);
  }

  lemma InfoLoopStep(keys: seq<int>, meta: map<int, Meta>, images: seq<ImageEntry>, infos: seq<InfoRecord>, j: nat)
    requires j < |infos| && Tracks(keys, meta, images, infos[..j], [])
    ensures infos[j].xref.None? ==> Tracks(keys, meta, images, infos[..j + 1], [])
    ensures infos[j].xref.Some? ==> var x := infos[j].xref.value;
      Tracks(AddKey(keys, x), meta[x := ApplyInfo(Lookup(meta, x), infos[j])], images, infos[..j + 1], [])
  {
    var r := infos[j];
    InfoXrefsStep(infos, j);
    if r.xref.Some? {
      var x := r.xref.value;
      var keys', meta' := AddKey(keys, x), meta[x := ApplyInfo(Lookup(meta, x), r)];
      assert keys' == FirstSeen(AllXrefs(images, infos[..j + 1], [])) by {
        assert AllXrefs(images, infos[..j + 1], []) == AllXrefs(images, infos[..j], []) + [x];
        FirstSeenStep(AllXrefs(images, infos[..j], []), x);
      }
      assert Lookup(meta, x) == MergedMeta(images, infos[..j], [], x) by {
        if x !in meta {
          UnseenIsFresh(images, infos[..j], [], x);
        }
      }
      forall y | y in meta'
        ensures meta'[y] == MergedMeta(images, infos[..j + 1], [], y)
      {
        InfoStep(images, infos, j, y);
      }
      TracksIntro(keys', meta', images, infos[..j + 1], []);
    } else {
      assert AllXrefs(images, infos[..j + 1], []) == AllXrefs(images, infos[..j], []);
      forall y | y in meta ensures meta[y] == MergedMeta(images, infos[..j + 1], [], y) {
        InfoStep(images, infos, j, y);
      }
      TracksIntro(keys, meta, images, infos[..j + 1], []);
    }
  }

  lemma TracksIntro(keys: seq<int>, meta: map<int, Meta>,
                    images: seq<ImageEntry>, infos: seq<InfoRecord>, blocks: seq<RawBlock>)
    requires keys == FirstSeen(AllXrefs(images, infos, blocks))
    requires forall x :: x in meta <==> x in keys
    requires forall x :: x in meta ==> meta[x] == MergedMeta(images, infos, blocks, x)
    ensures Tracks(keys, meta, images, infos, blocks)
  {
  }

  /** What the third loop writes for an image block: the block's bbox, only
      when the record has none yet. */
  function FillBox(m: Meta, b: RawBlock): Meta {
    if m.bbox.None? && b.bbox.Some? then m.(bbox := b.bbox) else m
  }

  lemma BlockLoopStep(keys: seq<int>, meta: map<int, Meta>, images: seq<ImageEntry>, infos: seq<InfoRecord>,
                      blocks: seq<RawBlock>, k: nat)
    requires k < |blocks| && Tracks(keys, meta, images, infos, blocks[..k])
    ensures !ImageBlock(blocks[k]) ==> Tracks(keys, meta, images, infos, blocks[..k + 1])
    ensures ImageBlock(blocks[k]) ==> var x := BlockXref(blocks[k]).value;
      Tracks(AddKey(keys, x), meta[x := FillBox(Lookup(meta, x), blocks[k])], images, infos, blocks[..k + 1])
  {
    var b := blocks[k];
    BlockXrefsStep(blocks, k);
    if ImageBlock(b) {
      var x := BlockXref(b).value;
      var keys', meta' := AddKey(keys, x), meta[x := FillBox(Lookup(meta, x), b)];
      assert keys' == FirstSeen(AllXrefs(images, infos, blocks[..k + 1])) by {
        assert AllXrefs(images, infos, blocks[..k + 1]) == AllXrefs(images, infos, blocks[..k]) + [x];
        FirstSeenStep(AllXrefs(images, infos, blocks[..k]), x);
      }
      assert Lookup(meta, x) == MergedMeta(images, infos, blocks[..k], x) by {
        if x !in meta {
          UnseenIsFresh(images, infos, blocks[..k], x);
        }
      }
      forall y | y in meta'
        ensures meta'[y] == MergedMeta(images, infos, blocks[..k + 1], y)
      {
        BlockStep(images, infos, blocks, k, y);
      }
      TracksIntro(keys', meta', images, infos, blocks[..k + 1]);
    } else {
      assert AllXrefs(images, infos, blocks[..k + 1]) == AllXrefs(images, infos, blocks[..k]);
      forall y | y in meta ensures meta[y] == MergedMeta(images, infos, blocks[..k + 1], y) {
        BlockStep(images, infos, blocks, k, y);
      }
      TracksIntro(keys, meta, images, infos, blocks[..k + 1]);
    }
  }

  /**
   * `_xref_meta_list`: the dict is kept as its key order `keys` and its
   * contents `meta`. The three loops fill it, and the records with a bbox
   * are returned in key order. The result is the reference `MergedList`.
   */
  method XrefMetaList(images: seq<ImageEntry>, infos: seq<InfoRecord>, blocks: seq<RawBlock>)
    returns (result: seq<Meta>)
    ensures result == MergedList(images, infos, blocks)
  {
    var keys: seq<int> := [];
    var meta: map<int, Meta> := map[];

    assert images[..0] == [];
    var i := 0;
    while i < |images|
      invariant 0 <= i <= |images|
      invariant Tracks(keys, meta, images[..i], [], [])
    {
      var e := images[i];
      ImageLoopStep(keys, meta, images, i);
      keys := AddKey(keys, e.xref);
      meta := meta[e.xref := FromImage(e)];
      i := i + 1;
    }
    assert images[..|images|] == images && infos[..0] == [];

    var j := 0;
    while j < |infos|
      invariant 0 <= j <= |infos|
      invariant Tracks(keys, meta, images, infos[..j], [])
    {
      var r := infos[j];
      InfoLoopStep(keys, meta, images, infos, j);
      if r.xref.Some? {
        var x := r.xref.value;
        var m := Lookup(meta, x);
        keys := AddKey(keys, x);
        meta := meta[x := ApplyInfo(m, r)];
      }
      j := j + 1;
    }
    assert infos[..|infos|] == infos && blocks[..0] == [];

    var k := 0;
    while k < |blocks|
      invariant 0 <= k <= |blocks|
      invariant Tracks(keys, meta, images, infos, blocks[..k])
    {
      var b := blocks[k];
      BlockLoopStep(keys, meta, images, infos, blocks, k);
      if ImageBlock(b) {
        var x := BlockXref(b).value;
        var m := Lookup(meta, x);
        keys := AddKey(keys, x);
        meta := meta[x := FillBox(m, b)];
      }
      k := k + 1;
    }
    assert blocks[..|blocks|] == blocks;
    TrackedMap(keys, meta, images, infos, blocks);
    result := WithBox(keys, meta);
  }

  /** The finished dict is the reference map over the reference key order. */
  lemma TrackedMap(keys: seq<int>, meta: map<int, Meta>,
                   images: seq<ImageEntry>, infos: seq<InfoRecord>, blocks: seq<RawBlock>)
    requires Tracks(keys, meta, images, infos, blocks)
    ensures keys == FirstSeen(AllXrefs(images, infos, blocks))
    ensures meta == map x | x in keys :: MergedMeta(images, infos, blocks, x)
  {
  }

  // ------------------------------------------------------ what it promises

  /** Where `x` first occurs in `xs`. */
  function FirstPos(xs: seq<int>, x: int): (p: nat)
    requires x in xs
    ensures p < |xs| && xs[p] == x && forall i :: 0 <= i < p ==> xs[i] != x
    decreases |xs|
  {
    if xs[0] == x then 0 else 1 + FirstPos(xs[1..], x)
  }

  /** Keys listed in the order of their first occurrence in `xs`. */
  ghost predicate InFirstSeenOrder(keys: seq<int>, xs: seq<int>) {
    (forall k :: k in keys ==> k in xs)
      && forall i, j :: 0 <= i < j < |keys| ==> FirstPos(xs, keys[i]) < FirstPos(xs, keys[j])
  }

  lemma {:induction false} FirstSeenOrder(xs: seq<int>)
    ensures InFirstSeenOrder(FirstSeen(xs), xs)
    decreases |xs|
  {
    if xs != [] {
      var xs', y := xs[..|xs| - 1], xs[|xs| - 1];
      FirstSeenOrder(xs');
      assert xs == xs' + [y];
      FirstSeenOrderStep(xs', y);
    }
  }

  lemma FirstSeenOrderStep(xs': seq<int>, y: int)
    requires InFirstSeenOrder(FirstSeen(xs'), xs')
    ensures InFirstSeenOrder(FirstSeen(xs' + [y]), xs' + [y])
  {
    var xs := xs' + [y];
    var d := FirstSeen(xs');
    assert xs[..|xs| - 1] == xs';
    assert FirstSeen(xs) == if y in d then d else d + [y];
    PrefixPositions(xs', y);
    if y !in d {
      OrderExtended(xs', y, d);
    }
  }

  lemma PrefixPositions(xs': seq<int>, y: int)
    ensures forall x :: x in xs' ==> FirstPos(xs' + [y], x) == FirstPos(xs', x)
  {
    forall x | x in xs'
      ensures FirstPos(xs' + [y], x) == FirstPos(xs', x)
    {
      FirstPosPrefix(xs', y, x);
    }
  }

  lemma OrderExtended(xs': seq<int>, y: int, d: seq<int>)
    requires InFirstSeenOrder(d, xs') && y !in xs'
    requires forall x :: x in xs' ==> FirstPos(xs' + [y], x) == FirstPos(xs', x)
    ensures InFirstSeenOrder(d + [y], xs' + [y])
  {
    var xs := xs' + [y];
    var keys := d + [y];
    FirstPosLast(xs', y);
    forall i, j | 0 <= i < j < |keys|
      ensures FirstPos(xs, keys[i]) < FirstPos(xs, keys[j])
    {
      assert keys[i] == d[i] && d[i] in xs';
      if j < |d| {
        assert keys[j] == d[j] && d[j] in xs';
      }
    }
  }

  lemma FirstPosPrefix(xs: seq<int>, y: int, x: int)
    requires x in xs
    ensures FirstPos(xs + [y], x) == FirstPos(xs, x)
  {
    var p := FirstPos(xs, x);
    var q := FirstPos(xs + [y], x);
    assert (xs + [y])[p] == x;
    assert q < |xs| ==> xs[q] == x;
  }

  lemma FirstPosLast(xs: seq<int>, y: int)
    requires y !in xs
    ensures FirstPos(xs + [y], y) == |xs|
  {
  }

  /** The xrefs of a list of records. */
  function Xrefs(r: seq<Meta>): (xs: seq<int>)
    ensures |xs| == |r| && forall i :: 0 <= i < |r| ==> xs[i] == r[i].xref
  {
    seq(|r|, i requires 0 <= i < |r| => r[i].xref)
  }

  /** Appending a key that first occurs after all others keeps the order. */
  lemma OrderSnoc(ks: seq<int>, k: int, xs: seq<int>)
    requires InFirstSeenOrder(ks, xs) && k in xs
    requires forall x :: x in ks ==> FirstPos(xs, x) < FirstPos(xs, k)
    ensures InFirstSeenOrder(ks + [k], xs)
  {
    var ks' := ks + [k];
    forall i, j | 0 <= i < j < |ks'| ensures FirstPos(xs, ks'[i]) < FirstPos(xs, ks'[j]) {
      if j == |ks| {
        assert ks'[i] == ks[i] && ks[i] in ks;
      } else {
        assert ks'[i] == ks[i] && ks'[j] == ks[j];
      }
    }
  }

  /** Keeping the records with a bbox keeps the key order, one record per key. */
  lemma {:induction false} WithBoxOrder(keys: seq<int>, meta: map<int, Meta>, xs: seq<int>)
    requires forall k :: k in keys ==> k in meta && meta[k].xref == k
    requires InFirstSeenOrder(keys, xs)
    ensures forall x :: x in Xrefs(WithBox(keys, meta)) ==> x in keys
    ensures InFirstSeenOrder(Xrefs(WithBox(keys, meta)), xs)
    decreases |keys|
  {
    if keys != [] {
      var front, k := keys[..|keys| - 1], keys[|keys| - 1];
      assert InFirstSeenOrder(front, xs);
      WithBoxOrder(front, meta, xs);
      var f := WithBox(front, meta);
      if meta[k].bbox.Some? {
        forall x | x in Xrefs(f) ensures FirstPos(xs, x) < FirstPos(xs, k) {
          var i :| 0 <= i < |front| && front[i] == x;
          assert keys[i] == x;
        }
        OrderSnoc(Xrefs(f), k, xs);
        assert Xrefs(f + [meta[k]]) == Xrefs(f) + [k];
      }
    }
  }

  /**
   * The merged list holds only records with a bbox, at most one per xref,
   * each the reference record of its xref, in the order in which the xrefs
   * first appear across the image list, the image-info records and the
   * raw-dict blocks.
   */
  lemma MergedListShape(images: seq<ImageEntry>, infos: seq<InfoRecord>, blocks: seq<RawBlock>)
    ensures var r := MergedList(images, infos, blocks);
      forall m :: m in r ==> m.bbox.Some? && m == MergedMeta(images, infos, blocks, m.xref)
    ensures InFirstSeenOrder(Xrefs(MergedList(images, infos, blocks)), AllXrefs(images, infos, blocks))
    ensures var r := MergedList(images, infos, blocks);
      forall i, j :: 0 <= i < j < |r| ==> r[i].xref != r[j].xref
  {
    var xs := AllXrefs(images, infos, blocks);
    var keys := FirstSeen(xs);
    var meta := map x | x in keys :: MergedMeta(images, infos, blocks, x);
    FirstSeenOrder(xs);
    WithBoxOrder(keys, meta, xs);
    var r := WithBox(keys, meta);
    forall i, j | 0 <= i < j < |r| ensures r[i].xref != r[j].xref {
      assert FirstPos(xs, Xrefs(r)[i]) < FirstPos(xs, Xrefs(r)[j]);
    }
  }

  /** An xref gets a record exactly when some report names it and it ends up with a bbox. */
  lemma MergedListMembers(images: seq<ImageEntry>, infos: seq<InfoRecord>, blocks: seq<RawBlock>, x: int)
    ensures (exists m :: m in MergedList(images, infos, blocks) && m.xref == x) <==>
      x in AllXrefs(images, infos, blocks) && MergedMeta(images, infos, blocks, x).bbox.Some?
  {
    var keys := FirstSeen(AllXrefs(images, infos, blocks));
    var meta := map y | y in keys :: MergedMeta(images, infos, blocks, y);
    WithBoxHas(keys, meta, x);
  }

  lemma {:induction false} WithBoxHas(keys: seq<int>, meta: map<int, Meta>, x: int)
    requires forall k :: k in keys ==> k in meta && meta[k].xref == k
    ensures (exists m :: m in WithBox(keys, meta) && m.xref == x) <==> x in keys && meta[x].bbox.Some?
    decreases |keys|
  {
    if keys != [] {
      var front, k := keys[..|keys| - 1], keys[|keys| - 1];
      WithBoxHas(front, meta, x);
      assert keys == front + [k];
      if x in keys && meta[x].bbox.Some? && x != k {
        var m :| m in WithBox(front, meta) && m.xref == x;
        assert m in WithBox(keys, meta);
      }
    }
  }

  /** The last image-info record for `x` with a bbox decides the bbox; a later
      record overwrites an earlier one. */
  lemma LastInfoBoxWins(infos: seq<InfoRecord>, x: int, i: nat)
    requires i < |infos| && infos[i].xref == Some(x) && infos[i].bbox.Some?
    requires forall j :: i < j < |infos| && infos[j].xref == Some(x) ==> infos[j].bbox.None?
    ensures forall images, blocks :: MergedMeta(images, infos, blocks, x).bbox == infos[i].bbox
  {
    LastInfoBoxAt(infos, x, i);
  }

  lemma {:induction false} LastInfoBoxAt(infos: seq<InfoRecord>, x: int, i: nat)
    requires i < |infos| && infos[i].xref == Some(x) && infos[i].bbox.Some?
    requires forall j :: i < j < |infos| && infos[j].xref == Some(x) ==> infos[j].bbox.None?
    ensures LastInfoBox(infos, x) == infos[i].bbox
    decreases |infos|
  {
    if i < |infos| - 1 {
      var front := infos[..|infos| - 1];
      LastInfoBoxAt(front, x, i);
    }
  }

  /** Without an image-info bbox, the first image block for `x` with a bbox
      decides it, and later blocks do not overwrite it. */
  lemma FirstBlockBoxWins(images: seq<ImageEntry>, infos: seq<InfoRecord>, blocks: seq<RawBlock>, x: int, k: nat)
    requires forall j :: 0 <= j < |infos| && infos[j].xref == Some(x) ==> infos[j].bbox.None?
    requires k < |blocks| && ImageBlock(blocks[k]) && BlockXref(blocks[k]) == Some(x) && blocks[k].bbox.Some?
    requires forall j :: 0 <= j < k && ImageBlock(blocks[j]) && BlockXref(blocks[j]) == Some(x) ==> blocks[j].bbox.None?
    ensures MergedMeta(images, infos, blocks, x).bbox == blocks[k].bbox
  {
    NoInfoBox(infos, x);
    FirstBlockBoxAt(blocks, x, k);
  }

  lemma {:induction false} NoInfoBox(infos: seq<InfoRecord>, x: int)
    requires forall j :: 0 <= j < |infos| && infos[j].xref == Some(x) ==> infos[j].bbox.None?
    ensures LastInfoBox(infos, x).None?
    decreases |infos|
  {
    if infos != [] {
      NoInfoBox(infos[..|infos| - 1], x);
    }
  }

  lemma {:induction false} FirstBlockBoxAt(blocks: seq<RawBlock>, x: int, k: nat)
    requires k < |blocks| && ImageBlock(blocks[k]) && BlockXref(blocks[k]) == Some(x) && blocks[k].bbox.Some?
    requires forall j :: 0 <= j < k && ImageBlock(blocks[j]) && BlockXref(blocks[j]) == Some(x) ==> blocks[j].bbox.None?
    ensures FirstBlockBox(blocks, x) == blocks[k].bbox
    decreases |blocks|
  {
    var front := blocks[..|blocks| - 1];
    if k < |blocks| - 1 {
      FirstBlockBoxAt(front, x, k);
    } else {
      NoBlockBox(front, x);
    }
  }

  lemma {:induction false} NoBlockBox(blocks: seq<RawBlock>, x: int)
    requires forall j :: 0 <= j < |blocks| && ImageBlock(blocks[j]) && BlockXref(blocks[j]) == Some(x) ==> blocks[j].bbox.None?
    ensures FirstBlockBox(blocks, x).None?
    decreases |blocks|
  {
    if blocks != [] {
      NoBlockBox(blocks[..|blocks| - 1], x);
    }
  }

  /** The colour space comes only from the image list: it is that of the last
      entry for `x`, and the other two reports never change it. */
  lemma CsFromImageList(images: seq<ImageEntry>, infos: seq<InfoRecord>, blocks: seq<RawBlock>, x: int)
    ensures MergedMeta(images, infos, blocks, x).cs == MergedMeta(images, [], [], x).cs
    ensures MergedMeta(images, infos, blocks, x).cs.Some? ==>
      exists e :: e in images && e.xref == x && e.cs == MergedMeta(images, infos, blocks, x).cs
  {
  }

  /** A zero smask from the image list becomes None; no record holds a zero
      smask or mask. */
  lemma NoZeroMasks(images: seq<ImageEntry>, infos: seq<InfoRecord>, blocks: seq<RawBlock>, x: int)
    ensures MergedMeta(images, infos, blocks, x).smask != Some(0)
    ensures MergedMeta(images, infos, blocks, x).mask != Some(0)
  {
  }

  // ------------------------------------------------------- extract or clip

  /** The `image_mode` argument; `pdf_to_html` admits only these three. */
  datatype ImageMode = Auto | Extract | Clip

  /** Python truthiness of an optional xref. */
  predicate Truthy(o: Option<int>) {
    o.Some? && o.value != 0
  }

  /** `_should_clip`: whether to render the image's box instead of extracting it. */
  function ShouldClip(meta: Meta, mode: ImageMode): (clip: bool)
    ensures mode == Clip ==> clip
    ensures mode == Extract ==> !clip
    ensures mode == Auto && !Truthy(meta.smask) && !Truthy(meta.mask) && meta.cs.None? ==> !clip
  {
    match mode
    case Clip => true
    case Extract => false
    case Auto =>
      var cs := Upper(OrElse(meta.cs, ""));
      assert meta.cs.None? ==> cs == [];
      Truthy(meta.smask) || Truthy(meta.mask) || Contains(cs, "CMYK") || Contains(cs, "ICC")
  }

  /** In auto mode a merged record is clipped exactly when it has a soft mask
      or a mask, or its colour space names CMYK or ICC in any letter case. */
  lemma AutoClipsMerged(images: seq<ImageEntry>, infos: seq<InfoRecord>, blocks: seq<RawBlock>, x: int)
    ensures var m := MergedMeta(images, infos, blocks, x);
      var cs := Upper(OrElse(m.cs, ""));
      ShouldClip(m, Auto) <==> m.smask.Some? || m.mask.Some? || Contains(cs, "CMYK") || Contains(cs, "ICC")
  {
    NoZeroMasks(images, infos, blocks, x);
  }

  /** The colour-space test ignores letter case. */
  lemma ClipIgnoresCsCase(m: Meta, s: string)
    ensures ShouldClip(m.(cs := Some(Lower(s))), Auto) == ShouldClip(m.(cs := Some(s)), Auto)
  {
    assert Upper(Lower(s)) == Upper(s);
    if s == [] {
      assert Lower(s) == [];
    }
  }
}
