/**
 * The PDF border trimmer of pdf_border_trim/trim_border.py: every page's
 * crop box is set from its media-box width and height and a border
 * thickness t. Pages are reduced to their media box, their crop box and
 * whatever else they carry, which the trimmer passes through untouched.
 */
module TrimBorder {

  /** A PDF rectangle: lower-left corner (left, bottom), upper-right corner (right, top). */
  datatype Box = Box(left: real, bottom: real, right: real, top: real)

  /** A page: its media box, its crop box and the rest of the page object. */
  datatype Page<Content> = Page(mediaBox: Box, cropBox: Box, content: Content)

  function Width(b: Box): real { b.right - b.left }

  function Height(b: Box): real { b.top - b.bottom }

  /** The two corners are in order. */
  predicate WellFormed(b: Box) {
    b.left <= b.right && b.bottom <= b.top
  }

  /**
   * The crop box of one page: lower-left (t, t), upper-right
   * (width - t, height - t), at absolute coordinates.
   */
  function TrimmedBox(media: Box, t: real): (r: Box)
    ensures r.left == t && r.bottom == t
    ensures Width(r) == Width(media) - 2.0 * t
    ensures Height(r) == Height(media) - 2.0 * t
  {
    var left := t;
    var lower := t;
    var right := Width(media) - t;
    var upper := Height(media) - t;
    Box(left, lower, right, upper)
  }

  /** The crop box's corners are (t, t) and (w - t, h - t), w and h the media-box size. */
  lemma TrimmedCorners(media: Box, t: real)
    ensures TrimmedBox(media, t).right == Width(media) - t
    ensures TrimmedBox(media, t).top == Height(media) - t
  {
  }

  /** The crop box is centred on (w / 2, h / 2). */
  lemma TrimmedCentre(media: Box, t: real)
    ensures (TrimmedBox(media, t).left + TrimmedBox(media, t).right) / 2.0 == Width(media) / 2.0
    ensures (TrimmedBox(media, t).bottom + TrimmedBox(media, t).top) / 2.0 == Height(media) / 2.0
  {
  }

  /** The crop box shares the media box's centre exactly when the media box starts at the origin. */
  lemma CentreMatchesMediaIff(media: Box, t: real)
    ensures
      (&& TrimmedBox(media, t).left + TrimmedBox(media, t).right == media.left + media.right
       && TrimmedBox(media, t).bottom + TrimmedBox(media, t).top == media.bottom + media.top)
      <==> media.left == 0.0 && media.bottom == 0.0
  {
  }

  /** No border gives (0, 0, w, h): the media box itself when it starts at the origin. */
  lemma ZeroBorder(media: Box)
    ensures TrimmedBox(media, 0.0) == Box(0.0, 0.0, Width(media), Height(media))
    ensures media.left == 0.0 && media.bottom == 0.0 ==> TrimmedBox(media, 0.0) == media
  {
  }

  /** The crop box is well-formed exactly when 2t fits in both the width and the height. */
  lemma TrimmedWellFormedIff(media: Box, t: real)
    ensures WellFormed(TrimmedBox(media, t)) <==> 2.0 * t <= Width(media) && 2.0 * t <= Height(media)
  {
  }

  /**
   * One page after the loop body: its crop box is replaced by the trimmed
   * box of its media box; the media box and the rest of the page are kept.
   */
  function CropPage<Content>(page: Page<Content>, t: real): (r: Page<Content>)
    ensures r.mediaBox == page.mediaBox && r.content == page.content
    ensures r.cropBox == TrimmedBox(page.mediaBox, t)
  {
    page.(cropBox := TrimmedBox(page.mediaBox, t))
  }

  /** All pages after the loop, in their order. */
  function CropPages<Content>(pages: seq<Page<Content>>, t: real): (r: seq<Page<Content>>)
    ensures |r| == |pages|
    ensures forall i :: 0 <= i < |pages| ==> r[i] == CropPage(pages[i], t)
  {
    seq(|pages|, i requires 0 <= i < |pages| => CropPage(pages[i], t))
  }

  /** The box a zero border writes on a page: (0, 0, w, h). */
  function FullBox(media: Box): Box {
    Box(0.0, 0.0, Width(media), Height(media))
  }

  /**
   * A zero border leaves the pages unchanged exactly when every page's crop
   * box already is (0, 0, w, h); any other existing crop box is overwritten.
   */
  lemma ZeroBorderIdentityIff<Content>(pages: seq<Page<Content>>)
    ensures CropPages(pages, 0.0) == pages <==>
      forall i :: 0 <= i < |pages| ==> pages[i].cropBox == FullBox(pages[i].mediaBox)
  {
    var r := CropPages(pages, 0.0);
    if forall i :: 0 <= i < |pages| ==> pages[i].cropBox == FullBox(pages[i].mediaBox) {
      forall i | 0 <= i < |pages| ensures r[i] == pages[i] {
        ZeroBorder(pages[i].mediaBox);
      }
    }
    if r == pages {
      forall i | 0 <= i < |pages| ensures pages[i].cropBox == FullBox(pages[i].mediaBox) {
        assert r[i] == pages[i];
        ZeroBorder(pages[i].mediaBox);
      }
    }
  }

  /**
   * Even with a media box at the origin, a zero border replaces an inner
   * crop box (36, 36, 576, 756) on a 612 x 792 page by the whole page.
   */
  lemma ZeroBorderOverwritesCropBox()
    ensures
      var page := Page(Box(0.0, 0.0, 612.0, 792.0), Box(36.0, 36.0, 576.0, 756.0), 0);
      CropPage(page, 0.0).cropBox == Box(0.0, 0.0, 612.0, 792.0) && CropPage(page, 0.0) != page
  {
  }

  /** 2t fits in both dimensions of the page's media box. */
  predicate BorderFits<Content>(page: Page<Content>, t: real) {
    2.0 * t <= Width(page.mediaBox) && 2.0 * t <= Height(page.mediaBox)
  }

  /**
   * crop_pdf's page loop: each page, in order, gets the crop box computed
   * from its own media box and the one border thickness t, and is appended
   * to the output. Nothing rejects a t that inverts a box; wellFormed
   * reports whether every crop box written is well-formed.
   */
  method CropPdf<Content>(pages: seq<Page<Content>>, t: real)
    returns (out: seq<Page<Content>>, wellFormed: bool)
    ensures out == CropPages(pages, t)
    ensures wellFormed <==> forall i :: 0 <= i < |pages| ==> BorderFits(pages[i], t)
    ensures wellFormed <==> forall i :: 0 <= i < |out| ==> WellFormed(out[i].cropBox)
  {
    out := [];
    wellFormed := true;
    for i := 0 to |pages|
      invariant |out| == i
      invariant forall k :: 0 <= k < i ==> out[k] == CropPage(pages[k], t)
      invariant wellFormed <==> forall k :: 0 <= k < i ==> BorderFits(pages[k], t)
    {
      var page := pages[i];
      var originalWidth := Width(page.mediaBox);
      var originalHeight := Height(page.mediaBox);
      var crop := TrimmedBox(page.mediaBox, t);
      page := page.(cropBox := crop);
      wellFormed := wellFormed && 2.0 * t <= originalWidth && 2.0 * t <= originalHeight;
      out := out + [page];
    }
    assert out == CropPages(pages, t);
    forall i | 0 <= i < |out| ensures WellFormed(out[i].cropBox) <==> BorderFits(pages[i], t) {
      TrimmedWellFormedIff(pages[i].mediaBox, t);
    }
  }
}
