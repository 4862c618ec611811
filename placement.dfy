/**
 * Composing the pages of the PDF: the page size, the printable canvas,
 * and where each rotated and scaled image is placed. Image loading and
 * the library's scale-to-fit are inputs; sizes are in PDF points.
 */
module Placement {
  import opened Wrappers
  import opened ImgFiles
  import opened Rotation

  datatype Size = Size(width: real, height: real)

  /** The A4 page of the PDF library, 595 x 842 points (ISO 216's 210 x 297 mm). */
  const A4: Size := Size(595.0, 842.0)

  /** The margin kept on each of the four sides of a page. */
  const PDF_MARGIN: real := 16.0

  /** A4 upright for a portrait page, turned on its side otherwise. */
  function PageSizeFor(isPortrait: bool): (page: Size)
    ensures {page.width, page.height} == {A4.width, A4.height}
    ensures isPortrait <==> page.height > page.width
  {
    if isPortrait then A4 else Size(A4.height, A4.width)
  }

  /** The printable area: the page less the margin on every side. */
  function Canvas(page: Size): (canvas: Size)
    ensures canvas.width + 2.0 * PDF_MARGIN == page.width
    ensures canvas.height + 2.0 * PDF_MARGIN == page.height
  {
    Size(page.width - PDF_MARGIN * 2.0, page.height - PDF_MARGIN * 2.0)
  }

  /** Loading an image: its plain size, or None when loading throws. */
  type ImageLoader = string -> Option<Size>

  /** The library's scale-to-fit: raw size, rotation and canvas give the scaled size. */
  type Scaler = (Size, int, Size) -> Size

  /** One page of the document: the image, the rotation set on it, its size and its lower-left corner. */
  datatype PlacedImage = PlacedImage(pathName: string, rotation: Option<int>, scaled: Size, x: real, y: real)

  /** The page made for one entry of the list. */
  function PlaceImage(item: ImgFile, raw: Size, isPortrait: bool, autoRotate: bool, scaleToFit: Scaler): PlacedImage {
    var page := PageSizeFor(isPortrait);
    var degrees := Decide(raw.width, raw.height, item.orientation, autoRotate, isPortrait);
    var scaled := scaleToFit(raw, degrees, Canvas(page));
    PlacedImage(item.pathName, if degrees != 0 then Some(degrees) else None, scaled,
                (page.width - scaled.width) / 2.0, (page.height - scaled.height) / 2.0)
  }

  /** The first `count` pages are those of the first `count` entries, in list order. */
  ghost predicate PlacedInOrder(pages: seq<PlacedImage>, items: seq<ImgFile>, count: nat,
                                isPortrait: bool, autoRotate: bool, loadImage: ImageLoader, scaleToFit: Scaler)
  {
    && count <= |items|
    && |pages| == count
    && forall i :: 0 <= i < count ==>
         loadImage(items[i].pathName).Some?
         && pages[i] == PlaceImage(items[i], loadImage(items[i].pathName).value, isPortrait, autoRotate, scaleToFit)
  }

  /**
   * The page loop: one page per entry, in list order. An image that cannot
   * be loaded stops the loop; the pages before it have been added.
   */
  method ComposePages(items: seq<ImgFile>, isPortrait: bool, autoRotate: bool,
                      loadImage: ImageLoader, scaleToFit: Scaler)
    returns (pages: seq<PlacedImage>, failedAt: Option<string>)
    ensures failedAt == None ==> PlacedInOrder(pages, items, |items|, isPortrait, autoRotate, loadImage, scaleToFit)
    ensures failedAt.Some? ==>
      && PlacedInOrder(pages, items, |pages|, isPortrait, autoRotate, loadImage, scaleToFit)
      && |pages| < |items|
      && items[|pages|].pathName == failedAt.value
      && loadImage(failedAt.value) == None
  {
    pages := [];
    var i := 0;
    while i < |items|
      invariant 0 <= i <= |items|
      invariant PlacedInOrder(pages, items, i, isPortrait, autoRotate, loadImage, scaleToFit)
    {
      var item := items[i];
      match loadImage(item.pathName) {
        case None =>
          return pages, Some(item.pathName);
        case Some(raw) =>
          var placed := PlaceImage(item, raw, isPortrait, autoRotate, scaleToFit);
          pages := pages + [placed];
      }
      i := i + 1;
    }
    failedAt := None;
  }

  /** An image is centred on its page: the gaps on either side are equal. */
  lemma PlacementCentred(item: ImgFile, raw: Size, isPortrait: bool, autoRotate: bool, scaleToFit: Scaler)
    ensures var p := PlaceImage(item, raw, isPortrait, autoRotate, scaleToFit);
      var page := PageSizeFor(isPortrait);
      && p.x == page.width - (p.x + p.scaled.width)
      && p.y == page.height - (p.y + p.scaled.height)
  {
  }

  /** An image scaled to fit the canvas stays inside the margins. */
  lemma PlacementInsideMargins(item: ImgFile, raw: Size, isPortrait: bool, autoRotate: bool, scaleToFit: Scaler)
    requires var canvas := Canvas(PageSizeFor(isPortrait));
      var scaled := scaleToFit(raw, Decide(raw.width, raw.height, item.orientation, autoRotate, isPortrait), canvas);
      0.0 <= scaled.width <= canvas.width && 0.0 <= scaled.height <= canvas.height
    ensures var p := PlaceImage(item, raw, isPortrait, autoRotate, scaleToFit);
      var page := PageSizeFor(isPortrait);
      && PDF_MARGIN <= p.x && p.x + p.scaled.width <= page.width - PDF_MARGIN
      && PDF_MARGIN <= p.y && p.y + p.scaled.height <= page.height - PDF_MARGIN
  {
  }

  /** The rotation set on the image is the decided angle; none is set for an angle of 0. */
  lemma PlacementRotation(item: ImgFile, raw: Size, isPortrait: bool, autoRotate: bool, scaleToFit: Scaler)
    ensures var p := PlaceImage(item, raw, isPortrait, autoRotate, scaleToFit);
      var degrees := Decide(raw.width, raw.height, item.orientation, autoRotate, isPortrait);
      && (p.rotation == None <==> degrees == 0)
      && (p.rotation.Some? ==> p.rotation.value == degrees)
      && p.pathName == item.pathName
  {
  }
}
