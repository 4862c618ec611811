/**
 * The per-image rotation decision of the PDF export: the EXIF orientation
 * correction followed by the optional auto-rotation towards the page
 * orientation. Angles are whole degrees; the dimensions are the image's
 * plain width and height.
 *
 * EXIF orientation codes (tag 0x0112) 2, 4, 5 and 7 also call for a
 * mirror image; the export does not mirror, so each is treated as its
 * unmirrored partner.
 */
module Rotation {

  /** The correction the EXIF code calls for, in degrees. */
  function ExifDegrees(orientation: int): int {
    match orientation
    case 3 => 180
    case 4 => 180
    case 5 => -90
    case 6 => -90
    case 7 => 90
    case 8 => 90
    case _ => 0
  }

  /** The EXIF correction is a quarter turn, which swaps portrait and landscape. */
  predicate ExifSwapsShape(orientation: int) {
    orientation in {5, 6, 7, 8}
  }

  /** The shape after the EXIF correction: portrait when taller than wide, flipped by a quarter turn. */
  predicate EffectivePortrait(rawWidth: real, rawHeight: real, orientation: int) {
    (rawHeight > rawWidth) != ExifSwapsShape(orientation)
  }

  /** Auto-rotation fires: it is on, the image is not square and its shape disagrees with the page. */
  predicate AutoRotates(rawWidth: real, rawHeight: real, orientation: int, autoRotate: bool, pagePortrait: bool) {
    autoRotate && rawWidth != rawHeight && EffectivePortrait(rawWidth, rawHeight, orientation) != pagePortrait
  }

  /**
   * The rotation given to one image, as the export computes it: a
   * sequence of updates to the angle and to the portrait flag.
   */
  function Decide(rawWidth: real, rawHeight: real, orientation: int, autoRotate: bool, pagePortrait: bool): (degrees: int)
    ensures degrees in {-90, 0, 90, 180, 270}
    ensures degrees == ExifDegrees(orientation) + (if AutoRotates(rawWidth, rawHeight, orientation, autoRotate, pagePortrait) then 90 else 0)
  {
    var isSquare := rawHeight == rawWidth;
    var isPortrait := rawHeight > rawWidth;
    var (d1, p1) := if orientation == 3 || orientation == 4 then (180, isPortrait) else (0, isPortrait);
    var (d2, p2) := if orientation == 5 || orientation == 6 then (-90, !p1) else (d1, p1);
    var (d3, p3) := if orientation == 7 || orientation == 8 then (90, !p2) else (d2, p2);
    if autoRotate && !isSquare && pagePortrait != p3 then d3 + 90 else d3
  }

  /** A turn by `degrees` leaves the image standing upright (taller than wide). */
  predicate PortraitAfterTurn(rawWidth: real, rawHeight: real, degrees: int) {
    if degrees % 180 == 0 then rawHeight > rawWidth else rawWidth > rawHeight
  }

  /** Without an orientation code to correct and without auto-rotation, nothing is rotated. */
  lemma NoCorrectionNoRotation(rawWidth: real, rawHeight: real, orientation: int, pagePortrait: bool)
    requires orientation !in {3, 4, 5, 6, 7, 8}
    ensures Decide(rawWidth, rawHeight, orientation, false, pagePortrait) == 0
  {
  }

  /**
   * Codes 3 and 4 turn the image half way round and keep its shape; with
   * auto-rotation on, a quarter turn may follow.
   */
  lemma HalfTurnCodes(rawWidth: real, rawHeight: real, orientation: int, pagePortrait: bool)
    requires orientation in {3, 4}
    ensures ExifDegrees(orientation) == 180
    ensures EffectivePortrait(rawWidth, rawHeight, orientation) == (rawHeight > rawWidth)
    ensures Decide(rawWidth, rawHeight, orientation, false, pagePortrait) == 180
    ensures Decide(rawWidth, rawHeight, orientation, true, pagePortrait) in {180, 270}
    ensures Decide(rawWidth, rawHeight, orientation, true, pagePortrait) == 270
        <==> rawWidth != rawHeight && (rawHeight > rawWidth) != pagePortrait
  {
  }

  /**
   * Codes 5 and 6 turn the image by -90 degrees, 7 and 8 by +90; both swap
   * its shape, so auto-rotation adds its quarter turn when the image's
   * plain shape already matches the page.
   */
  lemma QuarterTurnCodes(rawWidth: real, rawHeight: real, orientation: int, pagePortrait: bool)
    requires orientation in {5, 6, 7, 8}
    ensures ExifDegrees(orientation) == if orientation in {5, 6} then -90 else 90
    ensures EffectivePortrait(rawWidth, rawHeight, orientation) == !(rawHeight > rawWidth)
    ensures Decide(rawWidth, rawHeight, orientation, false, pagePortrait) == if orientation in {5, 6} then -90 else 90
    ensures Decide(rawWidth, rawHeight, orientation, true, pagePortrait)
         in if orientation in {5, 6} then {-90, 0} else {90, 180}
    ensures Decide(rawWidth, rawHeight, orientation, true, pagePortrait)
         != Decide(rawWidth, rawHeight, orientation, false, pagePortrait)
        <==> rawWidth != rawHeight && (rawHeight > rawWidth) == pagePortrait
  {
  }

  /** Auto-rotation adds a quarter turn to the EXIF correction, exactly when it fires. */
  lemma AutoRotationIsAdditive(rawWidth: real, rawHeight: real, orientation: int, pagePortrait: bool)
    ensures Decide(rawWidth, rawHeight, orientation, true, pagePortrait)
         == Decide(rawWidth, rawHeight, orientation, false, pagePortrait)
            + (if AutoRotates(rawWidth, rawHeight, orientation, true, pagePortrait) then 90 else 0)
    ensures Decide(rawWidth, rawHeight, orientation, false, pagePortrait) == ExifDegrees(orientation)
  {
  }

  /** A square image gets the EXIF correction alone, whatever the options. */
  lemma SquareNeverAutoRotated(side: real, orientation: int, autoRotate: bool, pagePortrait: bool)
    ensures Decide(side, side, orientation, autoRotate, pagePortrait) == ExifDegrees(orientation)
  {
  }

  /**
   * The EXIF correction stands the image the way its shape says, and with
   * auto-rotation on a non-square image ends up in the page's orientation.
   */
  lemma TurnMatchesShape(rawWidth: real, rawHeight: real, orientation: int, autoRotate: bool, pagePortrait: bool)
    requires rawWidth != rawHeight
    ensures var degrees := Decide(rawWidth, rawHeight, orientation, autoRotate, pagePortrait);
      PortraitAfterTurn(rawWidth, rawHeight, degrees)
        == if autoRotate then pagePortrait else EffectivePortrait(rawWidth, rawHeight, orientation)
  {
  }
}
