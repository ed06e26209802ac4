/** The reserved watermark rectangle: a top-left block of the carrier whose
    pixels never carry payload bits. Its size is 40% of the width by 8% of
    the height, both rounded down, and it only exists when both are positive. */
module Watermark {
  import Arith

  /** int(w * 0.40), written with integers: the largest s with 100 * s <= 40 * w. */
  function SkipW(width: nat): (s: nat)
    ensures 100 * s <= 40 * width < 100 * (s + 1)
    ensures s <= width
  {
    width * 40 / 100
  }

  /** int(h * 0.08), written with integers: the largest s with 100 * s <= 8 * h. */
  function SkipH(height: nat): (s: nat)
    ensures 100 * s <= 8 * height < 100 * (s + 1)
    ensures s <= height
  {
    height * 8 / 100
  }

  /** The rectangle is cut out only when both of its sides are positive. */
  predicate Reserved(height: nat, width: nat)
  {
    SkipW(width) > 0 && SkipH(height) > 0
  }

  /** Pixel (row, col) lies in the reserved rectangle. */
  predicate Excluded(height: nat, width: nat, row: nat, col: nat)
  {
    Reserved(height, width) && row < SkipH(height) && col < SkipW(width)
  }

  /** How many pixels the reserved rectangle takes out of the carrier. */
  function ExcludedPixels(height: nat, width: nat): nat
  {
    if Reserved(height, width) then SkipH(height) * SkipW(width) else 0
  }

  /** Slice assignment m[:rows, :cols] = False on a boolean grid. */
  function ClearCorner(m: seq<seq<bool>>, rows: nat, cols: nat): (r: seq<seq<bool>>)
    ensures |r| == |m|
    ensures forall i :: 0 <= i < |m| ==> |r[i]| == |m[i]|
    ensures forall i, j :: 0 <= i < |m| && 0 <= j < |m[i]| ==>
              r[i][j] == (m[i][j] && !(i < rows && j < cols))
  {
    seq(|m|, i requires 0 <= i < |m| =>
      seq(|m[i]|, j requires 0 <= j < |m[i]| => if i < rows && j < cols then false else m[i][j]))
  }

  /** The per-pixel inclusion mask: all ones, then the corner cleared when
      both skip sizes are positive. A pixel is left out exactly when it lies
      in the reserved rectangle. */
  function Mask(height: nat, width: nat): (m: seq<seq<bool>>)
    ensures |m| == height
    ensures forall r :: 0 <= r < height ==> |m[r]| == width
    ensures forall r, c :: 0 <= r < height && 0 <= c < width ==>
              (m[r][c] <==> !Excluded(height, width, r, c))
  {
    var ones := seq(height, _ => seq(width, _ => true));
    if SkipW(width) > 0 && SkipH(height) > 0 then ClearCorner(ones, SkipH(height), SkipW(width))
    else ones
  }

  /** The rectangle never reaches past the image, so numpy's slice is never clipped. */
  lemma RegionFits(height: nat, width: nat)
    ensures SkipH(height) <= height && SkipW(width) <= width
    ensures ExcludedPixels(height, width) <= height * width
  {
    if Reserved(height, width) {
      Arith.MulLe(SkipH(height), height, SkipW(width), width);
    }
  }

  /** A rectangle is reserved exactly on carriers at least 13 pixels high and 3 wide. */
  lemma ReservedIff(height: nat, width: nat)
    ensures Reserved(height, width) <==> height >= 13 && width >= 3
  {
  }

  /** The rectangle of a 1000-wide, 500-high carrier is rows [0, 40) by columns [0, 400). */
  lemma ThousandByFiveHundred(row: nat, col: nat)
    ensures SkipW(1000) == 400 && SkipH(500) == 40
    ensures Excluded(500, 1000, row, col) <==> row < 40 && col < 400
  {
  }

}
