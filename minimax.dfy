/**
 * The automated opponent's column chooser (src/minimax.ts). It is a placeholder
 * that plays the leftmost playable column; no search takes place.
 */
module Minimax {
  import opened Constants
  import opened Utils

  /**
   * Scans the columns of row 0 from the left and returns the first playable
   * one, or 0 when none is playable.
   */
  method Minimax(b: Board) returns (colIdx: int)
    requires |b| > 0
    ensures (exists c :: 0 <= c < |b[0]| && CheckPlayableColumn(b, c)) ==>
      0 <= colIdx < |b[0]| && CheckPlayableColumn(b, colIdx) &&
      forall c :: 0 <= c < colIdx ==> !CheckPlayableColumn(b, c)
    ensures (forall c :: 0 <= c < |b[0]| ==> !CheckPlayableColumn(b, c)) ==> colIdx == 0
  {
    var maxColIdx := |b[0]| - 1;
    var c := 0;
    while c <= maxColIdx
      invariant 0 <= c <= maxColIdx + 1
      invariant forall j :: 0 <= j < c ==> !CheckPlayableColumn(b, j)
    {
      var isPlayableColumn := CheckPlayableColumn(b, c);
      if isPlayableColumn {
        return c;
      }
      c := c + 1;
    }
    return 0;
  }
}
