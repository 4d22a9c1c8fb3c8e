/**
 * Editor positions and ranges: a position is a (line, character) pair ordered
 * lexicographically, a range is a start and an end position.
 */
module Geometry {

  datatype Position = Position(line: nat, character: nat)

  datatype Range = Range(start: Position, end: Position)

  /** `a` is at or before `b`: document order on positions. */
  predicate Le(a: Position, b: Position) {
    a.line < b.line || (a.line == b.line && a.character <= b.character)
  }

  /** `r.contains(p)` for a position: `p` lies between the ends of `r`, both included. */
  predicate ContainsPosition(r: Range, p: Position) {
    Le(r.start, p) && Le(p, r.end)
  }

  /** `r.contains(sel)` for a range (the editor's selection): `sel` lies inside `r`. */
  predicate Contains(r: Range, sel: Range) {
    Le(r.start, sel.start) && Le(sel.end, r.end)
  }

  /** Document order is a total order on positions. */
  lemma LeTotalOrder(a: Position, b: Position, c: Position)
    ensures Le(a, a)
    ensures Le(a, b) && Le(b, a) ==> a == b
    ensures Le(a, b) && Le(b, c) ==> Le(a, c)
    ensures Le(a, b) || Le(b, a)
  {
  }

  /**
   * For a selection whose start is not after its end, containing the selection
   * is the same as containing both of its ends.
   */
  lemma ContainsBothEnds(r: Range, sel: Range)
    requires Le(sel.start, sel.end)
    ensures Contains(r, sel) <==> ContainsPosition(r, sel.start) && ContainsPosition(r, sel.end)
  {
    LeTotalOrder(r.start, sel.start, sel.end);
    LeTotalOrder(sel.start, sel.end, r.end);
  }
}
