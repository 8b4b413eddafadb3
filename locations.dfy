/** Where a reference was found, and the failure the scanner can raise. */
module Locations {
  import opened Text

  /** A zero-based line number and the column where the referenced name starts. */
  datatype Location = Location(line: nat, col: nat)

  /** The scanner's assertion failure "malformed rst on line ...", carrying the line. */
  datatype Malformed = Malformed(line: string)

  /** Reading order: top to bottom, left to right. */
  predicate Before(a: Location, b: Location) {
    a.line < b.line || (a.line == b.line && a.col < b.col)
  }

  /** Strictly increasing in reading order. */
  predicate Ascending(locs: seq<Location>) {
    forall i, j :: 0 <= i < j < |locs| ==> Before(locs[i], locs[j])
  }

  /** `name` starts at `loc` in `lines`. */
  predicate NameAt(lines: seq<string>, loc: Location, name: string) {
    loc.line < |lines| && OccursAt(lines[loc.line], name, loc.col)
  }

  /** Python's `[(nr, pos) for pos in positions]`. */
  function OnLine(nr: nat, positions: seq<nat>): (r: seq<Location>)
    ensures |r| == |positions|
    ensures forall i :: 0 <= i < |r| ==> r[i] == Location(nr, positions[i])
  {
    if positions == [] then [] else [Location(nr, positions[0])] + OnLine(nr, positions[1..])
  }
}
