/**
 * Entries of `.. toctree::` directives (rst_rename.py, look_for_toctrees).
 *
 * A line holding the toctree marker opens a toctree whose entries must be indented
 * past the marker's column. Blank lines inside it are skipped, the first line
 * indented less closes it (and is not examined further), and every other line is an
 * entry: it refers to the document when its text, stripped, is the document's path
 * with or without the ".rst" extension.
 */
module Toctrees {
  import opened Wrappers
  import opened Text
  import opened Locations

  const TocMarker: string := ".. toctree::"

  /** Whether the scan is inside a toctree, and the least indentation of its
      entries: the marker's column plus one. */
  datatype TocState = TocState(inToctree: bool, minIndentation: nat)

  /** The state after a line, and the column of the entry it holds, if any. */
  datatype TocStep = TocStep(state: TocState, hit: Option<nat>)

  /** What one line does to the scan. `not line.strip()` is Blank(line)
      (StripEmptyIffBlank), and `non_space.search(line).start()` is
      FirstNonSpace(line); a line that is not blank has one. */
  function TocLine(state: TocState, line: string, target: string, stem: string): (r: TocStep)
    ensures r.hit.Some? ==> r.hit.value == FirstNonSpace(line) < |line|
  {
    if !state.inToctree then
      var pos := Find(line, TocMarker, 0);
      if pos >= 0 then TocStep(TocState(true, pos + 1), None) else TocStep(state, None)
    else if Blank(line) then
      TocStep(state, None)
    else
      var m := FirstNonSpace(line);
      if m < state.minIndentation then
        TocStep(TocState(false, state.minIndentation), None)
      else
        var rest := Strip(line[m..]);
        if rest == target || rest == stem then TocStep(state, Some(m)) else TocStep(state, None)
  }

  /** The scan of a document so far: the state after its last line and the entries
      found. */
  datatype TocScan = TocScan(state: TocState, locs: seq<Location>)

  /** look_for_toctrees' loop over the lines of a document. */
  function ScanToc(lines: seq<string>, target: string, stem: string): (r: TocScan)
    ensures |r.locs| <= |lines|
    decreases |lines|
  {
    if lines == [] then
      TocScan(TocState(false, 0), [])
    else
      var n := |lines| - 1;
      var prev := ScanToc(lines[..n], target, stem);
      var step := TocLine(prev.state, lines[n], target, stem);
      TocScan(step.state, prev.locs + (if step.hit.Some? then [Location(n, step.hit.value)] else []))
  }

  /** Line `j` opens a toctree that every line after it and before line `n` stays
      in: each is blank or indented past the marker's column. */
  predicate Opening(lines: seq<string>, j: nat, n: nat) {
    j < n <= |lines| && Find(lines[j], TocMarker, 0) >= 0 &&
    forall k :: j < k < n ==> Blank(lines[k]) || FirstNonSpace(lines[k]) > Find(lines[j], TocMarker, 0)
  }

  /** Line `n` names `target` or `stem` as a toctree entry at its first non-space
      column `col`. */
  predicate EntryNames(line: string, col: nat, target: string, stem: string) {
    col < |line| && col == FirstNonSpace(line) &&
    (Strip(line[col..]) == target || Strip(line[col..]) == stem)
  }

  /** A reported entry: the line names the document, inside a toctree opened on an
      earlier line whose marker lies left of the entry. */
  predicate TocEntry(lines: seq<string>, loc: Location, target: string, stem: string) {
    loc.line < |lines| && EntryNames(lines[loc.line], loc.col, target, stem) &&
    exists j :: 0 <= j < loc.line && Opening(lines, j, loc.line) && Find(lines[j], TocMarker, 0) < loc.col
  }

  /** An entry's stripped text starts at its column, so the entry names `target` or
      `stem` at that column. */
  lemma EntryNamesAt(line: string, col: nat, target: string, stem: string)
    requires EntryNames(line, col, target, stem)
    ensures OccursAt(line, target, col) || OccursAt(line, stem, col)
  {
    var rest := line[col..];
    StripFromNonSpace(rest);
    var s := Strip(rest);
    assert rest[..|s|] == line[col..col + |s|];
  }

  /** One more line of a document extends the scan by that line's step. */
  lemma ScanTocStep(lines: seq<string>, n: nat, target: string, stem: string)
    requires n < |lines|
    ensures ScanToc(lines[..n + 1], target, stem) ==
      var prev := ScanToc(lines[..n], target, stem);
      var step := TocLine(prev.state, lines[n], target, stem);
      TocScan(step.state, prev.locs + (if step.hit.Some? then [Location(n, step.hit.value)] else []))
  {
    assert lines[..n + 1][..n] == lines[..n];
  }

  /** How one line moves the scan in and out of a toctree: outside, a line holding
      the marker opens one; inside, the toctree stays open only on a blank line or
      one indented far enough, and then the state is unchanged. */
  lemma TocLineState(state: TocState, line: string, target: string, stem: string)
    ensures var next := TocLine(state, line, target, stem).state;
      (!state.inToctree && next.inToctree ==>
         Find(line, TocMarker, 0) >= 0 && next.minIndentation == Find(line, TocMarker, 0) + 1) &&
      (state.inToctree && next.inToctree ==>
         next == state && (Blank(line) || FirstNonSpace(line) >= state.minIndentation))
  {
  }

  /** An opening line stays opening across a blank line or one indented past its
      marker. */
  lemma OpeningExtends(lines: seq<string>, j: nat, k: nat)
    requires Opening(lines, j, k) && k < |lines|
    requires Blank(lines[k]) || FirstNonSpace(lines[k]) > Find(lines[j], TocMarker, 0)
    ensures Opening(lines, j, k + 1)
  {
  }

  /** Inside a toctree the scan remembers an opening line whose marker sits one
      column left of the least indentation. */
  lemma {:induction false} ScanTocOpen(lines: seq<string>, n: nat, target: string, stem: string)
    requires n <= |lines|
    ensures var s := ScanToc(lines[..n], target, stem).state;
      s.inToctree ==>
        (s.minIndentation >= 1 &&
         exists j :: 0 <= j < n && Opening(lines, j, n) && Find(lines[j], TocMarker, 0) == s.minIndentation - 1)
  {
    if n > 0 {
      var k := n - 1;
      ScanTocOpen(lines, k, target, stem);
      var prev := ScanToc(lines[..k], target, stem).state;
      var next := TocLine(prev, lines[k], target, stem).state;
      assert ScanToc(lines[..n], target, stem).state == next by {
        ScanTocStep(lines, k, target, stem);
      }
      TocLineState(prev, lines[k], target, stem);
      if next.inToctree {
        if !prev.inToctree {
          assert Opening(lines, k, n);
        } else {
          var j :| 0 <= j < k && Opening(lines, j, k) && Find(lines[j], TocMarker, 0) == prev.minIndentation - 1;
          OpeningExtends(lines, j, k);
        }
      }
    }
  }

  /** Every reported location is an entry of a toctree. */
  lemma {:induction false} ScanTocSound(lines: seq<string>, n: nat, target: string, stem: string)
    requires n <= |lines|
    ensures forall loc :: loc in ScanToc(lines[..n], target, stem).locs ==>
      loc.line < n && TocEntry(lines, loc, target, stem)
  {
    if n > 0 {
      var k := n - 1;
      ScanTocSound(lines, k, target, stem);
      ScanTocOpen(lines, k, target, stem);
      var prev := ScanToc(lines[..k], target, stem);
      var step := TocLine(prev.state, lines[k], target, stem);
      assert ScanToc(lines[..n], target, stem).locs ==
        prev.locs + (if step.hit.Some? then [Location(k, step.hit.value)] else []) by {
        ScanTocStep(lines, k, target, stem);
      }
      if step.hit.Some? {
        var j :| 0 <= j < k && Opening(lines, j, k) && Find(lines[j], TocMarker, 0) == prev.state.minIndentation - 1;
        assert TocEntry(lines, Location(k, step.hit.value), target, stem);
      }
    }
  }

  /** The reported locations come in reading order. */
  lemma {:induction false} ScanTocAscending(lines: seq<string>, n: nat, target: string, stem: string)
    requires n <= |lines|
    ensures Ascending(ScanToc(lines[..n], target, stem).locs)
  {
    if n > 0 {
      var k := n - 1;
      ScanTocAscending(lines, k, target, stem);
      ScanTocSound(lines, k, target, stem);
      var prev := ScanToc(lines[..k], target, stem);
      var step := TocLine(prev.state, lines[k], target, stem);
      var here := if step.hit.Some? then [Location(k, step.hit.value)] else [];
      assert ScanToc(lines[..n], target, stem).locs == prev.locs + here by {
        ScanTocStep(lines, k, target, stem);
      }
      var all := prev.locs + here;
      forall i, i' | 0 <= i < i' < |all| ensures Before(all[i], all[i']) {
        if i' >= |prev.locs| {
          assert all[i] in prev.locs;
        }
      }
    }
  }

  /** Outside a toctree, a line holding the marker opens one. */
  lemma OpenStep(state: TocState, line: string, target: string, stem: string)
    requires !state.inToctree && Find(line, TocMarker, 0) >= 0
    ensures TocLine(state, line, target, stem).state == TocState(true, Find(line, TocMarker, 0) + 1)
  {
  }

  /** Inside a toctree, a blank line or one indented far enough keeps it open. */
  lemma StayStep(state: TocState, line: string, target: string, stem: string)
    requires state.inToctree && (Blank(line) || FirstNonSpace(line) >= state.minIndentation)
    ensures TocLine(state, line, target, stem).state == state
  {
  }

  /** A scan that is outside any toctree before line `j` and meets the opening line
      `j` stays inside that toctree up to line `n`. */
  lemma {:induction false} StaysOpen(lines: seq<string>, j: nat, n: nat, target: string, stem: string)
    requires Opening(lines, j, n)
    requires !ScanToc(lines[..j], target, stem).state.inToctree
    ensures ScanToc(lines[..n], target, stem).state == TocState(true, Find(lines[j], TocMarker, 0) + 1)
    decreases n - j
  {
    var k := n - 1;
    var prev := ScanToc(lines[..k], target, stem).state;
    assert ScanToc(lines[..n], target, stem).state == TocLine(prev, lines[k], target, stem).state by {
      ScanTocStep(lines, k, target, stem);
    }
    if k > j {
      assert Opening(lines, j, k);
      StaysOpen(lines, j, k, target, stem);
      StayStep(prev, lines[k], target, stem);
    } else {
      OpenStep(prev, lines[k], target, stem);
    }
  }

  /** Locations found in a part of a document stay found in the whole of it. */
  lemma {:induction false} ScanTocGrows(lines: seq<string>, n: nat, target: string, stem: string)
    requires n <= |lines|
    ensures ScanToc(lines[..n], target, stem).locs <= ScanToc(lines, target, stem).locs
    decreases |lines| - n
  {
    if n < |lines| {
      ScanTocStep(lines, n, target, stem);
      ScanTocGrows(lines, n + 1, target, stem);
    } else {
      assert lines[..n] == lines;
    }
  }

  /** Inside a toctree, a line naming the document indented far enough is an entry. */
  lemma EntryStep(state: TocState, line: string, target: string, stem: string)
    requires state.inToctree && FirstNonSpace(line) >= state.minIndentation
    requires EntryNames(line, FirstNonSpace(line), target, stem)
    ensures TocLine(state, line, target, stem) == TocStep(state, Some(FirstNonSpace(line)))
  {
    assert !IsSpace(line[FirstNonSpace(line)]);
  }

  /** Every entry of a toctree that the scan enters is reported: line `j` opens the
      toctree while the scan is outside any, and line `n` after it names the document
      indented past the marker. */
  lemma ScanTocComplete(lines: seq<string>, j: nat, n: nat, target: string, stem: string)
    requires n < |lines| && Opening(lines, j, n)
    requires !ScanToc(lines[..j], target, stem).state.inToctree
    requires EntryNames(lines[n], FirstNonSpace(lines[n]), target, stem)
    requires FirstNonSpace(lines[n]) > Find(lines[j], TocMarker, 0)
    ensures Location(n, FirstNonSpace(lines[n])) in ScanToc(lines, target, stem).locs
  {
    var state := TocState(true, Find(lines[j], TocMarker, 0) + 1);
    var col := FirstNonSpace(lines[n]);
    assert ScanToc(lines[..n], target, stem).state == state by {
      StaysOpen(lines, j, n, target, stem);
    }
    EntryStep(state, lines[n], target, stem);
    HitReported(lines, n, state, col, target, stem);
  }

  /** A line whose step reports an entry leaves that entry among the scan's
      locations. */
  lemma HitReported(lines: seq<string>, n: nat, state: TocState, col: nat, target: string, stem: string)
    requires n < |lines| && ScanToc(lines[..n], target, stem).state == state
    requires TocLine(state, lines[n], target, stem) == TocStep(state, Some(col))
    ensures Location(n, col) in ScanToc(lines, target, stem).locs
  {
    var upTo := ScanToc(lines[..n + 1], target, stem).locs;
    assert upTo == ScanToc(lines[..n], target, stem).locs + [Location(n, col)] by {
      ScanTocStep(lines, n, target, stem);
    }
    var all := ScanToc(lines, target, stem).locs;
    assert upTo <= all by {
      ScanTocGrows(lines, n + 1, target, stem);
    }
    assert all[|upTo| - 1] == Location(n, col);
  }

  /** look_for_toctrees: the toctree entries that name the document `src`, with or
      without its ".rst" extension; a document that is not reStructuredText cannot be
      a toctree entry. */
  function ToctreeHits(lines: seq<string>, src: string): (r: seq<Location>)
    ensures !RstSuffix(src) ==> r == []
    ensures Ascending(r)
    ensures forall loc :: loc in r ==> TocEntry(lines, loc, src, DropLast(src, 4))
  {
    if !RstSuffix(src) then []
    else
      ScanTocSound(lines, |lines|, src, DropLast(src, 4));
      ScanTocAscending(lines, |lines|, src, DropLast(src, 4));
      assert lines[..|lines|] == lines;
      ScanToc(lines, src, DropLast(src, 4)).locs
  }

  /** look_for_toctrees, one line at a time. */
  method LookForToctrees(lines: seq<string>, src: string) returns (changes: seq<Location>)
    ensures changes == ToctreeHits(lines, src)
  {
    if !RstSuffix(src) {
      return [];
    }
    var target := src;
    var targetWithoutExtension := DropLast(src, 4);
    changes := [];
    var inToctree := false;
    var minIndentation: nat := 0;
    for nr := 0 to |lines|
      invariant ScanToc(lines[..nr], target, targetWithoutExtension) ==
        TocScan(TocState(inToctree, minIndentation), changes)
    {
      ScanTocStep(lines, nr, target, targetWithoutExtension);
      var line := lines[nr];
      if !inToctree {
        var pos := Find(line, TocMarker, 0);
        if pos >= 0 {
          inToctree := true;
          minIndentation := pos + 1;
        }
        continue;
      }
      if Blank(line) {
        continue;
      }
      var m := FirstNonSpace(line);
      if m < minIndentation {
        inToctree := false;
        continue;
      }
      var restOfLine := Strip(line[m..]);
      if restOfLine == target || restOfLine == targetWithoutExtension {
        changes := changes + [Location(nr, m)];
      }
    }
    assert lines[..|lines|] == lines;
  }
}
