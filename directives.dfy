/**
 * Bare-path directives `.. image::`, `.. figure::` and `.. literalinclude::`
 * (rst_rename.py, check_for_image_tag and the look_for_images / look_for_figures /
 * look_for_literalinclude wrappers).
 *
 * A line refers to the target when the directive marker is preceded only by
 * whitespace, the text between marker and target is empty or a single '/', and
 * only whitespace follows the target. The code as written starts looking for the
 * target at the marker itself rather than after it (DirectiveColumnAsWritten); the
 * scanner uses the corrected search (DirectiveColumn).
 */
module Directives {
  import opened Wrappers
  import opened Text
  import opened Locations

  datatype Directive = Image | Figure | LiteralInclude

  /** The marker that opens each directive. */
  function Marker(d: Directive): (m: string)
    ensures m != [] && !IsSpace(m[0])
  {
    match d
    case Image => ".. image::"
    case Figure => ".. figure::"
    case LiteralInclude => ".. literalinclude::"
  }

  /** The tests that follow the search for the target: `after` is where the marker
      ends and `p` is what the search for the target returned. The text in between,
      `line[after:p]`, must strip to nothing, or to "/" when absolute references are
      accepted, and `line[p + len(target):]` must strip to nothing. A slice whose end
      lies before its start is empty, which SpacesIn's clamped bounds give for free;
      StripSliceEmpty and StripSliceSlash relate the two tests to `strip`. */
  function Placed(line: string, after: nat, p: int, target: string, acceptAbsolute: bool): (r: Option<nat>)
    ensures r.Some? ==> r.value == p
  {
    if p < 0 then None
    else if !SpacesIn(line, after, p) && (!acceptAbsolute || !SlashAmid(line, after, p)) then None
    else if !SpacesIn(line, p + |target|, |line|) then None
    else Some(p)
  }

  /** The column check_for_image_tag reports for one line, with the search for the
      target starting after the marker. `tag not in line` is the search for the
      marker returning -1, and `line[:pos_tag].strip()` is checked by SpacesIn. */
  function DirectiveColumn(marker: string, line: string, target: string, acceptAbsolute: bool): (r: Option<nat>)
    ensures r.Some? ==> OccursAt(line, target, r.value)
  {
    var m := Find(line, marker, 0);
    if m < 0 then None
    else if !SpacesIn(line, 0, m) then None
    else Placed(line, m + |marker|, Find(line, target, m + |marker|), target, acceptAbsolute)
  }

  /** The same check as the code writes it: the search for the target starts at the
      marker's own column, so an occurrence of the target inside the marker is found
      first. */
  function DirectiveColumnAsWritten(marker: string, line: string, target: string, acceptAbsolute: bool): (r: Option<nat>)
    ensures r.Some? ==> OccursAt(line, target, r.value)
  {
    var m := Find(line, marker, 0);
    if m < 0 then None
    else if !SpacesIn(line, 0, m) then None
    else Placed(line, m + |marker|, Find(line, target, m), target, acceptAbsolute)
  }

  /** The directive rule: `marker` at `m` with only whitespace before it, `target`
      at `p` after the marker, nothing but whitespace or a single '/' in between,
      and only whitespace after the target. */
  predicate WellPlaced(marker: string, line: string, target: string, acceptAbsolute: bool, m: nat, p: nat) {
    OccursAt(line, marker, m) && SpacesIn(line, 0, m) &&
    m + |marker| <= p && OccursAt(line, target, p) &&
    (SpacesIn(line, m + |marker|, p) || (acceptAbsolute && SlashAmid(line, m + |marker|, p))) &&
    SpacesIn(line, p + |target|, |line|)
  }

  /** Every reported column satisfies the directive rule, with the marker at its
      first occurrence. */
  lemma {:induction false} DirectiveColumnSound(marker: string, line: string, target: string, acceptAbsolute: bool, p: nat)
    requires DirectiveColumn(marker, line, target, acceptAbsolute) == Some(p)
    ensures Find(line, marker, 0) >= 0 && WellPlaced(marker, line, target, acceptAbsolute, Find(line, marker, 0), p)
  {
  }

  /** A marker that does not start with whitespace and has only whitespace before it
      is the first occurrence of the marker. */
  lemma {:induction false} MarkerFirst(marker: string, line: string, m: nat)
    requires marker != [] && !IsSpace(marker[0])
    requires OccursAt(line, marker, m) && SpacesIn(line, 0, m)
    ensures Find(line, marker, 0) == m
  {
    forall i | 0 <= i < m ensures !OccursAt(line, marker, i) {
      assert IsSpace(line[i]);
    }
    FindIs(line, marker, 0, m);
  }

  /** A target that starts with neither whitespace nor '/' cannot occur inside a
      blank text or a lone '/' among whitespace, so its occurrence after that text is
      the first one. */
  lemma {:induction false} TargetFirst(line: string, target: string, a: nat, p: nat)
    requires target != [] && !IsSpace(target[0]) && target[0] != '/'
    requires a <= p && OccursAt(line, target, p)
    requires SpacesIn(line, a, p) || SlashAmid(line, a, p)
    ensures Find(line, target, a) == p
  {
    forall i | a <= i < p ensures !OccursAt(line, target, i) {
      SpaceOrSlashAt(line, a, p, i);
    }
    FindIs(line, target, a, p);
  }

  /** No column unless the marker is found with only whitespace before it. */
  lemma {:induction false} NoMarkerNoColumn(marker: string, line: string, target: string, acceptAbsolute: bool, m: int)
    requires Find(line, marker, 0) == m && !(m >= 0 && SpacesIn(line, 0, m))
    ensures DirectiveColumn(marker, line, target, acceptAbsolute) == None
    ensures DirectiveColumnAsWritten(marker, line, target, acceptAbsolute) == None
  {
  }

  /** Once the marker is found with only whitespace before it, the column is what
      the tests after the search for the target give; the search starts after the
      marker. */
  lemma {:induction false} ColumnAfterMarker(marker: string, line: string, target: string, acceptAbsolute: bool, m: nat, q: int)
    requires Find(line, marker, 0) == m && SpacesIn(line, 0, m)
    requires q == Find(line, target, m + |marker|)
    ensures DirectiveColumn(marker, line, target, acceptAbsolute) == Placed(line, m + |marker|, q, target, acceptAbsolute)
  {
  }

  /** The same for the code as written, whose search starts at the marker. */
  lemma {:induction false} ColumnAsWrittenAfterMarker(marker: string, line: string, target: string, acceptAbsolute: bool, m: nat, q: int)
    requires Find(line, marker, 0) == m && SpacesIn(line, 0, m)
    requires q == Find(line, target, m)
    ensures DirectiveColumnAsWritten(marker, line, target, acceptAbsolute) == Placed(line, m + |marker|, q, target, acceptAbsolute)
  {
  }

  /** Every line that satisfies the directive rule is reported, at the target's
      column, provided the target starts with neither whitespace nor '/'. */
  lemma {:induction false} DirectiveColumnComplete(marker: string, line: string, target: string, acceptAbsolute: bool, m: nat, p: nat)
    requires marker != [] && !IsSpace(marker[0])
    requires target != [] && !IsSpace(target[0]) && target[0] != '/'
    requires WellPlaced(marker, line, target, acceptAbsolute, m, p)
    ensures DirectiveColumn(marker, line, target, acceptAbsolute) == Some(p)
  {
    assert Find(line, marker, 0) == m by {
      MarkerFirst(marker, line, m);
    }
    assert Find(line, target, m + |marker|) == p by {
      TargetFirst(line, target, m + |marker|, p);
    }
    ColumnAfterMarker(marker, line, target, acceptAbsolute, m, p);
  }

  /** The directive rule, both ways: a line is reported at `p` exactly when it
      satisfies the rule with `p` as the target's column. */
  lemma {:induction false} DirectiveRule(marker: string, line: string, target: string, acceptAbsolute: bool, p: nat)
    requires marker != [] && !IsSpace(marker[0])
    requires target != [] && !IsSpace(target[0]) && target[0] != '/'
    ensures DirectiveColumn(marker, line, target, acceptAbsolute) == Some(p) <==>
      Find(line, marker, 0) >= 0 && WellPlaced(marker, line, target, acceptAbsolute, Find(line, marker, 0), p)
  {
    if DirectiveColumn(marker, line, target, acceptAbsolute) == Some(p) {
      DirectiveColumnSound(marker, line, target, acceptAbsolute, p);
    }
    var m := Find(line, marker, 0);
    if m >= 0 && WellPlaced(marker, line, target, acceptAbsolute, m, p) {
      DirectiveColumnComplete(marker, line, target, acceptAbsolute, m, p);
    }
  }

  /** The code as written and the corrected check agree whenever the target does not
      occur starting inside the marker. */
  lemma AsWrittenAgrees(marker: string, line: string, target: string, acceptAbsolute: bool)
    requires forall i :: Find(line, marker, 0) <= i < Find(line, marker, 0) + |marker| ==> !OccursAt(line, target, i)
    ensures DirectiveColumnAsWritten(marker, line, target, acceptAbsolute) == DirectiveColumn(marker, line, target, acceptAbsolute)
  {
    var m := Find(line, marker, 0);
    if m >= 0 && SpacesIn(line, 0, m) {
      FindSkip(line, target, m, m + |marker|);
      var q := Find(line, target, m);
      ColumnAfterMarker(marker, line, target, acceptAbsolute, m, q);
      ColumnAsWrittenAfterMarker(marker, line, target, acceptAbsolute, m, q);
    } else {
      NoMarkerNoColumn(marker, line, target, acceptAbsolute, m);
    }
  }

  /** The location one line contributes: the line number and the reported column,
      if any. */
  function LineHit(marker: string, line: string, nr: nat, target: string, acceptAbsolute: bool): (r: seq<Location>)
    ensures |r| <= 1
  {
    match DirectiveColumn(marker, line, target, acceptAbsolute)
    case None => []
    case Some(p) => [Location(nr, p)]
  }

  /** check_for_image_tag's loop over the lines of a document. */
  function DirectiveScan(marker: string, lines: seq<string>, target: string, acceptAbsolute: bool): (r: seq<Location>)
    ensures |r| <= |lines|
    decreases |lines|
  {
    if lines == [] then []
    else
      var n := |lines| - 1;
      DirectiveScan(marker, lines[..n], target, acceptAbsolute) + LineHit(marker, lines[n], n, target, acceptAbsolute)
  }

  /** A location is reported exactly when its line is reported at its column. */
  lemma {:induction false} DirectiveScanMembers(marker: string, lines: seq<string>, target: string, acceptAbsolute: bool)
    ensures forall loc :: loc in DirectiveScan(marker, lines, target, acceptAbsolute) <==>
      loc.line < |lines| && DirectiveColumn(marker, lines[loc.line], target, acceptAbsolute) == Some(loc.col)
    decreases |lines|
  {
    if lines != [] {
      var n := |lines| - 1;
      var init := lines[..n];
      DirectiveScanMembers(marker, init, target, acceptAbsolute);
      var prev := DirectiveScan(marker, init, target, acceptAbsolute);
      var here := LineHit(marker, lines[n], n, target, acceptAbsolute);
      assert DirectiveScan(marker, lines, target, acceptAbsolute) == prev + here;
      forall loc: Location ensures loc in prev + here <==>
        loc.line < |lines| && DirectiveColumn(marker, lines[loc.line], target, acceptAbsolute) == Some(loc.col)
      {
        if loc.line < n {
          assert init[loc.line] == lines[loc.line];
        }
      }
    }
  }

  /** The locations come in reading order. */
  lemma {:induction false} DirectiveScanAscending(marker: string, lines: seq<string>, target: string, acceptAbsolute: bool)
    ensures Ascending(DirectiveScan(marker, lines, target, acceptAbsolute))
    decreases |lines|
  {
    if lines != [] {
      var n := |lines| - 1;
      var init := lines[..n];
      DirectiveScanAscending(marker, init, target, acceptAbsolute);
      DirectiveScanMembers(marker, init, target, acceptAbsolute);
      var prev := DirectiveScan(marker, init, target, acceptAbsolute);
      var here := LineHit(marker, lines[n], n, target, acceptAbsolute);
      assert DirectiveScan(marker, lines, target, acceptAbsolute) == prev + here;
      forall i, j | 0 <= i < j < |prev + here| ensures Before((prev + here)[i], (prev + here)[j]) {
        if j >= |prev| {
          assert (prev + here)[i] in prev;
        }
      }
    }
  }

  /** Every reported location holds the target. */
  lemma DirectiveScanNames(marker: string, lines: seq<string>, target: string, acceptAbsolute: bool)
    ensures forall loc :: loc in DirectiveScan(marker, lines, target, acceptAbsolute) ==> NameAt(lines, loc, target)
  {
    DirectiveScanMembers(marker, lines, target, acceptAbsolute);
  }

  /** Scanning one more line appends that line's location, if any. */
  lemma DirectiveScanStep(marker: string, lines: seq<string>, nr: nat, target: string, acceptAbsolute: bool)
    requires nr < |lines|
    ensures DirectiveScan(marker, lines[..nr + 1], target, acceptAbsolute) ==
      DirectiveScan(marker, lines[..nr], target, acceptAbsolute) + LineHit(marker, lines[nr], nr, target, acceptAbsolute)
  {
    assert lines[..nr + 1][..nr] == lines[..nr];
  }

  /** check_for_image_tag, one line at a time. */
  method CheckForImageTag(marker: string, lines: seq<string>, target: string, acceptAbsolute: bool)
    returns (changes: seq<Location>)
    ensures changes == DirectiveScan(marker, lines, target, acceptAbsolute)
  {
    changes := [];
    for nr := 0 to |lines|
      invariant changes == DirectiveScan(marker, lines[..nr], target, acceptAbsolute)
    {
      DirectiveScanStep(marker, lines, nr, target, acceptAbsolute);
      var line := lines[nr];
      var posTag := Find(line, marker, 0);
      if posTag < 0 || !SpacesIn(line, 0, posTag) {
        NoMarkerNoColumn(marker, line, target, acceptAbsolute, posTag);
        continue;
      }
      var posTarget := Find(line, target, posTag + |marker|);
      ColumnAfterMarker(marker, line, target, acceptAbsolute, posTag, posTarget);
      if posTarget < 0 {
        continue;
      }
      if !SpacesIn(line, posTag + |marker|, posTarget) {
        if !acceptAbsolute || !SlashAmid(line, posTag + |marker|, posTarget) {
          continue;
        }
      }
      if !SpacesIn(line, posTarget + |target|, |line|) {
        continue;
      }
      changes := changes + [Location(nr, posTarget)];
    }
    assert lines[..|lines|] == lines;
  }

  /** look_for_images, look_for_figures and look_for_literalinclude: the directive's
      references to the path `src`, absolute form accepted. */
  function DirectiveHits(d: Directive, lines: seq<string>, src: string): (r: seq<Location>)
    ensures Ascending(r)
    ensures forall loc :: loc in r ==> NameAt(lines, loc, src)
  {
    DirectiveScanAscending(Marker(d), lines, src, true);
    DirectiveScanNames(Marker(d), lines, src, true);
    DirectiveScan(Marker(d), lines, src, true)
  }

  /** "include" first occurs inside the marker, in "literalinclude". */
  lemma IncludeInMarker()
    ensures Find(".. literalinclude:: include", "include", 0) == 10
  {
    var line := ".. literalinclude:: include";
    assert OccursAt(line, "include", 10);
    forall i | 0 <= i < 10 ensures !OccursAt(line, "include", i) {
      if i == 4 {
        assert line[i..i + 7][1] == line[5] == 't';
      } else {
        assert line[i] != 'i' by {
          assert i == 0 || i == 1 || i == 2 || i == 3 || i == 5 || i == 6 || i == 7 || i == 8 || i == 9;
        }
        assert line[i..i + 7][0] == line[i];
      }
    }
    FindIs(line, "include", 0, 10);
  }

  /** The literalinclude marker opens ".. literalinclude:: include", and the file
      name follows it at column 20. */
  lemma LiteralIncludeLine()
    ensures Find(".. literalinclude:: include", Marker(LiteralInclude), 0) == 0
    ensures WellPlaced(Marker(LiteralInclude), ".. literalinclude:: include", "include", true, 0, 20)
  {
    var line := ".. literalinclude:: include";
    var marker := Marker(LiteralInclude);
    assert line == marker + " " + "include";
    assert OccursAt(line, marker, 0) by {
      assert line[..19] == marker;
    }
    assert OccursAt(line, "include", 20) by {
      assert line[20..] == "include";
    }
    FindIs(line, marker, 0, 0);
    assert IsSpace(line[19]);
  }

  /** ".. literalinclude:: include" refers to a file named "include", but the code as
      written finds "include" inside the marker itself, at column 10, and then rejects
      the line because text follows that occurrence. */
  lemma LiteralIncludeMissed()
    ensures DirectiveColumnAsWritten(Marker(LiteralInclude), ".. literalinclude:: include", "include", true) == None
  {
    var line := ".. literalinclude:: include";
    LiteralIncludeLine();
    assert Find(line, "include", 0) == 10 by {
      IncludeInMarker();
    }
    assert Placed(line, 19, 10, "include", true) == None by {
      assert !IsSpace(line[17]);
    }
    ColumnAsWrittenAfterMarker(Marker(LiteralInclude), line, "include", true, 0, 10);
  }

  /** The corrected check reports ".. literalinclude:: include" at column 20. */
  lemma LiteralIncludeFound()
    ensures DirectiveColumn(Marker(LiteralInclude), ".. literalinclude:: include", "include", true) == Some(20)
  {
    LiteralIncludeLine();
    DirectiveColumnComplete(Marker(LiteralInclude), ".. literalinclude:: include", "include", true, 0, 20);
  }

  /** A longer file name that ends with the target, ".. image:: anotherobject.png",
      does not refer to "object.png": the search after the marker finds the target
      at column 18, and "another" stands between the marker and it. */
  lemma AnotherObjectIgnored(line: string)
    requires line == ".. image:: anotherobject.png"
    ensures DirectiveColumn(Marker(Image), line, "object.png", true) == None
  {
    var marker := Marker(Image);
    assert OccursAt(line, marker, 0) by {
      assert line[..10] == marker;
    }
    MarkerFirst(marker, line, 0);
    assert OccursAt(line, "object.png", 18) by {
      assert line[18..] == "object.png";
    }
    forall i | 10 <= i < 18 ensures !OccursAt(line, "object.png", i) {
      if i == 13 {
        assert line[i..i + 10][1] == line[14] == 't';
      } else {
        assert line[i] != 'o' by {
          assert i == 10 || i == 11 || i == 12 || i == 14 || i == 15 || i == 16 || i == 17;
        }
        assert line[i..i + 10][0] == line[i];
      }
    }
    FindIs(line, "object.png", 10, 18);
    assert Placed(line, 10, 18, "object.png", true) == None by {
      assert !IsSpace(line[11]) && line[11] != '/';
      if SlashAmid(line, 10, 18) {
        SpaceOrSlashAt(line, 10, 18, 11);
      }
    }
    ColumnAfterMarker(marker, line, "object.png", true, 0, 18);
  }

  /** A path written from the document's root, ".. image:: /object.png", refers to
      "object.png" at column 12 when absolute references are accepted. */
  lemma AbsoluteImageFound()
    ensures DirectiveColumn(Marker(Image), ".. image:: /object.png", "object.png", true) == Some(12)
  {
    var line := ".. image:: /object.png";
    var marker := Marker(Image);
    assert line == marker + " /" + "object.png";
    assert OccursAt(line, marker, 0) by {
      assert line[..10] == marker;
    }
    assert OccursAt(line, "object.png", 12) by {
      assert line[12..] == "object.png";
    }
    assert SlashAmid(line, 10, 12) by {
      assert line[11] == '/' && IsSpace(line[10]);
      assert SpacesIn(line, 10, 11) && SpacesIn(line, 12, 12);
    }
    DirectiveColumnComplete(marker, line, "object.png", true, 0, 12);
  }
}
