/**
 * From located references to changed lines (rst_rename.py,
 * expand_changes_on_contents and its helper replace_change).
 *
 * The changes are grouped by line, in the order in which each line is first met.
 * A line's first change is spliced into the original line and every further change
 * on the same line into the line as already rewritten, at the column recorded for
 * the original line. Each changed line then gets its highlighted rendering.
 */
module Projector {
  import opened Wrappers
  import opened Text
  import opened Locations
  import opened Highlight
  import opened Scanner

  // ---------------------------------------------------------------------------
  // replace_change
  // ---------------------------------------------------------------------------

  /** The names replace_change splices: both lose their last four characters when
      the old name ends in ".rst", since the reference may omit the extension. */
  function Spliced(src: string, dst: string): (r: (string, string))
    ensures EndsWith(src, ".rst") ==> r.0 + ".rst" == src
    ensures !EndsWith(src, ".rst") ==> r == (src, dst)
  {
    if EndsWith(src, ".rst") then (DropLast(src, 4), DropLast(dst, 4)) else (src, dst)
  }

  /** replace_change: the line with the old name at `pos` replaced by the new one. */
  function ReplaceChange(line: string, pos: nat, src: string, dst: string): (r: string)
    ensures pos + |Spliced(src, dst).0| <= |line| ==>
      |r| == |line| - |Spliced(src, dst).0| + |Spliced(src, dst).1|
  {
    var (oldName, newName) := Spliced(src, dst);
    Take(line, pos) + newName + Drop(line, pos + |oldName|)
  }

  /** Within the line, the replacement keeps what comes before `pos` and after the
      old name, and puts the new name at `pos`. */
  lemma ReplaceChangeKeeps(line: string, pos: nat, src: string, dst: string)
    requires pos + |Spliced(src, dst).0| <= |line|
    ensures var r := ReplaceChange(line, pos, src, dst);
      r[..pos] == line[..pos] &&
      OccursAt(r, Spliced(src, dst).1, pos) &&
      r[pos + |Spliced(src, dst).1|..] == line[pos + |Spliced(src, dst).0|..]
  {
    var (oldName, newName) := Spliced(src, dst);
    var r := line[..pos] + newName + line[pos + |oldName|..];
    assert ReplaceChange(line, pos, src, dst) == r;
    assert r[..pos] == line[..pos];
    assert r[pos..pos + |newName|] == newName;
    assert r[pos + |newName|..] == line[pos + |oldName|..];
  }

  /** Replacing a name that is there by itself changes nothing. */
  lemma ReplaceChangeSelf(line: string, pos: nat, src: string)
    requires OccursAt(line, Spliced(src, src).0, pos)
    ensures ReplaceChange(line, pos, src, src) == line
  {
    var oldName := Spliced(src, src).0;
    assert Spliced(src, src).1 == oldName;
    assert line[..pos] + oldName + line[pos + |oldName|..] == line by {
      assert line[pos..pos + |oldName|] == oldName;
      assert line == line[..pos] + line[pos..pos + |oldName|] + line[pos + |oldName|..];
    }
  }

  /** Two strings of one length that agree before `pos`, on the `m` characters from
      `pos` and after them are equal. */
  lemma SamePieces(a: string, b: string, pos: nat, m: nat)
    requires pos + m <= |a| == |b|
    requires a[..pos] == b[..pos] && a[pos..pos + m] == b[pos..pos + m] && a[pos + m..] == b[pos + m..]
    ensures a == b
  {
    assert a == a[..pos] + a[pos..pos + m] + a[pos + m..];
    assert b == b[..pos] + b[pos..pos + m] + b[pos + m..];
  }

  /** Renaming back undoes a rename, when both names end in ".rst" or neither does
      and the old name was where the change says. */
  lemma ReplaceChangeUndone(line: string, pos: nat, src: string, dst: string)
    requires EndsWith(src, ".rst") <==> EndsWith(dst, ".rst")
    requires OccursAt(line, Spliced(src, dst).0, pos)
    ensures ReplaceChange(ReplaceChange(line, pos, src, dst), pos, dst, src) == line
  {
    var o, n := Spliced(src, dst).0, Spliced(src, dst).1;
    assert Spliced(dst, src) == (n, o);
    var r := ReplaceChange(line, pos, src, dst);
    var back := ReplaceChange(r, pos, dst, src);
    assert |r| == |line| - |o| + |n| && r[..pos] == line[..pos] && r[pos + |n|..] == line[pos + |o|..] by {
      ReplaceChangeKeeps(line, pos, src, dst);
    }
    assert |back| == |line| && back[..pos] == line[..pos] && back[pos..pos + |o|] == o &&
           back[pos + |o|..] == line[pos + |o|..] by {
      ReplaceChangeKeeps(r, pos, dst, src);
    }
    SamePieces(back, line, pos, |o|);
  }

  // ---------------------------------------------------------------------------
  // expand_changes_on_contents
  // ---------------------------------------------------------------------------

  /** A changed line: its number, its text before and after, and its rendering. */
  datatype ExpandedChange = ExpandedChange(linenr: nat, src: string, dst: string, repr: Result<string, ReprError>)

  /** An entry of the `changed_lines` dictionary before its rendering is added. */
  datatype LineChange = LineChange(linenr: nat, src: string, dst: string)

  /** The numbers of the changed lines, each once, in the order of their first
      change: the insertion order of `changed_lines`. */
  function FirstLines(changes: seq<Location>): (r: seq<nat>)
    ensures |r| <= |changes|
    decreases |changes|
  {
    if changes == [] then []
    else
      var prev := FirstLines(changes[..|changes| - 1]);
      var nr := changes[|changes| - 1].line;
      if nr in prev then prev else prev + [nr]
  }

  /** The columns of the changes on line `nr`, in the order they come. */
  function ColumnsOn(changes: seq<Location>, nr: nat): (r: seq<nat>)
    ensures |r| <= |changes|
    decreases |changes|
  {
    if changes == [] then []
    else
      var prev := ColumnsOn(changes[..|changes| - 1], nr);
      var c := changes[|changes| - 1];
      if c.line == nr then prev + [c.col] else prev
  }

  /** A line after its changes, made one after the other at their recorded columns. */
  function Rewrite(line: string, cols: seq<nat>, src: string, dst: string): (r: string)
    decreases |cols|
  {
    if cols == [] then line
    else ReplaceChange(Rewrite(line, cols[..|cols| - 1], src, dst), cols[|cols| - 1], src, dst)
  }

  /** The changes of `changes` refer to lines of `contents`. */
  predicate LinesIn(contents: seq<string>, changes: seq<Location>) {
    forall i :: 0 <= i < |changes| ==> changes[i].line < |contents|
  }

  /** The changed line `nr` of `contents`. */
  function Expand(contents: seq<string>, changes: seq<Location>, src: string, dst: string, nr: nat): (r: ExpandedChange)
    requires nr < |contents|
    ensures r.linenr == nr && r.src == contents[nr]
  {
    var line := contents[nr];
    var rewritten := Rewrite(line, ColumnsOn(changes, nr), src, dst);
    ExpandedChange(nr, line, rewritten, Representation(line, rewritten, src, dst))
  }

  /** The changed lines `nrs` of `contents`, in that order. */
  function ExpandAll(contents: seq<string>, changes: seq<Location>, src: string, dst: string, nrs: seq<nat>): (r: seq<ExpandedChange>)
    requires forall k :: 0 <= k < |nrs| ==> nrs[k] < |contents|
    ensures |r| == |nrs|
    decreases |nrs|
  {
    if nrs == [] then []
    else
      var n := |nrs| - 1;
      ExpandAll(contents, changes, src, dst, nrs[..n]) + [Expand(contents, changes, src, dst, nrs[n])]
  }

  /** FirstLines holds exactly the lines that have a change. */
  lemma {:induction false} FirstLinesMembers(changes: seq<Location>)
    ensures forall nr :: nr in FirstLines(changes) <==> exists i :: 0 <= i < |changes| && changes[i].line == nr
    decreases |changes|
  {
    if changes != [] {
      var n := |changes| - 1;
      FirstLinesMembers(changes[..n]);
      assert forall i :: 0 <= i < n ==> changes[..n][i] == changes[i];
    }
  }

  /** FirstLines holds each line once. */
  lemma {:induction false} FirstLinesDistinct(changes: seq<Location>)
    ensures forall a, b :: 0 <= a < b < |FirstLines(changes)| ==> FirstLines(changes)[a] != FirstLines(changes)[b]
    decreases |changes|
  {
    if changes != [] {
      var prev := FirstLines(changes[..|changes| - 1]);
      var all := FirstLines(changes);
      FirstLinesDistinct(changes[..|changes| - 1]);
      forall a, b | 0 <= a < b < |all|
        ensures all[a] != all[b]
      {
        assert all[a] == prev[a] && prev[a] in prev;
      }
    }
  }

  /** Line `x` has a change before the first change on line `y`. */
  predicate FirstBefore(changes: seq<Location>, x: nat, y: nat) {
    exists i :: 0 <= i < |changes| && changes[i].line == x && forall j :: 0 <= j <= i ==> changes[j].line != y
  }

  /** FirstLines orders the lines by their first change. */
  lemma {:induction false} FirstLinesOrder(changes: seq<Location>)
    ensures forall a, b :: 0 <= a < b < |FirstLines(changes)| ==>
      FirstBefore(changes, FirstLines(changes)[a], FirstLines(changes)[b])
    decreases |changes|
  {
    if changes != [] {
      var n := |changes| - 1;
      var prefix := changes[..n];
      var prev := FirstLines(prefix);
      var nr := changes[n].line;
      var all := FirstLines(changes);
      assert all == if nr in prev then prev else prev + [nr];
      FirstLinesOrder(prefix);
      FirstLinesMembers(prefix);
      assert forall j :: 0 <= j < n ==> changes[j] == prefix[j];
      forall a, b | 0 <= a < b < |all|
        ensures FirstBefore(changes, all[a], all[b])
      {
        assert all[a] == prev[a] && prev[a] in prev;
        if b < |prev| {
          assert all[b] == prev[b];
          assert FirstBefore(prefix, prev[a], prev[b]);
          var i :| 0 <= i < n && prefix[i].line == prev[a] &&
                   (forall j :: 0 <= j <= i ==> prefix[j].line != prev[b]);
          assert changes[i].line == all[a] && forall j :: 0 <= j <= i ==> changes[j].line != all[b];
        } else {
          assert all[b] == nr && nr !in prev;
          assert forall k :: 0 <= k < n ==> prefix[k].line != nr;
          var i :| 0 <= i < n && prefix[i].line == prev[a];
          assert changes[i].line == all[a] && forall j :: 0 <= j <= i ==> changes[j].line != all[b];
        }
      }
    }
  }



  /** The lines FirstLines gathers are lines of the document. */
  lemma FirstLinesIn(contents: seq<string>, changes: seq<Location>)
    requires LinesIn(contents, changes)
    ensures forall k :: 0 <= k < |FirstLines(changes)| ==> FirstLines(changes)[k] < |contents|
  {
    FirstLinesMembers(changes);
    forall k | 0 <= k < |FirstLines(changes)|
      ensures FirstLines(changes)[k] < |contents|
    {
      assert FirstLines(changes)[k] in FirstLines(changes);
    }
  }

  /** expand_changes_on_contents: one record per changed line, in the order each
      line is first changed. */
  function ExpandChanges(contents: seq<string>, changes: seq<Location>, src: string, dst: string): (r: seq<ExpandedChange>)
    requires LinesIn(contents, changes)
    ensures changes == [] ==> r == []
  {
    FirstLinesIn(contents, changes);
    ExpandAll(contents, changes, src, dst, FirstLines(changes))
  }

  /** The records of ExpandAll are those of its lines. */
  lemma {:induction false} ExpandAllAt(contents: seq<string>, changes: seq<Location>, src: string, dst: string, nrs: seq<nat>, k: nat)
    requires forall k :: 0 <= k < |nrs| ==> nrs[k] < |contents|
    requires k < |nrs|
    ensures ExpandAll(contents, changes, src, dst, nrs)[k] == Expand(contents, changes, src, dst, nrs[k])
    decreases |nrs|
  {
    var n := |nrs| - 1;
    assert forall j :: 0 <= j < n ==> nrs[..n][j] < |contents|;
    assert ExpandAll(contents, changes, src, dst, nrs) ==
      ExpandAll(contents, changes, src, dst, nrs[..n]) + [Expand(contents, changes, src, dst, nrs[n])];
    if k < n {
      assert nrs[..n][k] == nrs[k];
      ExpandAllAt(contents, changes, src, dst, nrs[..n], k);
    }
  }

  /** The records of ExpandChanges are those of the lines FirstLines gathers. */
  lemma ExpandChangesAt(contents: seq<string>, changes: seq<Location>, src: string, dst: string)
    requires LinesIn(contents, changes)
    ensures |ExpandChanges(contents, changes, src, dst)| == |FirstLines(changes)|
    ensures forall k :: 0 <= k < |FirstLines(changes)| ==>
      FirstLines(changes)[k] < |contents| &&
      ExpandChanges(contents, changes, src, dst)[k] == Expand(contents, changes, src, dst, FirstLines(changes)[k])
  {
    FirstLinesIn(contents, changes);
    forall k | 0 <= k < |FirstLines(changes)|
      ensures ExpandChanges(contents, changes, src, dst)[k] == Expand(contents, changes, src, dst, FirstLines(changes)[k])
    {
      ExpandAllAt(contents, changes, src, dst, FirstLines(changes), k);
    }
  }

  /** What expand_changes_on_contents promises about its lines: every line with a
      change has a record. */
  lemma ExpandChangesCovers(contents: seq<string>, changes: seq<Location>, src: string, dst: string)
    requires LinesIn(contents, changes)
    ensures var r := ExpandChanges(contents, changes, src, dst);
      forall i :: 0 <= i < |changes| ==> exists k :: 0 <= k < |r| && r[k].linenr == changes[i].line
  {
    var r := ExpandChanges(contents, changes, src, dst);
    var nrs := FirstLines(changes);
    assert |r| == |nrs| && forall k :: 0 <= k < |r| ==> r[k].linenr == nrs[k] by {
      ExpandChangesAt(contents, changes, src, dst);
    }
    FirstLinesMembers(changes);
    forall i | 0 <= i < |changes|
      ensures exists k :: 0 <= k < |r| && r[k].linenr == changes[i].line
    {
      assert changes[i].line in nrs;
      var k :| 0 <= k < |nrs| && nrs[k] == changes[i].line;
      assert r[k].linenr == changes[i].line;
    }
  }

  /** What expand_changes_on_contents promises about its lines: every record is for
      a line with a change. */
  lemma ExpandChangesOnlyChanged(contents: seq<string>, changes: seq<Location>, src: string, dst: string)
    requires LinesIn(contents, changes)
    ensures var r := ExpandChanges(contents, changes, src, dst);
      forall k :: 0 <= k < |r| ==> exists i :: 0 <= i < |changes| && changes[i].line == r[k].linenr
  {
    var r := ExpandChanges(contents, changes, src, dst);
    var nrs := FirstLines(changes);
    assert |r| == |nrs| && forall k :: 0 <= k < |r| ==> r[k].linenr == nrs[k] by {
      ExpandChangesAt(contents, changes, src, dst);
    }
    FirstLinesMembers(changes);
    forall k | 0 <= k < |r|
      ensures exists i :: 0 <= i < |changes| && changes[i].line == r[k].linenr
    {
      assert nrs[k] in nrs;
    }
  }

  /** What expand_changes_on_contents promises about its lines: one record per line. */
  lemma ExpandChangesDistinct(contents: seq<string>, changes: seq<Location>, src: string, dst: string)
    requires LinesIn(contents, changes)
    ensures var r := ExpandChanges(contents, changes, src, dst);
      forall a, b :: 0 <= a < b < |r| ==> r[a].linenr != r[b].linenr
  {
    var r := ExpandChanges(contents, changes, src, dst);
    var nrs := FirstLines(changes);
    assert |r| == |nrs| && forall k :: 0 <= k < |r| ==> r[k].linenr == nrs[k] by {
      ExpandChangesAt(contents, changes, src, dst);
    }
    FirstLinesDistinct(changes);
  }

  /** What expand_changes_on_contents promises about its lines: the records come in
      the order of the lines' first changes. */
  lemma ExpandChangesOrder(contents: seq<string>, changes: seq<Location>, src: string, dst: string)
    requires LinesIn(contents, changes)
    ensures var r := ExpandChanges(contents, changes, src, dst);
      forall a, b :: 0 <= a < b < |r| ==> FirstBefore(changes, r[a].linenr, r[b].linenr)
  {
    var r := ExpandChanges(contents, changes, src, dst);
    var nrs := FirstLines(changes);
    assert |r| == |nrs| && forall k :: 0 <= k < |r| ==> r[k].linenr == nrs[k] by {
      ExpandChangesAt(contents, changes, src, dst);
    }
    FirstLinesOrder(changes);
  }


  /** What expand_changes_on_contents promises about each record: it holds the
      original line, the line after all the changes on it, and the rendering of the
      two. */
  lemma ExpandChangesRecords(contents: seq<string>, changes: seq<Location>, src: string, dst: string)
    requires LinesIn(contents, changes)
    ensures var r := ExpandChanges(contents, changes, src, dst);
      forall k :: 0 <= k < |r| ==>
        r[k].linenr < |contents| &&
        r[k].src == contents[r[k].linenr] &&
        r[k].dst == Rewrite(r[k].src, ColumnsOn(changes, r[k].linenr), src, dst) &&
        r[k].repr == Representation(r[k].src, r[k].dst, src, dst)
  {
    ExpandChangesAt(contents, changes, src, dst);
  }

  /** The `changed_lines` dictionary after the changes `changes`: each change
      rewrites the entry of its line, which the first change on that line creates
      from the original line. */
  function Group(contents: seq<string>, changes: seq<Location>, src: string, dst: string): (m: map<nat, LineChange>)
    requires LinesIn(contents, changes)
    decreases |changes|
  {
    if changes == [] then map[]
    else
      var n := |changes| - 1;
      var prev := Group(contents, changes[..n], src, dst);
      var c := changes[n];
      if c.line in prev then prev[c.line := prev[c.line].(dst := ReplaceChange(prev[c.line].dst, c.col, src, dst))]
      else prev[c.line := LineChange(c.line, contents[c.line], ReplaceChange(contents[c.line], c.col, src, dst))]
  }

  /** The dictionary has an entry for each changed line and no other. */
  lemma {:induction false} GroupKeys(contents: seq<string>, changes: seq<Location>, src: string, dst: string)
    requires LinesIn(contents, changes)
    ensures forall nr :: nr in Group(contents, changes, src, dst) <==> nr in FirstLines(changes)
    decreases |changes|
  {
    if changes != [] {
      GroupKeys(contents, changes[..|changes| - 1], src, dst);
    }
  }

  /** Each entry of the dictionary holds the original line and the line after all
      its changes. */
  lemma {:induction false} GroupValues(contents: seq<string>, changes: seq<Location>, src: string, dst: string)
    requires LinesIn(contents, changes)
    ensures forall nr :: nr in Group(contents, changes, src, dst) ==>
      nr < |contents| &&
      Group(contents, changes, src, dst)[nr] ==
        LineChange(nr, contents[nr], Rewrite(contents[nr], ColumnsOn(changes, nr), src, dst))
    decreases |changes|
  {
    if changes != [] {
      var n := |changes| - 1;
      var prefix := changes[..n];
      var prev := Group(contents, prefix, src, dst);
      var c := changes[n];
      GroupValues(contents, prefix, src, dst);
      forall nr | nr in Group(contents, changes, src, dst)
        ensures nr < |contents| &&
          Group(contents, changes, src, dst)[nr] ==
            LineChange(nr, contents[nr], Rewrite(contents[nr], ColumnsOn(changes, nr), src, dst))
      {
        if nr == c.line {
          var cols := ColumnsOn(prefix, nr);
          assert ColumnsOn(changes, nr) == cols + [c.col];
          assert (cols + [c.col])[..|cols|] == cols;
          if nr !in prev {
            assert cols == [] by {
              GroupKeys(contents, prefix, src, dst);
              ColumnsOnNone(prefix, nr);
            }
          }
        }
      }
    }
  }

  /** One more change extends the first lines by its line when that line is new. */
  lemma FirstLinesStep(changes: seq<Location>, k: nat)
    requires k < |changes|
    ensures FirstLines(changes[..k + 1]) ==
      var prev := FirstLines(changes[..k]);
      if changes[k].line in prev then prev else prev + [changes[k].line]
  {
    assert changes[..k + 1][..k] == changes[..k];
  }

  /** One more change extends the columns of its own line. */
  lemma ColumnsOnStep(changes: seq<Location>, k: nat, nr: nat)
    requires k < |changes|
    ensures ColumnsOn(changes[..k + 1], nr) ==
      if changes[k].line == nr then ColumnsOn(changes[..k], nr) + [changes[k].col] else ColumnsOn(changes[..k], nr)
  {
    assert changes[..k + 1][..k] == changes[..k];
  }

  /** A line with no change among the first `k` has no columns there. */
  lemma {:induction false} ColumnsOnNone(changes: seq<Location>, nr: nat)
    requires nr !in FirstLines(changes)
    ensures ColumnsOn(changes, nr) == []
    decreases |changes|
  {
    if changes != [] {
      var n := |changes| - 1;
      assert nr !in FirstLines(changes[..n]);
      ColumnsOnNone(changes[..n], nr);
    }
  }

  /** One more change updates the dictionary entry of its line. */
  lemma GroupStep(contents: seq<string>, changes: seq<Location>, src: string, dst: string, k: nat)
    requires LinesIn(contents, changes) && k < |changes|
    ensures LinesIn(contents, changes[..k]) && LinesIn(contents, changes[..k + 1])
    ensures var prev := Group(contents, changes[..k], src, dst);
      var c := changes[k];
      Group(contents, changes[..k + 1], src, dst) ==
        if c.line in prev then prev[c.line := prev[c.line].(dst := ReplaceChange(prev[c.line].dst, c.col, src, dst))]
        else prev[c.line := LineChange(c.line, contents[c.line], ReplaceChange(contents[c.line], c.col, src, dst))]
  {
    assert changes[..k + 1][..k] == changes[..k];
  }

  /** The record of the `i`-th changed line extends those of the lines before it. */
  lemma ExpandAllStep(contents: seq<string>, changes: seq<Location>, src: string, dst: string, nrs: seq<nat>, i: nat)
    requires forall k :: 0 <= k < |nrs| ==> nrs[k] < |contents|
    requires i < |nrs|
    ensures ExpandAll(contents, changes, src, dst, nrs[..i + 1]) ==
      ExpandAll(contents, changes, src, dst, nrs[..i]) + [Expand(contents, changes, src, dst, nrs[i])]
  {
    assert nrs[..i + 1][..i] == nrs[..i];
  }

  /** The first loop of expand_changes_on_contents: the `changed_lines` dictionary
      (kept as a map and the list of its keys in insertion order) filled in change
      by change. */
  method GroupChanges(contents: seq<string>, changes: seq<Location>, src: string, dst: string)
    returns (changedLines: map<nat, LineChange>, order: seq<nat>)
    requires LinesIn(contents, changes)
    ensures changedLines == Group(contents, changes, src, dst)
    ensures order == FirstLines(changes)
  {
    changedLines, order := map[], [];
    for k := 0 to |changes|
      invariant LinesIn(contents, changes[..k])
      invariant changedLines == Group(contents, changes[..k], src, dst)
      invariant order == FirstLines(changes[..k])
    {
      GroupStep(contents, changes, src, dst, k);
      FirstLinesStep(changes, k);
      var c := changes[k];
      assert c.line in changedLines <==> c.line in order by {
        GroupKeys(contents, changes[..k], src, dst);
      }
      if c.line in changedLines {
        var change := changedLines[c.line];
        changedLines := changedLines[c.line := change.(dst := ReplaceChange(change.dst, c.col, src, dst))];
      } else {
        var line := contents[c.line];
        changedLines := changedLines[c.line := LineChange(c.line, line, ReplaceChange(line, c.col, src, dst))];
        order := order + [c.line];
      }
    }
    assert changes[..|changes|] == changes;
  }

  /** The line of the i-th first change is grouped with its rewrite. */
  lemma GroupedAt(contents: seq<string>, changes: seq<Location>, src: string, dst: string, i: nat)
    requires LinesIn(contents, changes) && i < |FirstLines(changes)|
    ensures var nr := FirstLines(changes)[i];
      nr < |contents| && nr in Group(contents, changes, src, dst) &&
      Group(contents, changes, src, dst)[nr] ==
        LineChange(nr, contents[nr], Rewrite(contents[nr], ColumnsOn(changes, nr), src, dst))
  {
    assert FirstLines(changes)[i] in FirstLines(changes);
    GroupKeys(contents, changes, src, dst);
    GroupValues(contents, changes, src, dst);
  }

  /** expand_changes_on_contents: the dictionary of changed lines, then a record with
      the rendering for each of them, in insertion order. */
  method ExpandChangesOnContents(contents: seq<string>, changes: seq<Location>, src: string, dst: string)
    returns (expanded: seq<ExpandedChange>)
    requires LinesIn(contents, changes)
    ensures expanded == ExpandChanges(contents, changes, src, dst)
  {
    var changedLines, order := GroupChanges(contents, changes, src, dst);
    assert forall k :: 0 <= k < |order| ==> order[k] < |contents| by {
      FirstLinesIn(contents, changes);
    }
    expanded := [];
    for i := 0 to |order|
      invariant expanded == ExpandAll(contents, changes, src, dst, order[..i])
    {
      var nr := order[i];
      GroupedAt(contents, changes, src, dst, i);
      var change := changedLines[nr];
      var repr := CreateRepresentation(change.src, change.dst, src, dst);
      ExpandAllStep(contents, changes, src, dst, order, i);
      expanded := expanded + [ExpandedChange(change.linenr, change.src, change.dst, repr)];
    }
    assert order[..|order|] == order;
  }

  // ---------------------------------------------------------------------------
  // Properties across changes
  // ---------------------------------------------------------------------------

  /** Renaming a name to itself at columns where it occurs leaves the line as it was. */
  lemma {:induction false} RewriteSelf(line: string, cols: seq<nat>, src: string)
    requires forall k :: 0 <= k < |cols| ==> OccursAt(line, Spliced(src, src).0, cols[k])
    ensures Rewrite(line, cols, src, src) == line
    decreases |cols|
  {
    if cols != [] {
      var n := |cols| - 1;
      RewriteSelf(line, cols[..n], src);
      ReplaceChangeSelf(line, cols[n], src);
    }
  }

  /** The columns of a line's changes are columns of changes on that line. */
  lemma {:induction false} ColumnsOnFrom(changes: seq<Location>, nr: nat, k: nat)
    requires k < |ColumnsOn(changes, nr)|
    ensures exists i :: 0 <= i < |changes| && changes[i] == Location(nr, ColumnsOn(changes, nr)[k])
    decreases |changes|
  {
    var n := |changes| - 1;
    var prev := ColumnsOn(changes[..n], nr);
    if k < |prev| {
      ColumnsOnFrom(changes[..n], nr, k);
      var i :| 0 <= i < n && changes[..n][i] == Location(nr, prev[k]);
      assert changes[i] == changes[..n][i];
    } else {
      assert changes[n] == Location(nr, ColumnsOn(changes, nr)[k]);
    }
  }

  /** A location that names the source is where replace_change finds the name it
      splices. */
  lemma NamesSourceSpliced(lines: seq<string>, loc: Location, src: string, dst: string)
    requires NamesSource(lines, loc, src)
    ensures loc.line < |lines| && OccursAt(lines[loc.line], Spliced(src, dst).0, loc.col)
  {
    var line := lines[loc.line];
    if EndsWith(src, ".rst") && OccursAt(line, src, loc.col) {
      var stem := DropLast(src, 4);
      assert line[loc.col..loc.col + |stem|] == line[loc.col..loc.col + |src|][..|stem|];
    }
  }

  /** Renaming a document to itself is no change: for the references found in a
      document, every changed line comes out as it went in and is rendered as
      itself. */
  lemma RenameToSelfIsNoOp(lines: seq<string>, src: string, locs: seq<Location>)
    requires RolesClosed(lines) && References(lines, src) == Ok(locs)
    ensures LinesIn(lines, locs)
    ensures forall r :: r in ExpandChanges(lines, locs, src, src) ==> r.dst == r.src && r.repr == Ok(r.src)
  {
    forall i | 0 <= i < |locs|
      ensures locs[i].line < |lines| && OccursAt(lines[locs[i].line], Spliced(src, src).0, locs[i].col)
    {
      assert locs[i] in locs;
      NamesSourceSpliced(lines, locs[i], src, src);
    }
    ExpandChangesRecords(lines, locs, src, src);
    var rs := ExpandChanges(lines, locs, src, src);
    forall k | 0 <= k < |rs|
      ensures rs[k].dst == rs[k].src && rs[k].repr == Ok(rs[k].src)
    {
      var nr := rs[k].linenr;
      var line := lines[nr];
      var cols := ColumnsOn(locs, nr);
      forall j | 0 <= j < |cols|
        ensures OccursAt(line, Spliced(src, src).0, cols[j])
      {
        ColumnsOnFrom(locs, nr, j);
      }
      RewriteSelf(line, cols, src);
      var (x, y) := Cleaned(src, src);
      WalkSame(line, x, y, 0);
      assert line[0..] == line;
    }
  }

  /** Each change is made at the column recorded for the original line, even after an
      earlier change on the same line has moved the text: renaming "a" to "bb" at
      columns 0 and 2 of "a a" splices the second "bb" over the space. */
  lemma SecondChangeUnshifted()
    ensures Rewrite("a a", [0, 2], "a", "bb") == "bbbba"
    ensures ExpandChanges(["a a"], [Location(0, 0), Location(0, 2)], "a", "bb")[0].dst == "bbbba"
  {
    assert Spliced("a", "bb") == ("a", "bb");
    assert [0, 2][..1] == [0] && [0][..0] == [];
    assert ReplaceChange("a a", 0, "a", "bb") == "bb a" by {
      assert Take("a a", 0) == [] && Drop("a a", 1) == " a";
    }
    assert ReplaceChange("bb a", 2, "a", "bb") == "bbbba" by {
      assert Take("bb a", 2) == "bb" && Drop("bb a", 3) == "a";
    }
    var changes := [Location(0, 0), Location(0, 2)];
    assert changes[..1] == [Location(0, 0)] && changes[..1][..0] == [];
    assert FirstLines(changes) == [0];
    assert ColumnsOn(changes, 0) == [0, 2];
    ExpandChangesAt(["a a"], changes, "a", "bb");
  }

  /** Two changes on a line are made one after the other, in the order given. */
  lemma RewritePair(line: string, p: nat, q: nat, src: string, dst: string)
    ensures Rewrite(line, [p, q], src, dst) == ReplaceChange(ReplaceChange(line, p, src, dst), q, src, dst)
  {
    assert [p, q][..1] == [p];
    assert [p][..0] == [];
    assert Rewrite(line, [p], src, dst) == ReplaceChange(line, p, src, dst);
  }

  /** `r` is `line` with the text at `pos` overwritten by `n`. */
  predicate Overwritten(line: string, r: string, pos: nat, n: string) {
    pos + |n| <= |line| && |r| == |line| && r[..pos] == line[..pos] && r[pos..pos + |n|] == n &&
    r[pos + |n|..] == line[pos + |n|..]
  }

  /** A change whose names have the same length overwrites the old name. */
  lemma SameLengthOverwrites(line: string, pos: nat, src: string, dst: string)
    requires |Spliced(src, dst).0| == |Spliced(src, dst).1| && pos + |Spliced(src, dst).0| <= |line|
    ensures Overwritten(line, ReplaceChange(line, pos, src, dst), pos, Spliced(src, dst).1)
  {
    ReplaceChangeKeeps(line, pos, src, dst);
  }

  /** Two overwrites of a name, the second past the first. */
  lemma OverwrittenTwice(line: string, once: string, r: string, p: nat, q: nat, n: string)
    requires p + |n| <= q && Overwritten(line, once, p, n) && Overwritten(once, r, q, n)
    ensures |r| == |line| && r[..p] == line[..p] && r[p..p + |n|] == n && r[p + |n|..q] == line[p + |n|..q] &&
      r[q..q + |n|] == n && r[q + |n|..] == line[q + |n|..]
  {
    var m := |n|;
    assert r[..p] == r[..q][..p] && once[..p] == once[..q][..p];
    assert r[p..p + m] == r[..q][p..p + m] && once[p..p + m] == once[..q][p..p + m];
    assert r[p + m..q] == r[..q][p + m..] && once[p + m..q] == once[..q][p + m..];
    assert once[p + m..q] == once[p + m..][..q - p - m];
    assert once[q + m..] == once[p + m..][q - p..];
  }

  /** Two changes on a line whose names have the same length land where they
      should: both occurrences are replaced and the text around and between them is
      kept (with RewritePair, this is Rewrite on the columns `[p, q]`). */
  lemma TwoChangesSameLength(line: string, p: nat, q: nat, src: string, dst: string)
    requires |Spliced(src, dst).0| == |Spliced(src, dst).1|
    requires p + |Spliced(src, dst).0| <= q && q + |Spliced(src, dst).0| <= |line|
    ensures var n := Spliced(src, dst).1;
      var r := ReplaceChange(ReplaceChange(line, p, src, dst), q, src, dst);
      |r| == |line| && r[..p] == line[..p] && r[p..p + |n|] == n && r[p + |n|..q] == line[p + |n|..q] &&
      r[q..q + |n|] == n && r[q + |n|..] == line[q + |n|..]
  {
    var n := Spliced(src, dst).1;
    var once := ReplaceChange(line, p, src, dst);
    assert Overwritten(line, once, p, n) by {
      SameLengthOverwrites(line, p, src, dst);
    }
    assert Overwritten(once, ReplaceChange(once, q, src, dst), q, n) by {
      SameLengthOverwrites(once, q, src, dst);
    }
    OverwrittenTwice(line, once, ReplaceChange(once, q, src, dst), p, q, n);
  }

  /** A document with a single change: one record, for that change's line, holding
      the line rewritten at that change and its rendering. */
  lemma SingleChange(contents: seq<string>, c: Location, src: string, dst: string, rewritten: string, repr: Result<string, ReprError>)
    requires c.line < |contents|
    requires rewritten == ReplaceChange(contents[c.line], c.col, src, dst)
    requires repr == Representation(contents[c.line], rewritten, src, dst)
    ensures LinesIn(contents, [c])
    ensures ExpandChanges(contents, [c], src, dst) == [ExpandedChange(c.line, contents[c.line], rewritten, repr)]
  {
    assert [c][..0] == [];
    assert FirstLines([c]) == [c.line];
    assert ColumnsOn([c], c.line) == [c.col];
    assert [c.col][..0] == [];
    assert Rewrite(contents[c.line], [c.col], src, dst) == rewritten;
    ExpandChangesAt(contents, [c], src, dst);
  }

  /** ".rst" names are spliced without their extension. */
  lemma RenamedSpliced()
    ensures Spliced("object.rst", "renamed.rst") == ("object", "renamed")
  {
    assert "object.rst" == "object" + ".rst" && "renamed.rst" == "renamed" + ".rst";
    assert "object.rst"[6..] == ".rst";
  }

  /** A toctree entry written with its extension keeps it: the rename splices the
      stem and highlights the new stem only. */
  lemma RstWithExtension()
    ensures ExpandChanges(["   object.rst"], [Location(0, 3)], "object.rst", "renamed.rst") ==
      [ExpandedChange(0, "   object.rst", "   renamed.rst", Ok("   " + Highlighted("renamed") + ".rst"))]
  {
    var line := "   object.rst";
    RenamedSpliced();
    assert ReplaceChange(line, 3, "object.rst", "renamed.rst") == "   renamed.rst" by {
      assert Take(line, 3) == "   " && Drop(line, 9) == ".rst";
    }
    SingleChange([line], Location(0, 3), "object.rst", "renamed.rst", "   renamed.rst", Ok("   " + Highlighted("renamed") + ".rst")) by {
      RstRenameShown();
    }
  }

  /** A toctree entry written without its extension stays without it. */
  lemma RstWithoutExtension()
    ensures ExpandChanges(["   object"], [Location(0, 3)], "object.rst", "renamed.rst") ==
      [ExpandedChange(0, "   object", "   renamed", Ok("   " + Highlighted("renamed")))]
  {
    var line := "   object";
    assert ReplaceChange(line, 3, "object.rst", "renamed.rst") == "   renamed" by {
      RenamedSpliced();
      assert Take(line, 3) == "   " && Drop(line, 9) == "";
    }
    assert Representation(line, "   renamed", "object.rst", "renamed.rst") == Ok("   " + Highlighted("renamed")) by {
      StemRenameShown();
    }
    SingleChange([line], Location(0, 3), "object.rst", "renamed.rst", "   renamed", Ok("   " + Highlighted("renamed")));
  }

  /** An image whose name keeps its extension: the common ".png" stays outside the
      highlight. */
  lemma BasicChange()
    ensures ExpandChanges(["object.png"], [Location(0, 0)], "object.png", "renamed.png") ==
      [ExpandedChange(0, "object.png", "renamed.png", Ok(Highlighted("renamed") + ".png"))]
  {
    var line, target := "object.png", "renamed.png";
    assert ReplaceChange(line, 0, line, target) == target by {
      assert Spliced(line, target) == (line, target) by {
        assert line[6..] == ".png";
      }
      assert Take(line, 0) == "" && Drop(line, 10) == "";
    }
    assert Representation(line, target, line, target) == Ok(Highlighted("renamed") + ".png") by {
      PngRenameShown();
    }
    SingleChange([line], Location(0, 0), line, target, target, Ok(Highlighted("renamed") + ".png"));
  }
}
