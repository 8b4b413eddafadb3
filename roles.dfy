/**
 * Inline role references `:ref:`, `:doc:` and `:download:` (rst_rename.py,
 * check_line_for_caption, check_partial_line_for_tag, check_line_for_tag,
 * look_for_tag and the look_for_ref / look_for_doc / look_for_dowmload wrappers).
 *
 * A role is either bare, :ref:`target`, or captioned, :ref:`caption <target>`,
 * and a captioned role may be split across lines: the line that opens the
 * backtick without closing it leaves the scanner "split", and the following
 * lines are then only searched for the `<target>` part.
 */
module Roles {
  import opened Wrappers
  import opened Text
  import opened Locations

  datatype Role = Ref | Doc | Download

  /** The role marker searched for in each line. */
  function Tag(role: Role): string {
    match role
    case Ref => ":ref:"
    case Doc => ":doc:"
    case Download => ":download:"
  }

  /** Every role marker starts with a colon. */
  lemma TagStart(role: Role)
    ensures |Tag(role)| > 0 && Tag(role)[0] == ':'
  {
  }

  /** The text a role names: `:ref:` and `:doc:` apply only to targets with the
      pathlib suffix ".rst" and name them without it; `:download:` names the full path. */
  function RoleTarget(role: Role, src: string): (r: Option<string>)
    ensures role == Download ==> r == Some(src)
    ensures role != Download ==> (r.Some? <==> RstSuffix(src))
    ensures role != Download && r.Some? ==> r.value + ".rst" == src
  {
    if role == Download then Some(src)
    else if RstSuffix(src) then Some(src[..|src| - 4])
    else None
  }

  /** Every occurrence of the role marker has a backtick at or after it, or the
      line has no backtick at all. Without this, the scan of a line such as
      "`x` :ref: y" never advances (see TagStepStalls). */
  predicate TagsClosed(tag: string, line: string) {
    '`' in line ==> forall t :: 0 <= t < |line| && OccursAt(line, tag, t) ==> '`' in line[t..]
  }

  /** `target` starts at column `p`, enclosed either by backticks (bare role) or
      by '<' and '>' (caption form). */
  predicate Delimited(line: string, target: string, p: int) {
    1 <= p && p + |target| < |line| && OccursAt(line, target, p) &&
    ((line[p - 1] == '`' && line[p + |target|] == '`') ||
     (line[p - 1] == '<' && line[p + |target|] == '>'))
  }

  /** One step of the per-line scan: is the reference still split, where the target
      was found (if it was), and where to keep looking. */
  datatype Step = Step(split: bool, found: Option<nat>, next: nat)

  /** The text between a '<' at `lt` and a '>' at `gt` compared with the target
      (shared by check_line_for_caption and check_partial_line_for_tag): the scanner
      insists that the '<' comes first. */
  function Bracketed(line: string, lt: int, gt: int, target: string, next: nat): (r: Result<Step, Malformed>)
    requires -1 <= lt && gt < |line|
    ensures r.Err? <==> !(lt < gt)
    ensures r.Err? ==> r.error == Malformed(line)
    ensures r.Ok? ==> r.value.next == next && !r.value.split
  {
    if !(lt < gt) then
      Err(Malformed(line))
    else
      var found := if line[lt + 1..gt] == target then Some(lt + 1) else None;
      Ok(Step(false, found, next))
  }

  /** What Bracketed finds is the target enclosed by the '<' and the '>'. */
  lemma BracketedFound(line: string, lt: int, gt: int, target: string, next: nat)
    requires -1 <= lt && gt < |line|
    requires lt < |line| && (lt >= 0 ==> line[lt] == '<')
    requires gt >= 0 ==> line[gt] == '>'
    ensures var r := Bracketed(line, lt, gt, target, next);
      r.Ok? && r.value.found.Some? && lt >= 0 ==>
        r.value.found.value == lt + 1 && Delimited(line, target, lt + 1)
  {
  }

  /** check_line_for_caption: while split, only the text between the first '<' and
      the first '>' of the line is compared with the target. */
  function CaptionStep(line: string, target: string): (r: Result<Step, Malformed>)
    ensures r.Err? ==> r.error == Malformed(line)
    ensures r.Ok? && r.value.split ==> r.value == Step(true, None, |line|)
  {
    var open := FindChar(line, '<', 0);
    if open < 0 then
      Ok(Step(true, None, |line|))
    else
      var close := FindChar(line, '>', 0);
      Bracketed(line, open, close, target, close + 2)
  }

  /** What the caption step promises: the reference stays split exactly when the line
      has no '<'; a line whose first '>' does not follow its first '<' is malformed;
      and a target is found right after the line's first '<', enclosed by '<' and '>'. */
  lemma CaptionStepFacts(line: string, target: string)
    ensures var r := CaptionStep(line, target);
      (r.Ok? && r.value.split) <==> '<' !in line
    ensures var r := CaptionStep(line, target);
      r.Err? ==> '<' in line
    ensures var r := CaptionStep(line, target);
      r.Ok? && line != [] ==> 0 < r.value.next
    ensures var r := CaptionStep(line, target);
      r.Ok? && r.value.found.Some? ==>
        var p := r.value.found.value;
        p < r.value.next && Delimited(line, target, p) && '<' !in line[..p - 1]
  {
    FindCharFound(line, '<', 0);
    var open := FindChar(line, '<', 0);
    if open >= 0 {
      var close := FindChar(line, '>', 0);
      BracketedFound(line, open, close, target, close + 2);
      assert line[..open] == Drop(line, 0)[..open];
    }
  }

  /** The caption part of check_partial_line_for_tag: the first '<' after the marker
      at `t` and the first '>' after that '<'. */
  function CaptionTarget(line: string, t: nat, target: string, next: nat): (r: Result<Step, Malformed>)
    ensures r.Err? ==> r.error == Malformed(line)
    ensures r.Ok? ==> r.value.next == next && !r.value.split
  {
    var lt := FindChar(line, '<', t + 1);
    Bracketed(line, lt, FindChar(line, '>', lt + 1), target, next)
  }

  /** When a '<' follows the marker, a target the caption part finds sits after the
      marker, no further than that '<', and is enclosed by '<' and '>'. */
  lemma CaptionTargetFound(line: string, t: nat, target: string, next: nat, k: nat)
    requires t < k < |line| && line[k] == '<'
    ensures var r := CaptionTarget(line, t, target, next);
      r.Ok? && r.value.found.Some? ==> t + 1 < r.value.found.value <= k + 1 && Delimited(line, target, r.value.found.value)
  {
    FindCharBefore(line, '<', t + 1, k);
    var lt := FindChar(line, '<', t + 1);
    var gt := FindChar(line, '>', lt + 1);
    assert t + 1 <= lt <= k && line[lt] == '<';
    assert gt < |line| && (gt >= 0 ==> line[gt] == '>');
    BracketedFound(line, lt, gt, target, next);
    assert CaptionTarget(line, t, target, next) == Bracketed(line, lt, gt, target, next);
  }

  /** check_partial_line_for_tag: from column `pos`, find the role marker, the
      backtick after it and the closing backtick; compare the whole backtick content,
      then the text between '<' and '>', with the target. */
  function TagStep(role: Role, line: string, pos: nat, target: string): (r: Result<Step, Malformed>)
    requires pos < |line|
    ensures Find(line, Tag(role), pos) < 0 ==> r == Ok(Step(false, None, |line|))
    ensures r.Err? ==> r.error == Malformed(line)
    ensures r.Ok? && r.value.split ==> r.value == Step(true, None, |line|) && Find(line, Tag(role), pos) >= 0
  {
    var t := Find(line, Tag(role), pos);
    if t < 0 then
      Ok(Step(false, None, |line|))
    else
      var open := FindChar(line, '`', t);
      var close := FindChar(line, '`', open + 1);
      if close < 0 then
        Ok(Step(true, None, |line|))
      else
        var content := line[open + 1..close];
        if content == target then
          Ok(Step(false, Some(open + 1), close + 1))
        else if '<' !in content then
          Ok(Step(false, None, close + 1))
        else
          CaptionTarget(line, t, target, close + 1)
  }

  /** When the backtick content holds a '<', the first '<' after the marker lies
      inside the backticks, so a caption target ends before the closing backtick. */
  lemma CaptionInside(line: string, t: nat, open: nat, close: nat, target: string)
    requires t < open < close < |line|
    requires '<' in line[open + 1..close]
    ensures var c := CaptionTarget(line, t, target, close + 1);
      c.Ok? && c.value.found.Some? ==> t < c.value.found.value < close + 1 && Delimited(line, target, c.value.found.value)
  {
    var content := line[open + 1..close];
    var j :| 0 <= j < |content| && content[j] == '<';
    assert line[open + 1 + j] == '<';
    CaptionTargetFound(line, t, target, close + 1, open + 1 + j);
  }

  /** When every marker has a backtick after it, a step moves past `pos`, and what it
      finds lies between `pos` and where the next step starts, delimited by backticks
      or by '<' and '>'. */
  lemma TagStepAdvances(role: Role, line: string, pos: nat, target: string)
    requires pos < |line| && TagsClosed(Tag(role), line)
    ensures var r := TagStep(role, line, pos, target);
      r.Ok? ==> (pos < r.value.next &&
        (r.value.found.Some? ==> pos < r.value.found.value < r.value.next && Delimited(line, target, r.value.found.value)))
  {
    var t := Find(line, Tag(role), pos);
    if t >= 0 && FindChar(line, '`', t) < 0 {
      MarkerWithoutBacktick(role, line, t);
      NoBacktickSplits(role, line, pos, target);
    } else {
      MarkedStepAdvances(role, line, pos, target);
    }
  }

  /** When the marker a step finds has a backtick after it, the step moves past
      `pos`, and what it finds lies between `pos` and where the next step starts,
      delimited by backticks or by '<' and '>'. */
  lemma MarkedStepAdvances(role: Role, line: string, pos: nat, target: string)
    requires pos < |line|
    requires Find(line, Tag(role), pos) >= 0 ==> FindChar(line, '`', Find(line, Tag(role), pos)) >= 0
    ensures var r := TagStep(role, line, pos, target);
      r.Ok? ==> (pos < r.value.next &&
        (r.value.found.Some? ==> pos < r.value.found.value < r.value.next && Delimited(line, target, r.value.found.value)))
  {
    var t := Find(line, Tag(role), pos);
    if t >= 0 {
      var open := FindChar(line, '`', t);
      OpenPastMarker(role, line, t);
      var close := FindChar(line, '`', open + 1);
      if close >= 0 {
        TagStepClosed(role, line, pos, target, t, open, close);
        var content := line[open + 1..close];
        if content == target {
          BareFound(line, target, open, close);
        } else if '<' in content {
          CaptionInside(line, t, open, close, target);
        }
      }
    }
  }

  /** Why ScanLine needs TagsClosed: on this line the marker has no backtick after it
      but the line has one before it, and the step from column 1 leads back to
      column 1, so the source's loop over the line never ends. */
  lemma TagStepStalls(line: string)
    requires line == "`x` :ref: y"
    ensures !TagsClosed(Tag(Ref), line)
    ensures TagStep(Ref, line, 1, "x") == Ok(Step(false, None, 1))
  {
    assert OccursAt(line, ":ref:", 4);
    assert '`' !in line[4..];
    forall i | 1 <= i < 4 ensures !OccursAt(line, ":ref:", i) {
      assert line[i..i + 5][0] == line[i] != ':';
    }
    FindIs(line, ":ref:", 1, 4);
    assert FindChar(line, '`', 4) == -1;
    assert FindChar(line, '`', 0) == 0;
  }

  /** The tag step with the guard the loop evidently needs: a marker with no
      backtick after it continues on the next line, as it does on a line without
      any backtick, instead of sending the loop back to the line's first backtick. */
  function TagStepGuarded(role: Role, line: string, pos: nat, target: string): Result<Step, Malformed>
    requires pos < |line|
  {
    var t := Find(line, Tag(role), pos);
    if t >= 0 && FindChar(line, '`', t) < 0 then Ok(Step(true, None, |line|))
    else TagStep(role, line, pos, target)
  }

  /** The guarded step moves past `pos` on every line, so a loop over it ends, and
      what it finds is the target between `pos` and the next step. */
  lemma TagStepGuardedAdvances(role: Role, line: string, pos: nat, target: string)
    requires pos < |line|
    ensures var r := TagStepGuarded(role, line, pos, target);
      r.Ok? ==> (pos < r.value.next &&
        (r.value.found.Some? ==> pos < r.value.found.value < r.value.next && Delimited(line, target, r.value.found.value)))
  {
    var t := Find(line, Tag(role), pos);
    if !(t >= 0 && FindChar(line, '`', t) < 0) {
      MarkedStepAdvances(role, line, pos, target);
    }
  }

  /** A backtick at or after a marker comes after the marker's colon. */
  lemma OpenPastMarker(role: Role, line: string, t: nat)
    requires OccursAt(line, Tag(role), t) && FindChar(line, '`', t) >= 0
    ensures t < FindChar(line, '`', t)
  {
    TagStart(role);
    assert line[t..t + |Tag(role)|][0] == line[t];
  }

  /** On lines the scan accepts, the guard never fires. */
  lemma TagStepGuardedAgrees(role: Role, line: string, pos: nat, target: string)
    requires pos < |line| && TagsClosed(Tag(role), line)
    ensures TagStepGuarded(role, line, pos, target) == TagStep(role, line, pos, target)
  {
    var t := Find(line, Tag(role), pos);
    if t >= 0 && FindChar(line, '`', t) < 0 {
      MarkerWithoutBacktick(role, line, t);
      NoBacktickSplits(role, line, pos, target);
    }
  }

  /** On a line the scan accepts, a marker with no backtick after it means the line
      has no backtick at all. */
  lemma MarkerWithoutBacktick(role: Role, line: string, t: nat)
    requires TagsClosed(Tag(role), line) && OccursAt(line, Tag(role), t) && FindChar(line, '`', t) < 0
    ensures '`' !in line
  {
    if '`' in line {
      assert '`' in line[t..];
      var k :| 0 <= k < |line| - t && line[t..][k] == '`';
      assert line[t + k] == '`';
      FindCharBefore(line, '`', t, t + k);
    }
  }

  /** On a line without backticks, a marker leaves the reference open for the next line. */
  lemma NoBacktickSplits(role: Role, line: string, pos: nat, target: string)
    requires pos < |line| && '`' !in line && Find(line, Tag(role), pos) >= 0
    ensures TagStep(role, line, pos, target) == Ok(Step(true, None, |line|))
  {
    var t := Find(line, Tag(role), pos);
    assert FindChar(line, '`', t) == -1 && FindChar(line, '`', 0) == -1 by {
      FindCharFound(line, '`', t);
      FindCharFound(line, '`', 0);
      assert Drop(line, 0) == line;
    }
  }

  /** The line on which the unguarded step stalls: the guarded step ends its scan,
      leaving the reference open for the next line. */
  lemma TagStepGuardedEnds(line: string)
    requires line == "`x` :ref: y"
    ensures TagStepGuarded(Ref, line, 1, "x") == Ok(Step(true, None, |line|))
  {
    TagStepStalls(line);
  }

  /** A target spanning the whole backtick content is delimited by backticks. */
  lemma BareFound(line: string, target: string, open: nat, close: nat)
    requires open < close < |line| && line[open] == '`' && line[close] == '`'
    requires line[open + 1..close] == target
    ensures Delimited(line, target, open + 1)
  {
  }

  /** The converse of the bare case: when the first marker from `pos` is at `t`, its
      backticks are at `o` and `c`, and their content is the target, the step
      reports the column after the opening backtick. */
  lemma TagStepBareHit(role: Role, line: string, pos: nat, target: string, t: nat, o: nat, c: nat)
    requires pos <= t && OccursAt(line, Tag(role), t)
    requires forall i :: pos <= i < t ==> !OccursAt(line, Tag(role), i)
    requires t <= o < c < |line| && line[o] == '`' && line[c] == '`'
    requires forall i :: t <= i < o ==> line[i] != '`'
    requires forall i :: o < i < c ==> line[i] != '`'
    requires line[o + 1..c] == target
    ensures TagStep(role, line, pos, target) == Ok(Step(false, Some(o + 1), c + 1))
  {
    FindIs(line, Tag(role), pos, t);
    FindCharIs(line, '`', t, o);
    FindCharIs(line, '`', o + 1, c);
    TagStepClosed(role, line, pos, target, t, o, c);
  }

  /** The converse of the caption case: when the backtick content is not the target
      but holds a '<', and the first '<' after the marker and the first '>' after it
      enclose the target, the step reports the column after that '<'. */
  lemma TagStepCaptionHit(role: Role, line: string, pos: nat, target: string, t: nat, o: nat, c: nat,
                          lt: nat, gt: nat)
    requires pos <= t && OccursAt(line, Tag(role), t)
    requires forall i :: pos <= i < t ==> !OccursAt(line, Tag(role), i)
    requires t <= o < c < |line| && line[o] == '`' && line[c] == '`'
    requires forall i :: t <= i < o ==> line[i] != '`'
    requires forall i :: o < i < c ==> line[i] != '`'
    requires line[o + 1..c] != target && '<' in line[o + 1..c]
    requires t < lt < gt < |line| && line[lt] == '<' && line[gt] == '>'
    requires forall i :: t < i < lt ==> line[i] != '<'
    requires forall i :: lt < i < gt ==> line[i] != '>'
    requires line[lt + 1..gt] == target
    ensures TagStep(role, line, pos, target) == Ok(Step(false, Some(lt + 1), c + 1))
  {
    FindIs(line, Tag(role), pos, t);
    FindCharIs(line, '`', t, o);
    FindCharIs(line, '`', o + 1, c);
    TagStepClosed(role, line, pos, target, t, o, c);
    CaptionTargetHit(line, t, target, c + 1, lt, gt);
  }

  /** When the first '<' after the marker and the first '>' after it enclose the
      target, the captioned form reports the column after that '<'. */
  lemma CaptionTargetHit(line: string, t: nat, target: string, next: nat, lt: nat, gt: nat)
    requires t < lt < gt < |line| && line[lt] == '<' && line[gt] == '>'
    requires forall i :: t < i < lt ==> line[i] != '<'
    requires forall i :: lt < i < gt ==> line[i] != '>'
    requires line[lt + 1..gt] == target
    ensures CaptionTarget(line, t, target, next) == Ok(Step(false, Some(lt + 1), next))
  {
    FindCharIs(line, '<', t + 1, lt);
    FindCharIs(line, '>', lt + 1, gt);
  }

  /** The step once the marker at `t` and the backticks at `o` and `c` are found:
      the three outcomes of a closed role. */
  lemma TagStepClosed(role: Role, line: string, pos: nat, target: string, t: nat, o: nat, c: nat)
    requires pos < |line| && Find(line, Tag(role), pos) == t
    requires FindChar(line, '`', t) == o && FindChar(line, '`', o + 1) == c
    ensures TagStep(role, line, pos, target) ==
      if line[o + 1..c] == target then Ok(Step(false, Some(o + 1), c + 1))
      else if '<' !in line[o + 1..c] then Ok(Step(false, None, c + 1))
      else CaptionTarget(line, t, target, c + 1)
  {
  }

  /** The converse for a split reference: when the line's first '<' comes before its
      first '>' and they enclose the target, the caption step reports the column after
      the '<' and closes the reference. */
  lemma CaptionStepHit(line: string, target: string, lt: nat, gt: nat)
    requires lt < gt < |line| && line[lt] == '<' && line[gt] == '>'
    requires forall i :: 0 <= i < lt ==> line[i] != '<'
    requires forall i :: 0 <= i < gt ==> line[i] != '>'
    requires line[lt + 1..gt] == target
    ensures CaptionStep(line, target) == Ok(Step(false, Some(lt + 1), gt + 2))
  {
    FindCharIs(line, '<', 0, lt);
    FindCharIs(line, '>', 0, gt);
  }

  /** Whichever step the split flag selects, it moves past `pos`. */
  lemma NextStepAdvances(role: Role, split: bool, line: string, target: string, pos: nat)
    requires pos < |line| && TagsClosed(Tag(role), line)
    requires split ==> pos == 0
    ensures var r := if split then CaptionStep(line, target) else TagStep(role, line, pos, target);
      r.Ok? ==> (pos < r.value.next &&
        (r.value.found.Some? ==> pos <= r.value.found.value < r.value.next && Delimited(line, target, r.value.found.value)))
  {
    if split {
      CaptionStepFacts(line, target);
    } else {
      TagStepAdvances(role, line, pos, target);
    }
  }

  /** The scan a role leaves on one line: whether it is still split at the end of
      the line, and the columns where the target was found. */
  datatype LineScan = LineScan(split: bool, columns: seq<nat>)

  /** check_line_for_tag from column `pos` on: the steps of its loop, one after the
      other, while `pos` is inside the line. A split scan only ever starts at the
      beginning of a line. */
  function ScanLine(role: Role, split: bool, line: string, target: string, pos: nat): (r: Result<LineScan, Malformed>)
    requires TagsClosed(Tag(role), line)
    requires split ==> pos == 0 || pos >= |line|
    ensures r.Err? ==> r.error == Malformed(line)
    ensures pos >= |line| ==> r == Ok(LineScan(split, []))
    decreases |line| - pos
  {
    if pos >= |line| then
      Ok(LineScan(split, []))
    else
      var step := if split then CaptionStep(line, target) else TagStep(role, line, pos, target);
      if step.Err? then
        Err(step.error)
      else
        var s := step.value;
        NextStepAdvances(role, split, line, target, pos);
        var rest := ScanLine(role, s.split, line, target, s.next);
        if rest.Err? then
          rest
        else
          var here := if s.found.Some? then [s.found.value] else [];
          Ok(LineScan(rest.value.split, here + rest.value.columns))
  }

  /** The columns a line's scan reports from `pos` on lie at or after `pos`. */
  lemma {:induction false} ScanLineAfter(role: Role, split: bool, line: string, target: string, pos: nat,
                                         r: Result<LineScan, Malformed>)
    requires TagsClosed(Tag(role), line)
    requires split ==> pos == 0 || pos >= |line|
    requires r == ScanLine(role, split, line, target, pos)
    ensures r.Ok? ==> forall i :: 0 <= i < |r.value.columns| ==> pos <= r.value.columns[i]
    decreases |line| - pos
  {
    if pos < |line| {
      var step := if split then CaptionStep(line, target) else TagStep(role, line, pos, target);
      if step.Ok? {
        NextStepAdvances(role, split, line, target, pos);
        var rest := ScanLine(role, step.value.split, line, target, step.value.next);
        ScanLineAfter(role, step.value.split, line, target, step.value.next, rest);
      }
    }
  }

  /** Every column a line's scan reports holds the target between backticks or
      between '<' and '>'. */
  lemma {:induction false} ScanLineDelimited(role: Role, split: bool, line: string, target: string, pos: nat,
                                             r: Result<LineScan, Malformed>)
    requires TagsClosed(Tag(role), line)
    requires split ==> pos == 0 || pos >= |line|
    requires r == ScanLine(role, split, line, target, pos)
    ensures r.Ok? ==> forall i :: 0 <= i < |r.value.columns| ==> Delimited(line, target, r.value.columns[i])
    decreases |line| - pos
  {
    if pos < |line| {
      var step := if split then CaptionStep(line, target) else TagStep(role, line, pos, target);
      if step.Ok? {
        NextStepAdvances(role, split, line, target, pos);
        var rest := ScanLine(role, step.value.split, line, target, step.value.next);
        ScanLineDelimited(role, step.value.split, line, target, step.value.next, rest);
      }
    }
  }

  /** A line's scan reports its columns from left to right, each once. */
  lemma {:induction false} ScanLineAscending(role: Role, split: bool, line: string, target: string, pos: nat,
                                             r: Result<LineScan, Malformed>)
    requires TagsClosed(Tag(role), line)
    requires split ==> pos == 0 || pos >= |line|
    requires r == ScanLine(role, split, line, target, pos)
    ensures r.Ok? ==> forall i, j :: 0 <= i < j < |r.value.columns| ==> r.value.columns[i] < r.value.columns[j]
    decreases |line| - pos
  {
    if pos < |line| {
      var step := if split then CaptionStep(line, target) else TagStep(role, line, pos, target);
      if step.Ok? {
        NextStepAdvances(role, split, line, target, pos);
        var rest := ScanLine(role, step.value.split, line, target, step.value.next);
        ScanLineAscending(role, step.value.split, line, target, step.value.next, rest);
        ScanLineAfter(role, step.value.split, line, target, step.value.next, rest);
      }
    }
  }

  /** A line leaves the reference split only when it opens a role it does not close,
      or when it was split already and holds no '<'. */
  lemma {:induction false} ScanLineSplit(role: Role, split: bool, line: string, target: string, pos: nat,
                                         r: Result<LineScan, Malformed>)
    requires TagsClosed(Tag(role), line)
    requires split ==> pos == 0 || pos >= |line|
    requires r == ScanLine(role, split, line, target, pos)
    ensures r.Ok? && r.value.split ==> (split && (pos >= |line| || '<' !in line)) || Find(line, Tag(role), pos) >= 0
    decreases |line| - pos
  {
    if pos < |line| {
      var step := if split then CaptionStep(line, target) else TagStep(role, line, pos, target);
      if step.Ok? {
        NextStepAdvances(role, split, line, target, pos);
        CaptionStepFacts(line, target);
        var rest := ScanLine(role, step.value.split, line, target, step.value.next);
        ScanLineSplit(role, step.value.split, line, target, step.value.next, rest);
        FindFirst(line, Tag(role), pos);
      }
    }
  }

  /** The loop over a line, started at column `pos` with flag `split`, takes a step
      at column `q` with flag `qsplit`: `q` is `pos` itself, or is reached by the
      successful steps that follow it. */
  predicate Visits(role: Role, split: bool, line: string, target: string, pos: nat, q: nat, qsplit: bool)
    requires TagsClosed(Tag(role), line)
    requires split ==> pos == 0 || pos >= |line|
    decreases |line| - pos
  {
    pos < |line| &&
    ((pos == q && split == qsplit) ||
     var step := if split then CaptionStep(line, target) else TagStep(role, line, pos, target);
     step.Ok? &&
     (NextStepAdvances(role, split, line, target, pos);
      Visits(role, step.value.split, line, target, step.value.next, q, qsplit)))
  }

  /** The loop takes the step after every step it takes, while inside the line. */
  lemma {:induction false} VisitsNext(role: Role, split: bool, line: string, target: string, pos: nat,
                                      q: nat, qsplit: bool)
    requires TagsClosed(Tag(role), line)
    requires split ==> pos == 0 || pos >= |line|
    requires q < |line| && Visits(role, split, line, target, pos, q, qsplit)
    requires qsplit ==> q == 0
    ensures var step := if qsplit then CaptionStep(line, target) else TagStep(role, line, q, target);
      step.Ok? && step.value.next < |line| ==> Visits(role, split, line, target, pos, step.value.next, step.value.split)
    decreases |line| - pos
  {
    var step := if split then CaptionStep(line, target) else TagStep(role, line, pos, target);
    if !(pos == q && split == qsplit) {
      NextStepAdvances(role, split, line, target, pos);
      VisitsNext(role, step.value.split, line, target, step.value.next, q, qsplit);
    } else if step.Ok? && step.value.next < |line| {
      NextStepAdvances(role, split, line, target, pos);
      assert Visits(role, step.value.split, line, target, step.value.next, step.value.next, step.value.split);
    }
  }

  /** The converse of ScanLineDelimited: whatever a step the loop takes finds is among
      the columns the line's scan reports. */
  lemma {:induction false} ScanLineComplete(role: Role, split: bool, line: string, target: string, pos: nat,
                                            q: nat, qsplit: bool, r: Result<LineScan, Malformed>)
    requires TagsClosed(Tag(role), line)
    requires split ==> pos == 0 || pos >= |line|
    requires q < |line| && Visits(role, split, line, target, pos, q, qsplit)
    requires r == ScanLine(role, split, line, target, pos)
    ensures var step := if qsplit then CaptionStep(line, target) else TagStep(role, line, q, target);
      r.Ok? && step.Ok? && step.value.found.Some? ==> step.value.found.value in r.value.columns
    decreases |line| - pos
  {
    var step := if split then CaptionStep(line, target) else TagStep(role, line, pos, target);
    if step.Ok? {
      NextStepAdvances(role, split, line, target, pos);
      var rest := ScanLine(role, step.value.split, line, target, step.value.next);
      if !(pos == q && split == qsplit) {
        ScanLineComplete(role, step.value.split, line, target, step.value.next, q, qsplit, rest);
      }
    }
  }

  /** check_line_for_tag: the loop over one line, threading the split flag. */
  method CheckLineForTag(role: Role, split: bool, line: string, target: string)
    returns (r: Result<LineScan, Malformed>)
    requires TagsClosed(Tag(role), line)
    ensures r == ScanLine(role, split, line, target, 0)
  {
    var positions: seq<nat> := [];
    var referenceSplit := split;
    var next: nat := 0;
    PrefixedNone(ScanLine(role, split, line, target, 0));
    while next < |line|
      invariant referenceSplit ==> next == 0 || next >= |line|
      invariant ScanLine(role, split, line, target, 0) ==
        Prefixed(positions, ScanLine(role, referenceSplit, line, target, next))
      decreases |line| - next
    {
      var step := if referenceSplit then CaptionStep(line, target) else TagStep(role, line, next, target);
      if step.Err? {
        return Err(step.error);
      }
      NextStepAdvances(role, referenceSplit, line, target, next);
      var rest := ScanLine(role, step.value.split, line, target, step.value.next);
      var here := if step.value.found.Some? then [step.value.found.value] else [];
      PrefixedAppend(positions, here, rest);
      referenceSplit, next := step.value.split, step.value.next;
      positions := positions + here;
    }
    assert positions + [] == positions;
    r := Ok(LineScan(referenceSplit, positions));
  }

  /** The columns already collected, put in front of the rest of a line's scan. */
  function Prefixed(positions: seq<nat>, r: Result<LineScan, Malformed>): Result<LineScan, Malformed> {
    match r
    case Err(e) => Err(e)
    case Ok(ls) => Ok(LineScan(ls.split, positions + ls.columns))
  }

  /** Putting no columns in front changes nothing. */
  lemma PrefixedNone(r: Result<LineScan, Malformed>)
    ensures Prefixed([], r) == r
  {
    if r.Ok? {
      assert [] + r.value.columns == r.value.columns;
    }
  }

  /** Columns put in front in two goes are put in front at once. */
  lemma PrefixedAppend(positions: seq<nat>, here: seq<nat>, rest: Result<LineScan, Malformed>)
    ensures Prefixed(positions, Prefixed(here, rest)) == Prefixed(positions + here, rest)
  {
    if rest.Ok? {
      assert positions + (here + rest.value.columns) == (positions + here) + rest.value.columns;
    }
  }

  /** Every line of a document satisfies TagsClosed for the role's marker. */
  predicate LinesClosed(role: Role, lines: seq<string>) {
    forall n :: 0 <= n < |lines| ==> TagsClosed(Tag(role), lines[n])
  }

  /** The scan of a whole document: the split flag left after the last line and
      the locations found so far. */
  datatype DocScan = DocScan(split: bool, locs: seq<Location>)

  /** look_for_tag's loop over lines, with the split flag threaded from one line to
      the next; an error on any line stops the scan. */
  function ScanLines(role: Role, lines: seq<string>, target: string): (r: Result<DocScan, Malformed>)
    requires LinesClosed(role, lines)
    ensures r.Err? ==> exists n :: 0 <= n < |lines| && r.error == Malformed(lines[n])
    decreases |lines|
  {
    if lines == [] then
      Ok(DocScan(false, []))
    else
      var n := |lines| - 1;
      var prev := ScanLines(role, lines[..n], target);
      if prev.Err? then
        prev
      else
        var ls := ScanLine(role, prev.value.split, lines[n], target, 0);
        if ls.Err? then
          Err(ls.error)
        else
          Ok(DocScan(ls.value.split, prev.value.locs + OnLine(n, ls.value.columns)))
  }

  /** The locations a document's scan reports come in reading order, and each holds
      the target between backticks or between '<' and '>'. */
  lemma {:induction false} ScanLinesSound(role: Role, lines: seq<string>, target: string,
                                          r: Result<DocScan, Malformed>)
    requires LinesClosed(role, lines)
    requires r == ScanLines(role, lines, target)
    ensures r.Ok? ==> Ascending(r.value.locs)
    ensures r.Ok? ==> forall loc :: loc in r.value.locs ==>
      loc.line < |lines| && Delimited(lines[loc.line], target, loc.col)
    decreases |lines|
  {
    if lines != [] {
      var n := |lines| - 1;
      var prev := ScanLines(role, lines[..n], target);
      ScanLinesSound(role, lines[..n], target, prev);
      if prev.Ok? {
        var ls := ScanLine(role, prev.value.split, lines[n], target, 0);
        ScanLineDelimited(role, prev.value.split, lines[n], target, 0, ls);
        ScanLineAscending(role, prev.value.split, lines[n], target, 0, ls);
        if ls.Ok? {
          var here := OnLine(n, ls.value.columns);
          forall loc | loc in here ensures loc.line == n && Delimited(lines[n], target, loc.col) {
            var i :| 0 <= i < |here| && here[i] == loc;
          }
          AppendAscending(prev.value.locs, n, ls.value.columns);
        }
      }
    }
  }

  /** Appending the ascending columns of line `n` to locations on earlier lines keeps
      them in reading order. */
  lemma AppendAscending(locs: seq<Location>, n: nat, columns: seq<nat>)
    requires Ascending(locs)
    requires forall loc :: loc in locs ==> loc.line < n
    requires forall i, j :: 0 <= i < j < |columns| ==> columns[i] < columns[j]
    ensures Ascending(locs + OnLine(n, columns))
  {
    var all := locs + OnLine(n, columns);
    forall i, j | 0 <= i < j < |all| ensures Before(all[i], all[j]) {
      if j < |locs| {
      } else if i < |locs| {
        assert all[i] in locs;
      } else {
        assert all[i] == Location(n, columns[i - |locs|]);
      }
    }
  }

  /** An error raised on some line is the error of the whole document. */
  lemma {:induction false} ScanLinesErrorStops(role: Role, lines: seq<string>, target: string, k: nat)
    requires LinesClosed(role, lines)
    requires k <= |lines|
    requires ScanLines(role, lines[..k], target).Err?
    ensures ScanLines(role, lines, target) == ScanLines(role, lines[..k], target)
    decreases |lines| - k
  {
    if k < |lines| {
      assert lines[..k + 1][..k] == lines[..k];
      ScanLinesErrorStops(role, lines, target, k + 1);
    } else {
      assert lines[..k] == lines;
    }
  }

  /** A document's scan fails or extends the scan of each of its prefixes. */
  lemma {:induction false} ScanLinesGrows(role: Role, lines: seq<string>, target: string, k: nat)
    requires LinesClosed(role, lines)
    requires k <= |lines|
    ensures ScanLines(role, lines, target).Ok? ==>
      ScanLines(role, lines[..k], target).Ok? &&
      ScanLines(role, lines[..k], target).value.locs <= ScanLines(role, lines, target).value.locs
    decreases |lines| - k
  {
    if k < |lines| {
      assert lines[..k + 1][..k] == lines[..k];
      ScanLinesGrows(role, lines, target, k + 1);
    } else {
      assert lines[..k] == lines;
    }
  }

  /** The converse of ScanLinesSound: when the scan reaches line `n` with the flag
      `prev.split` and the loop over that line takes a step that finds column `c`,
      the document's locations include (n, c). */
  lemma ScanLinesComplete(role: Role, lines: seq<string>, target: string, n: nat, prev: DocScan,
                          q: nat, qsplit: bool, c: nat)
    requires LinesClosed(role, lines) && n < |lines|
    requires ScanLines(role, lines[..n], target) == Ok(prev)
    requires q < |lines[n]| && Visits(role, prev.split, lines[n], target, 0, q, qsplit)
    requires var step := if qsplit then CaptionStep(lines[n], target) else TagStep(role, lines[n], q, target);
      step.Ok? && step.value.found == Some(c)
    ensures ScanLines(role, lines, target).Ok? ==> Location(n, c) in ScanLines(role, lines, target).value.locs
  {
    var ls := ScanLine(role, prev.split, lines[n], target, 0);
    ScanLineComplete(role, prev.split, lines[n], target, 0, q, qsplit, ls);
    LineHitReported(role, lines, target, n, prev, c);
  }

  /** A column the scan of line `n` reports, under the flag the earlier lines leave,
      is among the document's locations. */
  lemma LineHitReported(role: Role, lines: seq<string>, target: string, n: nat, prev: DocScan, c: nat)
    requires LinesClosed(role, lines) && n < |lines|
    requires ScanLines(role, lines[..n], target) == Ok(prev)
    requires ScanLine(role, prev.split, lines[n], target, 0).Ok? ==> c in ScanLine(role, prev.split, lines[n], target, 0).value.columns
    ensures ScanLines(role, lines, target).Ok? ==> Location(n, c) in ScanLines(role, lines, target).value.locs
  {
    var all := ScanLines(role, lines, target);
    if all.Ok? {
      ScanLinesGrows(role, lines, target, n + 1);
      var upto := lines[..n + 1];
      PrefixOfPrefix(role, lines, n + 1, n);
      LastLineHit(role, upto, target, prev, c);
      InPrefix(ScanLines(role, upto, target).value.locs, all.value.locs, Location(n, c));
    }
  }

  /** The first `n` of the first `m` lines are the first `n` lines, and the
      prefix's lines all close their roles. */
  lemma PrefixOfPrefix(role: Role, lines: seq<string>, m: nat, n: nat)
    requires LinesClosed(role, lines) && n < m <= |lines|
    ensures lines[..m][..n] == lines[..n] && lines[..m][n] == lines[n]
    ensures LinesClosed(role, lines[..m])
  {
  }

  /** A column the last line's scan reports is among the document's locations. */
  lemma LastLineHit(role: Role, lines: seq<string>, target: string, prev: DocScan, c: nat)
    requires LinesClosed(role, lines) && lines != []
    requires ScanLines(role, lines[..|lines| - 1], target) == Ok(prev)
    requires ScanLine(role, prev.split, lines[|lines| - 1], target, 0).Ok? ==>
      c in ScanLine(role, prev.split, lines[|lines| - 1], target, 0).value.columns
    ensures ScanLines(role, lines, target).Ok? ==> Location(|lines| - 1, c) in ScanLines(role, lines, target).value.locs
  {
    var ls := ScanLine(role, prev.split, lines[|lines| - 1], target, 0);
    if ls.Ok? {
      OnLineHas(prev.locs, |lines| - 1, ls.value.columns, c);
    }
  }

  /** What a prefix of a sequence holds, the sequence holds. */
  lemma InPrefix<T>(a: seq<T>, b: seq<T>, x: T)
    requires a <= b && x in a
    ensures x in b
  {
    var i :| 0 <= i < |a| && a[i] == x;
    assert b[i] == x;
  }

  /** A column among a line's columns gives its location after earlier ones. */
  lemma OnLineHas(locs: seq<Location>, n: nat, columns: seq<nat>, c: nat)
    requires c in columns
    ensures Location(n, c) in locs + OnLine(n, columns)
  {
    var i :| 0 <= i < |columns| && columns[i] == c;
    assert (locs + OnLine(n, columns))[|locs| + i] == Location(n, c);
  }

  /** look_for_tag: the locations a role gives in a document. */
  function RoleHits(role: Role, lines: seq<string>, src: string): (r: Result<seq<Location>, Malformed>)
    requires LinesClosed(role, lines)
    ensures role != Download && !RstSuffix(src) ==> r == Ok([])
    ensures r.Ok? ==> Ascending(r.value)
    ensures r.Ok? && RoleTarget(role, src).Some? ==> forall loc :: loc in r.value ==>
      NameAt(lines, loc, RoleTarget(role, src).value)
  {
    match RoleTarget(role, src)
    case None => Ok([])
    case Some(target) =>
      var r := ScanLines(role, lines, target);
      ScanLinesSound(role, lines, target, r);
      if r.Err? then Err(r.error) else Ok(r.value.locs)
  }

  /** The converse of RoleHits' guarantee: when the scan reaches line `n` with the
      flag `prev.split` and the loop over that line takes a step that finds column
      `c`, the role's locations include (n, c). */
  lemma RoleHitsComplete(role: Role, lines: seq<string>, src: string, target: string, n: nat, prev: DocScan,
                         q: nat, qsplit: bool, c: nat)
    requires LinesClosed(role, lines) && n < |lines| && RoleTarget(role, src) == Some(target)
    requires ScanLines(role, lines[..n], target) == Ok(prev)
    requires q < |lines[n]| && Visits(role, prev.split, lines[n], target, 0, q, qsplit)
    requires var step := if qsplit then CaptionStep(lines[n], target) else TagStep(role, lines[n], q, target);
      step.Ok? && step.value.found == Some(c)
    ensures RoleHits(role, lines, src).Ok? ==> Location(n, c) in RoleHits(role, lines, src).value
  {
    ScanLinesComplete(role, lines, target, n, prev, q, qsplit, c);
  }

  /** `line` holds its first role at `t`, written `:role:`target`` with the
      backticks at `o` and `c`. */
  predicate FirstBareRole(role: Role, line: string, target: string, t: nat, o: nat, c: nat)
  {
    OccursAt(line, Tag(role), t) && (forall i :: 0 <= i < t ==> !OccursAt(line, Tag(role), i)) &&
    t <= o < c < |line| && line[o] == '`' && line[c] == '`' &&
    (forall i :: t <= i < o ==> line[i] != '`') &&
    (forall i :: o < i < c ==> line[i] != '`') &&
    line[o + 1..c] == target
  }

  /** The first role on a line that no caption left open, written `:role:`target``,
      is reported at the column after its opening backtick. */
  lemma FirstTagReported(role: Role, lines: seq<string>, src: string, target: string, n: nat, prev: DocScan,
                         t: nat, o: nat, c: nat)
    requires LinesClosed(role, lines) && n < |lines| && RoleTarget(role, src) == Some(target)
    requires ScanLines(role, lines[..n], target) == Ok(prev) && !prev.split
    requires FirstBareRole(role, lines[n], target, t, o, c)
    ensures RoleHits(role, lines, src).Ok? ==> Location(n, o + 1) in RoleHits(role, lines, src).value
  {
    FirstTagVisited(role, lines[n], target, t, o, c);
    RoleHitsComplete(role, lines, src, target, n, prev, 0, false, o + 1);
  }

  /** The loop over a line that starts outside a caption takes, at the line's start,
      the step that finds the first role's backtick content. */
  lemma FirstTagVisited(role: Role, line: string, target: string, t: nat, o: nat, c: nat)
    requires TagsClosed(Tag(role), line) && FirstBareRole(role, line, target, t, o, c)
    ensures o + 1 < |line| && Visits(role, false, line, target, 0, 0, false)
    ensures TagStep(role, line, 0, target).Ok? && TagStep(role, line, 0, target).value.found == Some(o + 1)
  {
    TagStepBareHit(role, line, 0, target, t, o, c);
    VisitsStart(role, false, line, target);
  }

  /** The loop over a line visits its start. */
  lemma VisitsStart(role: Role, split: bool, line: string, target: string)
    requires TagsClosed(Tag(role), line) && line != []
    ensures Visits(role, split, line, target, 0, 0, split)
  {
  }

  /** look_for_tag (look_for_ref, look_for_doc and look_for_dowmload pick the role). */
  method LookForTag(role: Role, lines: seq<string>, src: string) returns (r: Result<seq<Location>, Malformed>)
    requires LinesClosed(role, lines)
    ensures r == RoleHits(role, lines, src)
  {
    var target := RoleTarget(role, src);
    if target.None? {
      return Ok([]);
    }
    var changes: seq<Location> := [];
    var referenceSplit := false;
    for nr := 0 to |lines|
      invariant ScanLines(role, lines[..nr], target.value) == Ok(DocScan(referenceSplit, changes))
    {
      assert lines[..nr + 1][..nr] == lines[..nr];
      var lineScan := CheckLineForTag(role, referenceSplit, lines[nr], target.value);
      if lineScan.Err? {
        ScanLinesErrorStops(role, lines, target.value, nr + 1);
        return Err(lineScan.error);
      }
      referenceSplit := lineScan.value.split;
      changes := changes + OnLine(nr, lineScan.value.columns);
    }
    assert lines[..|lines|] == lines;
    r := Ok(changes);
  }

  /** On ":ref:`intro`" the step from column 0 finds "intro" at column 6 and
      continues after the closing backtick. */
  lemma BareRoleStep(line: string)
    requires line == ":ref:`intro`"
    ensures TagStep(Ref, line, 0, "intro") == Ok(Step(false, Some(6), 12))
  {
    assert OccursAt(line, ":ref:", 0);
    FindIs(line, ":ref:", 0, 0);
    assert FindChar(line, '`', 0) == 5 by {
      FindCharIs(line, '`', 0, 5);
    }
    assert FindChar(line, '`', 6) == 11 by {
      FindCharIs(line, '`', 6, 11);
    }
    assert line[6..11] == "intro";
  }

  /** The line ":ref:`intro`" names "intro" at column 6. */
  lemma BareRoleLine(line: string)
    requires line == ":ref:`intro`"
    ensures TagsClosed(Tag(Ref), line)
    ensures ScanLine(Ref, false, line, "intro", 0) == Ok(LineScan(false, [6]))
  {
    forall t | 0 <= t < |line| && OccursAt(line, Tag(Ref), t) ensures '`' in line[t..] {
      assert line[t..][11 - t] == '`';
    }
    BareRoleStep(line);
    assert ScanLine(Ref, false, line, "intro", 12) == Ok(LineScan(false, []));
    assert [6] + [] == [6];
  }

  /** ":ref:`see" opens a role it does not close: the reference is left split. */
  lemma SplitRoleOpens(line: string)
    requires line == ":ref:`see"
    ensures TagsClosed(Tag(Ref), line)
    ensures ScanLine(Ref, false, line, "intro", 0) == Ok(LineScan(true, []))
  {
    forall t | 0 <= t < |line| && OccursAt(line, Tag(Ref), t) ensures '`' in line[t..] {
      assert line[t..][5 - t] == '`';
    }
    assert OccursAt(line, ":ref:", 0);
    FindIs(line, ":ref:", 0, 0);
    assert FindChar(line, '`', 0) == 5 by {
      FindCharIs(line, '`', 0, 5);
    }
    assert FindChar(line, '`', 6) == -1;
    assert TagStep(Ref, line, 0, "intro") == Ok(Step(true, None, 9));
    assert ScanLine(Ref, true, line, "intro", 9) == Ok(LineScan(true, []));
    var none: seq<nat> := [];
    assert none + none == none;
  }

  /** While split, "this <intro>`" names "intro" at column 6. */
  lemma SplitRoleCloses(line: string)
    requires line == "this <intro>`"
    ensures TagsClosed(Tag(Ref), line)
    ensures ScanLine(Ref, true, line, "intro", 0) == Ok(LineScan(false, [6]))
  {
    assert ':' !in line;
    forall t | 0 <= t < |line| ensures !OccursAt(line, ":ref:", t) {
      if t + 5 <= |line| {
        assert line[t..t + 5][0] in line;
      }
    }
    assert FindChar(line, '<', 0) == 5 by {
      FindCharIs(line, '<', 0, 5);
    }
    assert FindChar(line, '>', 0) == 11 by {
      FindCharIs(line, '>', 0, 11);
    }
    assert line[6..11] == "intro";
    assert CaptionStep(line, "intro") == Ok(Step(false, Some(6), 13));
    assert ScanLine(Ref, false, line, "intro", 13) == Ok(LineScan(false, []));
    assert [6] + [] == [6];
  }

  /** One more line of a document: the scan of the longer document extends the scan
      of the shorter one by that line's columns, under the flag it left. */
  lemma ScanLinesStep(role: Role, lines: seq<string>, line: string, target: string,
                      prev: DocScan, here: LineScan)
    requires LinesClosed(role, lines) && TagsClosed(Tag(role), line)
    ensures LinesClosed(role, lines + [line])
    ensures ScanLines(role, lines, target) == Ok(prev) &&
            ScanLine(role, prev.split, line, target, 0) == Ok(here) ==>
      ScanLines(role, lines + [line], target) == Ok(DocScan(here.split, prev.locs + OnLine(|lines|, here.columns)))
  {
    LinesClosedStep(role, lines, line);
    var all := lines + [line];
    var n := |lines|;
    assert all[..n] == lines && all[n] == line;
  }

  /** A document whose lines all close their roles still does after one more such
      line. */
  lemma LinesClosedStep(role: Role, lines: seq<string>, line: string)
    requires LinesClosed(role, lines) && TagsClosed(Tag(role), line)
    ensures LinesClosed(role, lines + [line])
  {
    var all := lines + [line];
    forall n | 0 <= n < |all| ensures TagsClosed(Tag(role), all[n]) {
      if n < |lines| {
        assert all[n] == lines[n];
      }
    }
  }

  /** A bare role on a one-line document. */
  lemma BareRoleFound(line: string)
    requires line == ":ref:`intro`"
    ensures LinesClosed(Ref, [line])
    ensures ScanLines(Ref, [line], "intro") == Ok(DocScan(false, [Location(0, 6)]))
  {
    var empty: seq<string> := [];
    BareRoleLine(line);
    assert empty + [line] == [line];
    ScanLinesStep(Ref, empty, line, "intro", DocScan(false, []), LineScan(false, [6]));
    var none: seq<Location> := [];
    assert none + OnLine(0, [6]) == [Location(0, 6)];
  }

  /** A captioned role split over two lines: the first line opens the backtick and
      leaves the reference split, the second holds `<target>`. */
  lemma SplitRoleFound(first: string, second: string)
    requires first == ":ref:`see" && second == "this <intro>`"
    ensures LinesClosed(Ref, [first, second])
    ensures ScanLines(Ref, [first, second], "intro") == Ok(DocScan(false, [Location(1, 6)]))
  {
    var empty: seq<string> := [];
    SplitRoleOpens(first);
    SplitRoleCloses(second);
    assert empty + [first] == [first];
    ScanLinesStep(Ref, empty, first, "intro", DocScan(false, []), LineScan(true, []));
    var none: seq<Location> := [];
    assert none + OnLine(0, []) == [];
    assert [first] + [second] == [first, second];
    ScanLinesStep(Ref, [first], second, "intro", DocScan(true, []), LineScan(false, [6]));
    assert none + OnLine(1, [6]) == [Location(1, 6)];
  }

  /** The target a role names for a source file "intro.rst" is "intro". */
  lemma RoleTargetOfRst()
    ensures RoleTarget(Ref, "intro.rst") == Some("intro")
  {
    assert RstSuffix("intro.rst");
    assert "intro.rst"[..5] == "intro";
  }
}
