# rst_rename reference finder and line rewriter, in Dafny

This project models the core of `rst_rename.py`. The tool renames a
reStructuredText document, or a file that documents refer to, and rewrites
every reference to it. The project also models the path helper
`deepest_common_path` from `rstutils.py`. It covers three parts.

- **The reference finder** (`check_rst_references`) takes a document as a list
  of lines and the path being renamed. It returns the `(line, column)` pairs
  where a reference to that path starts. It runs seven finders in a fixed
  order:
  - the bare-path directives `.. image::`, `.. figure::` and
    `.. literalinclude::`, each with an optional leading `/`;
  - entries of `.. toctree::` directives, tracked by an indentation state
    machine;
  - the inline roles `:ref:`, `:doc:` and `:download:`, in the bare form
    `` :ref:`target` `` or the captioned form `` :ref:`caption <target>` ``.
    A captioned role may be split across lines, and a "split" flag carries over
    from one line to the next.

  A malformed caption stops the search with an error.
- **The projector** (`expand_changes_on_contents`) turns the locations into one
  record per changed line: the line number, the original text, the rewritten
  text, and a rendering with the new name highlighted. It uses `replace_change`,
  `clean_commonalities` and `create_representation`.
- **The path helper** (`deepest_common_path`) finds the deepest directory that
  holds every path of a list.

Each module follows one part of the program:

| file | module | models |
|---|---|---|
| wrappers.dfy | Wrappers | `Option` and `Result` |
| text.dfy | Text | Python's `str.find`, `strip`, whitespace, clamped slices and `endswith` |
| locations.dfy | Locations | locations, the malformed-line error, reading order |
| roles.dfy | Roles | `check_line_for_caption`, `check_partial_line_for_tag`, `check_line_for_tag`, `look_for_tag` and the role wrappers |
| directives.dfy | Directives | `check_for_image_tag` and the directive wrappers |
| toctrees.dfy | Toctrees | `look_for_toctrees` |
| scanner.dfy | Scanner | `check_rst_references` |
| highlight.dfy | Highlight | `clean_commonalities` and `create_representation` |
| projector.dfy | Projector | `expand_changes_on_contents` and `replace_change` |
| paths.dfy | Paths | `deepest_common_path` |

Each loop of the program is a method, proved equal to a specification function:

- `CheckLineForTag`, `LookForTag`, `CheckForImageTag` and `LookForToctrees`;
- `CheckRstReferences`, `CleanCommonalities` and `CreateRepresentation`;
- `GroupChanges`, `ExpandChangesOnContents` and `DeepestCommonPathOf`.

The properties the program promises are then proved about those functions.

Several changes on one line are each spliced at the column recorded for the
original line. Later changes are not shifted by the length difference of the
earlier ones (rst_rename.py:377-379). `Projector.SecondChangeUnshifted` shows
the effect.

The code and its tests disagree in two places. In both, the model states what
the code does.

- **Highlight of a changed file name.** The tests at test/test_expand_changes.py:26
  and :44 expect the highlight to cover `renamed.png`. The code first removes the
  suffix the two names share, `.png`, so the highlight covers only `renamed`.
  `Highlight.PngRenameShown` and `Projector.BasicChange` state what the code
  renders.
- **Test signatures.** The tests in test/test_check_rst_reference.py call
  `check_rst_references` with three arguments and expect a dictionary. The code
  takes two arguments and returns a list of locations. The tests are used only
  for the lines they expect to be found. `Directives.AbsoluteImageFound` and
  `Directives.AnotherObjectIgnored` reproduce two of them.

## Model

| member | source | states |
|---|---|---|
| Text.Find | rst_rename.py:183 | `str.find`: -1, or an index at or after the start where the needle occurs |
| Text.FindFirst | rst_rename.py:183 | no occurrence lies between the start and the index `find` returns; none at all when it returns -1 |
| Text.FindIs | rst_rename.py:311 | an occurrence with none before it from the start is the index `find` returns |
| Text.FindSkip | rst_rename.py:314 | skipping a stretch without occurrences does not change what `find` returns |
| Text.FindChar | rst_rename.py:187-188 | one-character `find`: -1 or an index at or after the start holding that character |
| Text.FindCharFirst | rst_rename.py:187-188 | the character does not occur before the index returned, nor after the start when -1 is returned |
| Text.FindCharBefore | rst_rename.py:158 | when the character sits at `k`, `find` returns an index no later than `k` |
| Text.FindCharIs | rst_rename.py:158 | the first occurrence from the start is the index `find` returns |
| Text.FindCharFound | rst_rename.py:197 | the character is found exactly when it is in the rest of the line (`'<' in tag_content`), and not before the index returned |
| Text.FindCharAgrees | rst_rename.py:158 | a one-character `find` is `find` with a one-character needle |
| Text.TrimLeft | rst_rename.py:312 | `lstrip` never lengthens its input |
| Text.TrimLeftFacts | rst_rename.py:312 | `lstrip` removes a whitespace prefix only, and what is left starts with a non-space |
| Text.TrimRight | rst_rename.py:321 | `rstrip` never lengthens its input |
| Text.TrimRightFacts | rst_rename.py:321 | `rstrip` removes a whitespace suffix only, and what is left ends with a non-space |
| Text.FirstNonSpace | rst_rename.py:441 | the regular expression `\S` matches at the first non-space, with only whitespace before it |
| Text.Strip | rst_rename.py:445 | `strip` never lengthens its input |
| Text.IsSpace | rst_rename.py:439 | the characters `str.isspace` accepts, as code points |
| Text.StripCovers | rst_rename.py:445 | every non-space character of a text survives `strip` |
| Text.StripEmptyIffBlank | rst_rename.py:439 | `not line.strip()` holds exactly when the line is all whitespace |
| Text.StripShape | rst_rename.py:445 | `strip` returns a slice with only whitespace outside it and non-space characters at both ends |
| Text.SpacesInSub | rst_rename.py:317 | whitespace in part of a slice is whitespace in the same part of the text |
| Text.StripIsSlash | rst_rename.py:319 | `strip` gives "/" exactly when the text is one '/' with whitespace around it |
| Text.StripSliceEmpty | rst_rename.py:317-318 | `line[a:b].strip()` is empty exactly when that part of the line is whitespace |
| Text.StripSliceSlash | rst_rename.py:319 | `line[a:b].strip() == '/'` exactly when that part is one '/' among whitespace |
| Text.SpaceOrSlashAt | rst_rename.py:317-319 | inside such a part every character is whitespace or '/' |
| Text.StripFromNonSpace | rst_rename.py:445 | stripping a text that starts with a non-space only trims its end |
| Text.Take | rst_rename.py:312 | `s[:n]` is a prefix of `s`, of length `n` when `s` is that long |
| Text.Drop | rst_rename.py:321 | `s[n:]` is the suffix from `n`, or empty past the end |
| Text.Slice | rst_rename.py:193 | `s[a:b]` is the slice, or empty when `b <= a` |
| Text.EndsWith | rst_rename.py:244 | a text ends with a suffix exactly when its last characters are that suffix |
| Text.RstSuffix | rst_rename.py:244 | pathlib's `suffix == '.rst'`: the last component ends in ".rst" after at least one character |
| Text.DropLast | rst_rename.py:246 | `s[:-n]` drops the last `n` characters, or everything when `s` is shorter |
| Locations.OnLine | rst_rename.py:253 | `[(nr, pos) for pos in positions]`: one location per position, on line `nr`, in order |
| Roles.TagStart | rst_rename.py:398-408 | the role markers `:ref:`, `:doc:` and `:download:` start with ':' |
| Roles.RoleTarget | rst_rename.py:243-248 | `:download:` looks for the full path; `:ref:`/`:doc:` look for the path without ".rst", and only when it has the ".rst" suffix |
| Roles.Bracketed | rst_rename.py:200-205 | a caption is malformed (an error naming the line) exactly when its '<' does not come before its '>' |
| Roles.BracketedFound | rst_rename.py:203-205 | a caption that matches is reported just after the '<', between '<' and '>' |
| Roles.CaptionStep | rst_rename.py:158-173 | while split: an error names the line, and a line that leaves the role split is consumed whole with no hit |
| Roles.CaptionStepFacts | rst_rename.py:158-173 | stays split exactly when the line has no '<'; errors only when it has one; a hit is delimited by '<' and '>' and is the first '<'; scanning moves forward |
| Roles.CaptionTarget | rst_rename.py:200-207 | the captioned form keeps the next position after the closing backtick and clears the split flag |
| Roles.CaptionTargetFound | rst_rename.py:200-205 | a captioned hit lies after the marker, no later than the first '<', and is delimited by '<' and '>' |
| Roles.TagStep | rst_rename.py:183-207 | no marker after the position consumes the line with no hit; a split result needs a marker and consumes the line; errors name the line |
| Roles.OpenPastMarker | rst_rename.py:187 | a backtick found from a marker comes after the marker's colon |
| Roles.CaptionInside | rst_rename.py:197-205 | a '<' inside the backticks puts a captioned hit strictly inside the role |
| Roles.TagStepAdvances | rst_rename.py:183-207 | under TagsClosed each step moves forward, and a hit lies between the position and the next one, between backticks or between '<' and '>' |
| Roles.MarkedStepAdvances | rst_rename.py:183-207 | the same holds on any line when the marker found has a backtick after it |
| Roles.MarkerWithoutBacktick | rst_rename.py:187 | under TagsClosed, a marker with no backtick after it means the line has none at all |
| Roles.NoBacktickSplits | rst_rename.py:187-190 | on a line without backticks, a marker leaves the role split and consumes the line |
| Roles.TagStepStalls | rst_rename.py:187-192 | on "`x` :ref: y" the step does not advance: the line violates TagsClosed and the loop would not end |
| Roles.TagStepGuarded | rst_rename.py:183-207 | the step with a guard: a marker with no backtick after it leaves the role split for the next line |
| Roles.TagStepGuardedAdvances | rst_rename.py:183-207 | the guarded step moves forward on every line, and a hit lies between the position and the next one, delimited |
| Roles.TagStepGuardedAgrees | rst_rename.py:183-207 | on lines satisfying TagsClosed the guarded step is the step as written |
| Roles.TagStepGuardedEnds | rst_rename.py:187-192 | on "`x` :ref: y" from column 1 the guarded step consumes the line and leaves the role split |
| Roles.TagStepBareHit | rst_rename.py:183-195 | conversely, when the first marker from the position has the target between its backticks, the step reports the column after the opening backtick |
| Roles.TagStepCaptionHit | rst_rename.py:183-205 | conversely, when the backtick content differs from the target but holds a '<', and the first '<' after the marker and the next '>' enclose the target, the step reports the column after that '<' |
| Roles.CaptionTargetHit | rst_rename.py:200-205 | conversely, when the first '<' after the marker and the first '>' after it enclose the target, the captioned form reports the column after the '<' |
| Roles.CaptionStepHit | rst_rename.py:158-172 | conversely, while split, a line whose first '<' and first '>' enclose the target reports the column after the '<' and resumes two past the '>' |
| Roles.VisitsNext | rst_rename.py:222-228 | a position the loop visits whose step succeeds leads the loop to that step's next position |
| Roles.VisitsStart | rst_rename.py:221-222 | the loop visits the start of a non-empty line |
| Roles.ScanLineComplete | rst_rename.py:222-228 | every hit of a step the loop visits is among the columns the line's scan returns |
| Roles.BareFound | rst_rename.py:193-195 | backtick content equal to the target is a delimited hit just after the opening backtick |
| Roles.NextStepAdvances | rst_rename.py:222-228 | whichever branch the loop takes, it moves forward and a hit lies before the next position |
| Roles.ScanLine | rst_rename.py:220-229 | one line's scan: an error names the line; at the end of the line nothing more is found and the flag is unchanged |
| Roles.ScanLineAfter | rst_rename.py:222-228 | every column reported lies at or after the starting position |
| Roles.ScanLineDelimited | rst_rename.py:222-228 | every column reported holds the target between backticks or between '<' and '>' |
| Roles.ScanLineAscending | rst_rename.py:222-228 | several roles on one line are reported in strictly ascending column |
| Roles.ScanLineSplit | rst_rename.py:222-229 | a line leaves the scan split only if it entered split without a '<' or holds a role marker |
| Roles.CheckLineForTag | rst_rename.py:210-229 | the while loop over `next_pos` computes the line's scan |
| Roles.ScanLines | rst_rename.py:249-254 | a scan of the document fails only with the error of one of its lines |
| Roles.ScanLinesSound | rst_rename.py:249-254 | the document's locations are in reading order and each holds the target delimited |
| Roles.ScanLinesGrows | rst_rename.py:251-253 | a successful scan of a document extends the scan of each of its prefixes |
| Roles.LastLineHit | rst_rename.py:252-253 | a column the last line's scan reports is among the document's locations |
| Roles.LineHitReported | rst_rename.py:251-253 | a column the scan of line `n` reports, under the flag the earlier lines leave, is among the document's locations |
| Roles.OnLineHas | rst_rename.py:253 | a column among a line's positions gives its location |
| Roles.ScanLinesComplete | rst_rename.py:249-254 | conversely to ScanLinesSound, every hit of a step the loop visits on any line is among the document's locations |
| Roles.AppendAscending | rst_rename.py:253 | appending a later line's ascending columns keeps the locations in reading order |
| Roles.ScanLinesErrorStops | rst_rename.py:250-253 | once a line fails, the whole scan fails with that error |
| Roles.RoleHits | rst_rename.py:232-254 | `:ref:`/`:doc:` find nothing for a non-rst path; locations are in reading order and hold the looked-for name |
| Roles.LookForTag | rst_rename.py:232-254 | the loop threading the split flag through the lines computes RoleHits |
| Roles.RoleHitsComplete | rst_rename.py:232-254 | conversely to RoleHits, a role the loop visits whose step names the looked-for target gives its location |
| Roles.FirstTagVisited | rst_rename.py:183-195 | the first bare role naming the target on a line is the loop's first step and reports its column |
| Roles.FirstTagReported | rst_rename.py:232-254 | the first role on a line no caption left open, written with the target between backticks, is reported at the column after the backtick |
| Roles.Tag | rst_rename.py:398-408 | the markers `:ref:`, `:doc:` and `:download:` of the three role finders |
| Roles.BareRoleStep | rst_rename.py:192-195 | on ":ref:`intro`" one step finds "intro" at column 6 and resumes at 12 |
| Roles.BareRoleLine | rst_rename.py:220-229 | the line ":ref:`intro`" yields column 6 and is not split |
| Roles.SplitRoleOpens | rst_rename.py:187-190 | ":ref:`see" opens a role it does not close: the line yields nothing and leaves the scan split |
| Roles.SplitRoleCloses | rst_rename.py:158-172 | while split, "this <intro>`" yields column 6 and clears the flag |
| Roles.ScanLinesStep | rst_rename.py:251-253 | one more line extends the locations by that line's columns under the flag left by the lines before |
| Roles.LinesClosedStep | rst_rename.py:251 | TagsClosed for every line carries over to one more such line |
| Roles.BareRoleFound | rst_rename.py:250-253 | a one-line document ":ref:`intro`" gives the location (0, 6) |
| Roles.SplitRoleFound | rst_rename.py:238-241 | a role split over ":ref:`see" and "this <intro>`" gives the location (1, 6) |
| Roles.RoleTargetOfRst | rst_rename.py:246 | `:ref:` looks for "intro" when "intro.rst" is renamed |
| Directives.Marker | rst_rename.py:410-420 | each directive marker starts with a non-space character |
| Directives.Placed | rst_rename.py:315-323 | the checks after the search report only the column the search returned |
| Directives.DirectiveColumn | rst_rename.py:309-323 | the corrected column check: a reported column holds the target |
| Directives.DirectiveColumnAsWritten | rst_rename.py:309-323 | the check as written, searching from the marker: a reported column holds the target |
| Directives.DirectiveColumnSound | rst_rename.py:309-323 | a reported column satisfies the directive rule, with the marker at its first occurrence |
| Directives.MarkerFirst | rst_rename.py:311-313 | a marker with only whitespace before it is the first occurrence `find` returns |
| Directives.TargetFirst | rst_rename.py:314-320 | a target after whitespace or a lone '/' is the first occurrence the search finds |
| Directives.NoMarkerNoColumn | rst_rename.py:309-313 | no marker, or text before the marker, reports nothing, as written and corrected |
| Directives.ColumnAfterMarker | rst_rename.py:314-323 | the corrected check is the post-search tests applied to a search after the marker |
| Directives.ColumnAsWrittenAfterMarker | rst_rename.py:314-323 | as written, the post-search tests are applied to a search from the marker |
| Directives.DirectiveColumnComplete | rst_rename.py:308-323 | every line that satisfies the directive rule is reported at the target's column |
| Directives.DirectiveRule | rst_rename.py:308-323 | the directive rule, both directions: a line reports `p` exactly when the rule holds with `p` |
| Directives.AsWrittenAgrees | rst_rename.py:314 | when the target does not occur inside the marker, the check as written and the corrected one agree |
| Directives.LineHit | rst_rename.py:323 | a line contributes at most one location |
| Directives.DirectiveScan | rst_rename.py:307-324 | at most one location per line |
| Directives.DirectiveScanMembers | rst_rename.py:308-323 | a location is reported exactly when its line's column check gives its column |
| Directives.DirectiveScanAscending | rst_rename.py:308-324 | directive locations are in reading order |
| Directives.DirectiveScanNames | rst_rename.py:308-323 | every directive location holds the target |
| Directives.DirectiveScanStep | rst_rename.py:308-323 | one more line appends that line's hit, if any |
| Directives.CheckForImageTag | rst_rename.py:293-324 | the loop over the lines computes DirectiveScan |
| Directives.DirectiveHits | rst_rename.py:410-420 | image, figure and literalinclude hits are in reading order and hold the full path |
| Directives.IncludeInMarker | rst_rename.py:314 | in ".. literalinclude:: include" the search from the marker finds "include" inside the marker, at 10 |
| Directives.LiteralIncludeLine | rst_rename.py:418-420 | ".. literalinclude:: include" satisfies the directive rule with the target at 20 |
| Directives.LiteralIncludeMissed | rst_rename.py:314-320 | the check as written reports nothing for that line |
| Directives.LiteralIncludeFound | rst_rename.py:308-323 | the corrected check reports column 20 for that line |
| Directives.AnotherObjectIgnored | test/test_check_rst_reference.py:27-39 | ".. image:: anotherobject.png" is not a reference to "object.png" |
| Directives.AbsoluteImageFound | test/test_check_rst_reference.py:58-71 | ".. image:: /object.png" refers to "object.png" at column 12, after the '/' |
| Toctrees.TocLine | rst_rename.py:434-447 | an entry is reported at the line's first non-space column |
| Toctrees.EntryNamesAt | rst_rename.py:445-447 | a matching entry holds the path, or the path without ".rst", at its column |
| Toctrees.ScanToc | rst_rename.py:433-447 | the loop over the lines reports at most one entry per line |
| Toctrees.ScanTocStep | rst_rename.py:433-447 | one more line extends the scan by what that line does under the state before it |
| Toctrees.TocLineState | rst_rename.py:434-444 | entering sets `min_indentation` to the marker's column + 1; staying keeps the state and needs a blank or indented line |
| Toctrees.OpeningExtends | rst_rename.py:439-444 | a blank or deeper-indented line keeps the toctree open |
| Toctrees.ScanTocOpen | rst_rename.py:434-444 | while in a toctree, an earlier marker line opened it, with `min_indentation` its column + 1, and no later line closed it |
| Toctrees.ScanTocSound | rst_rename.py:433-447 | every reported location is an entry naming the document inside an open toctree, right of its marker |
| Toctrees.ScanTocAscending | rst_rename.py:433-447 | toctree locations are in reading order |
| Toctrees.OpenStep | rst_rename.py:434-438 | outside a toctree, a line holding the marker enters one with `min_indentation` = column + 1 |
| Toctrees.StayStep | rst_rename.py:439-442 | inside, a blank line or one indented at least `min_indentation` keeps the state |
| Toctrees.StaysOpen | rst_rename.py:433-444 | from the opening line on, the toctree stays open while lines are blank or indented past the marker |
| Toctrees.ScanTocGrows | rst_rename.py:447 | the locations of the first lines are a prefix of the document's |
| Toctrees.EntryStep | rst_rename.py:445-447 | inside, an indented line naming the document is reported at its first non-space column |
| Toctrees.ScanTocComplete | rst_rename.py:433-447 | every entry naming the document inside an open toctree is reported |
| Toctrees.HitReported | rst_rename.py:447 | a hit of one line stays among the document's locations |
| Toctrees.ToctreeHits | rst_rename.py:422-449 | a non-rst path has no entries; entries are in reading order and are toctree entries naming the path |
| Toctrees.LookForToctrees | rst_rename.py:422-449 | the loop updating `in_toctree`/`min_indentation` computes ToctreeHits |
| Scanner.ToctreeHitsName | rst_rename.py:445-447 | every toctree entry names the path or its stem |
| Scanner.RoleHitsName | rst_rename.py:243-248 | every role location names the path or its stem |
| Scanner.FinderHits | rst_rename.py:282-290 | a finder's result; only the three role finders can fail |
| Scanner.Collect | rst_rename.py:282-290 | the loop over the finders, stopping at the first failure |
| Scanner.FinderHitsName | rst_rename.py:282-290 | every location of any finder names the path or its stem |
| Scanner.CollectNames | rst_rename.py:282-290 | every collected location names the path or its stem |
| Scanner.CollectFails | rst_rename.py:282-290 | the search fails exactly when one of its finders fails |
| Scanner.CollectError | rst_rename.py:282-290 | a failed search reports the error of one of its finders |
| Scanner.References | rst_rename.py:256-291 | every location names the path or its stem; the search fails exactly when a role finder fails |
| Scanner.FindersFail | rst_rename.py:282-290 | of the seven finders, only the three role finders can fail |
| Scanner.FinderFails | rst_rename.py:282-290 | a finder fails exactly when it is a role finder whose scan fails |
| Scanner.FinderHitsBare | rst_rename.py:410-422 | the directive and toctree finders return their scans and never fail |
| Scanner.FinderHitsRole | rst_rename.py:398-408 | each role finder returns its role's scan |
| Scanner.CollectLast | rst_rename.py:290 | one more finder's locations follow those collected so far |
| Scanner.CollectInOrder | rst_rename.py:282-290 | when all finders succeed, the search returns their locations concatenated in the finders' order |
| Scanner.ReferencesOrder | rst_rename.py:280-291 | without role errors the result is images + figures + literalincludes + toctrees + ref + doc + download |
| Scanner.RunFinder | rst_rename.py:398-422 | each `look_for_*` wrapper computes its finder's result |
| Scanner.CheckRstReferences | rst_rename.py:256-291 | the loop over the finders computes References |
| Scanner.CollectStops | rst_rename.py:290 | after a finder fails, the whole search fails with that error |
| Highlight.Highlighted | rst_rename.py:343-345 | the rendering of a name holds the name between the two escapes |
| Highlight.PrefixFrom | rst_rename.py:478-479 | the prefix loop stops within both texts |
| Highlight.SuffixFrom | rst_rename.py:483-485 | the suffix loop stops before reaching the prefix in either text |
| Highlight.Cleaned | rst_rename.py:455-487 | each cleaned name is no longer than the original |
| Highlight.PrefixFromSpec | rst_rename.py:478-479 | the prefix loop stops at the longest common prefix |
| Highlight.SuffixFromSpec | rst_rename.py:483-485 | the suffix loop stops at the longest common suffix that does not overlap the prefix |
| Highlight.CleanedSpec | rst_rename.py:455-487 | the results are the middles left by a common prefix and a non-overlapping common suffix; the prefix stops where the texts differ or one ends, and non-empty results differ in their last character |
| Highlight.PrefixFromIs | rst_rename.py:478-479 | a common prefix followed by a difference is where the prefix loop stops |
| Highlight.SuffixFromIs | rst_rename.py:483-485 | a common suffix preceded by a difference is where the suffix loop stops |
| Highlight.CleanedIs | rst_rename.py:474-487 | for non-empty texts, a common prefix ended by a difference and a common suffix begun by one determine the result |
| Highlight.CleanedEqual | rst_rename.py:467-468 | equal texts clean to two empty strings |
| Highlight.CleanCommonalities | rst_rename.py:455-487 | the two while loops compute Cleaned |
| Highlight.Prepend | rst_rename.py:339 | text is added in front of a successful rendering; a failure stays the same failure |
| Highlight.PrependTwice | rst_rename.py:334-348 | adding `b` then `a` in front is adding `a + b` |
| Highlight.PrependNothing | rst_rename.py:334-348 | adding nothing in front changes nothing |
| Highlight.WalkAsWritten | rst_rename.py:337-347 | the walk as written: it ends with the old line and indexes the new line without a bound check |
| Highlight.RepresentationAsWritten | rst_rename.py:327-348 | create_representation as written, walking the cleaned names |
| Highlight.Walk | rst_rename.py:337-347 | the corrected walk fails only by making no progress |
| Highlight.Representation | rst_rename.py:327-348 | the corrected rendering never indexes past a line: its only failure is making no progress |
| Highlight.WalkSame | rst_rename.py:337-342 | identical lines are copied unchanged, as written and corrected |
| Highlight.WalkPrefix | rst_rename.py:338-342 | a common prefix of the two lines is copied in front of the rest, as written and corrected |
| Highlight.WalkSuffix | rst_rename.py:338-342 | after the change, a common tail is copied unchanged, as written and corrected |
| Highlight.ReplacementShown | rst_rename.py:337-347 | a line where `x` became `y` renders as the prefix, the highlighted `y` and the suffix |
| Highlight.ReplacementShownAsWritten | rst_rename.py:337-347 | the code as written renders the same when something follows the change |
| Highlight.RenameShown | rst_rename.py:331-347 | a line where the cleaned old name became the cleaned new name renders with that new name highlighted |
| Highlight.CreateRepresentation | rst_rename.py:327-348 | the `srcpos`/`dstpos` loop computes Representation |
| Highlight.CleanedAround | rst_rename.py:455-487 | names that differ at both ends clean to themselves inside any shared context |
| Highlight.CleanedDoctestPrefix | rst_rename.py:461-462 | "commonpreffix1difference1" and "commonpreffix2difference2" lose their common prefix |
| Highlight.CleanedDoctestSuffix | rst_rename.py:463-464 | "1difference1commonsuffix" and "2difference2commonsuffix" lose their common suffix |
| Highlight.CleanedDoctestBoth | rst_rename.py:465-466 | texts sharing both a prefix and a suffix keep only the differing middles |
| Highlight.CleanedDoctestsEdges | rst_rename.py:467-472 | equal texts clean to empty strings, empty texts stay empty, texts differing at both ends are kept whole |
| Highlight.RstRenameShown | test/test_expand_changes.py:53-69 | "   object.rst" becomes "   " + highlighted "renamed" + ".rst" |
| Highlight.StemRenameShown | test/test_expand_changes.py:72-88 | "   object" becomes "   " + highlighted "renamed" |
| Highlight.PngRenameShown | test/test_expand_changes.py:17-33 | "object.png" renders as highlighted "renamed" + ".png" |
| Highlight.IntroCleaned | rst_rename.py:476-487 | "intro.rst" and "intro2.rst" clean to "" and "2" |
| Highlight.GrowthAtEndHidden | rst_rename.py:337-347 | as written, a name grown at the end of the line renders with no highlight; corrected, the growth is highlighted |
| Highlight.ShrinkAtEndFails | rst_rename.py:337-338 | as written, a name shrunk at the end of the line reads past the new line; corrected, it renders |
| Projector.Spliced | rst_rename.py:368-370 | names ending in ".rst" lose the extension before splicing; other names are kept |
| Projector.ReplaceChange | rst_rename.py:364-371 | the rewritten line's length changes by the difference of the spliced names |
| Projector.ReplaceChangeKeeps | rst_rename.py:371 | the text before the column is kept, the new name follows, then the text after the old name |
| Projector.ReplaceChangeSelf | rst_rename.py:371 | renaming to the same name where it occurs leaves the line unchanged |
| Projector.SamePieces | rst_rename.py:371 | texts agreeing on the three pieces of a splice are equal |
| Projector.ReplaceChangeUndone | rst_rename.py:364-371 | splicing back the old name at the same column restores the line |
| Projector.FirstLines | rst_rename.py:375-385 | no more changed lines than changes |
| Projector.ColumnsOn | rst_rename.py:376-385 | no more columns on a line than changes |
| Projector.Expand | rst_rename.py:381-388 | a record carries its line number and the original line |
| Projector.ExpandAll | rst_rename.py:387-390 | one record per changed line |
| Projector.FirstLinesMembers | rst_rename.py:376-385 | the changed lines are exactly the lines of the changes |
| Projector.FirstLinesDistinct | rst_rename.py:377 | each changed line appears once |
| Projector.FirstLinesOrder | rst_rename.py:375-387 | changed lines come in order of their first change |
| Projector.FirstLinesIn | rst_rename.py:383 | every changed line exists in the document |
| Projector.ExpandChanges | test/test_expand_changes.py:6-15 | no changes give no records |
| Projector.ExpandAllAt | rst_rename.py:387-390 | the k-th record expands the k-th line |
| Projector.ExpandChangesAt | rst_rename.py:387-392 | the records are the changed lines' expansions, in order |
| Projector.ExpandChangesCovers | rst_rename.py:376-392 | every changed line has a record |
| Projector.ExpandChangesOnlyChanged | rst_rename.py:376-392 | every record is for a changed line |
| Projector.ExpandChangesDistinct | rst_rename.py:377-392 | no two records share a line |
| Projector.ExpandChangesOrder | rst_rename.py:375-392 | records come in order of their line's first change |
| Projector.ExpandChangesRecords | rst_rename.py:378-388 | a record holds the original line, that line with all its changes spliced in, and the rendering of the two |
| Projector.Rewrite | rst_rename.py:377-379 | the line with the changes of one line spliced in one after the other, at their original columns |
| Projector.Group | rst_rename.py:374-385 | the dictionary the first loop builds, one entry per changed line |
| Projector.GroupKeys | rst_rename.py:376-385 | the dictionary's keys are the changed lines |
| Projector.GroupValues | rst_rename.py:376-385 | each entry holds the original line and the line with all its changes spliced in, in order |
| Projector.FirstLinesStep | rst_rename.py:377-385 | one more change adds its line at the end if it is new |
| Projector.ColumnsOnStep | rst_rename.py:377-379 | one more change on a line adds its column at the end |
| Projector.ColumnsOnNone | rst_rename.py:376-385 | a line without changes has no columns |
| Projector.GroupStep | rst_rename.py:377-385 | one more change rewrites its line's entry again, or adds a new entry |
| Projector.ExpandAllStep | rst_rename.py:387-390 | one more changed line appends its record |
| Projector.GroupChanges | rst_rename.py:374-385 | the first loop builds the dictionary and the insertion order of its keys |
| Projector.GroupedAt | rst_rename.py:377-385 | the entry for each changed line is present and holds the fully rewritten line |
| Projector.ExpandChangesOnContents | rst_rename.py:351-392 | both loops together compute ExpandChanges |
| Projector.RewriteSelf | rst_rename.py:377-384 | renaming to the same name leaves every changed line unchanged |
| Projector.ColumnsOnFrom | rst_rename.py:376 | every column on a line comes from a change on that line |
| Projector.NamesSourceSpliced | rst_rename.py:368-371 | a found location holds exactly the name that replace_change removes |
| Projector.RenameToSelfIsNoOp | rst_rename.py:351-392 | renaming a file to itself rewrites no line, and each rendering is the line |
| Projector.SecondChangeUnshifted | rst_rename.py:377-379 | the second change on a line is spliced at its original column, with no shift |
| Projector.RewritePair | rst_rename.py:379-384 | two changes on a line are two splices, one after the other |
| Projector.SameLengthOverwrites | rst_rename.py:371 | a same-length new name overwrites the old one in place |
| Projector.OverwrittenTwice | rst_rename.py:379 | two same-length overwrites at separate columns leave the rest of the line alone |
| Projector.TwoChangesSameLength | rst_rename.py:379-384 | with same-length names, two changes on a line both land at their columns |
| Projector.SingleChange | rst_rename.py:380-390 | one change gives one record: the line, the spliced line, and their rendering |
| Projector.RenamedSpliced | rst_rename.py:368-370 | "object.rst" to "renamed.rst" splices "renamed" for "object" |
| Projector.RstWithExtension | test/test_expand_changes.py:53-69 | "   object.rst" is rewritten to "   renamed.rst" with "renamed" highlighted |
| Projector.RstWithoutExtension | test/test_expand_changes.py:72-88 | the stem reference "   object" is rewritten to "   renamed" |
| Projector.BasicChange | test/test_expand_changes.py:17-33 | "object.png" is rewritten to "renamed.png", with ".png" outside the highlight |
| Paths.StrLess | rstutils.py:21 | Python's `<` on strings: lexicographic order of the characters |
| Paths.PathLess | rstutils.py:21 | pathlib's `<`: lexicographic order of the components |
| Paths.Common | rstutils.py:17-20 | the set intersection of every entry's parents |
| Paths.StrLessIrreflexive | rstutils.py:21 | no string is less than itself |
| Paths.PrefixLess | rstutils.py:21 | a proper prefix path is less than the longer path |
| Paths.PrefixNotGreater | rstutils.py:21 | a prefix path is never greater than the longer path |
| Paths.ChainLess | rstutils.py:21 | among ancestors of one path, the order is the order of length |
| Paths.Parents | rstutils.py:17 | the parents of a file are its proper ancestors; a directory's also include itself |
| Paths.CommonSpec | rstutils.py:17-20 | the common set holds exactly the directories that hold every entry |
| Paths.CommonChain | rstutils.py:17-20 | every common directory is an ancestor of the first entry |
| Paths.DeepestExists | rstutils.py:21 | a non-empty set of paths has a deepest member |
| Paths.MaxPath | rstutils.py:21 | `max` over ancestors of one path is the deepest, and every other member is less |
| Paths.DeepestCommonPath | rstutils.py:8-21 | the empty list gives the root; the result is missing exactly when no directory holds every entry |
| Paths.DeepestHoldsAll | rstutils.py:17-21 | a defined result is an ancestor of every entry: a directory or its parent, a proper parent of a file |
| Paths.DeepestIsDeepest | rstutils.py:21 | every directory that holds all entries is a prefix of the result |
| Paths.DeepestDefined | rstutils.py:15-21 | when no entry is a file at the root, there is a result |
| Paths.RootFileUndefined | rstutils.py:17-21 | a file at the root leaves no common directory |
| Paths.DeepestIgnoresOrder | rstutils.py:18-20 | the result does not depend on the order or repetition of the entries |
| Paths.SingleEntry | rstutils.py:17 | a single directory gives itself, a single file its parent |
| Paths.DeepestCommonPathOf | rstutils.py:8-21 | the loop narrowing the common set, then `max`, computes DeepestCommonPath |
| Paths.TwoFilesSameDirectory | test/test_deepest_common_path.py:31-38 | two files in /a/b/c give /a/b/c |
| Paths.TwoFilesCommonGrandparent | test/test_deepest_common_path.py:40-47 | files in /a/b/c and /a/b/d give /a/b |
| Paths.FileAndItsDirectory | test/test_deepest_common_path.py:50-72 | a file and its directory give that directory, in either order |
| Paths.DirectoriesAndFiles | test/test_deepest_common_path.py:74-85 | the mixed list of directories and files gives /a/b |

## Left out

- `main`, `parse_commandline_args` and `check_options` (rst_rename.py:39-141): command-line parsing, `sys.exit` and filesystem checks.
- `compute_changes`, `get_potential_rst` and `quick_filter` (rst_rename.py:46-78): directory walking and file reading. Documents enter the model as lists of lines.
- `show_changes` (rst_rename.py:80-87) and the debug `print` at rst_rename.py:389: output only.
- `get_rst_in_folder` (rstutils.py:23-37): directory iteration and symlink checks.
- rst_ls_unref.py and oldstuff/rst_reset_dates_next_entries.py are not part of this model. They hold command-line code and Python 2 code that depends on `rst_metadata`.
- The ANSI escape strings (rst_rename.py:35-36) are kept as constants. Nothing about terminals is modelled.
- Roles.ScanLine, Roles.ScanLines, Roles.RoleHits, Roles.LookForTag and Scanner.References require TagsClosed: after every role marker on a line with a backtick, a backtick follows. Without it, the loop at rst_rename.py:222 need not end (Roles.TagStepStalls shows such a line). The model does not cover those lines. Roles.TagStepGuarded is the step with the missing guard; on the lines covered it is the step as written (Roles.TagStepGuardedAgrees).
- Roles.CaptionStepFacts: states the soundness half of a split step. The converse, that a line whose first '<' and first '>' enclose the target is reported, is Roles.CaptionStepHit.
- Roles.ScanLineDelimited: states that every reported column holds the target, not the converse. Roles.ScanLineComplete states the converse for every step the loop visits. The positions the loop visits are described by the predicate Roles.Visits, which follows the loop itself, and not by a closed-form description of all role occurrences on a line.
- Roles.ScanLinesSound: states soundness only. Roles.ScanLinesComplete states the converse, in terms of Roles.Visits on the line concerned.
- Roles.RoleHits: states soundness only. Roles.RoleHitsComplete states the converse in terms of Roles.Visits, and Roles.FirstTagReported states it in closed form for the first bare role on a line that no caption left open. Later roles on a line and captioned roles are covered only through Roles.Visits.
- Directives.DirectiveScan: uses the corrected column check, which searches for the target after the marker (rst_rename.py:314 searches from the marker). It differs from the code only on lines where the target also occurs inside the marker: for ".. literalinclude:: include" and the target "include" the code reports nothing and the model reports column 20. On every other line the two agree (Directives.AsWrittenAgrees).
- Directives.CheckForImageTag: computes Directives.DirectiveScan, so it differs from the code on the same lines.
- Directives.DirectiveHits: built on Directives.DirectiveScan, so it differs from the code on the same lines.
- Scanner.References: its directive finders use Directives.DirectiveHits, so it differs from the code on the same lines. Its own contract does not say that every role naming the path is returned; that follows from Roles.RoleHitsComplete and Scanner.ReferencesOrder, which places each role finder's locations in the result.
- Scanner.CheckRstReferences: computes Scanner.References, so it differs from the code on the same lines.
- Highlight.CreateRepresentation: computes the corrected rendering, Highlight.Representation. The code differs when the old and new lines differ at their very end. A longer new line renders with no highlight ("   intro" renamed to "   intro2"). A shorter one raises IndexError ("   intro2" renamed to "   intro"). The model renders the change highlighted. When text follows the change on the line, both agree (Highlight.ReplacementShownAsWritten).
- Projector.Expand: renders with Highlight.Representation, so its rendering differs from the code on the same lines.
- Projector.ExpandChangesOnContents: renders with Highlight.Representation, so its rendering differs from the code on the same lines.
- The `assert` failures at rst_rename.py:166 and :202 are modelled as an `Err(Malformed(line))` result, which the scanner passes on. The exception itself is not modelled.
- Highlight.Representation: the code can index past the end of the new line, or loop forever when both cleaned names are empty at a difference (rst_rename.py:337-347). As written, these give the outcomes `IndexOutOfRange` and `NoProgress`. The corrected walk keeps only `NoProgress`.
- Paths.DeepestCommonPath: `max` of an empty set raises an exception (rstutils.py:21). This happens only when a file is the root itself. It is modelled as `None`.
- Paths.DeepestCommonPathOf: `is_dir` is an input flag on each entry rather than a filesystem query.
- Paths: paths are sequences of components below the root. Path normalisation and relative paths are not modelled.
- Text.IsSpace: Python's `str.isspace` set is written out as a fixed set of code points. Unicode categories are not consulted.
- Text.RstSuffix: pathlib's `suffix` is modelled for paths written as their final component. A name that is only ".rst" has no suffix.

## Findings

| source | as written | input that shows it | evidently intended | confidence | as-written member | corrected member |
|---|---|---|---|---|---|---|
| rst_rename.py:314 | the target is searched from the column where the directive marker starts, so an occurrence inside the marker is found first and the line is rejected | ".. literalinclude:: include" with the target "include" | search after the marker, so the line reports column 20 | not executed | Directives.LiteralIncludeMissed | Directives.LiteralIncludeFound |
| rst_rename.py:337-347 | the walk ends with the old line: a new name longer at the end of the line is dropped from the rendering, and one shorter at the end makes the walk index past the new line; since `readlines` keeps each line's newline (rst_rename.py:72), this arises only on a last line with no newline | "   intro" renamed to "   intro2" (rendered without highlight), and "   intro2" renamed to "   intro" (IndexError) | render the rest of whichever line is longer, highlighted | not executed | Highlight.GrowthAtEndHidden | Highlight.ReplacementShown |
| rst_rename.py:187-188 | when a role marker has no backtick after it but the line has one before it, the closing search starts at column 0, the step resumes at the line's first backtick, and the loop at rst_rename.py:222 never ends | "`x` :ref: y" scanned for `:ref:` | a marker with no backtick after it leaves the role split for the next line, as on a line without backticks | not executed | Roles.TagStepStalls | Roles.TagStepGuardedAdvances |
