/**
 * The highlighted rendering of a changed line (rst_rename.py, clean_commonalities
 * and create_representation).
 *
 * The old and new names first lose the prefix and suffix they share; the line
 * before the change and the line after it are then walked together, copying the
 * characters they agree on and, where they differ, emitting the new name between
 * the terminal's highlight and reset escapes and jumping over the old name in one
 * line and the new name in the other.
 */
module Highlight {
  import opened Wrappers

  /** `_HIGHLIGHT_ESCAPE`: red, bold. */
  const HighlightEscape: string := "\U{1B}[31;2m"
  /** `_STANDARD_SCAPE`: back to the normal colour. */
  const StandardEscape: string := "\U{1B}[0m"

  /** A name shown between the two escapes. */
  function Highlighted(name: string): (r: string)
    ensures |r| == |HighlightEscape| + |name| + |StandardEscape|
    ensures r[|HighlightEscape|..|HighlightEscape| + |name|] == name
  {
    HighlightEscape + name + StandardEscape
  }

  // ---------------------------------------------------------------------------
  // clean_commonalities
  // ---------------------------------------------------------------------------

  /** The length of the common prefix of `a` and `b`, counted on from `i`. */
  function PrefixFrom(a: string, b: string, i: nat): (p: nat)
    requires i <= |a| && i <= |b|
    ensures i <= p <= |a| && p <= |b|
    decreases |a| - i
  {
    if i < |a| && i < |b| && a[i] == b[i] then PrefixFrom(a, b, i + 1) else i
  }

  /** The length of the common suffix of `a` and `b`, counted on from `k` and not
      reaching into the first `lo` characters of either. */
  function SuffixFrom(a: string, b: string, lo: nat, k: nat): (s: nat)
    requires lo + k <= |a| && lo + k <= |b|
    ensures k <= s && lo + s <= |a| && lo + s <= |b|
    decreases |a| - k
  {
    if lo + k < |a| && lo + k < |b| && a[|a| - k - 1] == b[|b| - k - 1] then SuffixFrom(a, b, lo, k + 1) else k
  }

  /** clean_commonalities: the two names without the prefix and the suffix they
      share. */
  function Cleaned(text1: string, text2: string): (r: (string, string))
    ensures |r.0| <= |text1| && |r.1| <= |text2|
  {
    if text1 == [] || text2 == [] then (text1, text2)
    else
      var p := PrefixFrom(text1, text2, 0);
      var s := SuffixFrom(text1, text2, p, 0);
      (text1[p..|text1| - s], text2[p..|text2| - s])
  }

  /** PrefixFrom counts a prefix the two texts share, and stops where they differ
      or one ends. */
  lemma {:induction false} PrefixFromSpec(a: string, b: string, i: nat)
    requires i <= |a| && i <= |b| && a[..i] == b[..i]
    ensures a[..PrefixFrom(a, b, i)] == b[..PrefixFrom(a, b, i)]
    ensures PrefixFrom(a, b, i) < |a| && PrefixFrom(a, b, i) < |b| ==>
      a[PrefixFrom(a, b, i)] != b[PrefixFrom(a, b, i)]
    decreases |a| - i
  {
    if i < |a| && i < |b| && a[i] == b[i] {
      assert a[..i + 1] == a[..i] + [a[i]] && b[..i + 1] == b[..i] + [b[i]];
      PrefixFromSpec(a, b, i + 1);
    }
  }

  /** SuffixFrom counts a suffix the two texts share, and stops where they differ
      or where it would reach into the first `lo` characters. */
  lemma {:induction false} SuffixFromSpec(a: string, b: string, lo: nat, k: nat)
    requires lo + k <= |a| && lo + k <= |b| && a[|a| - k..] == b[|b| - k..]
    ensures a[|a| - SuffixFrom(a, b, lo, k)..] == b[|b| - SuffixFrom(a, b, lo, k)..]
    ensures lo + SuffixFrom(a, b, lo, k) < |a| && lo + SuffixFrom(a, b, lo, k) < |b| ==>
      a[|a| - SuffixFrom(a, b, lo, k) - 1] != b[|b| - SuffixFrom(a, b, lo, k) - 1]
    decreases |a| - k
  {
    if lo + k < |a| && lo + k < |b| && a[|a| - k - 1] == b[|b| - k - 1] {
      assert a[|a| - k - 1..] == [a[|a| - k - 1]] + a[|a| - k..];
      assert b[|b| - k - 1..] == [b[|b| - k - 1]] + b[|b| - k..];
      SuffixFromSpec(a, b, lo, k + 1);
    }
  }

  /** What clean_commonalities promises: each result is the middle of its text, what
      it drops in front is a prefix both texts share and what it drops behind is a
      suffix both share, and neither could be longer: the prefix stops where the
      texts differ or one ends, and when both results are non-empty they differ in
      their last character. */
  lemma CleanedSpec(text1: string, text2: string) returns (p: nat, s: nat)
    ensures p + s <= |text1| && p + s <= |text2|
    ensures Cleaned(text1, text2) == (text1[p..|text1| - s], text2[p..|text2| - s])
    ensures text1[..p] == text2[..p] && text1[|text1| - s..] == text2[|text2| - s..]
    ensures p < |text1| && p < |text2| ==> text1[p] != text2[p]
    ensures p + s < |text1| && p + s < |text2| ==>
      text1[p] != text2[p] && text1[|text1| - s - 1] != text2[|text2| - s - 1]
  {
    if text1 == [] || text2 == [] {
      p, s := 0, 0;
      assert text1[0..|text1|] == text1 && text2[0..|text2|] == text2;
      assert text1[|text1|..] == [] == text2[|text2|..];
    } else {
      p := PrefixFrom(text1, text2, 0);
      PrefixFromSpec(text1, text2, 0);
      s := SuffixFrom(text1, text2, p, 0);
      SuffixFromSpec(text1, text2, p, 0);
    }
  }

  /** PrefixFrom is the first place from `i` on where the texts differ or one ends. */
  lemma {:induction false} PrefixFromIs(a: string, b: string, i: nat, p: nat)
    requires i <= p <= |a| && p <= |b| && a[..p] == b[..p]
    requires p < |a| && p < |b| ==> a[p] != b[p]
    ensures PrefixFrom(a, b, i) == p
    decreases p - i
  {
    if i < p {
      assert a[i] == a[..p][i] && b[i] == b[..p][i];
      PrefixFromIs(a, b, i + 1, p);
    }
  }

  /** SuffixFrom is the first place from the end, counting on from `k`, where the
      texts differ or the count would reach into the first `lo` characters. */
  lemma {:induction false} SuffixFromIs(a: string, b: string, lo: nat, k: nat, s: nat)
    requires k <= s && lo + s <= |a| && lo + s <= |b| && a[|a| - s..] == b[|b| - s..]
    requires lo + s < |a| && lo + s < |b| ==> a[|a| - s - 1] != b[|b| - s - 1]
    ensures SuffixFrom(a, b, lo, k) == s
    decreases s - k
  {
    if k < s {
      assert a[|a| - k - 1] == a[|a| - s..][s - k - 1] && b[|b| - k - 1] == b[|b| - s..][s - k - 1];
      SuffixFromIs(a, b, lo, k + 1, s);
    }
  }

  /** The cleaned names are determined by where the shared prefix and suffix end. */
  lemma CleanedIs(text1: string, text2: string, p: nat, s: nat)
    requires text1 != [] && text2 != []
    requires p <= |text1| && p <= |text2| && text1[..p] == text2[..p]
    requires p < |text1| && p < |text2| ==> text1[p] != text2[p]
    requires p + s <= |text1| && p + s <= |text2| && text1[|text1| - s..] == text2[|text2| - s..]
    requires p + s < |text1| && p + s < |text2| ==> text1[|text1| - s - 1] != text2[|text2| - s - 1]
    ensures Cleaned(text1, text2) == (text1[p..|text1| - s], text2[p..|text2| - s])
  {
    PrefixFromIs(text1, text2, 0, p);
    SuffixFromIs(text1, text2, p, 0, s);
  }

  /** Two equal names leave nothing to show. */
  lemma CleanedEqual(text: string)
    ensures Cleaned(text, text) == ([], [])
  {
    var p, s := CleanedSpec(text, text);
  }

  /** clean_commonalities, with its two loops. */
  method CleanCommonalities(text1: string, text2: string) returns (r1: string, r2: string)
    ensures (r1, r2) == Cleaned(text1, text2)
  {
    if text1 == [] || text2 == [] {
      return text1, text2;
    }
    var posIni := 0;
    while posIni < |text1| && posIni < |text2| && text1[posIni] == text2[posIni]
      invariant posIni <= |text1| && posIni <= |text2|
      invariant PrefixFrom(text1, text2, posIni) == PrefixFrom(text1, text2, 0)
    {
      posIni := posIni + 1;
    }
    var posFin1 := |text1|;
    var posFin2 := |text2|;
    while posIni < posFin1 && posIni < posFin2 && text1[posFin1 - 1] == text2[posFin2 - 1]
      invariant posIni <= posFin1 <= |text1| && posIni <= posFin2 <= |text2|
      invariant |text1| - posFin1 == |text2| - posFin2
      invariant SuffixFrom(text1, text2, posIni, |text1| - posFin1) == SuffixFrom(text1, text2, posIni, 0)
    {
      posFin1 := posFin1 - 1;
      posFin2 := posFin2 - 1;
    }
    return text1[posIni..posFin1], text2[posIni..posFin2];
  }

  // ---------------------------------------------------------------------------
  // create_representation
  // ---------------------------------------------------------------------------

  /** How the walk over the two lines can fail: an index past the end of the new
      line (Python's IndexError), or a difference the walk cannot get past because
      both cleaned names are empty (the source then loops for ever). */
  datatype ReprError = IndexOutOfRange | NoProgress

  /** `text` in front of a successful rendering; a failure stays a failure. */
  function Prepend(text: string, r: Result<string, ReprError>): (q: Result<string, ReprError>)
    ensures q.Ok? <==> r.Ok?
    ensures q.Err? ==> q == r
  {
    if r.Ok? then Ok(text + r.value) else r
  }

  /** Putting text in front in two goes is putting it in front at once. */
  lemma PrependTwice(a: string, b: string, r: Result<string, ReprError>)
    ensures Prepend(a, Prepend(b, r)) == Prepend(a + b, r)
  {
    if r.Ok? {
      assert a + (b + r.value) == (a + b) + r.value;
    }
  }

  /** Putting nothing in front changes nothing. */
  lemma PrependNothing(r: Result<string, ReprError>)
    ensures Prepend([], r) == r
  {
    if r.Ok? {
      assert [] + r.value == r.value;
    }
  }

  /** The walk of create_representation as written, from column `sp` of the old line
      `ls` and column `dp` of the new line `ld`, with the cleaned names `x` (old) and
      `y` (new). It stops when the old line ends, and reads past the end of the new
      line when that one ends first. */
  function WalkAsWritten(ls: string, ld: string, x: string, y: string, sp: nat, dp: nat): (r: Result<string, ReprError>)
    decreases |ls| - sp, |ld| - dp
  {
    if sp >= |ls| then Ok([])
    else if dp >= |ld| then Err(IndexOutOfRange)
    else if ls[sp] == ld[dp] then Prepend([ls[sp]], WalkAsWritten(ls, ld, x, y, sp + 1, dp + 1))
    else if x == [] && y == [] then Err(NoProgress)
    else Prepend(Highlighted(y), WalkAsWritten(ls, ld, x, y, sp + |x|, dp + |y|))
  }

  /** create_representation as written. */
  function RepresentationAsWritten(linesrc: string, linedst: string, src: string, dst: string): (r: Result<string, ReprError>)
  {
    var (x, y) := Cleaned(src, dst);
    WalkAsWritten(linesrc, linedst, x, y, 0, 0)
  }

  /** The corrected walk: a change at the very end of the line is shown too. When
      the old line ends first, the rest of the new line is the inserted text; when
      the new line ends first, the rest of the old line was removed. */
  function Walk(ls: string, ld: string, x: string, y: string, sp: nat, dp: nat): (r: Result<string, ReprError>)
    ensures r.Err? ==> r == Err(NoProgress)
    decreases |ls| - sp, |ld| - dp
  {
    if sp >= |ls| then (if dp < |ld| then Ok(Highlighted(ld[dp..])) else Ok([]))
    else if dp >= |ld| then Ok(Highlighted([]))
    else if ls[sp] == ld[dp] then Prepend([ls[sp]], Walk(ls, ld, x, y, sp + 1, dp + 1))
    else if x == [] && y == [] then Err(NoProgress)
    else Prepend(Highlighted(y), Walk(ls, ld, x, y, sp + |x|, dp + |y|))
  }

  /** create_representation, corrected: the rendering of the change from `linesrc` to
      `linedst` that renamed `src` to `dst`. */
  function Representation(linesrc: string, linedst: string, src: string, dst: string): (r: Result<string, ReprError>)
    ensures r.Err? ==> r == Err(NoProgress)
  {
    var (x, y) := Cleaned(src, dst);
    Walk(linesrc, linedst, x, y, 0, 0)
  }

  /** Where the two lines agree from `i` on, the walk copies them. */
  lemma {:induction false} WalkSame(line: string, x: string, y: string, i: nat)
    requires i <= |line|
    ensures Walk(line, line, x, y, i, i) == Ok(line[i..])
    ensures WalkAsWritten(line, line, x, y, i, i) == Ok(line[i..])
    decreases |line| - i
  {
    if i < |line| {
      WalkSame(line, x, y, i + 1);
      assert [line[i]] + line[i + 1..] == line[i..];
    } else {
      assert line[i..] == [];
    }
  }

  /** Over a prefix the two lines share, the walk copies the prefix. */
  lemma {:induction false} WalkPrefix(pre: string, a: string, b: string, x: string, y: string, i: nat)
    requires i <= |pre|
    ensures Walk(pre + a, pre + b, x, y, i, i) == Prepend(pre[i..], Walk(pre + a, pre + b, x, y, |pre|, |pre|))
    ensures WalkAsWritten(pre + a, pre + b, x, y, i, i) ==
      Prepend(pre[i..], WalkAsWritten(pre + a, pre + b, x, y, |pre|, |pre|))
    decreases |pre| - i
  {
    if i < |pre| {
      assert (pre + a)[i] == pre[i] == (pre + b)[i];
      WalkPrefix(pre, a, b, x, y, i + 1);
      PrependTwice([pre[i]], pre[i + 1..], Walk(pre + a, pre + b, x, y, |pre|, |pre|));
      PrependTwice([pre[i]], pre[i + 1..], WalkAsWritten(pre + a, pre + b, x, y, |pre|, |pre|));
      assert [pre[i]] + pre[i + 1..] == pre[i..];
    } else {
      assert pre[i..] == [];
      PrependNothing(Walk(pre + a, pre + b, x, y, |pre|, |pre|));
      PrependNothing(WalkAsWritten(pre + a, pre + b, x, y, |pre|, |pre|));
    }
  }

  /** After the change, the walk resumes on the suffix both lines share. */
  lemma {:induction false} WalkSuffix(pre: string, x: string, y: string, post: string, i: nat)
    requires i <= |post|
    ensures Walk(pre + x + post, pre + y + post, x, y, |pre| + |x| + i, |pre| + |y| + i) == Ok(post[i..])
    ensures WalkAsWritten(pre + x + post, pre + y + post, x, y, |pre| + |x| + i, |pre| + |y| + i) == Ok(post[i..])
    decreases |post| - i
  {
    var ls, ld := pre + x + post, pre + y + post;
    if i < |post| {
      assert ls[|pre| + |x| + i] == post[i] == ld[|pre| + |y| + i];
      WalkSuffix(pre, x, y, post, i + 1);
      assert [post[i]] + post[i + 1..] == post[i..];
    } else {
      assert post[i..] == [];
    }
  }

  /** The change is seen where it starts: the first characters after the shared
      prefix differ, or one of the lines ends there, and the two names are not both
      empty. */
  predicate ChangeStarts(x: string, y: string, post: string) {
    (x != [] || y != []) &&
    (x + post == [] || y + post == [] || (x + post)[0] != (y + post)[0])
  }

  /** The rendering of a line where `x` became `y` between a shared prefix and a
      shared suffix is the prefix, the highlighted new name, and the suffix. */
  lemma ReplacementShown(pre: string, x: string, y: string, post: string)
    requires ChangeStarts(x, y, post)
    ensures Walk(pre + x + post, pre + y + post, x, y, 0, 0) == Ok(pre + Highlighted(y) + post)
  {
    var ls, ld := pre + x + post, pre + y + post;
    assert ls == pre + (x + post) && ld == pre + (y + post);
    var k := |pre|;
    assert Walk(ls, ld, x, y, 0, 0) == Prepend(pre, Walk(ls, ld, x, y, k, k)) by {
      WalkPrefix(pre, x + post, y + post, x, y, 0);
      assert pre[0..] == pre;
    }
    if k >= |ls| {
      assert x == [] && post == [] && ld[k..] == y;
      assert pre + Highlighted(y) + post == pre + Highlighted(y);
    } else if k >= |ld| {
      assert y == [] && post == [];
      assert pre + Highlighted(y) + post == pre + Highlighted([]);
    } else {
      assert ls[k] == (x + post)[0] && ld[k] == (y + post)[0];
      assert Walk(ls, ld, x, y, k + |x|, k + |y|) == Ok(post) by {
        WalkSuffix(pre, x, y, post, 0);
        assert post[0..] == post;
      }
      assert pre + (Highlighted(y) + post) == pre + Highlighted(y) + post;
    }
  }

  /** The code as written renders the change the same way when something follows it
      on the line. */
  lemma ReplacementShownAsWritten(pre: string, x: string, y: string, post: string)
    requires ChangeStarts(x, y, post) && post != []
    ensures WalkAsWritten(pre + x + post, pre + y + post, x, y, 0, 0) == Ok(pre + Highlighted(y) + post)
  {
    var ls, ld := pre + x + post, pre + y + post;
    assert ls == pre + (x + post) && ld == pre + (y + post);
    var k := |pre|;
    assert WalkAsWritten(ls, ld, x, y, 0, 0) == Prepend(pre, WalkAsWritten(ls, ld, x, y, k, k)) by {
      WalkPrefix(pre, x + post, y + post, x, y, 0);
      assert pre[0..] == pre;
    }
    assert ls[k] == (x + post)[0] && ld[k] == (y + post)[0];
    assert WalkAsWritten(ls, ld, x, y, k + |x|, k + |y|) == Ok(post) by {
      WalkSuffix(pre, x, y, post, 0);
      assert post[0..] == post;
    }
    assert pre + (Highlighted(y) + post) == pre + Highlighted(y) + post;
  }

  /** Renaming `src` to `dst` inside a line, where their cleaned forms are both
      non-empty, is rendered as the line with the cleaned new name highlighted. */
  lemma RenameShown(pre: string, post: string, src: string, dst: string)
    requires Cleaned(src, dst).0 != [] && Cleaned(src, dst).1 != []
    ensures Representation(pre + Cleaned(src, dst).0 + post, pre + Cleaned(src, dst).1 + post, src, dst) ==
      Ok(pre + Highlighted(Cleaned(src, dst).1) + post)
  {
    var p, s := CleanedSpec(src, dst);
    var x, y := Cleaned(src, dst).0, Cleaned(src, dst).1;
    assert x[0] == src[p] && y[0] == dst[p];
    ReplacementShown(pre, Cleaned(src, dst).0, Cleaned(src, dst).1, post);
  }

  /** create_representation, corrected, with its loop over the two lines. */
  method CreateRepresentation(linesrc: string, linedst: string, src: string, dst: string)
    returns (r: Result<string, ReprError>)
    ensures r == Representation(linesrc, linedst, src, dst)
  {
    var x, y := CleanCommonalities(src, dst);
    var linerepr: string := [];
    PrependNothing(Walk(linesrc, linedst, x, y, 0, 0));
    var srcpos: nat := 0;
    var dstpos: nat := 0;
    while srcpos < |linesrc|
      invariant Walk(linesrc, linedst, x, y, 0, 0) == Prepend(linerepr, Walk(linesrc, linedst, x, y, srcpos, dstpos))
      decreases |linesrc| - srcpos, |linedst| - dstpos
    {
      if dstpos >= |linedst| {
        return Ok(linerepr + Highlighted([]));
      }
      if linesrc[srcpos] == linedst[dstpos] {
        PrependTwice(linerepr, [linesrc[srcpos]], Walk(linesrc, linedst, x, y, srcpos + 1, dstpos + 1));
        linerepr := linerepr + [linesrc[srcpos]];
        srcpos := srcpos + 1;
        dstpos := dstpos + 1;
        continue;
      }
      if x == [] && y == [] {
        return Err(NoProgress);
      }
      PrependTwice(linerepr, Highlighted(y), Walk(linesrc, linedst, x, y, srcpos + |x|, dstpos + |y|));
      linerepr := linerepr + Highlighted(y);
      srcpos := srcpos + |x|;
      dstpos := dstpos + |y|;
    }
    if dstpos < |linedst| {
      linerepr := linerepr + Highlighted(linedst[dstpos..]);
    } else {
      assert linerepr + [] == linerepr;
    }
    r := Ok(linerepr);
  }

  // ---------------------------------------------------------------------------
  // Examples
  // ---------------------------------------------------------------------------

  /** Two texts that share `c` in front and `d` behind, and differ at both ends of
      what lies between, are cleaned to what lies between. */
  lemma CleanedAround(c: string, x: string, y: string, d: string)
    requires x != [] && y != [] && x[0] != y[0] && x[|x| - 1] != y[|y| - 1]
    ensures Cleaned(c + x + d, c + y + d) == (x, y)
  {
    var t1, t2 := c + x + d, c + y + d;
    assert t1[..|c|] == c == t2[..|c|];
    assert t1[|c|] == x[0] && t2[|c|] == y[0];
    assert t1[|t1| - |d|..] == d == t2[|t2| - |d|..];
    assert t1[|t1| - |d| - 1] == x[|x| - 1] && t2[|t2| - |d| - 1] == y[|y| - 1];
    CleanedIs(t1, t2, |c|, |d|);
    assert t1[|c|..|t1| - |d|] == x && t2[|c|..|t2| - |d|] == y;
  }

  /** A doctest of clean_commonalities: a common prefix. */
  lemma CleanedDoctestPrefix(text1: string, text2: string)
    requires text1 == "commonpreffix1difference1" && text2 == "commonpreffix2difference2"
    ensures Cleaned(text1, text2) == ("1difference1", "2difference2")
  {
    var c, x, y := "commonpreffix", "1difference1", "2difference2";
    assert text1 == c + x + "" && text2 == c + y + "";
    CleanedAround(c, x, y, "");
  }

  /** A doctest of clean_commonalities: a common suffix. */
  lemma CleanedDoctestSuffix(text1: string, text2: string)
    requires text1 == "1difference1commonsuffix" && text2 == "2difference2commonsuffix"
    ensures Cleaned(text1, text2) == ("1difference1", "2difference2")
  {
    var x, y, d := "1difference1", "2difference2", "commonsuffix";
    assert text1 == "" + x + d && text2 == "" + y + d;
    CleanedAround("", x, y, d);
  }

  /** A doctest of clean_commonalities: a common prefix and a common suffix (the
      texts are written in their three parts). */
  lemma CleanedDoctestBoth(text1: string, text2: string)
    requires text1 == "commonpreffix" + "1difference1" + "commonsuffix"
    requires text2 == "commonpreffix" + "2difference2" + "commonsuffix"
    ensures Cleaned(text1, text2) == ("1difference1", "2difference2")
  {
    CleanedAround("commonpreffix", "1difference1", "2difference2", "commonsuffix");
  }

  /** The doctests of clean_commonalities: equal texts, empty texts, nothing shared. */
  lemma CleanedDoctestsEdges()
    ensures Cleaned("commonall", "commonall") == ("", "")
    ensures Cleaned("", "") == ("", "")
    ensures Cleaned("equal", "different") == ("equal", "different")
  {
    CleanedEqual("commonall");
    CleanedIs("equal", "different", 0, 0);
    assert "equal"[0..5] == "equal" && "different"[0..9] == "different";
  }

  /** Renaming object.rst to renamed.rst keeps the shared ".rst" out of the
      highlight. */
  lemma RstRenameShown()
    ensures Cleaned("object.rst", "renamed.rst") == ("object", "renamed")
    ensures Representation("   object.rst", "   renamed.rst", "object.rst", "renamed.rst") ==
      Ok("   " + Highlighted("renamed") + ".rst")
  {
    var a, b := "object.rst", "renamed.rst";
    assert a == "object" + ".rst" && b == "renamed" + ".rst";
    CleanedIs(a, b, 0, 4);
    RenameShown("   ", ".rst", a, b);
    assert "   " + "object" + ".rst" == "   object.rst";
    assert "   " + "renamed" + ".rst" == "   renamed.rst";
  }

  /** A toctree entry written without the extension: the whole new stem is shown. */
  lemma StemRenameShown()
    ensures Representation("   object", "   renamed", "object.rst", "renamed.rst") ==
      Ok("   " + Highlighted("renamed"))
  {
    var src, dst := "object.rst", "renamed.rst";
    var x, y := Cleaned(src, dst).0, Cleaned(src, dst).1;
    assert x == "object" && y == "renamed" by {
      RstRenameShown();
    }
    RenameShown("   ", "", src, dst);
    assert "   " + x + "" == "   object";
    assert "   " + y + "" == "   renamed";
    assert "   " + Highlighted(y) + "" == "   " + Highlighted("renamed");
  }

  /** Renaming object.png to renamed.png: the common ".png" stays outside the
      highlight. */
  lemma PngRenameShown()
    ensures Representation("object.png", "renamed.png", "object.png", "renamed.png") ==
      Ok(Highlighted("renamed") + ".png")
  {
    var src, dst := "object.png", "renamed.png";
    var x, y := Cleaned(src, dst).0, Cleaned(src, dst).1;
    assert x == "object" && y == "renamed" by {
      assert src == "object" + ".png" && dst == "renamed" + ".png";
      CleanedIs(src, dst, 0, 4);
    }
    RenameShown("", ".png", src, dst);
    assert "" + x + ".png" == src;
    assert "" + y + ".png" == dst;
    assert "" + Highlighted(y) + ".png" == Highlighted("renamed") + ".png";
  }

  /** How intro.rst and intro2.rst are cleaned, either way round. */
  lemma IntroCleaned()
    ensures Cleaned("intro.rst", "intro2.rst") == ("", "2")
    ensures Cleaned("intro2.rst", "intro.rst") == ("2", "")
  {
    var a, b := "intro.rst", "intro2.rst";
    assert a == "intro" + ".rst" && b == "intro" + "2.rst" && b == "intro2" + ".rst";
    CleanedIs(a, b, 5, 4);
    CleanedIs(b, a, 5, 4);
  }

  /** As written, a name that grows at the end of its line, as a toctree entry does
      when intro.rst becomes intro2.rst, is shown without any highlight: the walk
      stops when the old line ends. The corrected walk highlights the "2". */
  lemma GrowthAtEndHidden()
    ensures RepresentationAsWritten("   intro", "   intro2", "intro.rst", "intro2.rst") == Ok("   intro")
    ensures Representation("   intro", "   intro2", "intro.rst", "intro2.rst") == Ok("   intro" + Highlighted("2"))
  {
    var pre, ld := "   intro", "   intro2";
    assert Cleaned("intro.rst", "intro2.rst") == ("", "2") by {
      IntroCleaned();
    }
    assert pre + "" + "" == pre && pre + "2" + "" == ld && pre + "" == pre && pre + "2" == ld;
    assert WalkAsWritten(pre, ld, "", "2", 0, 0) == Ok(pre) by {
      WalkPrefix(pre, "", "2", "", "2", 0);
      assert pre[0..] == pre && pre + [] == pre;
    }
    assert Walk(pre, ld, "", "2", 0, 0) == Ok(pre + Highlighted("2")) by {
      ReplacementShown(pre, "", "2", "");
      assert pre + Highlighted("2") + "" == pre + Highlighted("2");
    }
  }

  /** As written, a name that shrinks at the end of its line, as a toctree entry does
      when intro2.rst becomes intro.rst, makes the walk index past the end of the new
      line. The corrected walk shows an empty highlight where the "2" was. */
  lemma ShrinkAtEndFails()
    ensures RepresentationAsWritten("   intro2", "   intro", "intro2.rst", "intro.rst") == Err(IndexOutOfRange)
    ensures Representation("   intro2", "   intro", "intro2.rst", "intro.rst") == Ok("   intro" + Highlighted(""))
  {
    var ls, pre := "   intro2", "   intro";
    assert Cleaned("intro2.rst", "intro.rst") == ("2", "") by {
      IntroCleaned();
    }
    assert pre + "2" + "" == ls && pre + "" + "" == pre && pre + "2" == ls && pre + "" == pre;
    assert WalkAsWritten(ls, pre, "2", "", 0, 0) == Err(IndexOutOfRange) by {
      WalkPrefix(pre, "2", "", "2", "", 0);
    }
    assert Walk(ls, pre, "2", "", 0, 0) == Ok(pre + Highlighted("")) by {
      ReplacementShown(pre, "2", "", "");
      assert pre + Highlighted("") + "" == pre + Highlighted("");
    }
  }
}
