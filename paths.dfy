/**
 * The deepest common directory of a list of absolute paths (rstutils.py,
 * deepest_common_path).
 *
 * A path is the sequence of its components below the root, so the root "/" is the
 * empty sequence and "/a/b" is ["a", "b"]. Whether a path is a directory is asked of
 * the filesystem by the program; here it is part of the input.
 */
module Paths {
  import opened Wrappers

  type Path = seq<string>

  /** A path of the list, with what `is_dir` answers for it. */
  datatype Entry = Entry(path: Path, isDir: bool)

  /** `q` is a directory that holds `e`: any ancestor of a file, and any ancestor of
      a directory or the directory itself. */
  predicate AncestorOf(q: Path, e: Entry) {
    q <= e.path && (e.isDir || |q| < |e.path|)
  }

  /** Python's `<` on strings: lexicographic order of the code points. */
  predicate StrLess(a: string, b: string)
    decreases |a|
  {
    |b| > 0 && (|a| == 0 || a[0] < b[0] || (a[0] == b[0] && StrLess(a[1..], b[1..])))
  }

  /** pathlib's `<` on paths: lexicographic order of the components, each compared
      as a string. */
  predicate PathLess(a: Path, b: Path)
    decreases |a|
  {
    |b| > 0 && (|a| == 0 || StrLess(a[0], b[0]) || (a[0] == b[0] && PathLess(a[1..], b[1..])))
  }

  /** No string comes before itself. */
  lemma {:induction false} StrLessIrreflexive(a: string)
    ensures !StrLess(a, a)
    decreases |a|
  {
    if |a| > 0 {
      StrLessIrreflexive(a[1..]);
    }
  }

  /** A proper ancestor comes before the path below it. */
  lemma {:induction false} PrefixLess(a: Path, b: Path)
    requires a < b
    ensures PathLess(a, b)
    decreases |a|
  {
    if |a| > 0 {
      assert a[1..] < b[1..] by {
        assert a[1..] == b[1..][..|a| - 1];
      }
      PrefixLess(a[1..], b[1..]);
    }
  }

  /** No path comes before one of its ancestors. */
  lemma {:induction false} PrefixNotGreater(a: Path, b: Path)
    requires a <= b
    ensures !PathLess(b, a)
    decreases |a|
  {
    if |a| > 0 {
      assert a[1..] <= b[1..] by {
        assert a[1..] == b[1..][..|a| - 1];
      }
      PrefixNotGreater(a[1..], b[1..]);
      StrLessIrreflexive(a[0]);
    }
  }

  /** Among ancestors of one path, the order of paths is the order of their depths. */
  lemma ChainLess(a: Path, b: Path, p: Path)
    requires a <= p && b <= p
    ensures PathLess(a, b) <==> |a| < |b|
  {
    if |a| < |b| {
      assert a == b[..|a|] by {
        assert a == p[..|a|] && b[..|a|] == p[..|a|];
      }
      PrefixLess(a, b);
    } else {
      assert b == a[..|b|] by {
        assert b == p[..|b|] && a[..|b|] == p[..|b|];
      }
      PrefixNotGreater(b, a);
    }
  }

  /** `set(path.parents)`, or `set((path / '_').parents)` for a directory: the paths
      above the entry, and the directory itself for a directory. */
  function Parents(e: Entry): (r: set<Path>)
    ensures forall q :: q in r <==> AncestorOf(q, e)
  {
    var r := set k | 0 <= k <= |e.path| && (e.isDir || k < |e.path|) :: e.path[..k];
    assert forall q :: AncestorOf(q, e) ==> q in r by {
      forall q | AncestorOf(q, e) ensures q in r {
        assert q == e.path[..|q|];
      }
    }
    r
  }

  /** The `common_paths` of the loop once it has seen `entries`. */
  function Common(entries: seq<Entry>): (r: set<Path>)
    requires entries != []
    decreases |entries|
  {
    if |entries| == 1 then Parents(entries[0])
    else Common(entries[..|entries| - 1]) * Parents(entries[|entries| - 1])
  }

  /** The common paths are the directories that hold every entry. */
  lemma {:induction false} CommonSpec(entries: seq<Entry>)
    requires entries != []
    ensures forall q :: q in Common(entries) <==> forall i :: 0 <= i < |entries| ==> AncestorOf(q, entries[i])
    decreases |entries|
  {
    if |entries| > 1 {
      var n := |entries| - 1;
      CommonSpec(entries[..n]);
      forall q ensures q in Common(entries) <==> forall i :: 0 <= i < |entries| ==> AncestorOf(q, entries[i]) {
        if forall i :: 0 <= i < n ==> AncestorOf(q, entries[..n][i]) {
          assert forall i :: 0 <= i < n ==> AncestorOf(q, entries[i]);
        }
        if forall i :: 0 <= i < |entries| ==> AncestorOf(q, entries[i]) {
          assert forall i :: 0 <= i < n ==> AncestorOf(q, entries[..n][i]);
        }
      }
    }
  }

  /** Every common path lies above the first entry: the common paths form a chain. */
  lemma CommonChain(entries: seq<Entry>)
    requires entries != []
    ensures forall q :: q in Common(entries) ==> q <= entries[0].path
  {
    CommonSpec(entries);
  }

  /** Any two ancestors of `p` in `c` are ordered by depth. */
  predicate Below(c: set<Path>, p: Path) {
    forall q :: q in c ==> q <= p
  }

  /** A finite set of paths has a deepest member. */
  lemma {:induction false} DeepestExists(c: set<Path>)
    requires c != {}
    ensures exists m :: m in c && forall x :: x in c ==> |x| <= |m|
    decreases |c|
  {
    var y :| y in c;
    var rest := c - {y};
    if rest != {} {
      DeepestExists(rest);
      var m :| m in rest && forall x :: x in rest ==> |x| <= |m|;
      if |y| > |m| {
        assert forall x :: x in c ==> |x| <= |y|;
      } else {
        assert forall x :: x in c ==> |x| <= |m|;
      }
    } else {
      forall x | x in c ensures |x| <= |y| {
        assert x !in rest;
      }
    }
  }

  /** `max(common_paths)`: the greatest path of a chain, which is its deepest one. */
  ghost function MaxPath(c: set<Path>, p: Path): (m: Path)
    requires c != {} && Below(c, p)
    ensures m in c && forall x :: x in c ==> |x| <= |m|
    ensures forall x :: x in c ==> x == m || PathLess(x, m)
  {
    DeepestExists(c);
    var m :| m in c && forall x :: x in c ==> |x| <= |m|;
    assert forall x :: x in c ==> x == m || PathLess(x, m) by {
      forall x | x in c ensures x == m || PathLess(x, m) {
        ChainLess(x, m, p);
        if |x| == |m| {
          assert x == p[..|x|] && m == p[..|m|];
        }
      }
    }
    m
  }

  /** deepest_common_path: the root for no paths; otherwise the greatest path that
      holds every entry, or nothing when there is none (`max` of an empty set fails,
      which only a file entry at the root can cause). */
  ghost function DeepestCommonPath(entries: seq<Entry>): (r: Option<Path>)
    ensures entries == [] ==> r == Some([])
    ensures r.None? <==> entries != [] && Common(entries) == {}
  {
    if entries == [] then Some([])
    else
      var c := Common(entries);
      if c == {} then None
      else
        CommonChain(entries);
        Some(MaxPath(c, entries[0].path))
  }

  /** The result holds every entry: it is an ancestor-or-self of each directory and a
      proper ancestor of each file. */
  lemma DeepestHoldsAll(entries: seq<Entry>)
    requires DeepestCommonPath(entries).Some?
    ensures forall i :: 0 <= i < |entries| ==> AncestorOf(DeepestCommonPath(entries).value, entries[i])
  {
    if entries != [] {
      CommonSpec(entries);
    }
  }

  /** No directory that holds every entry lies deeper than the result: each one is
      the result or above it. */
  lemma DeepestIsDeepest(entries: seq<Entry>, q: Path)
    requires entries != [] && DeepestCommonPath(entries).Some?
    requires forall i :: 0 <= i < |entries| ==> AncestorOf(q, entries[i])
    ensures q <= DeepestCommonPath(entries).value
  {
    var m := DeepestCommonPath(entries).value;
    var p := entries[0].path;
    CommonSpec(entries);
    CommonChain(entries);
    assert q in Common(entries);
    assert |q| <= |m|;
    assert q == p[..|q|] && m == p[..|m|];
    assert q == m[..|q|];
  }

  /** The result is defined whenever no file entry is the root itself: the root then
      holds every entry. */
  lemma DeepestDefined(entries: seq<Entry>)
    requires forall i :: 0 <= i < |entries| ==> entries[i].isDir || entries[i].path != []
    ensures DeepestCommonPath(entries).Some?
  {
    if entries != [] {
      CommonSpec(entries);
      assert forall i :: 0 <= i < |entries| ==> AncestorOf([], entries[i]);
      assert [] in Common(entries);
    }
  }

  /** A file entry at the root has no parent, and `max` of no paths fails. */
  lemma RootFileUndefined(entries: seq<Entry>)
    requires Entry([], false) in entries
    ensures DeepestCommonPath(entries) == None
  {
    CommonSpec(entries);
    var i :| 0 <= i < |entries| && entries[i] == Entry([], false);
    forall q ensures q !in Common(entries) {
      assert !AncestorOf(q, entries[i]);
    }
  }

  /** The result depends on which entries are listed, not on their order or
      repetition. */
  lemma DeepestIgnoresOrder(a: seq<Entry>, b: seq<Entry>)
    requires a != [] && b != []
    requires forall e :: e in a <==> e in b
    ensures DeepestCommonPath(a) == DeepestCommonPath(b)
  {
    CommonSpec(a);
    CommonSpec(b);
    forall q ensures q in Common(a) <==> q in Common(b) {
      if q in Common(a) {
        forall j | 0 <= j < |b| ensures AncestorOf(q, b[j]) {
          assert b[j] in a;
        }
      }
      if q in Common(b) {
        forall j | 0 <= j < |a| ensures AncestorOf(q, a[j]) {
          assert a[j] in b;
        }
      }
    }
    assert Common(a) == Common(b);
    if Common(a) != {} {
      var m, n := DeepestCommonPath(a).value, DeepestCommonPath(b).value;
      DeepestHoldsAll(a);
      DeepestHoldsAll(b);
      DeepestIsDeepest(a, n);
      DeepestIsDeepest(b, m);
    }
  }

  /** A single directory is its own deepest common path; a single file has its
      parent. */
  lemma SingleEntry(e: Entry)
    requires e.isDir || e.path != []
    ensures DeepestCommonPath([e]) == Some(if e.isDir then e.path else e.path[..|e.path| - 1])
  {
    var expected := if e.isDir then e.path else e.path[..|e.path| - 1];
    assert AncestorOf(expected, e);
    DeepestDefined([e]);
    DeepestHoldsAll([e]);
    DeepestIsDeepest([e], expected);
  }

  /** deepest_common_path, with its loop narrowing the common paths and the scan
      that takes their maximum. */
  method DeepestCommonPathOf(entries: seq<Entry>) returns (r: Option<Path>)
    ensures r == DeepestCommonPath(entries)
  {
    if entries == [] {
      return Some([]);
    }
    var commonPaths := Parents(entries[0]);
    assert entries[..1] == [entries[0]];
    for k := 1 to |entries|
      invariant commonPaths == Common(entries[..k])
    {
      assert entries[..k + 1][..k] == entries[..k];
      commonPaths := commonPaths * Parents(entries[k]);
    }
    assert entries[..|entries|] == entries;
    if commonPaths == {} {
      return None;
    }
    var p := entries[0].path;
    CommonChain(entries);
    var best :| best in commonPaths;
    var rest := commonPaths - {best};
    while rest != {}
      invariant rest <= commonPaths && best in commonPaths
      invariant forall x :: x in commonPaths - rest ==> |x| <= |best|
      decreases |rest|
    {
      var x :| x in rest;
      assert PathLess(best, x) <==> |best| < |x| by {
        ChainLess(best, x, p);
      }
      if PathLess(best, x) {
        best := x;
      }
      rest := rest - {x};
    }
    var m := MaxPath(commonPaths, p);
    assert best == m by {
      ChainLess(best, m, p);
    }
    return Some(best);
  }

  // ---------------------------------------------------------------------------
  // The cases of the program's own examples
  // ---------------------------------------------------------------------------

  /** Two files in the same directory give that directory. */
  lemma TwoFilesSameDirectory()
    ensures DeepestCommonPath([Entry(["a", "b", "c", "file1.txt"], false), Entry(["a", "b", "c", "file2.txt"], false)]) ==
      Some(["a", "b", "c"])
  {
    var f1, f2 := Entry(["a", "b", "c", "file1.txt"], false), Entry(["a", "b", "c", "file2.txt"], false);
    assert AncestorOf(["a", "b", "c"], f1) && AncestorOf(["a", "b", "c"], f2);
    DeepestDefined([f1, f2]);
    DeepestIsDeepest([f1, f2], ["a", "b", "c"]);
    DeepestHoldsAll([f1, f2]);
  }

  /** Two files whose directories share a parent give that parent. */
  lemma TwoFilesCommonGrandparent()
    ensures DeepestCommonPath([Entry(["a", "b", "c", "file1.txt"], false), Entry(["a", "b", "d", "file2.txt"], false)]) ==
      Some(["a", "b"])
  {
    var f1, f2 := Entry(["a", "b", "c", "file1.txt"], false), Entry(["a", "b", "d", "file2.txt"], false);
    assert AncestorOf(["a", "b"], f1) && AncestorOf(["a", "b"], f2);
    DeepestDefined([f1, f2]);
    DeepestIsDeepest([f1, f2], ["a", "b"]);
    DeepestHoldsAll([f1, f2]);
    var m := DeepestCommonPath([f1, f2]).value;
    assert m <= f1.path && m <= f2.path;
    assert f1.path[2] != f2.path[2];
    assert |m| < 3;
  }

  /** A file and its directory give that directory, in either order. */
  lemma FileAndItsDirectory()
    ensures DeepestCommonPath([Entry(["a", "b", "c", "file1.txt"], false), Entry(["a", "b", "c"], true)]) ==
      Some(["a", "b", "c"])
    ensures DeepestCommonPath([Entry(["a", "b", "c"], true), Entry(["a", "b", "c", "file1.txt"], false)]) ==
      Some(["a", "b", "c"])
  {
    var f, d := Entry(["a", "b", "c", "file1.txt"], false), Entry(["a", "b", "c"], true);
    assert AncestorOf(["a", "b", "c"], f) && AncestorOf(["a", "b", "c"], d);
    DeepestDefined([f, d]);
    DeepestIsDeepest([f, d], ["a", "b", "c"]);
    DeepestHoldsAll([f, d]);
    DeepestIgnoresOrder([f, d], [d, f]);
  }

  /** Directories and files spread over three subdirectories of one directory give
      that directory. */
  lemma DirectoriesAndFiles()
    ensures DeepestCommonPath([Entry(["a", "b", "c"], true), Entry(["a", "b", "c", "file1.txt"], false),
                               Entry(["a", "b", "d", "e"], true), Entry(["a", "b", "f", "g", "file2.txt"], false)]) ==
      Some(["a", "b"])
  {
    var d1, f1 := Entry(["a", "b", "c"], true), Entry(["a", "b", "c", "file1.txt"], false);
    var d2, f2 := Entry(["a", "b", "d", "e"], true), Entry(["a", "b", "f", "g", "file2.txt"], false);
    var es := [d1, f1, d2, f2];
    assert DeepestCommonPath(es).Some? by {
      DeepestDefined(es);
    }
    var m := DeepestCommonPath(es).value;
    assert ["a", "b"] <= m by {
      assert AncestorOf(["a", "b"], d1) && AncestorOf(["a", "b"], f1);
      assert AncestorOf(["a", "b"], d2) && AncestorOf(["a", "b"], f2);
      DeepestIsDeepest(es, ["a", "b"]);
    }
    assert m <= d1.path && m <= d2.path by {
      DeepestHoldsAll(es);
      assert es[0] == d1 && es[2] == d2;
    }
    assert d1.path[2] != d2.path[2];
    assert |m| < 3;
    assert m == ["a", "b"] by {
      assert |m| == 2;
      assert m[..2] == ["a", "b"];
    }
  }
}
