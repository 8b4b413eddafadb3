/**
 * The reference finder of the renaming tool (rst_rename.py, check_rst_references):
 * every place in a document where the path of the file being renamed is named.
 */
module Scanner {
  import opened Wrappers
  import opened Text
  import opened Locations
  import opened Roles
  import opened Directives
  import opened Toctrees

  /** The name a location may hold: the path itself or, for a reStructuredText
      document, the path without its ".rst" extension. */
  predicate NamesSource(lines: seq<string>, loc: Location, src: string) {
    NameAt(lines, loc, src) || (RstSuffix(src) && NameAt(lines, loc, DropLast(src, 4)))
  }

  /** Every toctree entry names the document. */
  lemma ToctreeHitsName(lines: seq<string>, src: string)
    ensures forall loc :: loc in ToctreeHits(lines, src) ==> NamesSource(lines, loc, src)
  {
    forall loc | loc in ToctreeHits(lines, src) ensures NamesSource(lines, loc, src) {
      EntryNamesAt(lines[loc.line], loc.col, src, DropLast(src, 4));
    }
  }

  /** Every location a role scan reports names the source. */
  lemma RoleHitsName(role: Role, lines: seq<string>, src: string)
    requires LinesClosed(role, lines)
    ensures RoleHits(role, lines, src).Ok? ==>
      forall loc :: loc in RoleHits(role, lines, src).value ==> NamesSource(lines, loc, src)
  {
  }

  /** The finders check_rst_references runs, in its order. */
  datatype Finder = Images | Figures | LiteralIncludes | ToctreeEntries | Refs | Docs | Downloads

  const Finders: seq<Finder> := [Images, Figures, LiteralIncludes, ToctreeEntries, Refs, Docs, Downloads]

  /** The role finders need every line to satisfy TagsClosed for their marker. */
  predicate RolesClosed(lines: seq<string>) {
    LinesClosed(Ref, lines) && LinesClosed(Doc, lines) && LinesClosed(Download, lines)
  }

  /** What one finder returns: the directive and toctree finders cannot fail, the
      role finders raise on a malformed line. */
  function FinderHits(f: Finder, lines: seq<string>, src: string): (r: Result<seq<Location>, Malformed>)
    requires RolesClosed(lines)
    ensures r.Err? ==> f == Refs || f == Docs || f == Downloads
  {
    match f
    case Images => Ok(DirectiveHits(Image, lines, src))
    case Figures => Ok(DirectiveHits(Figure, lines, src))
    case LiteralIncludes => Ok(DirectiveHits(LiteralInclude, lines, src))
    case ToctreeEntries => Ok(ToctreeHits(lines, src))
    case Refs => RoleHits(Ref, lines, src)
    case Docs => RoleHits(Doc, lines, src)
    case Downloads => RoleHits(Download, lines, src)
  }

  /** Every location a finder reports names the source. */
  lemma FinderHitsName(f: Finder, lines: seq<string>, src: string)
    requires RolesClosed(lines)
    ensures FinderHits(f, lines, src).Ok? ==>
      forall loc :: loc in FinderHits(f, lines, src).value ==> NamesSource(lines, loc, src)
  {
    match f
    case Images =>
    case Figures =>
    case LiteralIncludes =>
    case ToctreeEntries => ToctreeHitsName(lines, src);
    case Refs => RoleHitsName(Ref, lines, src);
    case Docs => RoleHitsName(Doc, lines, src);
    case Downloads => RoleHitsName(Download, lines, src);
  }

  /** The locations of several finders, concatenated in order; the first failure
      stops the search. */
  function Collect(finders: seq<Finder>, lines: seq<string>, src: string): (r: Result<seq<Location>, Malformed>)
    requires RolesClosed(lines)
    decreases |finders|
  {
    if finders == [] then Ok([])
    else
      var n := |finders| - 1;
      match Collect(finders[..n], lines, src)
      case Err(e) => Err(e)
      case Ok(prev) =>
        match FinderHits(finders[n], lines, src)
        case Err(e) => Err(e)
        case Ok(found) => Ok(prev + found)
  }

  /** The collected locations all name the source. */
  lemma {:induction false} CollectNames(finders: seq<Finder>, lines: seq<string>, src: string)
    requires RolesClosed(lines)
    ensures Collect(finders, lines, src).Ok? ==>
      forall loc :: loc in Collect(finders, lines, src).value ==> NamesSource(lines, loc, src)
    decreases |finders|
  {
    if finders != [] {
      CollectNames(finders[..|finders| - 1], lines, src);
      FinderHitsName(finders[|finders| - 1], lines, src);
    }
  }

  /** The search fails exactly when one of the finders fails. */
  lemma {:induction false} CollectFails(finders: seq<Finder>, lines: seq<string>, src: string)
    requires RolesClosed(lines)
    ensures Collect(finders, lines, src).Err? <==>
      exists f :: f in finders && FinderHits(f, lines, src).Err?
    decreases |finders|
  {
    if finders != [] {
      var n := |finders| - 1;
      CollectFails(finders[..n], lines, src);
      assert finders == finders[..n] + [finders[n]];
    }
  }

  /** A failed search reports the error of one of the finders. */
  lemma {:induction false} CollectError(finders: seq<Finder>, lines: seq<string>, src: string)
    requires RolesClosed(lines)
    ensures Collect(finders, lines, src).Err? ==>
      exists i :: 0 <= i < |finders| && Collect(finders, lines, src) == FinderHits(finders[i], lines, src)
    decreases |finders|
  {
    if finders != [] {
      var n := |finders| - 1;
      CollectError(finders[..n], lines, src);
      if Collect(finders[..n], lines, src).Err? {
        var i :| 0 <= i < n && Collect(finders[..n], lines, src) == FinderHits(finders[..n][i], lines, src);
        assert finders[..n][i] == finders[i];
      }
    }
  }

  /** check_rst_references: every location names the source, and a failure is the
      failure of one of the role finders. */
  function References(lines: seq<string>, src: string): (r: Result<seq<Location>, Malformed>)
    requires RolesClosed(lines)
    ensures r.Ok? ==> forall loc :: loc in r.value ==> NamesSource(lines, loc, src)
    ensures r.Err? <==> RoleHits(Ref, lines, src).Err? || RoleHits(Doc, lines, src).Err? ||
                        RoleHits(Download, lines, src).Err?
  {
    CollectNames(Finders, lines, src);
    CollectFails(Finders, lines, src);
    FindersFail(lines, src);
    Collect(Finders, lines, src)
  }

  /** Of check_rst_references' finders only the three role finders can fail. */
  lemma FindersFail(lines: seq<string>, src: string)
    requires RolesClosed(lines)
    ensures (exists f :: f in Finders && FinderHits(f, lines, src).Err?) <==>
      RoleHits(Ref, lines, src).Err? || RoleHits(Doc, lines, src).Err? || RoleHits(Download, lines, src).Err?
  {
    forall f ensures FinderHits(f, lines, src).Err? <==>
      (f == Refs && RoleHits(Ref, lines, src).Err?) || (f == Docs && RoleHits(Doc, lines, src).Err?) ||
      (f == Downloads && RoleHits(Download, lines, src).Err?)
    {
      FinderFails(f, lines, src);
    }
    assert Refs in Finders && Docs in Finders && Downloads in Finders;
  }

  /** A finder fails only when it is a role finder whose scan fails. */
  lemma FinderFails(f: Finder, lines: seq<string>, src: string)
    requires RolesClosed(lines)
    ensures FinderHits(f, lines, src).Err? <==>
      (f == Refs && RoleHits(Ref, lines, src).Err?) || (f == Docs && RoleHits(Doc, lines, src).Err?) ||
      (f == Downloads && RoleHits(Download, lines, src).Err?)
  {
  }

  /** What the directive and toctree finders return. */
  lemma FinderHitsBare(lines: seq<string>, src: string)
    requires RolesClosed(lines)
    ensures FinderHits(Images, lines, src) == Ok(DirectiveHits(Image, lines, src))
    ensures FinderHits(Figures, lines, src) == Ok(DirectiveHits(Figure, lines, src))
    ensures FinderHits(LiteralIncludes, lines, src) == Ok(DirectiveHits(LiteralInclude, lines, src))
    ensures FinderHits(ToctreeEntries, lines, src) == Ok(ToctreeHits(lines, src))
  {
  }

  /** The finder check_rst_references runs for a role. */
  function RoleFinder(role: Role): Finder {
    match role
    case Ref => Refs
    case Doc => Docs
    case Download => Downloads
  }

  /** A role finder returns what the scan for its role returns. */
  lemma FinderHitsRole(role: Role, lines: seq<string>, src: string)
    requires RolesClosed(lines)
    ensures FinderHits(RoleFinder(role), lines, src) == RoleHits(role, lines, src)
  {
    match role
    case Ref =>
    case Doc =>
    case Download =>
  }

  /** One more finder whose locations follow those collected so far. */
  lemma CollectLast(finders: seq<Finder>, f: Finder, lines: seq<string>, src: string,
                    prev: seq<Location>, found: seq<Location>)
    requires RolesClosed(lines)
    requires Collect(finders, lines, src) == Ok(prev) && FinderHits(f, lines, src) == Ok(found)
    ensures Collect(finders + [f], lines, src) == Ok(prev + found)
  {
    assert (finders + [f])[..|finders|] == finders;
  }

  /** When every finder succeeds, the search returns their locations concatenated
      in the order of Finders. */
  lemma CollectInOrder(lines: seq<string>, src: string, images: seq<Location>, figures: seq<Location>,
                       includes: seq<Location>, entries: seq<Location>, refs: seq<Location>,
                       docs: seq<Location>, downloads: seq<Location>)
    requires RolesClosed(lines)
    requires FinderHits(Images, lines, src) == Ok(images) && FinderHits(Figures, lines, src) == Ok(figures)
    requires FinderHits(LiteralIncludes, lines, src) == Ok(includes)
    requires FinderHits(ToctreeEntries, lines, src) == Ok(entries)
    requires FinderHits(Refs, lines, src) == Ok(refs) && FinderHits(Docs, lines, src) == Ok(docs)
    requires FinderHits(Downloads, lines, src) == Ok(downloads)
    ensures Collect(Finders, lines, src) == Ok(images + figures + includes + entries + refs + docs + downloads)
  {
    var f1 := [Images];
    var f2 := f1 + [Figures];
    var f3 := f2 + [LiteralIncludes];
    var f4 := f3 + [ToctreeEntries];
    var f5 := f4 + [Refs];
    var f6 := f5 + [Docs];
    var f7 := f6 + [Downloads];
    assert Collect(f1, lines, src) == Ok(images) by {
      CollectLast([], Images, lines, src, [], images);
      assert [] + [Images] == f1 && [] + images == images;
    }
    CollectLast(f1, Figures, lines, src, images, figures);
    CollectLast(f2, LiteralIncludes, lines, src, images + figures, includes);
    CollectLast(f3, ToctreeEntries, lines, src, images + figures + includes, entries);
    CollectLast(f4, Refs, lines, src, images + figures + includes + entries, refs);
    CollectLast(f5, Docs, lines, src, images + figures + includes + entries + refs, docs);
    CollectLast(f6, Downloads, lines, src, images + figures + includes + entries + refs + docs, downloads);
    assert f7 == Finders;
  }

  /** When no role finder fails, the result is the locations of the image, figure,
      literalinclude, toctree, ref, doc and download finders, concatenated in that
      order. */
  lemma ReferencesOrder(lines: seq<string>, src: string)
    requires RolesClosed(lines)
    requires RoleHits(Ref, lines, src).Ok? && RoleHits(Doc, lines, src).Ok? && RoleHits(Download, lines, src).Ok?
    ensures References(lines, src) ==
      Ok(DirectiveHits(Image, lines, src) + DirectiveHits(Figure, lines, src) +
         DirectiveHits(LiteralInclude, lines, src) + ToctreeHits(lines, src) +
         RoleHits(Ref, lines, src).value + RoleHits(Doc, lines, src).value + RoleHits(Download, lines, src).value)
  {
    FinderHitsBare(lines, src);
    FinderHitsRole(Ref, lines, src);
    FinderHitsRole(Doc, lines, src);
    FinderHitsRole(Download, lines, src);
    CollectInOrder(lines, src, DirectiveHits(Image, lines, src), DirectiveHits(Figure, lines, src),
                   DirectiveHits(LiteralInclude, lines, src), ToctreeHits(lines, src),
                   RoleHits(Ref, lines, src).value, RoleHits(Doc, lines, src).value,
                   RoleHits(Download, lines, src).value);
  }

  /** Runs one finder. */
  method RunFinder(f: Finder, lines: seq<string>, src: string) returns (r: Result<seq<Location>, Malformed>)
    requires RolesClosed(lines)
    ensures r == FinderHits(f, lines, src)
  {
    match f {
      case Images =>
        var found := CheckForImageTag(Marker(Image), lines, src, true);
        r := Ok(found);
      case Figures =>
        var found := CheckForImageTag(Marker(Figure), lines, src, true);
        r := Ok(found);
      case LiteralIncludes =>
        var found := CheckForImageTag(Marker(LiteralInclude), lines, src, true);
        r := Ok(found);
      case ToctreeEntries =>
        var found := LookForToctrees(lines, src);
        r := Ok(found);
      case Refs =>
        r := LookForTag(Ref, lines, src);
      case Docs =>
        r := LookForTag(Doc, lines, src);
      case Downloads =>
        r := LookForTag(Download, lines, src);
    }
  }

  /** check_rst_references, one finder after another. */
  method CheckRstReferences(lines: seq<string>, src: string) returns (r: Result<seq<Location>, Malformed>)
    requires RolesClosed(lines)
    ensures r == References(lines, src)
  {
    var changes: seq<Location> := [];
    for i := 0 to |Finders|
      invariant Collect(Finders[..i], lines, src) == Ok(changes)
    {
      assert Finders[..i + 1][..i] == Finders[..i];
      var found := RunFinder(Finders[i], lines, src);
      if found.Err? {
        assert Collect(Finders[..i + 1], lines, src) == Err(found.error);
        CollectStops(Finders, i + 1, lines, src);
        assert Finders[..|Finders|] == Finders;
        return Err(found.error);
      }
      changes := changes + found.value;
    }
    assert Finders[..|Finders|] == Finders;
    r := Ok(changes);
  }

  /** Once the finders so far have failed, the whole search fails the same way. */
  lemma {:induction false} CollectStops(finders: seq<Finder>, k: nat, lines: seq<string>, src: string)
    requires RolesClosed(lines)
    requires k <= |finders| && Collect(finders[..k], lines, src).Err?
    ensures Collect(finders, lines, src) == Collect(finders[..k], lines, src)
    decreases |finders| - k
  {
    if k < |finders| {
      assert finders[..k + 1][..k] == finders[..k];
      CollectStops(finders, k + 1, lines, src);
    } else {
      assert finders[..k] == finders;
    }
  }
}
