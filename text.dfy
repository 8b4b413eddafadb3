/**
 * The few operations on Python `str` values that the reference scanner relies on:
 * `find`, `strip`, whitespace, clamped slicing and `endswith`, with the facts about
 * them that the scanner's proofs use.
 */
module Text {

  /** `sub` occurs in `s` starting at index `i`. */
  predicate OccursAt(s: string, sub: string, i: int) {
    0 <= i && i + |sub| <= |s| && s[i..i + |sub|] == sub
  }

  /** Python's `s.find(sub, start)` for a non-negative `start`: an index at or after
      `start` where `sub` occurs, or -1 (FindFirst: the least such index). */
  function Find(s: string, sub: string, start: nat): (r: int)
    ensures r == -1 || (start <= r && OccursAt(s, sub, r))
    decreases |s| - start
  {
    if start + |sub| > |s| then -1
    else if s[start..start + |sub|] == sub then start
    else Find(s, sub, start + 1)
  }

  /** `find` returns the first occurrence: none lies between `start` and its result,
      and none at all when it returns -1. */
  lemma {:induction false} FindFirst(s: string, sub: string, start: nat)
    ensures forall j :: start <= j && (Find(s, sub, start) == -1 || j < Find(s, sub, start)) ==> !OccursAt(s, sub, j)
    decreases |s| - start
  {
    if start + |sub| <= |s| && s[start..start + |sub|] != sub {
      FindFirst(s, sub, start + 1);
    }
  }

  /** `find` returns the occurrence it is shown: one at `j` with none in between. */
  lemma FindIs(s: string, sub: string, start: nat, j: nat)
    requires start <= j && OccursAt(s, sub, j)
    requires forall i :: start <= i < j ==> !OccursAt(s, sub, i)
    ensures Find(s, sub, start) == j
  {
    FindFirst(s, sub, start);
  }

  /** Starting the search later changes nothing when `sub` does not occur in between. */
  lemma {:induction false} FindSkip(s: string, sub: string, a: nat, b: nat)
    requires a <= b
    requires forall i :: a <= i < b ==> !OccursAt(s, sub, i)
    ensures Find(s, sub, a) == Find(s, sub, b)
    decreases b - a
  {
    if a < b {
      FindSkip(s, sub, a + 1, b);
    }
  }

  /** Python's `s.find(c, start)` for a one-character needle `c`. */
  function FindChar(s: string, c: char, start: nat): (r: int)
    ensures r == -1 || (start <= r < |s| && s[r] == c)
    decreases |s| - start
  {
    if start >= |s| then -1
    else if s[start] == c then start
    else FindChar(s, c, start + 1)
  }

  /** The character is not found before the index `find` returns, nor anywhere at or
      after `start` when it returns -1. */
  lemma {:induction false} FindCharFirst(s: string, c: char, start: nat)
    ensures forall j :: start <= j < |s| && (FindChar(s, c, start) == -1 || j < FindChar(s, c, start)) ==> s[j] != c
    decreases |s| - start
  {
    if start < |s| && s[start] != c {
      FindCharFirst(s, c, start + 1);
    }
  }

  /** `find` returns `k` when the character sits at `k` and nowhere from `start`
      up to `k`. */
  lemma FindCharIs(s: string, c: char, start: nat, k: nat)
    requires start <= k < |s| && s[k] == c
    requires forall i :: start <= i < k ==> s[i] != c
    ensures FindChar(s, c, start) == k
  {
    FindCharBefore(s, c, start, k);
  }

  /** When the character sits at `k`, `find` from `start` up to `k` finds it at `k`
      or before. */
  lemma {:induction false} FindCharBefore(s: string, c: char, start: nat, k: nat)
    requires start <= k < |s| && s[k] == c
    ensures 0 <= FindChar(s, c, start) <= k
    decreases k - start
  {
    if s[start] != c {
      FindCharBefore(s, c, start + 1, k);
    }
  }

  /** The character is found exactly when it occurs at or after `start`, and nothing
      between `start` and where it is found is that character. */
  lemma FindCharFound(s: string, c: char, start: nat)
    ensures FindChar(s, c, start) >= 0 <==> c in Drop(s, start)
    ensures FindChar(s, c, start) >= 0 ==> c !in s[start..FindChar(s, c, start)]
  {
    FindCharFirst(s, c, start);
    var r := FindChar(s, c, start);
    if c in Drop(s, start) {
      var k :| 0 <= k < |Drop(s, start)| && Drop(s, start)[k] == c;
      assert s[start + k] == c;
    }
    if r >= 0 {
      assert Drop(s, start)[r - start] == c;
      var gap := s[start..r];
      forall j | 0 <= j < |gap| ensures gap[j] != c {
        assert gap[j] == s[start + j];
      }
    }
  }

  /** The one-character search is the general search with a needle of length one. */
  lemma FindCharAgrees(s: string, c: char, start: nat)
    ensures FindChar(s, c, start) == Find(s, [c], start)
  {
    FindCharFirst(s, c, start);
    FindFirst(s, [c], start);
    var r := FindChar(s, c, start);
    forall i | start <= i && (r == -1 || i < r) ensures !OccursAt(s, [c], i) {
      if i + 1 <= |s| {
        assert s[i..i + 1] == [s[i]];
      }
    }
    if r >= 0 {
      assert s[r..r + 1] == [c];
      FindIs(s, [c], start, r);
    }
  }

  /** Python's `str.isspace` for one character (also the class matched by `\s`). */
  predicate IsSpace(c: char) {
    var n := c as int;
    (9 <= n <= 13) || (28 <= n <= 32) || n == 0x85 || n == 0xA0 || n == 0x1680
    || (0x2000 <= n <= 0x200A) || n == 0x2028 || n == 0x2029 || n == 0x202F
    || n == 0x205F || n == 0x3000
  }

  /** Every character of `s` is whitespace. */
  predicate Blank(s: string) {
    forall i :: 0 <= i < |s| ==> IsSpace(s[i])
  }

  /** Python's `s.lstrip()`: TrimLeftFacts states what it removes. */
  function TrimLeft(s: string): (r: string)
    ensures |r| <= |s|
  {
    if s != [] && IsSpace(s[0]) then TrimLeft(s[1..]) else s
  }

  /** `lstrip` removes only whitespace, and stops at a character that is not. */
  lemma {:induction false} TrimLeftFacts(s: string)
    ensures TrimLeft(s) == s[|s| - |TrimLeft(s)|..]
    ensures Blank(s[..|s| - |TrimLeft(s)|])
    ensures TrimLeft(s) != [] ==> !IsSpace(TrimLeft(s)[0])
  {
    if s != [] && IsSpace(s[0]) {
      var tail := s[1..];
      var r := TrimLeft(tail);
      assert TrimLeft(s) == r;
      TrimLeftFacts(tail);
      assert r == s[|s| - |r|..] by {
        assert tail[|tail| - |r|..] == s[|s| - |r|..];
      }
      forall i | 0 < i < |s| - |r| ensures IsSpace(s[i]) {
        assert s[i] == tail[..|tail| - |r|][i - 1];
      }
    }
  }

  /** Python's `s.rstrip()`: TrimRightFacts states what it removes. */
  function TrimRight(s: string): (r: string)
    ensures |r| <= |s|
  {
    if s != [] && IsSpace(s[|s| - 1]) then TrimRight(s[..|s| - 1]) else s
  }

  /** `rstrip` removes only whitespace, and stops at a character that is not. */
  lemma {:induction false} TrimRightFacts(s: string)
    ensures TrimRight(s) == s[..|TrimRight(s)|]
    ensures Blank(s[|TrimRight(s)|..])
    ensures TrimRight(s) != [] ==> !IsSpace(TrimRight(s)[|TrimRight(s)| - 1])
  {
    if s != [] && IsSpace(s[|s| - 1]) {
      var init := s[..|s| - 1];
      var r := TrimRight(init);
      assert TrimRight(s) == r;
      TrimRightFacts(init);
      forall i | |r| <= i < |s| ensures IsSpace(s[i]) {
        if i < |s| - 1 {
          assert s[i] == init[|r|..][i - |r|];
        }
      }
    }
  }

  /** Python's `s.strip()`. */
  function Strip(s: string): (r: string)
    ensures |r| <= |s|
  {
    TrimRight(TrimLeft(s))
  }

  /** The start of the first match of the regular expression `\S` in `s`, or `|s|`. */
  function FirstNonSpace(s: string): (m: nat)
    ensures m <= |s| && Blank(s[..m])
    ensures m < |s| ==> !IsSpace(s[m])
  {
    var t := TrimLeft(s);
    TrimLeftFacts(s);
    assert t != [] ==> t[0] == s[|s| - |t|];
    |s| - |t|
  }

  /** Every character of `s` is whitespace or a character that `strip` keeps. */
  lemma StripCovers(s: string, i: int)
    requires 0 <= i < |s|
    ensures IsSpace(s[i]) || s[i] in Strip(s)
  {
    var t := TrimLeft(s);
    var u := TrimRight(t);
    var a := |s| - |t|;
    TrimLeftFacts(s);
    TrimRightFacts(t);
    if i < a {
      assert s[..a][i] == s[i];
    } else if i - a < |u| {
      assert s[i] == t[i - a] == u[i - a];
    } else {
      assert s[i] == t[i - a] == t[|u|..][i - a - |u|];
    }
  }

  /** `strip` leaves nothing exactly when the text is blank. */
  lemma StripEmptyIffBlank(s: string)
    ensures Strip(s) == [] <==> Blank(s)
  {
    if Strip(s) == [] {
      forall i | 0 <= i < |s| ensures IsSpace(s[i]) {
        StripCovers(s, i);
      }
    } else {
      var t := TrimLeft(s);
      TrimLeftFacts(s);
      assert t != [] && t[0] == s[|s| - |t|];
    }
  }

  /** `strip` keeps the slice from the first to the last character that is not
      whitespace. */
  lemma StripShape(s: string) returns (a: nat, b: nat)
    ensures a <= b <= |s| && Strip(s) == s[a..b]
    ensures Blank(s[..a]) && Blank(s[b..])
    ensures a < b ==> !IsSpace(s[a]) && !IsSpace(s[b - 1])
  {
    var t := TrimLeft(s);
    TrimLeftFacts(s);
    var u := TrimRight(t);
    TrimRightFacts(t);
    a := |s| - |t|;
    b := a + |u|;
    assert Strip(s) == u == t[..|u|] == s[a..b];
    assert s[b..] == t[|u|..];
    if a < b {
      assert s[a] == t[0] == u[0];
      assert s[b - 1] == u[|u| - 1];
    }
  }

  /** Every character of `s` from index `a` up to (not including) `b` is whitespace;
      bounds outside `s` are clamped, as slice bounds are, so `SpacesIn(s, a, b)` is
      `s[a:b].strip() == ''` (StripSliceEmpty). */
  predicate SpacesIn(s: string, a: int, b: int) {
    forall i :: a <= i < b && 0 <= i < |s| ==> IsSpace(s[i])
  }

  /** A single '/' with nothing but whitespace around it from index `a` up to `b`:
      the slices `s[a:b]` that `strip` turns into "/" (StripSliceSlash). */
  predicate SlashAmid(s: string, a: int, b: int) {
    exists k :: a <= k < b && 0 <= k < |s| && s[k] == '/' && SpacesIn(s, a, k) && SpacesIn(s, k + 1, b)
  }

  /** Whitespace in a part of a slice is whitespace in the same part of the text. */
  lemma SpacesInSub(s: string, a: nat, b: nat, c: nat, d: nat)
    requires a <= b <= |s| && c <= d <= b - a
    ensures SpacesIn(s[a..b], c, d) <==> SpacesIn(s, a + c, a + d)
  {
    var t := s[a..b];
    if SpacesIn(t, c, d) {
      forall i | a + c <= i < a + d && 0 <= i < |s| ensures IsSpace(s[i]) {
        assert t[i - a] == s[i];
      }
    }
    if SpacesIn(s, a + c, a + d) {
      forall i | c <= i < d && 0 <= i < |t| ensures IsSpace(t[i]) {
        assert t[i] == s[a + i];
      }
    }
  }

  /** `strip` gives "/" exactly for a single '/' surrounded by whitespace. */
  lemma StripIsSlash(s: string)
    ensures Strip(s) == "/" <==> SlashAmid(s, 0, |s|)
  {
    var a, b := StripShape(s);
    if Strip(s) == "/" {
      assert s[a] == '/' && b == a + 1;
      forall i | 0 <= i < a ensures IsSpace(s[i]) {
        assert s[..a][i] == s[i];
      }
      forall i | b <= i < |s| ensures IsSpace(s[i]) {
        assert s[b..][i - b] == s[i];
      }
      assert SpacesIn(s, 0, a) && SpacesIn(s, a + 1, |s|);
    }
    if SlashAmid(s, 0, |s|) {
      var k :| 0 <= k < |s| && s[k] == '/' && SpacesIn(s, 0, k) && SpacesIn(s, k + 1, |s|);
      assert !IsSpace(s[k]);
      assert a == k && b == k + 1;
      assert s[a..b] == [s[k]];
    }
  }

  /** `s[a:b].strip()` is empty exactly when `SpacesIn(s, a, b)`. */
  lemma StripSliceEmpty(s: string, a: nat, b: nat)
    requires a <= b <= |s|
    ensures Strip(s[a..b]) == [] <==> SpacesIn(s, a, b)
  {
    StripEmptyIffBlank(s[a..b]);
    SpacesInSub(s, a, b, 0, b - a);
  }

  /** `s[a:b].strip()` is "/" exactly when `SlashAmid(s, a, b)`. */
  lemma StripSliceSlash(s: string, a: nat, b: nat)
    requires a <= b <= |s|
    ensures Strip(s[a..b]) == "/" <==> SlashAmid(s, a, b)
  {
    var t := s[a..b];
    StripIsSlash(t);
    if SlashAmid(t, 0, |t|) {
      var k :| 0 <= k < |t| && t[k] == '/' && SpacesIn(t, 0, k) && SpacesIn(t, k + 1, |t|);
      SpacesInSub(s, a, b, 0, k);
      SpacesInSub(s, a, b, k + 1, |t|);
      assert s[a + k] == '/';
    }
    if SlashAmid(s, a, b) {
      var k :| a <= k < b && 0 <= k < |s| && s[k] == '/' && SpacesIn(s, a, k) && SpacesIn(s, k + 1, b);
      SpacesInSub(s, a, b, 0, k - a);
      SpacesInSub(s, a, b, k - a + 1, |t|);
      assert t[k - a] == '/';
    }
  }

  /** Whitespace, or a single '/' among whitespace, holds nothing else. */
  lemma SpaceOrSlashAt(s: string, a: int, b: int, i: int)
    requires SpacesIn(s, a, b) || SlashAmid(s, a, b)
    requires a <= i < b && 0 <= i < |s|
    ensures IsSpace(s[i]) || s[i] == '/'
  {
  }

  /** Stripping a text that starts with a non-space character only trims its end. */
  lemma StripFromNonSpace(s: string)
    requires s != [] && !IsSpace(s[0])
    ensures Strip(s) == TrimRight(s) && Strip(s) == s[..|Strip(s)|]
  {
    TrimRightFacts(s);
  }

  /** Python's `s[:n]` for `n >= 0`. */
  function Take(s: string, n: nat): (r: string)
    ensures |r| <= n && r <= s
    ensures n <= |s| ==> |r| == n
  {
    if n <= |s| then s[..n] else s
  }

  /** Python's `s[n:]` for `n >= 0`. */
  function Drop(s: string, n: nat): (r: string)
    ensures n <= |s| ==> r == s[n..]
    ensures n >= |s| ==> r == []
  {
    if n <= |s| then s[n..] else []
  }

  /** Python's `s[a:b]` for non-negative bounds. */
  function Slice(s: string, a: nat, b: nat): (r: string)
    ensures a <= b <= |s| ==> r == s[a..b]
    ensures b <= a ==> r == []
  {
    Drop(Take(s, b), a)
  }

  /** Python's `s[:-n]` for `n > 0`: all but the last `n` characters. */
  function DropLast(s: string, n: nat): (r: string)
    ensures n <= |s| ==> r == s[..|s| - n]
    ensures |s| <= n ==> r == []
  {
    if n <= |s| then s[..|s| - n] else []
  }

  /** Python's `s.endswith(suffix)`. */
  predicate EndsWith(s: string, suffix: string) {
    |suffix| <= |s| && s[|s| - |suffix|..] == suffix
  }

  /** pathlib's `p.suffix == '.rst'` for a path written as `p`: the last component
      ends in ".rst" and has at least one character before that dot. */
  predicate RstSuffix(p: string) {
    EndsWith(p, ".rst") && |p| >= 5 && p[|p| - 5] != '/'
  }
}
