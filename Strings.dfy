/**
 * The .NET string and path operations the command relies on, over ASCII text:
 * ignore-case comparison, String.IsNullOrWhiteSpace, FileInfo.Name
 * (Path.GetFileName), Path.GetExtension and the ordinal String.Replace.
 */
module Strings {

  /** Case folding shared by every ignore-case comparison (ASCII letters only). */
  function Lower(c: char): char
  {
    if 'A' <= c <= 'Z' then (c as int - 'A' as int + 'a' as int) as char else c
  }

  function FoldCase(s: string): (r: string)
    ensures |r| == |s|
    ensures forall i :: 0 <= i < |s| ==> r[i] == Lower(s[i])
  {
    seq(|s|, i requires 0 <= i < |s| => Lower(s[i]))
  }

  lemma FoldCaseSlice(s: string, a: nat, b: nat)
    requires a <= b <= |s|
    ensures FoldCase(s)[a..b] == FoldCase(s[a..b])
  {
  }

  /** `Equals(a, b, StringComparison.OrdinalIgnoreCase)` and its invariant-culture variant. */
  predicate EqualsIgnoreCase(a: string, b: string)
  {
    |a| == |b| && forall i :: 0 <= i < |a| ==> Lower(a[i]) == Lower(b[i])
  }

  /** `s.StartsWith(p, StringComparison.OrdinalIgnoreCase)`. */
  predicate StartsWithIgnoreCase(s: string, p: string)
  {
    |p| <= |s| && EqualsIgnoreCase(s[..|p|], p)
  }

  /** `s.EndsWith(p, StringComparison.OrdinalIgnoreCase)`. */
  predicate EndsWithIgnoreCase(s: string, p: string)
  {
    |p| <= |s| && EqualsIgnoreCase(s[|s| - |p|..], p)
  }

  /** `char.IsWhiteSpace` restricted to the control and Latin-1 range. */
  predicate IsWhiteSpace(c: char)
  {
    c == ' ' || '\t' <= c <= '\r' || c as int == 0x85 || c as int == 0xA0
  }

  /** `string.IsNullOrWhiteSpace` for a non-null string. */
  predicate IsNullOrWhiteSpace(s: string)
  {
    forall i :: 0 <= i < |s| ==> IsWhiteSpace(s[i])
  }

  /** Directory, alternate directory and volume separators of a Windows path. */
  predicate IsDirectorySeparator(c: char)
  {
    c == '\\' || c == '/' || c == ':'
  }

  predicate HasNoSeparator(s: string)
  {
    forall i :: 0 <= i < |s| ==> !IsDirectorySeparator(s[i])
  }

  /** Where the last path segment of `path[..k]` begins: just after its last separator, or 0. */
  function NameStart(path: string, k: nat): (r: nat)
    requires k <= |path|
    ensures r <= k
    ensures r > 0 ==> IsDirectorySeparator(path[r - 1])
    ensures forall i :: r <= i < k ==> !IsDirectorySeparator(path[i])
    decreases k
  {
    if k == 0 then 0
    else if IsDirectorySeparator(path[k - 1]) then k
    else NameStart(path, k - 1)
  }

  /** `Path.GetFileName` (and so `FileInfo.Name`): what follows the last separator. */
  function FileName(path: string): string
  {
    path[NameStart(path, |path|)..]
  }

  /** The file name is the longest separator-free suffix of the path. */
  lemma FileNameShape(path: string)
    ensures var name := FileName(path);
      |name| <= |path| && name == path[|path| - |name|..] && HasNoSeparator(name) &&
      (|name| < |path| ==> IsDirectorySeparator(path[|path| - |name| - 1]))
  {
    var r := NameStart(path, |path|);
    assert forall i :: 0 <= i < |path| - r ==> FileName(path)[i] == path[r + i];
  }

  /** The start of the last segment is fixed by its defining properties. */
  lemma NameStartIs(path: string, k: nat, r: nat)
    requires r <= k <= |path|
    requires r > 0 ==> IsDirectorySeparator(path[r - 1])
    requires forall i :: r <= i < k ==> !IsDirectorySeparator(path[i])
    ensures NameStart(path, k) == r
    decreases k
  {
    if k > r {
      NameStartIs(path, k - 1, r);
    }
  }

  /** A file name placed in a directory keeps its name: `Path.GetFileName(dir + name) == name`. */
  lemma FileNameOfJoin(dir: string, name: string)
    requires dir == [] || IsDirectorySeparator(dir[|dir| - 1])
    requires HasNoSeparator(name)
    ensures FileName(dir + name) == name
  {
    var path := dir + name;
    forall i | |dir| <= i < |path| ensures !IsDirectorySeparator(path[i]) {
      assert path[i] == name[i - |dir|];
    }
    NameStartIs(path, |path|, |dir|);
    assert path[|dir|..] == name;
  }

  /** Index of the last '.' in `s[..k]`, or -1. */
  function LastDot(s: string, k: nat): (r: int)
    requires k <= |s|
    ensures -1 <= r < k
    ensures r >= 0 ==> s[r] == '.'
    ensures forall i :: r < i < k ==> s[i] != '.'
    decreases k
  {
    if k == 0 then -1
    else if s[k - 1] == '.' then k - 1
    else LastDot(s, k - 1)
  }

  /**
   * `Path.GetExtension`: from the last '.' of the file name to the end, or empty
   * when the name has no '.' or ends with one.
   */
  function Extension(path: string): (ext: string)
    ensures |ext| <= |path|
    ensures ext != [] ==> |ext| >= 2 && ext[0] == '.' && ext == path[|path| - |ext|..]
    ensures ext != [] ==> forall i :: 1 <= i < |ext| ==> ext[i] != '.' && !IsDirectorySeparator(ext[i])
  {
    var name := FileName(path);
    var k := LastDot(name, |name|);
    if k < 0 || k == |name| - 1 then []
    else
      DotTailOfPath(path, k);
      name[k..]
  }

  /** The part of the file name from a dot with no dot after it ends the path and holds no dot or separator. */
  lemma DotTailOfPath(path: string, k: nat)
    requires k < |FileName(path)|
    requires forall i :: k < i < |FileName(path)| ==> FileName(path)[i] != '.'
    ensures var ext := FileName(path)[k..];
      ext == path[|path| - |ext|..] &&
      forall i :: 1 <= i < |ext| ==> ext[i] != '.' && !IsDirectorySeparator(ext[i])
  {
    var r := NameStart(path, |path|);
    var name := FileName(path);
    assert name == path[r..];
    assert name[k..] == path[r + k..];
    forall i | 0 <= i < |name| ensures !IsDirectorySeparator(name[i]) {
      assert name[i] == path[r + i];
    }
    TailAfterLastDot(name, k);
  }

  /** After the last dot of a separator-free name, there is no dot and no separator. */
  lemma TailAfterLastDot(name: string, k: nat)
    requires k < |name| && HasNoSeparator(name)
    requires forall i :: k < i < |name| ==> name[i] != '.'
    ensures forall i :: 1 <= i < |name| - k ==> name[k..][i] != '.' && !IsDirectorySeparator(name[k..][i])
  {
    forall i | 1 <= i < |name| - k ensures name[k..][i] != '.' && !IsDirectorySeparator(name[k..][i]) {
      assert name[k..][i] == name[k + i];
    }
  }

  /** The last dot is fixed by its defining properties. */
  lemma LastDotIs(s: string, k: nat, r: nat)
    requires r < k <= |s| && s[r] == '.'
    requires forall i :: r < i < k ==> s[i] != '.'
    ensures LastDot(s, k) == r
    decreases k
  {
    if k > r + 1 {
      LastDotIs(s, k - 1, r);
    }
  }

  /** A path that ends in `.ext`, where `ext` has no dot and no separator, has the extension `.ext`. */
  lemma ExtensionOfSuffix(p: string, e: string)
    requires |e| >= 2 && e[0] == '.'
    requires forall i :: 1 <= i < |e| ==> e[i] != '.' && !IsDirectorySeparator(e[i])
    ensures Extension(p + e) == e
  {
    var path := p + e;
    var r := NameStart(path, |path|);
    forall i | |p| <= i < |path| ensures !IsDirectorySeparator(path[i]) && (i > |p| ==> path[i] != '.') {
      assert path[i] == e[i - |p|];
    }
    assert r <= |p| by {
      if r > 0 { assert IsDirectorySeparator(path[r - 1]); }
    }
    var name := FileName(path);
    var d := |p| - r;
    assert name[d] == path[|p|] == '.';
    forall i | d < i < |name| ensures name[i] != '.' {
      assert name[i] == path[r + i];
    }
    LastDotIs(name, |name|, d);
    assert name[d..] == e;
  }

  /** `s` has an occurrence of `pat` starting at index `p`. */
  predicate OccursAt(s: string, pat: string, p: nat)
  {
    p + |pat| <= |s| && s[p..p + |pat|] == pat
  }

  predicate Contains(s: string, pat: string)
  {
    exists p: nat :: p < |s| + 1 && OccursAt(s, pat, p)
  }

  /**
   * The ordinal `s.Replace(pat, repl)`: every non-overlapping occurrence of `pat`,
   * scanning left to right, is replaced. .NET rejects an empty `pat`.
   */
  function Replace(s: string, pat: string, repl: string): string
    requires |pat| > 0
    decreases |s|
  {
    if |s| < |pat| then s
    else if s[..|pat|] == pat then repl + Replace(s[|pat|..], pat, repl)
    else [s[0]] + Replace(s[1..], pat, repl)
  }

  lemma ShiftedOccurrence(s: string, pat: string, p: nat)
    requires |s| > 0
    ensures OccursAt(s[1..], pat, p) <==> OccursAt(s, pat, p + 1)
  {
    if p + |pat| <= |s[1..]| {
      assert s[1..][p..p + |pat|] == s[p + 1..p + 1 + |pat|];
    }
  }

  /** Replacing a pattern that does not occur leaves the string as it is. */
  lemma {:induction false} ReplaceWithoutOccurrence(s: string, pat: string, repl: string)
    requires |pat| > 0 && !Contains(s, pat)
    ensures Replace(s, pat, repl) == s
    decreases |s|
  {
    if |s| >= |pat| {
      assert !OccursAt(s, pat, 0);
      assert s[..|pat|] != pat;
      forall p: nat ensures !OccursAt(s[1..], pat, p) {
        ShiftedOccurrence(s, pat, p);
      }
      ReplaceWithoutOccurrence(s[1..], pat, repl);
      assert s == [s[0]] + s[1..];
    }
  }

  /**
   * When no occurrence of `pat` starts inside `head`, replacing in `head + tail`
   * leaves `head` alone and replaces in `tail` only.
   */
  lemma {:induction false} ReplaceAfterHead(head: string, tail: string, pat: string, repl: string)
    requires |pat| > 0
    requires forall p: nat :: p < |head| ==> !OccursAt(head + tail, pat, p)
    ensures Replace(head + tail, pat, repl) == head + Replace(tail, pat, repl)
    decreases |head|
  {
    if head != [] {
      var s := head + tail;
      assert !OccursAt(s, pat, 0);
      assert s[1..] == head[1..] + tail;
      forall p: nat | p < |head| - 1 ensures !OccursAt(head[1..] + tail, pat, p) {
        ShiftedOccurrence(s, pat, p);
      }
      ReplaceAfterHead(head[1..], tail, pat, repl);
      if |s| >= |pat| {
        assert s[..|pat|] != pat;
        calc {
          Replace(s, pat, repl);
          [s[0]] + Replace(s[1..], pat, repl);
          [head[0]] + (head[1..] + Replace(tail, pat, repl));
          { assert head == [head[0]] + head[1..]; }
          head + Replace(tail, pat, repl);
        }
      } else {
        assert |tail| < |pat|;
        assert Replace(tail, pat, repl) == tail;
      }
    } else {
      assert head + tail == tail;
    }
  }

  /** Replacing a whole string that equals the pattern gives the replacement. */
  lemma ReplaceWhole(pat: string, repl: string)
    requires |pat| > 0
    ensures Replace(pat, pat, repl) == repl
  {
    assert pat[..|pat|] == pat;
    assert pat[|pat|..] == [];
  }

  /**
   * In `dir + name`, where `dir` is empty or ends with a separator and `name` has
   * none, the only occurrences of `name` that start inside `dir` lie inside `dir`.
   */
  lemma OccurrencesBeforeName(dir: string, name: string)
    requires dir == [] || IsDirectorySeparator(dir[|dir| - 1])
    requires HasNoSeparator(name) && !Contains(dir, name)
    ensures forall p: nat :: p < |dir| ==> !OccursAt(dir + name, name, p)
  {
    forall p: nat | p < |dir| ensures !OccursAt(dir + name, name, p) {
      if p + |name| <= |dir| {
        assert (dir + name)[p..p + |name|] == dir[p..p + |name|];
        assert !OccursAt(dir, name, p);
      } else {
        assert (dir + name)[|dir| - 1] == dir[|dir| - 1];
      }
    }
  }

  /**
   * Replacing the file name of `dir + name` by `repl`, when the directory part does
   * not itself contain the name, gives the sibling `dir + repl`.
   */
  lemma ReplaceFileName(dir: string, name: string, repl: string)
    requires |name| > 0
    requires dir == [] || IsDirectorySeparator(dir[|dir| - 1])
    requires HasNoSeparator(name) && !Contains(dir, name)
    ensures Replace(dir + name, name, repl) == dir + repl
  {
    OccurrencesBeforeName(dir, name);
    ReplaceAfterHead(dir, name, name, repl);
    ReplaceWhole(name, repl);
  }
}
