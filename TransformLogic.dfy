/**
 * The transform-name classifier `ApplyConfigTransformInPlaceLogic.IsSupportedTransform`.
 * It runs the case-insensitive, unanchored pattern `([\w]+\.)[\w- ]+\.config`
 * over a file name and reports whether it matched and what the first group
 * (the destination prefix) captured.
 */
module TransformLogic {
  import opened Wrappers
  import opened Strings

  /** `\w`, over ASCII: a letter, a digit or '_'. */
  predicate IsWordChar(c: char)
  {
    'a' <= c <= 'z' || 'A' <= c <= 'Z' || '0' <= c <= '9' || c == '_'
  }

  /** `[\w- ]`: a word character, a hyphen or a space. */
  predicate IsMiddleChar(c: char)
  {
    IsWordChar(c) || c == '-' || c == ' '
  }

  const ConfigSuffix: string := ".config"

  /** `\.config` under RegexOptions.IgnoreCase, read at index j. */
  predicate ConfigSuffixAt(s: string, j: nat)
  {
    j + |ConfigSuffix| <= |s| &&
    Lower(s[j]) == '.' && Lower(s[j + 1]) == 'c' && Lower(s[j + 2]) == 'o' && Lower(s[j + 3]) == 'n' &&
    Lower(s[j + 4]) == 'f' && Lower(s[j + 5]) == 'i' && Lower(s[j + 6]) == 'g'
  }

  /** Reading `.config` at j is comparing the next seven characters with `.config` ignoring case. */
  lemma ConfigSuffixAtIs(s: string, j: nat)
    requires j + |ConfigSuffix| <= |s|
    ensures ConfigSuffixAt(s, j) <==> EqualsIgnoreCase(s[j..j + |ConfigSuffix|], ConfigSuffix)
  {
    var w := s[j..j + |ConfigSuffix|];
    assert forall n :: 0 <= n < |ConfigSuffix| ==> w[n] == s[j + n] && Lower(ConfigSuffix[n]) == ConfigSuffix[n];
  }

  /** End of the longest run of word characters starting at i. */
  function WordRunEnd(s: string, i: nat): (k: nat)
    requires i <= |s|
    ensures i <= k <= |s|
    ensures forall t :: i <= t < k ==> IsWordChar(s[t])
    ensures k < |s| ==> !IsWordChar(s[k])
    decreases |s| - i
  {
    if i < |s| && IsWordChar(s[i]) then WordRunEnd(s, i + 1) else i
  }

  /** End of the longest run of middle characters starting at i. */
  function MiddleRunEnd(s: string, i: nat): (j: nat)
    requires i <= |s|
    ensures i <= j <= |s|
    ensures forall t :: i <= t < j ==> IsMiddleChar(s[t])
    ensures j < |s| ==> !IsMiddleChar(s[j])
    decreases |s| - i
  {
    if i < |s| && IsMiddleChar(s[i]) then MiddleRunEnd(s, i + 1) else i
  }

  /**
   * The pattern matches at index i, as the backtracking matcher decides it. Neither
   * class contains '.', so a shorter run than the longest one is always followed by
   * a class character rather than the '.' the pattern needs: both runs are maximal.
   */
  predicate MatchesAt(s: string, i: nat)
  {
    i < |s| &&
    var k := WordRunEnd(s, i);
    i < k < |s| && s[k] == '.' &&
    var j := MiddleRunEnd(s, k + 1);
    k + 1 < j && ConfigSuffixAt(s, j)
  }

  /** What group 1, `([\w]+\.)`, captures in a match at i. */
  function GroupOne(s: string, i: nat): string
    requires MatchesAt(s, i)
  {
    s[i..WordRunEnd(s, i) + 1]
  }

  /**
   * The pattern written out with explicit boundaries: group 1 is s[i..k+1], the
   * middle run is s[k+1..j] and `.config` starts at j.
   */
  ghost predicate PatternMatch(s: string, i: nat, k: nat, j: nat)
  {
    i < k && k + 1 < j && j + |ConfigSuffix| <= |s| &&
    (forall t :: i <= t < k ==> IsWordChar(s[t])) &&
    s[k] == '.' &&
    (forall t :: k < t < j ==> IsMiddleChar(s[t])) &&
    ConfigSuffixAt(s, j)
  }

  /** A destination prefix: one or more word characters and then a single '.'. */
  predicate IsPrefixShape(p: string)
  {
    |p| >= 2 && p[|p| - 1] == '.' && forall t :: 0 <= t < |p| - 1 ==> IsWordChar(p[t])
  }

  /** The leftmost index at or after `from` where the pattern matches. */
  function FindMatch(s: string, from: nat): Option<nat>
    requires from <= |s|
    decreases |s| - from
  {
    if from == |s| then None
    else if MatchesAt(s, from) then Some(from)
    else FindMatch(s, from + 1)
  }

  /** The search returns an index where the pattern matches, and no index before it matches. */
  lemma {:induction false} FindMatchSpec(s: string, from: nat)
    requires from <= |s|
    ensures FindMatch(s, from).Some? ==>
      from <= FindMatch(s, from).value < |s| && MatchesAt(s, FindMatch(s, from).value)
    ensures forall t :: from <= t < |s| && (FindMatch(s, from).None? || t < FindMatch(s, from).value) ==>
      !MatchesAt(s, t)
    decreases |s| - from
  {
    if from < |s| && !MatchesAt(s, from) {
      FindMatchSpec(s, from + 1);
    }
  }

  datatype Classification = Classification(isSupported: bool, destinationPrefix: string)

  /**
   * `IsSupportedTransform(fileName, out destinationPrefix)`: the boolean result and
   * the out parameter, which starts as "" and takes group 1 of the first match.
   */
  function IsSupportedTransform(fileName: string): (r: Classification)
    ensures !r.isSupported ==> r.destinationPrefix == ""
    ensures r.isSupported ==> IsPrefixShape(r.destinationPrefix)
    ensures r.isSupported ==> Contains(fileName, r.destinationPrefix)
  {
    match FindMatch(fileName, 0)
    case None => Classification(false, "")
    case Some(i) =>
      FindMatchSpec(fileName, 0);
      GroupOneShape(fileName, i);
      Classification(true, GroupOne(fileName, i))
  }

  /** The name is supported exactly when the pattern matches at some index of it. */
  lemma SupportedIffMatchSomewhere(fileName: string)
    ensures IsSupportedTransform(fileName).isSupported <==> exists i :: 0 <= i < |fileName| && MatchesAt(fileName, i)
  {
    FindMatchSpec(fileName, 0);
  }

  lemma GroupOneShape(s: string, i: nat)
    requires MatchesAt(s, i)
    ensures IsPrefixShape(GroupOne(s, i)) && OccursAt(s, GroupOne(s, i), i)
  {
    var k := WordRunEnd(s, i);
    var g := GroupOne(s, i);
    assert |g| == k + 1 - i && g[|g| - 1] == s[k];
    forall t | 0 <= t < |g| - 1 ensures IsWordChar(g[t]) {
      assert g[t] == s[i + t];
    }
  }

  // ---------------------------------------------------------------------------
  // The run ends are determined by their defining properties.

  lemma WordRunEndIs(s: string, i: nat, k: nat)
    requires i <= k <= |s|
    requires forall t :: i <= t < k ==> IsWordChar(s[t])
    requires k < |s| ==> !IsWordChar(s[k])
    ensures WordRunEnd(s, i) == k
  {
    var e := WordRunEnd(s, i);
  }

  lemma MiddleRunEndIs(s: string, i: nat, j: nat)
    requires i <= j <= |s|
    requires forall t :: i <= t < j ==> IsMiddleChar(s[t])
    requires j < |s| ==> !IsMiddleChar(s[j])
    ensures MiddleRunEnd(s, i) == j
  {
    var e := MiddleRunEnd(s, i);
  }

  /** Case folding keeps every character class the pattern uses. */
  lemma LowerKeepsClasses(c: char)
    ensures IsWordChar(Lower(c)) == IsWordChar(c)
    ensures IsMiddleChar(Lower(c)) == IsMiddleChar(c)
    ensures (Lower(c) == '.') == (c == '.')
  {
  }

  /** A text that folds to `.config` starts with '.' and continues with word characters. */
  lemma ConfigSuffixShape(sfx: string)
    requires EqualsIgnoreCase(sfx, ConfigSuffix)
    ensures |sfx| == |ConfigSuffix| && sfx[0] == '.'
    ensures forall t :: 1 <= t < |sfx| ==> IsWordChar(sfx[t])
  {
    LowerKeepsClasses(sfx[0]);
    forall t | 1 <= t < |sfx| ensures IsWordChar(sfx[t]) {
      LowerKeepsClasses(sfx[t]);
      assert Lower(sfx[t]) == Lower(ConfigSuffix[t]) == ConfigSuffix[t];
    }
  }

  // ---------------------------------------------------------------------------
  // The deterministic reading of the pattern agrees with the pattern itself.

  /** Any way of matching at i has its '.' and its `.config` exactly where the maximal runs end. */
  lemma PatternMatchDeterministic(s: string, i: nat, k: nat, j: nat)
    requires PatternMatch(s, i, k, j)
    ensures WordRunEnd(s, i) == k && MiddleRunEnd(s, k + 1) == j
    ensures MatchesAt(s, i) && GroupOne(s, i) == s[i..k + 1]
  {
    WordRunEndIs(s, i, k);
    LowerKeepsClasses(s[j]);
    MiddleRunEndIs(s, k + 1, j);
  }

  /** A match found by the maximal runs is a match of the pattern. */
  lemma MatchesAtIsPatternMatch(s: string, i: nat)
    requires MatchesAt(s, i)
    ensures PatternMatch(s, i, WordRunEnd(s, i), MiddleRunEnd(s, WordRunEnd(s, i) + 1))
  {
  }

  /** No occurrence of the pattern starts before the first index where the matcher succeeds. */
  lemma NoPatternBefore(s: string, i: nat)
    requires forall t :: 0 <= t < i ==> !MatchesAt(s, t)
    ensures forall i': nat, k': nat, j': nat :: PatternMatch(s, i', k', j') ==> i <= i'
  {
    forall i': nat, k': nat, j': nat | PatternMatch(s, i', k', j') ensures i <= i' {
      PatternMatchDeterministic(s, i', k', j');
    }
  }

  /** The pattern matches at i with boundaries k and j, and at no index before i. */
  ghost predicate LeftmostPatternMatch(s: string, i: nat, k: nat, j: nat)
  {
    PatternMatch(s, i, k, j) && forall i': nat, k': nat, j': nat :: PatternMatch(s, i', k', j') ==> i <= i'
  }

  /** When the matcher finds nothing, the pattern occurs nowhere. */
  lemma NoMatchNoPattern(s: string)
    requires FindMatch(s, 0).None?
    ensures forall i: nat, k: nat, j: nat :: !PatternMatch(s, i, k, j)
  {
    FindMatchSpec(s, 0);
    NoPatternBefore(s, |s|);
  }

  /** The classifier reports support exactly when the pattern occurs somewhere in the name. */
  lemma SupportedIffPatternOccurs(s: string)
    ensures IsSupportedTransform(s).isSupported <==> exists i: nat, k: nat, j: nat :: PatternMatch(s, i, k, j)
  {
    match FindMatch(s, 0)
    case None =>
      NoMatchNoPattern(s);
    case Some(i) =>
      FindMatchSpec(s, 0);
      var k := WordRunEnd(s, i);
      MatchesAtIsPatternMatch(s, i);
      assert PatternMatch(s, i, k, MiddleRunEnd(s, k + 1));
  }

  /**
   * The prefix of a supported name is group 1 of the leftmost occurrence of the
   * pattern: the occurrence starting at i, with its '.' at k and `.config` at j.
   */
  lemma PrefixIsLeftmostGroup(s: string) returns (i: nat, k: nat, j: nat)
    requires IsSupportedTransform(s).isSupported
    ensures LeftmostPatternMatch(s, i, k, j)
    ensures IsSupportedTransform(s).destinationPrefix == s[i..k + 1]
  {
    FindMatchSpec(s, 0);
    i := FindMatch(s, 0).value;
    k := WordRunEnd(s, i);
    j := MiddleRunEnd(s, k + 1);
    MatchesAtIsPatternMatch(s, i);
    NoPatternBefore(s, i);
  }

  // ---------------------------------------------------------------------------
  // Names of the shape the convention describes.

  /**
   * `W.M.config`, with any casing of `.config` and anything after it, is supported
   * with prefix `W.`, in the casing of the input.
   */
  lemma ThreeSegmentNameSupported(w: string, m: string, sfx: string, tail: string)
    requires |w| > 0 && forall t :: 0 <= t < |w| ==> IsWordChar(w[t])
    requires |m| > 0 && forall t :: 0 <= t < |m| ==> IsMiddleChar(m[t])
    requires EqualsIgnoreCase(sfx, ConfigSuffix)
    ensures IsSupportedTransform(w + "." + m + sfx + tail) == Classification(true, w + ".")
  {
    var s := w + "." + m + sfx + tail;
    var k := |w|;
    var j := |w| + 1 + |m|;
    ConfigSuffixShape(sfx);
    forall t | 0 <= t < k ensures IsWordChar(s[t]) {
      assert s[t] == w[t];
    }
    forall t | k < t < j ensures IsMiddleChar(s[t]) {
      assert s[t] == m[t - k - 1];
    }
    assert s[k] == '.';
    assert s[j..j + |ConfigSuffix|] == sfx;
    ConfigSuffixAtIs(s, j);
    assert PatternMatch(s, 0, k, j);
    PatternMatchDeterministic(s, 0, k, j);
    assert s[0..k + 1] == w + ".";
  }

  /** `W.config`, with any casing of `.config`, has no middle segment and is not supported. */
  lemma TwoSegmentNameRejected(w: string, sfx: string)
    requires |w| > 0 && forall t :: 0 <= t < |w| ==> IsWordChar(w[t])
    requires EqualsIgnoreCase(sfx, ConfigSuffix)
    ensures IsSupportedTransform(w + sfx) == Classification(false, "")
  {
    var s := w + sfx;
    var n := |w|;
    ConfigSuffixShape(sfx);
    assert forall t :: 0 <= t < n ==> IsWordChar(s[t]);
    assert s[n] == '.';
    assert forall t :: n < t < |s| ==> IsWordChar(s[t]) && IsMiddleChar(s[t]);
    forall i | 0 <= i < |s| ensures !MatchesAt(s, i) {
      if i < n {
        WordRunEndIs(s, i, n);
        MiddleRunEndIs(s, n + 1, |s|);
      } else if i == n {
        WordRunEndIs(s, i, n);
      } else {
        WordRunEndIs(s, i, |s|);
      }
    }
    SupportedIffMatchSomewhere(s);
  }

  /** `web.config` and `Web.Config` are rejected with an empty prefix, as the unit tests expect. */
  lemma RejectedTestCases()
    ensures IsSupportedTransform("web.config") == Classification(false, "")
    ensures IsSupportedTransform("Web.Config") == Classification(false, "")
  {
    TwoSegmentNameRejected("web", ".config");
    assert "web" + ".config" == "web.config";
    TwoSegmentNameRejected("Web", ".Config");
    assert "Web" + ".Config" == "Web.Config";
  }

  /** The accepted names of the unit tests, as (word, middle, suffix), and one with an upper-case suffix. */
  const AcceptedTestNames: seq<(string, string, string)> := [
    ("web", "anything", ".config"), ("saml", "anything", ".config"), ("app", "anything", ".config"),
    ("app", "Dev_1", ".config"), ("app", "Dev-1", ".config"), ("app", "123", ".config"),
    ("App", "Release", ".CONFIG")]

  lemma AcceptedTestCases()
    ensures forall n :: 0 <= n < |AcceptedTestNames| ==>
      var (w, m, sfx) := AcceptedTestNames[n];
      IsSupportedTransform(w + "." + m + sfx) == Classification(true, w + ".")
  {
    forall n | 0 <= n < |AcceptedTestNames|
      ensures var (w, m, sfx) := AcceptedTestNames[n];
        IsSupportedTransform(w + "." + m + sfx) == Classification(true, w + ".")
    {
      var (w, m, sfx) := AcceptedTestNames[n];
      AcceptedName(w, m, sfx);
    }
  }

  lemma AcceptedName(w: string, m: string, sfx: string)
    requires |w| > 0 && forall t :: 0 <= t < |w| ==> IsWordChar(w[t])
    requires |m| > 0 && forall t :: 0 <= t < |m| ==> IsMiddleChar(m[t])
    requires EqualsIgnoreCase(sfx, ConfigSuffix)
    ensures IsSupportedTransform(w + "." + m + sfx) == Classification(true, w + ".")
  {
    ThreeSegmentNameSupported(w, m, sfx, "");
    assert w + "." + m + sfx + "" == w + "." + m + sfx;
  }

  // ---------------------------------------------------------------------------
  // Case insensitivity and the unanchored search.

  /** Case folding keeps the class of every character of a name. */
  lemma FoldCaseKeepsClasses(s: string)
    ensures forall t :: 0 <= t < |s| ==> IsWordChar(FoldCase(s)[t]) == IsWordChar(s[t])
    ensures forall t :: 0 <= t < |s| ==> IsMiddleChar(FoldCase(s)[t]) == IsMiddleChar(s[t])
    ensures forall t :: 0 <= t < |s| ==> (FoldCase(s)[t] == '.') == (s[t] == '.')
  {
    forall t | 0 <= t < |s| ensures IsWordChar(FoldCase(s)[t]) == IsWordChar(s[t]) &&
      IsMiddleChar(FoldCase(s)[t]) == IsMiddleChar(s[t]) && (FoldCase(s)[t] == '.') == (s[t] == '.') {
      LowerKeepsClasses(s[t]);
    }
  }

  lemma ConfigSuffixAtIgnoresCase(s: string, j: nat)
    ensures ConfigSuffixAt(FoldCase(s), j) == ConfigSuffixAt(s, j)
  {
  }

  lemma RunEndsIgnoreCase(s: string, i: nat)
    requires i <= |s|
    ensures WordRunEnd(FoldCase(s), i) == WordRunEnd(s, i)
    ensures MiddleRunEnd(FoldCase(s), i) == MiddleRunEnd(s, i)
  {
    FoldCaseKeepsClasses(s);
    WordRunEndIs(FoldCase(s), i, WordRunEnd(s, i));
    MiddleRunEndIs(FoldCase(s), i, MiddleRunEnd(s, i));
  }

  lemma MatchesAtIgnoresCase(s: string, i: nat)
    ensures MatchesAt(FoldCase(s), i) == MatchesAt(s, i)
    ensures i < |s| ==> WordRunEnd(FoldCase(s), i) == WordRunEnd(s, i)
  {
    if i < |s| {
      RunEndsIgnoreCase(s, i);
      var k := WordRunEnd(s, i);
      if i < k < |s| {
        LowerKeepsClasses(s[k]);
        RunEndsIgnoreCase(s, k + 1);
        ConfigSuffixAtIgnoresCase(s, MiddleRunEnd(s, k + 1));
      }
    }
  }

  /** The search from any index finds the same leftmost match in a name and in its case-folded form. */
  lemma {:induction false} FindMatchIgnoresCase(s: string, from: nat)
    requires from <= |s|
    ensures FindMatch(FoldCase(s), from) == FindMatch(s, from)
    decreases |s| - from
  {
    var f := FoldCase(s);
    if from < |s| {
      MatchesAtIgnoresCase(s, from);
      FindMatchIgnoresCase(s, from + 1);
      if MatchesAt(s, from) {
        assert FindMatch(f, from) == Some(from) == FindMatch(s, from);
      } else {
        assert FindMatch(f, from) == FindMatch(f, from + 1);
        assert FindMatch(s, from) == FindMatch(s, from + 1);
      }
    } else {
      assert FindMatch(f, from) == None == FindMatch(s, from);
    }
  }

  lemma GroupOneIgnoresCase(s: string, i: nat)
    requires MatchesAt(s, i)
    ensures MatchesAt(FoldCase(s), i) && GroupOne(FoldCase(s), i) == FoldCase(GroupOne(s, i))
  {
    MatchesAtIgnoresCase(s, i);
    FoldCaseSlice(s, i, WordRunEnd(s, i) + 1);
  }

  /**
   * Classifying the case-folded name gives the same verdict, and the case-folded
   * prefix: matching ignores case, the captured prefix keeps the input's casing.
   */
  lemma ClassificationIgnoresCase(s: string)
    ensures IsSupportedTransform(FoldCase(s)) ==
      Classification(IsSupportedTransform(s).isSupported, FoldCase(IsSupportedTransform(s).destinationPrefix))
  {
    FindMatchIgnoresCase(s, 0);
    match FindMatch(s, 0)
    case None =>
      assert FoldCase("") == "";
    case Some(i) =>
      FindMatchSpec(s, 0);
      GroupOneIgnoresCase(s, i);
  }

  lemma WordRunInContext(p: string, s: string, q: string, i: nat)
    requires i <= |s| && WordRunEnd(s, i) < |s|
    ensures WordRunEnd(p + s + q, |p| + i) == |p| + WordRunEnd(s, i)
  {
    var big := p + s + q;
    var k := WordRunEnd(s, i);
    forall t | |p| + i <= t <= |p| + k ensures big[t] == s[t - |p|] {
    }
    WordRunEndIs(big, |p| + i, |p| + k);
  }

  lemma MiddleRunInContext(p: string, s: string, q: string, i: nat)
    requires i <= |s| && MiddleRunEnd(s, i) < |s|
    ensures MiddleRunEnd(p + s + q, |p| + i) == |p| + MiddleRunEnd(s, i)
  {
    var big := p + s + q;
    var j := MiddleRunEnd(s, i);
    forall t | |p| + i <= t <= |p| + j ensures big[t] == s[t - |p|] {
    }
    MiddleRunEndIs(big, |p| + i, |p| + j);
  }

  lemma ConfigSuffixInContext(p: string, s: string, q: string, j: nat)
    requires ConfigSuffixAt(s, j)
    ensures ConfigSuffixAt(p + s + q, |p| + j)
  {
  }

  /** A match at i in `s` is a match at |p| + i in `p + s + q`. */
  lemma MatchInContext(p: string, s: string, q: string, i: nat)
    requires MatchesAt(s, i)
    ensures MatchesAt(p + s + q, |p| + i)
  {
    var big := p + s + q;
    var k := WordRunEnd(s, i);
    var j := MiddleRunEnd(s, k + 1);
    WordRunInContext(p, s, q, i);
    MiddleRunInContext(p, s, q, k + 1);
    ConfigSuffixInContext(p, s, q, j);
    assert big[|p| + k] == s[k];
  }

  /** Text before or after a supported name does not stop the pattern from matching. */
  lemma SupportedInAnyContext(p: string, s: string, q: string)
    requires IsSupportedTransform(s).isSupported
    ensures IsSupportedTransform(p + s + q).isSupported
  {
    FindMatchSpec(s, 0);
    MatchInContext(p, s, q, FindMatch(s, 0).value);
    SupportedIffMatchSomewhere(p + s + q);
  }
}
