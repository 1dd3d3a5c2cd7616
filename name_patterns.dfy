/**
 * The two regular expressions the validator runs on type names, with the
 * semantics of JavaScript's `RegExp.prototype.exec` for a fresh regex:
 * the match is unanchored, starts at the leftmost position where any match
 * exists, and its `.+` group is greedy. `.` matches every character except
 * the line terminators `\n`, `\r`, U+2028 and U+2029 (no `s` flag; the `m`
 * flag only affects `^` and `$`, which these patterns do not use).
 *
 * Both patterns have the shape `(?:lead alternatives)(?<nodeName>.+)(?:trail
 * alternatives)` with fixed literal alternatives, so one engine serves both.
 */
module NamePatterns {
  import opened Results

  /** The characters `.` does not match. */
  predicate IsLineTerminator(c: char) {
    c == '\n' || c == '\r' || c == '\U{2028}' || c == '\U{2029}'
  }

  /** `lead (.+) trail`, where every lead alternative has length `leadLen`. */
  datatype Pattern = Pattern(leads: seq<string>, leadLen: nat, trails: seq<string>)

  predicate WellFormed(p: Pattern) {
    forall k :: 0 <= k < |p.leads| ==> |p.leads[k]| == p.leadLen
  }

  /** One of `alts` occurs in `s` at position `k`. */
  predicate StartsWithOneOf(s: string, k: nat, alts: seq<string>)
    requires k <= |s|
  {
    exists m :: 0 <= m < |alts| && alts[m] <= s[k..]
  }

  /** The pattern matches `s` from position `i` with its group being `s[i + leadLen..j]`. */
  ghost predicate IsMatch(p: Pattern, s: string, i: int, j: int) {
    && 0 <= i
    && i + p.leadLen < j <= |s|
    && StartsWithOneOf(s, i, p.leads)
    && (forall k :: i + p.leadLen <= k < j ==> !IsLineTerminator(s[k]))
    && StartsWithOneOf(s, j, p.trails)
  }

  /** The match `exec` reports: leftmost start, then the longest group from that start. */
  ghost predicate IsExecMatch(p: Pattern, s: string, i: int, j: int) {
    && IsMatch(p, s, i, j)
    && (forall i', j' :: 0 <= i' < i ==> !IsMatch(p, s, i', j'))
    && (forall j' :: IsMatch(p, s, i, j') ==> j' <= j)
  }

  /** The end of the line that contains position `k`: how far a greedy `.+` from `k` can reach. */
  function LineEnd(s: string, k: nat): (e: nat)
    requires k <= |s|
    ensures k <= e <= |s|
    ensures forall m :: k <= m < e ==> !IsLineTerminator(s[m])
    ensures e < |s| ==> IsLineTerminator(s[e])
    decreases |s| - k
  {
    if k == |s| || IsLineTerminator(s[k]) then k else LineEnd(s, k + 1)
  }

  /** Backtracking of the greedy group: the last position in `(lo, hi]` where a trail alternative occurs. */
  function LastTrail(s: string, lo: nat, hi: nat, trails: seq<string>): (r: Option<nat>)
    requires lo <= hi <= |s|
    ensures r.Some? ==> lo < r.value <= hi && StartsWithOneOf(s, r.value, trails)
    ensures r.Some? ==> forall m :: r.value < m <= hi ==> !StartsWithOneOf(s, m, trails)
    ensures r.None? ==> forall m :: lo < m <= hi ==> !StartsWithOneOf(s, m, trails)
    decreases hi
  {
    if hi == lo then None
    else if StartsWithOneOf(s, hi, trails) then Some(hi)
    else LastTrail(s, lo, hi - 1, trails)
  }

  /** The regex engine's outer loop: try start positions `i`, `i + 1`, ... and report the first match found. */
  function MatchFrom(p: Pattern, s: string, i: nat): (r: Option<(nat, nat)>)
    requires WellFormed(p)
    ensures r.Some? ==> i <= r.value.0 && IsMatch(p, s, r.value.0, r.value.1)
    ensures r.Some? ==> forall i', j' :: i <= i' < r.value.0 ==> !IsMatch(p, s, i', j')
    ensures r.Some? ==> forall j' :: IsMatch(p, s, r.value.0, j') ==> j' <= r.value.1
    ensures r.None? ==> forall i', j' :: i <= i' ==> !IsMatch(p, s, i', j')
    decreases |s| + 1 - i
  {
    if i > |s| then None
    else if StartsWithOneOf(s, i, p.leads) && i + p.leadLen <= |s| then
      var g := i + p.leadLen;
      var e := LineEnd(s, g);
      match LastTrail(s, g, e, p.trails)
      case Some(j) => Some((i, j))
      case None => MatchFrom(p, s, i + 1)
    else
      MatchFrom(p, s, i + 1)
  }

  /** `pattern.exec(s)?.groups?.nodeName`: the group of the match `exec` reports, if any. */
  function ExecGroup(p: Pattern, s: string): (r: Option<string>)
    requires WellFormed(p)
    ensures r.None? <==> forall i, j :: !IsMatch(p, s, i, j)
    ensures r.Some? ==> exists i, j :: IsExecMatch(p, s, i, j) && r.value == s[i + p.leadLen..j]
    ensures r.Some? ==> forall i, j :: IsExecMatch(p, s, i, j) ==> r.value == s[i + p.leadLen..j]
    ensures r.Some? ==> |r.value| > 0
  {
    match MatchFrom(p, s, 0)
    case Some((i, j)) =>
      assert IsExecMatch(p, s, i, j);
      assert forall i', j' :: IsExecMatch(p, s, i', j') ==> i' == i && j' == j;
      Some(s[i + p.leadLen..j])
    case None => None
  }

  /** The ten generated-input suffixes of `/(?<nodeName>.+)(?:ConnectInput|...|Where)/`, in the regex's order. */
  const NodeInputSuffixes: seq<string> := [
    "ConnectInput", "ConnectWhere", "CreateInput", "DeleteInput", "DisconnectInput",
    "Options", "RelationInput", "Sort", "UpdateInput", "Where"]

  /** `/(?<nodeName>.+)(?:ConnectInput|ConnectWhere|...|Where)/gm` */
  const NodeInputPattern := Pattern([""], 0, NodeInputSuffixes)

  /** `/(?:Create|Update)(?<nodeName>.+)MutationResponse/gm` */
  const MutationResponsePattern := Pattern(["Create", "Update"], 6, ["MutationResponse"])

  /** The node name a generated input type name such as `MovieWhere` refers to, if it looks like one. */
  function NodeInputName(typeName: string): (r: Option<string>)
    ensures r.None? <==> forall i, j :: !IsMatch(NodeInputPattern, typeName, i, j)
    ensures r.Some? ==> exists i, j :: IsExecMatch(NodeInputPattern, typeName, i, j) && r.value == typeName[i..j]
    ensures r.Some? ==> forall i, j :: IsExecMatch(NodeInputPattern, typeName, i, j) ==> r.value == typeName[i..j]
  {
    ExecGroup(NodeInputPattern, typeName)
  }

  /** The pluralised node name a type such as `CreateMoviesMutationResponse` refers to, if it looks like one. */
  function MutationResponseName(typeName: string): (r: Option<string>)
    ensures r.None? <==> forall i, j :: !IsMatch(MutationResponsePattern, typeName, i, j)
    ensures r.Some? ==> exists i, j :: IsExecMatch(MutationResponsePattern, typeName, i, j) && r.value == typeName[i + 6..j]
    ensures r.Some? ==> forall i, j :: IsExecMatch(MutationResponsePattern, typeName, i, j) ==> r.value == typeName[i + 6..j]
  {
    ExecGroup(MutationResponsePattern, typeName)
  }

  /** `.` matches every character of `s`: true of every GraphQL name. */
  predicate SingleLine(s: string) {
    forall k :: 0 <= k < |s| ==> !IsLineTerminator(s[k])
  }

  /** `s[..n]` is a non-empty prefix directly followed by a generated-input suffix. */
  predicate IsNodePrefixEnd(s: string, n: int) {
    0 < n <= |s| && StartsWithOneOf(s, n, NodeInputSuffixes)
  }

  /**
   * On a single-line name the node name is the longest non-empty prefix that
   * a suffix follows; the suffix need not end the name (`BookWhereX` gives
   * `Book`), and `BookConnectWhere` gives `BookConnect`, not `Book`.
   */
  lemma NodeInputNameIsLongestPrefix(s: string)
    requires SingleLine(s)
    ensures NodeInputName(s).None? <==> forall n :: !IsNodePrefixEnd(s, n)
    ensures NodeInputName(s).Some? ==>
      var node := NodeInputName(s).value;
      && IsNodePrefixEnd(s, |node|)
      && node == s[..|node|]
      && forall n :: IsNodePrefixEnd(s, n) ==> n <= |node|
  {
    assert StartsWithOneOf(s, 0, NodeInputPattern.leads) by {
      assert NodeInputPattern.leads[0] <= s[0..];
    }
    assert forall n :: IsNodePrefixEnd(s, n) ==> IsMatch(NodeInputPattern, s, 0, n);
    match NodeInputName(s)
    case None =>
    case Some(node) =>
      var i, j :| IsExecMatch(NodeInputPattern, s, i, j) && node == s[i..j];
      assert i == 0;
      assert IsNodePrefixEnd(s, j);
  }

  /** `s[6..n]` is non-empty and `MutationResponse` starts at `n`. */
  predicate IsMutationResponseEnd(s: string, n: int) {
    6 < n <= |s| && StartsWithOneOf(s, n, MutationResponsePattern.trails)
  }

  /**
   * On a single-line name that starts with `Create` or `Update`, the group
   * runs from after that word to the last `MutationResponse`.
   */
  lemma MutationResponseNameAfterVerb(s: string)
    requires SingleLine(s)
    requires |s| >= 6 && (s[..6] == "Create" || s[..6] == "Update")
    ensures MutationResponseName(s).None? <==> forall n :: !IsMutationResponseEnd(s, n)
    ensures MutationResponseName(s).Some? ==>
      var plural := MutationResponseName(s).value;
      && IsMutationResponseEnd(s, 6 + |plural|)
      && plural == s[6..6 + |plural|]
      && forall n :: IsMutationResponseEnd(s, n) ==> n <= 6 + |plural|
  {
    assert StartsWithOneOf(s, 0, MutationResponsePattern.leads) by {
      assert s[0..] == s;
      assert s[..6] <= s;
      assert s[..6] == MutationResponsePattern.leads[0] || s[..6] == MutationResponsePattern.leads[1];
    }
    assert forall n :: IsMutationResponseEnd(s, n) ==> IsMatch(MutationResponsePattern, s, 0, n);
    match MutationResponseName(s)
    case None =>
    case Some(plural) =>
      var i, j :| IsExecMatch(MutationResponsePattern, s, i, j) && plural == s[i + 6..j];
      assert IsMatch(MutationResponsePattern, s, 0, j);
      assert i == 0;
      assert IsMutationResponseEnd(s, j);
  }

  /** No alternative can occur where the text's next character starts none of them. */
  lemma NoAlternativeAt(s: string, n: nat, alts: seq<string>)
    requires n < |s|
    requires forall m :: 0 <= m < |alts| ==> |alts[m]| > 0 && alts[m][0] != s[n]
    ensures !StartsWithOneOf(s, n, alts)
  {
  }

  /** The first characters of the generated-input suffixes. */
  const SuffixInitials: set<char> := {'C', 'D', 'O', 'R', 'S', 'U', 'W'}

  /** After its first character, a suffix holds no character that starts a suffix. */
  predicate NoInitialAfterFirst(suffix: string) {
    forall k :: 1 <= k < |suffix| ==> suffix[k] !in SuffixInitials
  }

  /** Every character of `s` is an ASCII letter. */
  predicate Letters(s: string) {
    forall k :: 0 <= k < |s| ==> 'A' <= s[k] <= 'Z' || 'a' <= s[k] <= 'z'
  }

  /** The suffixes are made of letters, so `.` matches each of their characters. */
  lemma SuffixesAreLetters(suffix: string)
    requires suffix in NodeInputSuffixes
    ensures Letters(suffix)
  {
  }

  /** Every suffix except `ConnectWhere` (which contains `Where`) has no suffix inside it. */
  lemma SuffixesHaveNoInnerSuffix(suffix: string)
    requires suffix in NodeInputSuffixes && suffix != "ConnectWhere"
    ensures NoInitialAfterFirst(suffix)
  {
  }

  /** No generated-input suffix starts at a position whose character starts none of them. */
  lemma NoSuffixAt(s: string, n: nat)
    requires n < |s| && s[n] !in SuffixInitials
    ensures !StartsWithOneOf(s, n, NodeInputSuffixes)
  {
    NoAlternativeAt(s, n, NodeInputSuffixes);
  }

  /** A name made of a node and a text that starts with a suffix and has no other suffix inside gives back the node. */
  lemma {:induction false} NodeBeforeSuffix(node: string, tail: string)
    requires |node| > 0 && SingleLine(node) && SingleLine(tail)
    requires StartsWithOneOf(tail, 0, NodeInputSuffixes) && NoInitialAfterFirst(tail)
    ensures NodeInputName(node + tail) == Some(node)
  {
    var s := node + tail;
    assert SingleLine(s) by {
      assert forall k :: |node| <= k < |s| ==> s[k] == tail[k - |node|];
    }
    assert IsNodePrefixEnd(s, |node|) by {
      assert s[|node|..] == tail[0..];
    }
    forall n | |node| < n <= |s| ensures !IsNodePrefixEnd(s, n) {
      if n < |s| {
        assert s[n] == tail[n - |node|];
        NoSuffixAt(s, n);
      }
    }
    NodeInputNameIsLongestPrefix(s);
    assert s[..|node|] == node;
  }

  /**
   * The generated input names round-trip: `<node><suffix>` gives back `<node>`
   * for every suffix except `ConnectWhere`.
   */
  lemma GeneratedInputName(node: string, suffix: string)
    requires |node| > 0 && SingleLine(node)
    requires suffix in NodeInputSuffixes && suffix != "ConnectWhere"
    ensures NodeInputName(node + suffix) == Some(node)
  {
    SuffixesHaveNoInnerSuffix(suffix);
    SuffixesAreLetters(suffix);
    assert SingleLine(suffix);
    assert StartsWithOneOf(suffix, 0, NodeInputSuffixes) by {
      var m :| 0 <= m < |NodeInputSuffixes| && NodeInputSuffixes[m] == suffix;
      assert suffix[0..] == suffix;
    }
    NodeBeforeSuffix(node, suffix);
  }

  /**
   * `<node>ConnectWhere` gives `<node>Connect`, never `<node>`: the greedy
   * group always reaches the later `Where`, so the `ConnectWhere`
   * alternative never decides the result.
   */
  lemma {:induction false} ConnectWhereName(node: string)
    requires |node| > 0 && SingleLine(node)
    ensures NodeInputName(node + "ConnectWhere") == Some(node + "Connect")
  {
    assert node + "ConnectWhere" == (node + "Connect") + "Where";
    GeneratedInputName(node + "Connect", "Where");
  }

  /** Two texts without line terminators make one. */
  lemma SingleLineAppend(a: string, b: string)
    requires SingleLine(a) && SingleLine(b)
    ensures SingleLine(a + b)
  {
    assert forall k :: |a| <= k < |a + b| ==> (a + b)[k] == b[k - |a|];
  }

  /** Past the start of a trailing `MutationResponse`, no later `MutationResponse` begins. */
  lemma NoLaterResponseEnd(s: string, end: nat)
    requires end + 16 == |s| && s[end..] == "MutationResponse"
    ensures forall n :: end < n <= |s| ==> !IsMutationResponseEnd(s, n)
  {
    var trail := "MutationResponse";
    assert 'M' !in trail[1..];
    forall n | end < n < |s| ensures !IsMutationResponseEnd(s, n) {
      assert s[n] == trail[n - end];
      NoAlternativeAt(s, n, MutationResponsePattern.trails);
    }
  }

  /**
   * The generated mutation response names round-trip: `Create<plural>MutationResponse`
   * and `Update<plural>MutationResponse` give back `<plural>`.
   */
  lemma {:induction false} GeneratedMutationResponseName(verb: string, plural: string)
    requires verb == "Create" || verb == "Update"
    requires |plural| > 0 && SingleLine(plural)
    ensures MutationResponseName(verb + plural + "MutationResponse") == Some(plural)
  {
    var trail := "MutationResponse";
    var s := verb + plural + trail;
    var end := 6 + |plural|;
    assert SingleLine(trail) && SingleLine(verb);
    SingleLineAppend(verb, plural);
    SingleLineAppend(verb + plural, trail);
    assert s[..6] == verb;
    assert s[end..] == trail;
    assert IsMutationResponseEnd(s, end) by {
      assert MutationResponsePattern.trails[0] <= s[end..];
    }
    NoLaterResponseEnd(s, end);
    MutationResponseNameAfterVerb(s);
    assert s[6..end] == plural;
  }
}
