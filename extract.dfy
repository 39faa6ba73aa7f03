/** The two component-name extractors of the hotfix checker: one for branch paths
    (slash-delimited) and one for installed-distribution lines (colon-delimited). */
module Extract {
  import opened Text

  datatype Option<T> = None | Some(value: T)

  /** The '/'-segments of a branch path after stripping surrounding whitespace. */
  function BranchSegments(branchPath: string): (parts: seq<string>)
    ensures |parts| >= 1
    ensures forall i :: 0 <= i < |parts| ==> '/' !in parts[i]
  {
    Split(Strip(branchPath), '/')
  }

  /** The reversed scan over parts[..n]: the index of the rightmost segment that
      contains a hyphen, if there is one. */
  function RightmostHyphenated(parts: seq<string>, n: nat): (k: Option<nat>)
    requires n <= |parts|
    ensures k.Some? ==> k.value < n && '-' in parts[k.value]
    ensures k.Some? ==> forall j :: k.value < j < n ==> '-' !in parts[j]
    ensures k.None? <==> forall j :: 0 <= j < n ==> '-' !in parts[j]
  {
    if n == 0 then None
    else if '-' in parts[n - 1] then Some(n - 1)
    else RightmostHyphenated(parts, n - 1)
  }

  /** The component named by a branch path: the rightmost segment containing a hyphen,
      or, when no segment has one, the last segment. */
  function BranchComponent(branchPath: string): (r: string)
    ensures r in BranchSegments(branchPath)
    ensures var parts := BranchSegments(branchPath);
      (exists k :: 0 <= k < |parts| && '-' in parts[k]) ==>
        && '-' in r
        && exists k :: 0 <= k < |parts| && parts[k] == r && forall j :: k < j < |parts| ==> '-' !in parts[j]
    ensures var parts := BranchSegments(branchPath);
      (forall k :: 0 <= k < |parts| ==> '-' !in parts[k]) ==> r == parts[|parts| - 1]
  {
    var parts := BranchSegments(branchPath);
    match RightmostHyphenated(parts, |parts|)
    case Some(k) => parts[k]
    case None => parts[|parts| - 1]
  }

  /** extract_component_from_branch as the checker writes it: a loop over the segments
      in reverse that returns the first one containing a hyphen. */
  method ExtractComponentFromBranch(branchPath: string) returns (r: string)
    ensures r == BranchComponent(branchPath)
  {
    var parts := Split(Strip(branchPath), '/');
    var i := |parts|;
    while i > 0
      invariant 0 <= i <= |parts|
      invariant RightmostHyphenated(parts, i) == RightmostHyphenated(parts, |parts|)
    {
      if '-' in parts[i - 1] {
        return parts[i - 1];
      }
      i := i - 1;
    }
    r := if |parts| > 0 then parts[|parts| - 1] else Strip(branchPath);
  }

  /** extract_component_from_distribution: the stripped text before the first ':' of
      the stripped line, or the whole stripped line when it has no ':'. */
  function DistributionComponent(distLine: string): (r: string)
    ensures ':' !in r
    ensures ':' !in Strip(distLine) ==> r == Strip(distLine)
    ensures var t := Strip(distLine);
      forall i :: 0 <= i < |t| && t[i] == ':' && ':' !in t[..i] ==> r == Strip(t[..i])
  {
    var t := Strip(distLine);
    var head := Split(t, ':')[0];
    SplitFirstPiece(t, ':');
    StripIdempotent(distLine);
    StripKeepsCharacters(head, ':');
    Strip(head)
  }

  /** A branch path written as segments joined by '/', with no whitespace at either end,
      splits back into those segments. */
  lemma SegmentsOfJoin(parts: seq<string>)
    requires |parts| >= 1 && forall i :: 0 <= i < |parts| ==> '/' !in parts[i]
    requires parts[0] != [] && !IsSpace(parts[0][0])
    requires parts[|parts| - 1] != [] && !IsSpace(parts[|parts| - 1][|parts[|parts| - 1]| - 1])
    ensures BranchSegments(Join(parts, '/')) == parts
  {
    JoinFirst(parts, '/');
    JoinLast(parts, '/');
    StripTrimmed(Join(parts, '/'));
    SplitJoin(parts, '/');
  }

  /** The segments of the branch path in the docstring of extract_component_from_branch,
      modules/rskp/rskp-monitoring-front/hotfix/2.1.2. */
  const ExampleBranchSegments: seq<string> := ["modules", "rskp", "rskp-monitoring-front", "hotfix", "2.1.2"]

  lemma ExampleBranchSegmentsShape()
    ensures forall i :: 0 <= i < |ExampleBranchSegments| ==> '/' !in ExampleBranchSegments[i]
    ensures !IsSpace(ExampleBranchSegments[0][0]) && !IsSpace(ExampleBranchSegments[4][4])
    ensures RightmostHyphenated(ExampleBranchSegments, 5) == Some(2)
  {
    var parts := ExampleBranchSegments;
    assert parts[2][4] == '-';
    assert '-' !in parts[3] && '-' !in parts[4];
    VisibleIsNotSpace(parts[0][0]);
    VisibleIsNotSpace(parts[4][4]);
  }

  /** The docstring example of extract_component_from_branch: the hyphenated module directory is picked
      over the later "hotfix" and version segments. */
  lemma BranchExample()
    ensures BranchComponent(Join(ExampleBranchSegments, '/')) == "rskp-monitoring-front"
  {
    ExampleBranchSegmentsShape();
    SegmentsOfJoin(ExampleBranchSegments);
  }

  /** A path with no hyphenated segment yields its last segment. */
  lemma BranchWithoutHyphenExample()
    ensures BranchComponent(Join(["release", "2.1.2"], '/')) == "2.1.2"
  {
    var parts := ["release", "2.1.2"];
    assert '-' !in parts[0] && '-' !in parts[1];
    VisibleIsNotSpace(parts[0][0]);
    VisibleIsNotSpace(parts[1][4]);
    SegmentsOfJoin(parts);
  }

  /** A blank branch line yields the empty component. */
  lemma BlankBranchLineYieldsEmpty(branchPath: string)
    requires forall k :: 0 <= k < |branchPath| ==> IsSpace(branchPath[k])
    ensures BranchComponent(branchPath) == ""
  {
    assert Strip(branchPath) == "";
    assert BranchSegments(branchPath) == [""];
  }

  /** A line of the form "X:Y" with no colon in X yields X stripped, whatever Y is. */
  lemma DistributionOfKeyedLine(x: string, y: string)
    requires ':' !in x
    ensures DistributionComponent(x + ":" + y) == Strip(x)
  {
    var line := x + ":" + y;
    var n := |x|;
    var a := StripStart(line);
    var t := Strip(line);
    VisibleIsNotSpace(':');
    assert line[n] == ':';
    assert a <= n < a + |t|;
    assert t[n - a] == ':';
    assert t[..n - a] == x[a..];
    assert ':' !in t[..n - a];
    assert forall k :: 0 <= k < a ==> x[k] == line[k];
    StripAfterSpaces(x, a);
  }

  /** The docstring example of extract_component_from_distribution: the text before the colon. */
  lemma DistributionExample()
    ensures DistributionComponent("rskp-monitoring-front" + ":" + " hotfix_2.1.2-xxxx") == "rskp-monitoring-front"
  {
    var key := "rskp-monitoring-front";
    assert ':' !in key;
    VisibleIsNotSpace(key[0]);
    VisibleIsNotSpace(key[|key| - 1]);
    StripTrimmed(key);
    DistributionOfKeyedLine(key, " hotfix_2.1.2-xxxx");
  }
}
