/** The reconciliation pass of the hotfix checker: the input lines are cleaned and reduced
    to component names, then compared against the mapping lookup to produce four lists. */
module Reconcile {
  import opened Seqs
  import opened Text
  import opened Extract
  import opened Mapping

  // ---------------------------------------------------------------------------
  // Preparing the inputs

  /** The `if line` filter over the split lines: only the empty lines are dropped. A line
      of blanks between two non-blank lines reaches this filter and is kept. */
  function NonEmptyLines(lines: seq<string>): (r: seq<string>)
    ensures |r| <= |lines|
    ensures forall i :: 0 <= i < |r| ==> r[i] != "" && r[i] in lines
  {
    Filter(lines, l => l != "")
  }

  /** A line is kept exactly when it is non-empty, and the kept lines stay in input order. */
  lemma NonEmptyLinesSpec(lines: seq<string>, more: seq<string>, l: string)
    ensures l in NonEmptyLines(lines) <==> l in lines && l != ""
    ensures NonEmptyLines(lines + more) == NonEmptyLines(lines) + NonEmptyLines(more)
    ensures NonEmptyLines([l]) == if l == "" then [] else [l]
  {
    FilterMembership(lines, l => l != "", l);
    FilterConcat(lines, more, l => l != "");
    assert [l][..0] == [];
  }

  /** branch_components: one component per kept branch line, in order. */
  function BranchComponents(branchLines: seq<string>): (r: seq<string>)
    ensures |r| == |NonEmptyLines(branchLines)|
    ensures forall i :: 0 <= i < |r| ==> r[i] == BranchComponent(NonEmptyLines(branchLines)[i])
  {
    var lines := NonEmptyLines(branchLines);
    seq(|lines|, i requires 0 <= i < |lines| => BranchComponent(lines[i]))
  }

  /** distribution_components: one component per kept distribution line, in order. */
  function DistributionComponents(distLines: seq<string>): (r: seq<string>)
    ensures |r| == |NonEmptyLines(distLines)|
    ensures forall i :: 0 <= i < |r| ==> r[i] == DistributionComponent(NonEmptyLines(distLines)[i])
  {
    var lines := NonEmptyLines(distLines);
    seq(|lines|, i requires 0 <= i < |lines| => DistributionComponent(lines[i]))
  }

  // ---------------------------------------------------------------------------
  // What the reconciler reports, as functions of its inputs

  /** Branch components that the lookup has no entry for. */
  function UnmappedBranches(branches: seq<string>, mapping: map<string, string>): (r: seq<string>)
    ensures |r| <= |branches|
    ensures forall i :: 0 <= i < |r| ==> r[i] !in mapping && r[i] in branches
  {
    Filter(branches, c => c !in mapping)
  }

  /** Branch components that the lookup has an entry for. */
  function CheckedComponents(branches: seq<string>, mapping: map<string, string>): (r: seq<string>)
    ensures |r| <= |branches|
    ensures forall i :: 0 <= i < |r| ==> r[i] in mapping && r[i] in branches
  {
    Filter(branches, c => c in mapping)
  }

  /** For each checked branch component in turn, its expected distribution when that
      distribution is not among the distribution components. */
  function MissingDistributions(branches: seq<string>, dists: seq<string>, mapping: map<string, string>): (r: seq<string>)
    ensures |r| <= |branches|
    ensures forall i :: 0 <= i < |r| ==> r[i] in mapping.Values && r[i] !in dists
  {
    if branches == [] then []
    else
      var c := branches[|branches| - 1];
      MissingDistributions(branches[..|branches| - 1], dists, mapping)
        + (if c in mapping && mapping[c] !in dists then [mapping[c]] else [])
  }

  /** Distribution components that are not a value of the lookup. */
  function UnmappedDistributions(dists: seq<string>, mapping: map<string, string>): (r: seq<string>)
    ensures |r| <= |dists|
    ensures forall i :: 0 <= i < |r| ==> r[i] !in mapping.Values && r[i] in dists
  {
    Filter(dists, d => d !in mapping.Values)
  }

  /** The expected distribution of each component in turn. */
  function Expected(components: seq<string>, mapping: map<string, string>): (r: seq<string>)
    requires forall i :: 0 <= i < |components| ==> components[i] in mapping
    ensures |r| == |components|
    ensures forall i :: 0 <= i < |r| ==> r[i] == mapping[components[i]]
  {
    if components == [] then []
    else Expected(components[..|components| - 1], mapping) + [mapping[components[|components| - 1]]]
  }

  // ---------------------------------------------------------------------------
  // The reconciler

  /** The two loops of the reconciliation pass, appending to the four result lists. */
  method Reconcile(branches: seq<string>, dists: seq<string>, mapping: map<string, string>)
    returns (missing: seq<string>, unmappedBranches: seq<string>, unmappedDists: seq<string>, checked: seq<string>)
    ensures missing == MissingDistributions(branches, dists, mapping)
    ensures unmappedBranches == UnmappedBranches(branches, mapping)
    ensures unmappedDists == UnmappedDistributions(dists, mapping)
    ensures checked == CheckedComponents(branches, mapping)
  {
    missing, unmappedBranches, unmappedDists, checked := [], [], [], [];
    var i := 0;
    while i < |branches|
      invariant 0 <= i <= |branches|
      invariant missing == MissingDistributions(branches[..i], dists, mapping)
      invariant unmappedBranches == UnmappedBranches(branches[..i], mapping)
      invariant checked == CheckedComponents(branches[..i], mapping)
    {
      var comp := branches[i];
      assert branches[..i + 1][..i] == branches[..i];
      if comp !in mapping {
        unmappedBranches := unmappedBranches + [comp];
      } else {
        var expected := mapping[comp];
        checked := checked + [comp];
        if expected !in dists {
          missing := missing + [expected];
        }
      }
      i := i + 1;
    }
    assert branches[..i] == branches;
    var j := 0;
    while j < |dists|
      invariant 0 <= j <= |dists|
      invariant unmappedDists == UnmappedDistributions(dists[..j], mapping)
    {
      assert dists[..j + 1][..j] == dists[..j];
      if dists[j] !in mapping.Values {
        unmappedDists := unmappedDists + [dists[j]];
      }
      j := j + 1;
    }
    assert dists[..j] == dists;
  }

  /** The main block of the checker once the table is loaded: both line lists are
      cleaned and reduced to components, the table becomes the lookup, and the
      reconciler runs on the result. */
  method CheckHotfixes(branchLines: seq<string>, distLines: seq<string>, rows: seq<Entry>)
    returns (missing: seq<string>, unmappedBranches: seq<string>, unmappedDists: seq<string>, checked: seq<string>)
    ensures var branches := BranchComponents(branchLines);
      var dists := DistributionComponents(distLines);
      && missing == MissingDistributions(branches, dists, ToMap(rows))
      && unmappedBranches == UnmappedBranches(branches, ToMap(rows))
      && unmappedDists == UnmappedDistributions(dists, ToMap(rows))
      && checked == CheckedComponents(branches, ToMap(rows))
  {
    var branches := BranchComponents(branchLines);
    var dists := DistributionComponents(distLines);
    var mapping := ToMap(rows);
    missing, unmappedBranches, unmappedDists, checked := Reconcile(branches, dists, mapping);
  }

  // ---------------------------------------------------------------------------
  // Properties of the reports

  /** Every branch component lands in exactly one of the unmapped and checked lists,
      according to whether the lookup has it, and the two lists together are as long
      as the branch list. */
  lemma BranchPartition(branches: seq<string>, mapping: map<string, string>, c: string)
    ensures c in UnmappedBranches(branches, mapping) <==> c in branches && c !in mapping
    ensures c in CheckedComponents(branches, mapping) <==> c in branches && c in mapping
    ensures |UnmappedBranches(branches, mapping)| + |CheckedComponents(branches, mapping)| == |branches|
  {
    FilterMembership(branches, c => c !in mapping, c);
    FilterMembership(branches, c => c in mapping, c);
    FilterComplement(branches, c => c !in mapping, c => c in mapping);
  }

  /** Missing distributions, taken over two consecutive stretches of branches (the step
      that ReportsFollowInputOrder needs for the missing report). */
  lemma {:induction false} MissingConcat(a: seq<string>, b: seq<string>, dists: seq<string>, mapping: map<string, string>)
    ensures MissingDistributions(a + b, dists, mapping)
         == MissingDistributions(a, dists, mapping) + MissingDistributions(b, dists, mapping)
  {
    if b == [] {
      assert a + b == a;
    } else {
      assert (a + b)[..|a + b| - 1] == a + b[..|b| - 1];
      MissingConcat(a, b[..|b| - 1], dists, mapping);
    }
  }

  /** All four reports follow the order of the list that drives them: reconciling two
      stretches of input one after the other gives the concatenated reports. */
  lemma ReportsFollowInputOrder(a: seq<string>, b: seq<string>, da: seq<string>, db: seq<string>,
                                dists: seq<string>, mapping: map<string, string>)
    ensures UnmappedBranches(a + b, mapping) == UnmappedBranches(a, mapping) + UnmappedBranches(b, mapping)
    ensures CheckedComponents(a + b, mapping) == CheckedComponents(a, mapping) + CheckedComponents(b, mapping)
    ensures MissingDistributions(a + b, dists, mapping)
         == MissingDistributions(a, dists, mapping) + MissingDistributions(b, dists, mapping)
    ensures UnmappedDistributions(da + db, mapping)
         == UnmappedDistributions(da, mapping) + UnmappedDistributions(db, mapping)
  {
    FilterConcat(a, b, c => c !in mapping);
    FilterConcat(a, b, c => c in mapping);
    MissingConcat(a, b, dists, mapping);
    FilterConcat(da, db, d => d !in mapping.Values);
  }

  /** A distribution is reported missing exactly when some checked branch component
      expects it and it is not among the distribution components. Hence every missing
      distribution is a value of the lookup, and there are at most as many as there are
      checked components. */
  lemma {:induction false} MissingDistributionsSpec(branches: seq<string>, dists: seq<string>, mapping: map<string, string>, x: string)
    ensures x in MissingDistributions(branches, dists, mapping)
        <==> exists i :: 0 <= i < |branches| && branches[i] in mapping && mapping[branches[i]] == x && x !in dists
    ensures x in MissingDistributions(branches, dists, mapping) ==> x in mapping.Values && x !in dists
    ensures |MissingDistributions(branches, dists, mapping)| <= |CheckedComponents(branches, mapping)|
  {
    if branches != [] {
      var n := |branches| - 1;
      var prefix := branches[..n];
      MissingDistributionsSpec(prefix, dists, mapping, x);
      assert forall i :: 0 <= i < n ==> prefix[i] == branches[i];
      var c := branches[n];
      if x in MissingDistributions(branches, dists, mapping) && x !in MissingDistributions(prefix, dists, mapping) {
        assert c in mapping && mapping[c] == x;
      }
    }
  }

  /** The missing report read directly: the expected distributions of the checked
      components, in order, keeping those that are not distribution components. */
  lemma {:induction false} MissingIsExpectedOfChecked(branches: seq<string>, dists: seq<string>, mapping: map<string, string>)
    ensures MissingDistributions(branches, dists, mapping)
         == Filter(Expected(CheckedComponents(branches, mapping), mapping), x => x !in dists)
  {
    if branches != [] {
      var n := |branches| - 1;
      var prefix := branches[..n];
      var c := branches[n];
      MissingIsExpectedOfChecked(prefix, dists, mapping);
      var before := CheckedComponents(prefix, mapping);
      if c in mapping {
        assert CheckedComponents(branches, mapping) == before + [c];
        assert (before + [c])[..|before|] == before;
        assert Expected(before + [c], mapping) == Expected(before, mapping) + [mapping[c]];
        var e := Expected(before, mapping) + [mapping[c]];
        assert e[..|e| - 1] == Expected(before, mapping);
      } else {
        assert CheckedComponents(branches, mapping) == before;
      }
    }
  }

  /** A distribution component is reported unmapped exactly when no row of the table
      that survives into the lookup names it; a row overwritten by a later row for the
      same component does not count. */
  lemma UnmappedDistributionsSpec(dists: seq<string>, rows: seq<Entry>, d: string)
    ensures d in UnmappedDistributions(dists, ToMap(rows))
        <==> d in dists && forall i :: LastOccurrence(rows, i) ==> rows[i].distribution != d
  {
    FilterMembership(dists, x => x !in ToMap(rows).Values, d);
    ToMapValues(rows, d);
  }

  /** With the empty table that a failed load leaves, every branch component is unmapped,
      nothing is checked or missing, and every distribution component is unmapped. */
  lemma {:induction false} EmptyMappingReports(branches: seq<string>, dists: seq<string>)
    ensures UnmappedBranches(branches, ToMap([])) == branches
    ensures CheckedComponents(branches, ToMap([])) == []
    ensures MissingDistributions(branches, dists, ToMap([])) == []
    ensures UnmappedDistributions(dists, ToMap([])) == dists
  {
    var m := ToMap([]);
    assert m == map[];
    FilterKeepsAll(branches, c => c !in m);
    FilterKeepsNone(branches, c => c in m);
    FilterKeepsAll(dists, d => d !in m.Values);
    if branches != [] {
      EmptyMappingReports(branches[..|branches| - 1], dists);
    }
  }

  /** The docstring example branch line yields one component. */
  lemma ExampleBranchComponents()
    ensures BranchComponents([Join(ExampleBranchSegments, '/')]) == ["rskp-monitoring-front"]
  {
    var line := Join(ExampleBranchSegments, '/');
    BranchExample();
    JoinFirst(ExampleBranchSegments, '/');
    NonEmptyLinesSpec([line], [], line);
  }

  /** The docstring example distribution line yields the same component. */
  lemma ExampleDistributionComponents()
    ensures DistributionComponents(["rskp-monitoring-front" + ":" + " hotfix_2.1.2-xxxx"]) == ["rskp-monitoring-front"]
  {
    var line := "rskp-monitoring-front" + ":" + " hotfix_2.1.2-xxxx";
    DistributionExample();
    NonEmptyLinesSpec([line], [], line);
  }

  /** The example's one-row table as a lookup. */
  lemma ExampleMapping()
    ensures ToMap([Entry("rskp-monitoring-front", "hotfix_2.1.2")]) == map["rskp-monitoring-front" := "hotfix_2.1.2"]
  {
    assert [Entry("rskp-monitoring-front", "hotfix_2.1.2")][..0] == [];
  }

  /** The reports for the example's component lists and a one-row table. */
  lemma ExampleReports()
    ensures var mapping := map["rskp-monitoring-front" := "hotfix_2.1.2"];
      var comps := ["rskp-monitoring-front"];
      && MissingDistributions(comps, comps, mapping) == ["hotfix_2.1.2"]
      && UnmappedBranches(comps, mapping) == []
      && CheckedComponents(comps, mapping) == ["rskp-monitoring-front"]
      && UnmappedDistributions(comps, mapping) == ["rskp-monitoring-front"]
  {
    var comps := ["rskp-monitoring-front"];
    var mapping := map["rskp-monitoring-front" := "hotfix_2.1.2"];
    assert mapping.Values == {"hotfix_2.1.2"};
    assert |"hotfix_2.1.2"| != |"rskp-monitoring-front"|;
    assert comps[..0] == [];
  }

  /** The example run end to end, with the table mapping rskp-monitoring-front to
      hotfix_2.1.2. The installed line names hotfix_2.1.2 after its colon, yet
      hotfix_2.1.2 is reported missing, because only the text before the colon is
      compared; and that text is itself reported unmapped, because it is not a
      distribution of the table. */
  lemma ExampleReconciliation()
    ensures var mapping := ToMap([Entry("rskp-monitoring-front", "hotfix_2.1.2")]);
      var branches := BranchComponents([Join(ExampleBranchSegments, '/')]);
      var dists := DistributionComponents(["rskp-monitoring-front" + ":" + " hotfix_2.1.2-xxxx"]);
      && MissingDistributions(branches, dists, mapping) == ["hotfix_2.1.2"]
      && UnmappedBranches(branches, mapping) == []
      && CheckedComponents(branches, mapping) == ["rskp-monitoring-front"]
      && UnmappedDistributions(dists, mapping) == ["rskp-monitoring-front"]
  {
    ExampleBranchComponents();
    ExampleDistributionComponents();
    ExampleReports();
    ExampleMapping();
  }

  /** A branch component absent from the table and a distribution component that is no
      distribution of the table are both reported, and nothing fails. */
  lemma ExampleUnmapped()
    ensures var mapping := map["rskp-monitoring-front" := "hotfix_2.1.2"];
      && UnmappedBranches(["foo-bar"], mapping) == ["foo-bar"]
      && MissingDistributions(["foo-bar"], ["baz-qux"], mapping) == []
      && UnmappedDistributions(["baz-qux"], mapping) == ["baz-qux"]
  {
    var mapping := map["rskp-monitoring-front" := "hotfix_2.1.2"];
    assert |"foo-bar"| != |"rskp-monitoring-front"|;
    assert |"baz-qux"| != |"hotfix_2.1.2"|;
    assert "baz-qux" !in mapping.Values by {
      forall c | c in mapping ensures mapping[c] == "hotfix_2.1.2" {
      }
    }
    assert ["foo-bar"][..0] == [] && ["baz-qux"][..0] == [];
  }
}
