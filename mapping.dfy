/** The component-to-distribution lookup: the two table columns zipped into a dict. */
module Mapping {

  /** One row of the mapping table: a component and its expected distribution. */
  datatype Entry = Entry(component: string, distribution: string)

  /** The components named in the table. */
  function Components(rows: seq<Entry>): set<string> {
    set i | 0 <= i < |rows| :: rows[i].component
  }

  /** The components of a non-empty table are those of all its rows but the last,
      plus the component of the last row. */
  lemma ComponentsSnoc(rows: seq<Entry>)
    requires rows != []
    ensures Components(rows) == Components(rows[..|rows| - 1]) + {rows[|rows| - 1].component}
  {
    var prefix := rows[..|rows| - 1];
    forall c | c in Components(rows) ensures c in Components(prefix) + {rows[|rows| - 1].component} {
      var i :| 0 <= i < |rows| && rows[i].component == c;
      if i < |rows| - 1 {
        assert prefix[i] == rows[i];
      }
    }
    forall c | c in Components(prefix) ensures c in Components(rows) {
      var i :| 0 <= i < |prefix| && prefix[i].component == c;
      assert rows[i] == prefix[i];
    }
  }

  /** Row i is the last row of the table that names its component. */
  predicate LastOccurrence(rows: seq<Entry>, i: int) {
    0 <= i < |rows| && forall j :: i < j < |rows| ==> rows[j].component != rows[i].component
  }

  /** Inserting the last row into a lookup that is right for all the other rows gives
      every last-occurring row its distribution. */
  lemma InsertLastRow(prefix: seq<Entry>, last: Entry, before: map<string, string>)
    requires forall i :: LastOccurrence(prefix, i) ==>
      prefix[i].component in before && before[prefix[i].component] == prefix[i].distribution
    ensures var rows := prefix + [last];
      var after := before[last.component := last.distribution];
      forall i :: LastOccurrence(rows, i) ==>
        rows[i].component in after && after[rows[i].component] == rows[i].distribution
  {
    var rows := prefix + [last];
    assert forall j :: 0 <= j < |prefix| ==> rows[j] == prefix[j];
    var after := before[last.component := last.distribution];
    forall i | LastOccurrence(rows, i)
      ensures rows[i].component in after && after[rows[i].component] == rows[i].distribution
    {
      if i < |prefix| {
        assert rows[|prefix|] == last;
        assert rows[i].component != last.component;
        assert LastOccurrence(prefix, i);
      }
    }
  }

  /** dict(zip(components, distributions)): the rows inserted in order, so a later row
      for the same component overwrites an earlier one. The keys are exactly the
      components of the table, and each maps to the distribution of its last row. */
  function ToMap(rows: seq<Entry>): (m: map<string, string>)
    ensures m.Keys == Components(rows)
    ensures forall i :: LastOccurrence(rows, i) ==> m[rows[i].component] == rows[i].distribution
  {
    if rows == [] then map[]
    else
      var prefix := rows[..|rows| - 1];
      var last := rows[|rows| - 1];
      ComponentsSnoc(rows);
      assert rows == prefix + [last];
      InsertLastRow(prefix, last, ToMap(prefix));
      ToMap(prefix)[last.component := last.distribution]
  }

  /** Every component of the table has a last row. */
  lemma {:induction false} LastOccurrenceExists(rows: seq<Entry>, c: string)
    requires c in Components(rows)
    ensures exists i :: LastOccurrence(rows, i) && rows[i].component == c
  {
    var n := |rows| - 1;
    if rows[n].component == c {
      assert LastOccurrence(rows, n);
    } else {
      var prefix := rows[..n];
      var i :| 0 <= i < |rows| && rows[i].component == c;
      assert prefix[i] == rows[i];
      LastOccurrenceExists(prefix, c);
      var k :| LastOccurrence(prefix, k) && prefix[k].component == c;
      assert LastOccurrence(rows, k);
    }
  }

  /** The lookup's values are exactly the distributions of rows that are not overwritten
      by a later row for the same component (what mapping_dict.values() holds). */
  lemma ToMapValues(rows: seq<Entry>, d: string)
    ensures d in ToMap(rows).Values <==> exists i :: LastOccurrence(rows, i) && rows[i].distribution == d
  {
    var m := ToMap(rows);
    if d in m.Values {
      var c :| c in m && m[c] == d;
      LastOccurrenceExists(rows, c);
    }
    if exists i :: LastOccurrence(rows, i) && rows[i].distribution == d {
      var i :| LastOccurrence(rows, i) && rows[i].distribution == d;
      assert rows[i].component in m;
    }
  }

  /** Without duplicate components, every row is found in the lookup as written. */
  lemma ToMapUniqueComponents(rows: seq<Entry>)
    requires forall i, j :: 0 <= i < j < |rows| ==> rows[i].component != rows[j].component
    ensures forall i :: 0 <= i < |rows| ==> ToMap(rows)[rows[i].component] == rows[i].distribution
  {
    assert forall i :: 0 <= i < |rows| ==> LastOccurrence(rows, i);
  }

  /** A later row for the same component overwrites the earlier one. */
  lemma DuplicateComponentExample()
    ensures ToMap([Entry("a-b", "d1"), Entry("a-b", "d2")]) == map["a-b" := "d2"]
    ensures "d1" !in ToMap([Entry("a-b", "d1"), Entry("a-b", "d2")]).Values
  {
  }
}
