/**
 * The pandas steps of `extract_pip_requirement`
 * (src/minireqs/pip_package_extract.py) as functions over sequences of rows:
 * `dropna` on the requirement column, `sort_values(['requirement',
 * 'len_import'])` and `drop_duplicates(subset=['requirement'], keep='first')`.
 */
module Tables {
  import opened Wrappers
  import opened Collections

  /** A row of the requirement table once unresolved names are dropped. */
  datatype Row = Row(importName: string, requirement: string)

  /** `dropna(subset=['requirement'])`: keeps the pairs whose requirement is present. */
  function DropNa(pairs: seq<(string, Option<string>)>): (rows: seq<Row>)
    ensures forall row :: row in rows <==> (row.importName, Some(row.requirement)) in pairs
  {
    if pairs == [] then []
    else
      var n := |pairs| - 1;
      var r := DropNa(pairs[..n]);
      assert forall p :: p in pairs <==> p in pairs[..n] || p == pairs[n] by {
        assert pairs == pairs[..n] + [pairs[n]];
      }
      if pairs[n].1.Some? then r + [Row(pairs[n].0, pairs[n].1.value)] else r
  }

  /** The positions of `pairs` whose requirement is present, in ascending order. */
  function PresentIndices(pairs: seq<(string, Option<string>)>): (ix: seq<nat>)
    ensures forall i, j :: 0 <= i < j < |ix| ==> ix[i] < ix[j]
    ensures forall i :: 0 <= i < |ix| ==> ix[i] < |pairs|
    ensures forall k: nat :: k in ix <==> k < |pairs| && pairs[k].1.Some?
  {
    if pairs == [] then []
    else
      var n := |pairs| - 1;
      var ix := PresentIndices(pairs[..n]);
      assert forall k :: 0 <= k < n ==> pairs[..n][k] == pairs[k];
      if pairs[n].1.Some? then ix + [n] else ix
  }

  /** `dropna()` keeps exactly the present pairs, once each and in their order. */
  lemma {:induction false} DropNaInOrder(pairs: seq<(string, Option<string>)>)
    ensures |DropNa(pairs)| == |PresentIndices(pairs)|
    ensures forall i :: 0 <= i < |DropNa(pairs)| ==>
      var p := pairs[PresentIndices(pairs)[i]];
      p.1.Some? && DropNa(pairs)[i] == Row(p.0, p.1.value)
  {
    if pairs != [] {
      var n := |pairs| - 1;
      DropNaInOrder(pairs[..n]);
      var ix := PresentIndices(pairs[..n]);
      forall i | 0 <= i < |ix| ensures pairs[..n][ix[i]] == pairs[ix[i]] {
      }
    }
  }

  /** Python's `a <= b` on strings: lexicographic by code point. */
  predicate StrLe(a: string, b: string)
  {
    a == [] || (b != [] && (a[0] < b[0] || (a[0] == b[0] && StrLe(a[1..], b[1..]))))
  }

  /** Python's `a < b` on strings. */
  predicate StrLt(a: string, b: string)
  {
    StrLe(a, b) && a != b
  }

  lemma {:induction false} StrLeReflexive(a: string)
    ensures StrLe(a, a)
  {
    if a != [] {
      StrLeReflexive(a[1..]);
    }
  }

  lemma {:induction false} StrLeTotal(a: string, b: string)
    ensures StrLe(a, b) || StrLe(b, a)
  {
    if a != [] && b != [] && a[0] == b[0] {
      StrLeTotal(a[1..], b[1..]);
    }
  }

  lemma {:induction false} StrLeTransitive(a: string, b: string, c: string)
    requires StrLe(a, b) && StrLe(b, c)
    ensures StrLe(a, c)
  {
    if a != [] && a[0] == b[0] && b[0] == c[0] {
      StrLeTransitive(a[1..], b[1..], c[1..]);
    }
  }

  lemma {:induction false} StrLeAntisymmetric(a: string, b: string)
    requires StrLe(a, b) && StrLe(b, a)
    ensures a == b
  {
    if a != [] {
      StrLeAntisymmetric(a[1..], b[1..]);
      assert a == [a[0]] + a[1..] && b == [b[0]] + b[1..];
    }
  }

  /** Row order of `sort_values(['requirement', 'len_import'])`. */
  predicate RowLe(x: Row, y: Row)
  {
    StrLt(x.requirement, y.requirement) || (x.requirement == y.requirement && |x.importName| <= |y.importName|)
  }

  lemma RowLeTotal(x: Row, y: Row)
    ensures RowLe(x, y) || RowLe(y, x)
  {
    StrLeTotal(x.requirement, y.requirement);
  }

  lemma RowLeTransitive(x: Row, y: Row, z: Row)
    requires RowLe(x, y) && RowLe(y, z)
    ensures RowLe(x, z)
  {
    StrLeReflexive(x.requirement);
    StrLeReflexive(y.requirement);
    StrLeTransitive(x.requirement, y.requirement, z.requirement);
    if x.requirement == z.requirement && x.requirement != y.requirement {
      StrLeAntisymmetric(x.requirement, y.requirement);
    }
  }

  /** Ascending by requirement and, within one requirement, by name length. */
  predicate SortedRows(s: seq<Row>)
  {
    forall i, j :: 0 <= i < j < |s| ==> RowLe(s[i], s[j])
  }

  /** A row no greater than every row of sorted rows can lead them. */
  lemma SortedCons(x: Row, s: seq<Row>)
    requires SortedRows(s) && forall j :: 0 <= j < |s| ==> RowLe(x, s[j])
    ensures SortedRows([x] + s)
  {
    forall i, j | 0 <= i < j < |s| + 1 ensures RowLe(([x] + s)[i], ([x] + s)[j]) {
      if i > 0 { assert ([x] + s)[i] == s[i - 1]; }
      assert ([x] + s)[j] == s[j - 1];
    }
  }

  /** A row no greater than the first of sorted rows is no greater than any. */
  lemma LeFirstLeAll(x: Row, s: seq<Row>)
    requires SortedRows(s) && s != [] && RowLe(x, s[0])
    ensures forall j :: 0 <= j < |s| ==> RowLe(x, s[j])
  {
    forall j | 0 < j < |s| ensures RowLe(x, s[j]) {
      RowLeTransitive(x, s[0], s[j]);
    }
  }

  /** A row no greater than `x` and than every row of `s` is no greater than any row of `t`. */
  lemma LeAllOfMultiset(y: Row, x: Row, s: seq<Row>, t: seq<Row>)
    requires RowLe(y, x) && forall j :: 0 <= j < |s| ==> RowLe(y, s[j])
    requires multiset(t) == multiset(s) + multiset{x}
    ensures forall j :: 0 <= j < |t| ==> RowLe(y, t[j])
  {
    forall j | 0 <= j < |t| ensures RowLe(y, t[j]) {
      assert t[j] in multiset(t);
      if t[j] != x {
        assert t[j] in multiset(s);
        var k :| 0 <= k < |s| && s[k] == t[j];
      }
    }
  }

  /** Inserts `x` into sorted rows. */
  function Insert(x: Row, s: seq<Row>): (r: seq<Row>)
    requires SortedRows(s)
    ensures SortedRows(r) && multiset(r) == multiset(s) + multiset{x}
  {
    if s == [] then [x]
    else if RowLe(x, s[0]) then
      LeFirstLeAll(x, s);
      SortedCons(x, s);
      [x] + s
    else
      var t := Insert(x, s[1..]);
      RowLeTotal(x, s[0]);
      LeFirstLeAll(s[0], s);
      assert forall j :: 0 <= j < |s[1..]| ==> RowLe(s[0], s[1..][j]);
      LeAllOfMultiset(s[0], x, s[1..], t);
      SortedCons(s[0], t);
      assert s == [s[0]] + s[1..];
      [s[0]] + t
  }

  /** Sorts rows; rows that compare equal come out latest first, an order pandas does not promise. */
  function SortRows(s: seq<Row>): (r: seq<Row>)
    ensures SortedRows(r) && multiset(r) == multiset(s)
  {
    if s == [] then []
    else
      var n := |s| - 1;
      assert s == s[..n] + [s[n]];
      Insert(s[n], SortRows(s[..n]))
  }

  /** The requirement column, the key of the last dedup. */
  function RowRequirement(row: Row): string
  {
    row.requirement
  }

  /** Dropping duplicate requirements keeps the rows in sorted order. */
  lemma {:induction false} DropDuplicatesKeepsOrder(s: seq<Row>)
    requires SortedRows(s)
    ensures SortedRows(DropDuplicates(s, RowRequirement))
  {
    if s != [] {
      var n := |s| - 1;
      assert SortedRows(s[..n]);
      DropDuplicatesKeepsOrder(s[..n]);
      var r := DropDuplicates(s[..n], RowRequirement);
      forall i | 0 <= i < |r| ensures RowLe(r[i], s[n]) {
        assert r[i] in s[..n];
      }
    }
  }

  /** The summary table: sorted rows, then the first row of each requirement. */
  function Summarise(rows: seq<Row>): seq<Row>
  {
    DropDuplicates(SortRows(rows), RowRequirement)
  }

  /** The summary is strictly ascending by requirement. */
  lemma SummaryAscending(rows: seq<Row>)
    ensures forall i, j :: 0 <= i < j < |Summarise(rows)| ==>
      StrLt(Summarise(rows)[i].requirement, Summarise(rows)[j].requirement)
  {
    DropDuplicatesKeepsOrder(SortRows(rows));
  }

  /** Every summary row is a row of the input. */
  lemma SummaryRowsFromInput(rows: seq<Row>)
    ensures forall row :: row in Summarise(rows) ==> row in rows
  {
    var sorted := SortRows(rows);
    forall row | row in Summarise(rows) ensures row in rows {
      assert row in multiset(sorted);
    }
  }

  /** In sorted rows, the first row of a requirement has a shortest name for it. */
  lemma FirstOfRequirementShortest(sorted: seq<Row>, k: nat, p: nat)
    requires SortedRows(sorted) && k < |sorted| && p < |sorted|
    requires forall j :: 0 <= j < k ==> sorted[j].requirement != sorted[k].requirement
    requires sorted[p].requirement == sorted[k].requirement
    ensures |sorted[k].importName| <= |sorted[p].importName|
  {
    if k < p {
      assert RowLe(sorted[k], sorted[p]);
    }
  }

  /** A summary row's import name is a shortest one for its requirement. */
  lemma SummaryNameShortest(rows: seq<Row>, row: Row, t: nat)
    requires row in Summarise(rows) && t < |rows| && rows[t].requirement == row.requirement
    ensures |row.importName| <= |rows[t].importName|
  {
    var sorted := SortRows(rows);
    var out := DropDuplicates(sorted, RowRequirement);
    var i :| 0 <= i < |out| && out[i] == row;
    var k :| 0 <= k < |sorted| && sorted[k] == out[i] &&
      forall j :: 0 <= j < k ==> RowRequirement(sorted[j]) != RowRequirement(out[i]);
    assert rows[t] in multiset(sorted);
    var p :| 0 <= p < |sorted| && sorted[p] == rows[t];
    FirstOfRequirementShortest(sorted, k, p);
  }

  /** Every requirement of the input has a row in the summary. */
  lemma SummaryCoversRequirements(rows: seq<Row>, t: nat)
    requires t < |rows|
    ensures exists row :: row in Summarise(rows) && row.requirement == rows[t].requirement
  {
    var sorted := SortRows(rows);
    var out := Summarise(rows);
    assert rows[t] in multiset(sorted);
    var p :| 0 <= p < |sorted| && sorted[p] == rows[t];
    assert RowRequirement(sorted[p]) in Keys(sorted, RowRequirement);
    var i :| 0 <= i < |out| && RowRequirement(out[i]) == RowRequirement(sorted[p]);
    assert out[i] in out;
  }

  /**
   * The summary has one row per distinct requirement, in ascending
   * requirement order; each is a row of the input, and its import name is no
   * longer than that of any input row with the same requirement.
   */
  lemma SummaryIsShortestPerRequirement(rows: seq<Row>)
    ensures forall i, j :: 0 <= i < j < |Summarise(rows)| ==>
      StrLt(Summarise(rows)[i].requirement, Summarise(rows)[j].requirement)
    ensures forall row :: row in Summarise(rows) ==> row in rows
    ensures forall row, t ::
      (row in Summarise(rows) && 0 <= t < |rows| && rows[t].requirement == row.requirement)
      ==> |row.importName| <= |rows[t].importName|
    ensures forall t :: 0 <= t < |rows| ==>
      exists row :: row in Summarise(rows) && row.requirement == rows[t].requirement
  {
    SummaryAscending(rows);
    SummaryRowsFromInput(rows);
    forall row, t | row in Summarise(rows) && 0 <= t < |rows| && rows[t].requirement == row.requirement
      ensures |row.importName| <= |rows[t].importName|
    {
      SummaryNameShortest(rows, row, t);
    }
    forall t | 0 <= t < |rows|
      ensures exists row :: row in Summarise(rows) && row.requirement == rows[t].requirement
    {
      SummaryCoversRequirements(rows, t);
    }
  }
}
