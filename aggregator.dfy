/**
 * `extract_pip_requirement` (src/minireqs/pip_package_extract.py): gather
 * the candidate names of every source file, resolve each to `name=version`,
 * drop the unresolved ones, and produce the requirement manifest and the
 * summary of the shortest import name per requirement. The file list of
 * `find_py_files` is an input; the CSV sink becomes the `written` field.
 */
module Aggregator {
  import opened Wrappers
  import opened Text
  import opened Collections
  import opened Importer
  import opened Resolver
  import opened Extractor
  import opened Tables

  /** `combine_pair`: `name=version` when both are present, else `None`. */
  function CombinePair(name: Option<string>, version: Option<string>): (r: Option<string>)
    ensures r.Some? <==> name.Some? && version.Some?
    ensures r.Some? ==> |r.value| == |name.value| + 1 + |version.value|
  {
    if name.Some? && version.Some? then Some(name.value + "=" + version.value) else None
  }

  /**
   * For names without `=`, the requirement string determines the name and
   * the version, so deduplicating requirement strings is deduplicating pairs.
   */
  lemma CombinePairInjective(n1: string, v1: string, n2: string, v2: string)
    requires '=' !in n1 && '=' !in n2
    requires CombinePair(Some(n1), Some(v1)) == CombinePair(Some(n2), Some(v2))
    ensures n1 == n2 && v1 == v2
  {
    var s := n1 + "=" + v1;
    assert s == n2 + "=" + v2;
    assert s[|n1|] == '=' && forall j :: 0 <= j < |n1| ==> s[j] == n1[j] && s[j] != '=';
    assert s[|n2|] == '=' && forall j :: 0 <= j < |n2| ==> s[j] == n2[j] && s[j] != '=';
    assert |n1| == |n2|;
    assert n1 == s[..|n1|] && n2 == s[..|n2|];
    assert v1 == s[|n1| + 1..] && v2 == s[|n2| + 1..];
  }

  /** The union of the files' names, or the first exception, in file order. */
  function Candidates(files: seq<SourceFile>): Result<set<string>, Failure>
  {
    if files == [] then Ok({})
    else
      var before := Candidates(files[..|files| - 1]);
      if before.Err? then before
      else
        var last := ImportNames(files[|files| - 1]);
        if last.Err? then Err(last.error) else Ok(before.value + last.value)
  }

  /** One more file: its names join the union, or its exception ends it. */
  lemma CandidatesSnoc(files: seq<SourceFile>, i: nat)
    requires i < |files|
    ensures Candidates(files[..i + 1]) ==
      if Candidates(files[..i]).Err? then Candidates(files[..i])
      else if ImportNames(files[i]).Err? then Err(ImportNames(files[i]).error)
      else Ok(Candidates(files[..i]).value + ImportNames(files[i]).value)
  {
    assert files[..i + 1][..i] == files[..i];
  }

  /** `Candidates` fails exactly when some file fails. */
  lemma {:induction false} CandidatesErrIff(files: seq<SourceFile>)
    ensures Candidates(files).Err? <==> exists i :: 0 <= i < |files| && ImportNames(files[i]).Err?
  {
    if files != [] {
      var n := |files| - 1;
      var init := files[..n];
      CandidatesErrIff(init);
      CandidatesSnoc(files, n);
      assert files[..n + 1] == files;
      var before := Candidates(init);
      if before.Err? {
        var i :| 0 <= i < n && ImportNames(init[i]).Err?;
        assert init[i] == files[i];
      } else if ImportNames(files[n]).Ok? {
        forall i | 0 <= i < |files| ensures ImportNames(files[i]).Ok? {
          if i < n {
            assert init[i] == files[i];
            assert !ImportNames(init[i]).Err?;
          } else {
            assert files[i] == files[n];
          }
        }
      }
    }
  }

  /** When some file fails, there is a first one. */
  lemma FirstFailingFile(files: seq<SourceFile>, k: nat) returns (i: nat)
    requires k < |files| && ImportNames(files[k]).Err?
    ensures i <= k && ImportNames(files[i]).Err?
    ensures forall j :: 0 <= j < i ==> ImportNames(files[j]).Ok?
  {
    i := 0;
    while ImportNames(files[i]).Ok?
      invariant i <= k
      invariant forall j :: 0 <= j < i ==> ImportNames(files[j]).Ok?
      decreases k - i
    {
      assert i != k;
      ghost var passed := i;
      i := i + 1;
      forall j | 0 <= j < i ensures ImportNames(files[j]).Ok? {
        if j == passed {
          assert files[j] == files[passed];
        }
      }
    }
  }

  /** When file `i` is the first to fail, its failure is the result of `Candidates`. */
  lemma {:induction false} CandidatesFailAt(files: seq<SourceFile>, i: nat)
    requires i < |files| && ImportNames(files[i]).Err?
    requires forall j :: 0 <= j < i ==> ImportNames(files[j]).Ok?
    ensures Candidates(files) == Err(ImportNames(files[i]).error)
  {
    var before := files[..i];
    forall j | 0 <= j < |before| ensures ImportNames(before[j]).Ok? {
      assert before[j] == files[j];
    }
    CandidatesErrIff(before);
    CandidatesSnoc(files, i);
    CandidatesFailFast(files, i + 1);
  }

  /** A failure of `Candidates` is the failure of the first file that fails. */
  lemma {:induction false} CandidatesFirstFailure(files: seq<SourceFile>)
    requires Candidates(files).Err?
    ensures exists i :: (0 <= i < |files| && ImportNames(files[i]).Err? &&
      Candidates(files).error == ImportNames(files[i]).error &&
      forall j :: 0 <= j < i ==> ImportNames(files[j]).Ok?)
  {
    assert exists k :: 0 <= k < |files| && ImportNames(files[k]).Err? by {
      CandidatesErrIff(files);
    }
    var k :| 0 <= k < |files| && ImportNames(files[k]).Err?;
    var i := FirstFailingFile(files, k);
    CandidatesFailAt(files, i);
    assert 0 <= i < |files| && ImportNames(files[i]).Err? && Candidates(files).error == ImportNames(files[i]).error &&
      forall j :: 0 <= j < i ==> ImportNames(files[j]).Ok?;
  }

  /** A successful `Candidates` holds every name of every file and nothing else. */
  lemma {:induction false} CandidatesUnion(files: seq<SourceFile>)
    requires Candidates(files).Ok?
    ensures forall x :: x in Candidates(files).value <==>
      exists i :: 0 <= i < |files| && ImportNames(files[i]).Ok? && x in ImportNames(files[i]).value
  {
    if files != [] {
      var n := |files| - 1;
      var init := files[..n];
      CandidatesSnoc(files, n);
      assert files[..n + 1] == files;
      CandidatesUnion(init);
      var before := Candidates(init).value;
      var last := ImportNames(files[n]).value;
      assert Candidates(files).value == before + last;
      forall x ensures x in Candidates(files).value <==>
        exists i :: 0 <= i < |files| && ImportNames(files[i]).Ok? && x in ImportNames(files[i]).value
      {
        if x in before {
          var i :| 0 <= i < n && ImportNames(init[i]).Ok? && x in ImportNames(init[i]).value;
          assert init[i] == files[i];
        } else if x in last {
          assert ImportNames(files[n]).Ok? && x in ImportNames(files[n]).value;
        } else {
          forall i | 0 <= i < |files| && ImportNames(files[i]).Ok? ensures x !in ImportNames(files[i]).value {
            if i < n {
              assert init[i] == files[i];
              assert !(ImportNames(init[i]).Ok? && x in ImportNames(init[i]).value);
            } else {
              assert files[i] == files[n];
            }
          }
        }
      }
    }
  }

  /** The elements of a concatenation. */
  lemma ElementsAppend<T>(a: seq<T>, b: seq<T>)
    ensures Elements(a + b) == Elements(a) + Elements(b)
  {
  }

  /** An exception raised on one file ends the whole call. */
  lemma {:induction false} CandidatesFailFast(files: seq<SourceFile>, i: nat)
    requires i <= |files| && Candidates(files[..i]).Err?
    ensures Candidates(files) == Candidates(files[..i])
    decreases |files| - i
  {
    if i < |files| {
      CandidatesSnoc(files, i);
      CandidatesFailFast(files, i + 1);
    } else {
      assert files[..i] == files;
    }
  }

  /** The requirement column of the rows. */
  function RequirementColumn(rows: seq<Row>): seq<string>
  {
    seq(|rows|, i requires 0 <= i < |rows| => rows[i].requirement)
  }

  /** `find_pip_pkg` followed by `combine_pair`, as a function of the candidate name. */
  function RequirementOf(loader: Loader, dists: seq<Distribution>): string -> Option<string>
  {
    x => var r := Resolve(loader, dists, x); CombinePair(r.0, r.1)
  }

  /** Deduplication on a whole string. */
  function Identity(s: string): string
  {
    s
  }

  /**
   * The manifest holds each requirement string once, and exactly the
   * requirements of the candidates that resolved.
   */
  ghost predicate IsManifest(m: seq<string>, cands: set<string>, requirementOf: string -> Option<string>)
  {
    && NoDuplicates(m)
    && forall s :: s in m <==> exists x :: x in cands && requirementOf(x) == Some(s)
  }

  /**
   * The summary is ascending by requirement with one row per resolved
   * requirement, pairing it with a shortest candidate that resolves to it.
   */
  ghost predicate IsSummary(summary: seq<Row>, cands: set<string>, requirementOf: string -> Option<string>)
  {
    && (forall i, j :: 0 <= i < j < |summary| ==> StrLt(summary[i].requirement, summary[j].requirement))
    && (forall row :: row in summary ==>
          row.importName in cands && requirementOf(row.importName) == Some(row.requirement))
    && (forall row, x :: row in summary && x in cands && requirementOf(x) == Some(row.requirement)
          ==> |row.importName| <= |x|)
    && (forall x :: x in cands && requirementOf(x).Some? ==>
          exists row :: row in summary && row.requirement == requirementOf(x).value)
  }

  /** The pairs table of line 150–152: each listed name with its requirement. */
  ghost predicate PairsOf(pairs: seq<(string, Option<string>)>, names: seq<string>, requirementOf: string -> Option<string>)
  {
    |pairs| == |names| && forall t :: 0 <= t < |names| ==> pairs[t] == (names[t], requirementOf(names[t]))
  }

  /** A resolved row comes from a candidate, and every resolved candidate gives one. */
  lemma ResolvedRows(pairs: seq<(string, Option<string>)>, names: seq<string>, requirementOf: string -> Option<string>)
    requires PairsOf(pairs, names, requirementOf)
    ensures forall row :: row in DropNa(pairs) <==>
      row.importName in names && requirementOf(row.importName) == Some(row.requirement)
  {
    forall row ensures row in DropNa(pairs) <==>
      row.importName in names && requirementOf(row.importName) == Some(row.requirement)
    {
      if row.importName in names && requirementOf(row.importName) == Some(row.requirement) {
        var t :| 0 <= t < |names| && names[t] == row.importName;
        assert pairs[t] == (row.importName, Some(row.requirement));
      }
    }
  }

  /** A requirement column entry comes from a resolved candidate. */
  lemma ColumnEntryResolved(pairs: seq<(string, Option<string>)>, names: seq<string>,
                            requirementOf: string -> Option<string>, s: string)
    requires PairsOf(pairs, names, requirementOf)
    requires s in RequirementColumn(DropNa(pairs))
    ensures exists x :: x in Elements(names) && requirementOf(x) == Some(s)
  {
    var rows := DropNa(pairs);
    var col := RequirementColumn(rows);
    ResolvedRows(pairs, names, requirementOf);
    var i :| 0 <= i < |col| && col[i] == s;
    assert rows[i] in rows;
    assert rows[i].importName in Elements(names);
  }

  /** A resolved candidate's requirement is in the requirement column. */
  lemma ResolvedInColumn(pairs: seq<(string, Option<string>)>, names: seq<string>,
                         requirementOf: string -> Option<string>, x: string, s: string)
    requires PairsOf(pairs, names, requirementOf)
    requires x in Elements(names) && requirementOf(x) == Some(s)
    ensures s in RequirementColumn(DropNa(pairs))
  {
    var rows := DropNa(pairs);
    var col := RequirementColumn(rows);
    ResolvedRows(pairs, names, requirementOf);
    assert Row(x, s) in rows;
    var i :| 0 <= i < |rows| && rows[i] == Row(x, s);
    assert col[i] == s;
  }

  /** Dropping duplicate strings keeps each string of the column exactly once. */
  lemma DistinctColumn(col: seq<string>)
    ensures NoDuplicates(DropDuplicates(col, Identity))
    ensures forall s :: s in DropDuplicates(col, Identity) <==> s in col
  {
    var m := DropDuplicates(col, Identity);
    forall i, j | 0 <= i < j < |m| ensures m[i] != m[j] {
      assert Identity(m[i]) != Identity(m[j]);
    }
    forall s | s in col ensures s in m {
      var i :| 0 <= i < |col| && col[i] == s;
      assert Identity(col[i]) in Keys(col, Identity);
      var j :| 0 <= j < |m| && Identity(m[j]) == s;
    }
  }

  /** Line 158 writes a manifest of the resolved candidates. */
  lemma ManifestOfResolved(pairs: seq<(string, Option<string>)>, names: seq<string>, requirementOf: string -> Option<string>)
    requires PairsOf(pairs, names, requirementOf)
    ensures IsManifest(DropDuplicates(RequirementColumn(DropNa(pairs)), Identity), Elements(names), requirementOf)
  {
    var col := RequirementColumn(DropNa(pairs));
    DistinctColumn(col);
    forall s ensures s in col <==> exists x :: x in Elements(names) && requirementOf(x) == Some(s) {
      if s in col {
        ColumnEntryResolved(pairs, names, requirementOf, s);
      }
      if exists x :: x in Elements(names) && requirementOf(x) == Some(s) {
        var x :| x in Elements(names) && requirementOf(x) == Some(s);
        ResolvedInColumn(pairs, names, requirementOf, x, s);
      }
    }
  }

  /** A summary row's name is no longer than any candidate with its requirement. */
  lemma SummaryNameIsShortest(pairs: seq<(string, Option<string>)>, names: seq<string>,
                              requirementOf: string -> Option<string>, row: Row, x: string)
    requires PairsOf(pairs, names, requirementOf)
    requires row in Summarise(DropNa(pairs)) && x in names && requirementOf(x) == Some(row.requirement)
    ensures |row.importName| <= |x|
  {
    var rows := DropNa(pairs);
    ResolvedRows(pairs, names, requirementOf);
    assert Row(x, row.requirement) in rows;
    var t :| 0 <= t < |rows| && rows[t] == Row(x, row.requirement);
    SummaryNameShortest(rows, row, t);
  }

  /** Every resolved candidate's requirement has a summary row. */
  lemma SummaryHasRequirement(pairs: seq<(string, Option<string>)>, names: seq<string>,
                              requirementOf: string -> Option<string>, x: string)
    requires PairsOf(pairs, names, requirementOf)
    requires x in names && requirementOf(x).Some?
    ensures exists row :: row in Summarise(DropNa(pairs)) && row.requirement == requirementOf(x).value
  {
    var rows := DropNa(pairs);
    ResolvedRows(pairs, names, requirementOf);
    assert Row(x, requirementOf(x).value) in rows;
    var t :| 0 <= t < |rows| && rows[t] == Row(x, requirementOf(x).value);
    SummaryCoversRequirements(rows, t);
  }

  /** Lines 160–163 build a summary of the resolved candidates. */
  lemma SummaryOfResolved(pairs: seq<(string, Option<string>)>, names: seq<string>, requirementOf: string -> Option<string>)
    requires PairsOf(pairs, names, requirementOf)
    ensures IsSummary(Summarise(DropNa(pairs)), Elements(names), requirementOf)
  {
    var rows := DropNa(pairs);
    var out := Summarise(rows);
    ResolvedRows(pairs, names, requirementOf);
    SummaryAscending(rows);
    SummaryRowsFromInput(rows);
    forall row, x | row in out && x in Elements(names) && requirementOf(x) == Some(row.requirement)
      ensures |row.importName| <= |x|
    {
      SummaryNameIsShortest(pairs, names, requirementOf, row, x);
    }
    forall x | x in Elements(names) && requirementOf(x).Some?
      ensures exists row :: row in out && row.requirement == requirementOf(x).value
    {
      SummaryHasRequirement(pairs, names, requirementOf, x);
    }
  }

  /** What the call produces: the manifest written, if any, and the summary table. */
  datatype Report = Report(written: Option<seq<string>>, summary: seq<Row>)

  /**
   * The loop of lines 137–140: every file's names in file order, stopping at
   * the first exception `get_imports` raises.
   */
  method CollectImports(files: seq<SourceFile>) returns (r: Result<seq<string>, Failure>)
    ensures r.Err? <==> Candidates(files).Err?
    ensures r.Err? ==> r.error == Candidates(files).error
    ensures r.Ok? ==> Elements(r.value) == Candidates(files).value
  {
    var listImports: seq<string> := [];
    var i := 0;
    assert files[..0] == [];
    assert Elements(listImports) == {};
    while i < |files|
      invariant 0 <= i <= |files|
      invariant Candidates(files[..i]) == Ok(Elements(listImports))
    {
      var names := GetImports(files[i]);
      CandidatesSnoc(files, i);
      if names.Err? {
        CandidatesFailFast(files, i + 1);
        return Err(names.error);
      }
      ElementsAppend(listImports, names.value);
      listImports := listImports + names.value;
      i := i + 1;
    }
    assert files[..|files|] == files;
    return Ok(listImports);
  }

  /** Pairing one more name keeps the pairs in step with the names. */
  lemma PairsOfSnoc(pairs: seq<(string, Option<string>)>, names: seq<string>, k: nat,
                    requirementOf: string -> Option<string>)
    requires k < |names| && PairsOf(pairs, names[..k], requirementOf)
    ensures PairsOf(pairs + [(names[k], requirementOf(names[k]))], names[..k + 1], requirementOf)
  {
    assert forall t :: 0 <= t < k ==> names[..k + 1][t] == names[..k][t];
  }

  /** The comprehension of lines 150–152: each name paired with its requirement. */
  method ResolvePairs(names: seq<string>, loader: Loader, dists: seq<Distribution>)
    returns (pairs: seq<(string, Option<string>)>)
    ensures PairsOf(pairs, names, RequirementOf(loader, dists))
  {
    pairs := [];
    var k := 0;
    while k < |names|
      invariant 0 <= k <= |names|
      invariant PairsOf(pairs, names[..k], RequirementOf(loader, dists))
    {
      var name, version := FindPipPkg(loader, dists, names[k]);
      var requirement := CombinePair(name, version);
      assert requirement == RequirementOf(loader, dists)(names[k]);
      PairsOfSnoc(pairs, names, k, RequirementOf(loader, dists));
      pairs := pairs + [(names[k], requirement)];
      k := k + 1;
    }
    assert names[..|names|] == names;
  }

  /**
   * `extract_pip_requirement` over the discovered files: an exception from
   * any file escapes; no candidates means an empty summary and no manifest;
   * otherwise the manifest and summary of the resolved candidates.
   */
  method ExtractPipRequirement(files: seq<SourceFile>, loader: Loader, dists: seq<Distribution>)
    returns (r: Result<Report, Failure>)
    ensures r.Err? <==> Candidates(files).Err?
    ensures r.Err? ==> r.error == Candidates(files).error
    ensures r.Ok? ==> (r.value.written.None? <==> Candidates(files).value == {})
    ensures r.Ok? && Candidates(files).value == {} ==> r.value.summary == []
    ensures r.Ok? && r.value.written.Some? ==>
      IsManifest(r.value.written.value, Candidates(files).value, RequirementOf(loader, dists))
    ensures r.Ok? ==> IsSummary(r.value.summary, Candidates(files).value, RequirementOf(loader, dists))
  {
    var listImports := CollectImports(files);
    if listImports.Err? {
      return Err(listImports.error);
    }
    if listImports.value == [] {
      return Ok(Report(None, []));
    }
    assert listImports.value[0] in Elements(listImports.value);
    var unique := ListOf(Elements(listImports.value));
    var pairs := ResolvePairs(unique, loader, dists);
    var rows := DropNa(pairs);
    ManifestOfResolved(pairs, unique, RequirementOf(loader, dists));
    SummaryOfResolved(pairs, unique, RequirementOf(loader, dists));
    return Ok(Report(Some(DropDuplicates(RequirementColumn(rows), Identity)), Summarise(rows)));
  }
}
