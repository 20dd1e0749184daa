/**
 * `get_imports` (src/minireqs/pip_package_extract.py): the candidate import
 * names of one source file. Reading the file and parsing it are injected: a
 * source file carries whether it is a regular file, its text, and the import
 * nodes of its syntax tree in `ast.walk` order (or no tree when `ast.parse`
 * raises `SyntaxError`).
 */
module Extractor {
  import opened Wrappers
  import opened Text
  import opened Collections

  /**
   * An import statement of the tree: `import a.b, c` or
   * `from m import x, y`. A relative `from . import x` has no module.
   */
  datatype ImportNode = Import(names: seq<string>) | ImportFrom(from: Option<string>, names: seq<string>)

  /** A source file as `get_imports` sees it. */
  datatype SourceFile = SourceFile(isFile: bool, content: string, tree: Option<seq<ImportNode>>)

  /** The exceptions `get_imports` lets escape. */
  datatype Failure =
    | SyntaxError  // `ast.parse` rejects the text
    | TypeError    // `'.' in None` for a relative import without a module

  /** A `from . import x` node, whose module is `None`. */
  predicate IsModuleless(n: ImportNode)
  {
    n.ImportFrom? && n.from.None?
  }

  /**
   * The names one node adds to `imports`: every alias of an `Import`; the
   * module of an `ImportFrom` and `module.alias` for each of its aliases.
   */
  function NodeNames(n: ImportNode): set<string>
  {
    match n
    case Import(names) => set a | a in names
    case ImportFrom(Some(m), names) => {m} + set a | a in names :: m + "." + a
    case ImportFrom(None, _) => {}
  }

  /** The union of the names of `nodes`. */
  function Collected(nodes: seq<ImportNode>): set<string>
  {
    if nodes == [] then {} else Collected(nodes[..|nodes| - 1]) + NodeNames(nodes[|nodes| - 1])
  }

  /** A name is collected exactly when some node contributes it. */
  lemma {:induction false} CollectedFromNodes(nodes: seq<ImportNode>, x: string)
    ensures x in Collected(nodes) <==> exists i :: 0 <= i < |nodes| && x in NodeNames(nodes[i])
  {
    if nodes != [] {
      var n := |nodes| - 1;
      CollectedFromNodes(nodes[..n], x);
      assert forall i :: 0 <= i < n ==> nodes[..n][i] == nodes[i];
    }
  }

  /** Collecting one more node adds its names. */
  lemma CollectedSnoc(nodes: seq<ImportNode>, i: nat)
    requires i < |nodes|
    ensures Collected(nodes[..i + 1]) == Collected(nodes[..i]) + NodeNames(nodes[i])
  {
    assert nodes[..i + 1][..i] == nodes[..i];
  }

  /** `imports.add(prefix + alias.name)` for each alias of one node, in order. */
  method AddAliases(imports: set<string>, prefix: string, names: seq<string>) returns (r: set<string>)
    ensures r == imports + set a | a in names :: prefix + a
  {
    r := imports;
    for k := 0 to |names|
      invariant r == imports + set a | a in names[..k] :: prefix + a
    {
      assert names[..k + 1] == names[..k] + [names[k]];
      r := r + {prefix + names[k]};
    }
    assert names[..|names|] == names;
  }

  /**
   * The tree walk of `get_imports`, which adds each node's names to the
   * `imports` set; `sawNone` records that `None` went into the set as the
   * module of a relative import.
   */
  method WalkImports(nodes: seq<ImportNode>) returns (imports: set<string>, sawNone: bool)
    ensures imports == Collected(nodes)
    ensures sawNone <==> exists i :: 0 <= i < |nodes| && IsModuleless(nodes[i])
  {
    imports, sawNone := {}, false;
    var i := 0;
    while i < |nodes|
      invariant 0 <= i <= |nodes|
      invariant imports == Collected(nodes[..i])
      invariant sawNone <==> exists j :: 0 <= j < i && IsModuleless(nodes[j])
    {
      match nodes[i] {
      case Import(names) =>
        imports := AddAliases(imports, "", names);
        forall a | a in names ensures "" + a == a {
          assert ("" + a)[..] == a;
        }
        assert (set a | a in names :: "" + a) == set a | a in names;
      case ImportFrom(moduleName, names) =>
        if moduleName.None? {
          sawNone := true;
        } else {
          var m := moduleName.value;
          imports := AddAliases(imports + {m}, m + ".", names);
        }
      }
      CollectedSnoc(nodes, i);
      i := i + 1;
    }
    assert nodes[..|nodes|] == nodes;
  }

  /** `[x.split('.')[0] for x in xs if '.' in x]`. */
  function Roots(xs: seq<string>): (r: seq<string>)
    ensures forall y :: y in r <==> exists x :: x in xs && '.' in x && y == FirstSegment(x)
  {
    if xs == [] then []
    else
      var n := |xs| - 1;
      var r := Roots(xs[..n]) + (if '.' in xs[n] then [FirstSegment(xs[n])] else []);
      assert forall x :: x in xs <==> x in xs[..n] || x == xs[n] by {
        assert xs == xs[..n] + [xs[n]];
      }
      r
  }

  /** The names with the first segment of every dotted one added (lines 127–129). */
  function WithRoots(xs: set<string>): set<string>
  {
    xs + set x | x in xs && '.' in x :: FirstSegment(x)
  }

  /** What `get_imports` returns, as a set, or the exception it raises. */
  function ImportNames(file: SourceFile): Result<set<string>, Failure>
  {
    if !file.isFile then Ok({})
    else if Strip(file.content) == "" then Ok({})
    else match file.tree
      case None => Err(SyntaxError)
      case Some(nodes) =>
        if exists i :: 0 <= i < |nodes| && IsModuleless(nodes[i]) then Err(TypeError)
        else Ok(WithRoots(Collected(nodes)))
  }

  /**
   * Specification of the names of a parsed file: exactly the names its nodes
   * contribute and the first segments of those that hold a dot.
   */
  lemma ImportNamesAreCandidates(file: SourceFile, x: string)
    requires ImportNames(file).Ok? && file.isFile && Strip(file.content) != "" && file.tree.Some?
    ensures x in ImportNames(file).value <==>
      || (exists i :: 0 <= i < |file.tree.value| && x in NodeNames(file.tree.value[i]))
      || (exists i, y :: 0 <= i < |file.tree.value| && y in NodeNames(file.tree.value[i]) &&
            '.' in y && x == FirstSegment(y))
  {
    var nodes := file.tree.value;
    CollectedFromNodes(nodes, x);
    forall y ensures y in Collected(nodes) <==> exists i :: 0 <= i < |nodes| && y in NodeNames(nodes[i]) {
      CollectedFromNodes(nodes, y);
    }
  }

  /** Every dotted name collected from a file brings its first segment along. */
  lemma RootDerivation(file: SourceFile, i: nat, y: string)
    requires ImportNames(file).Ok? && file.isFile && Strip(file.content) != "" && file.tree.Some?
    requires i < |file.tree.value| && y in NodeNames(file.tree.value[i]) && '.' in y
    ensures y in ImportNames(file).value && FirstSegment(y) in ImportNames(file).value
  {
    ImportNamesAreCandidates(file, y);
    ImportNamesAreCandidates(file, FirstSegment(y));
  }

  /**
   * `get_imports`: `[]` for a path that is not a file and for a blank file;
   * otherwise the walk, then the list of the names and their roots, each once.
   */
  method GetImports(file: SourceFile) returns (r: Result<seq<string>, Failure>)
    ensures r.Err? <==> ImportNames(file).Err?
    ensures r.Err? ==> r.error == ImportNames(file).error
    ensures r.Ok? ==> NoDuplicates(r.value) && Elements(r.value) == ImportNames(file).value
    ensures !file.isFile ==> r == Ok([])
    ensures (forall i :: 0 <= i < |file.content| ==> IsSpace(file.content[i])) ==> r == Ok([])
  {
    StripEmptyIffBlank(file.content);
    if !file.isFile {
      return Ok([]);
    }
    if Strip(file.content) == "" {
      return Ok([]);
    }
    if file.tree.None? {
      return Err(SyntaxError);
    }
    var imports, sawNone := WalkImports(file.tree.value);
    var listImports := ListOf(imports);
    if sawNone {
      return Err(TypeError);
    }
    var additional := Roots(listImports);
    var names := ListOf(Elements(listImports + additional));
    assert Elements(listImports + additional) == WithRoots(imports);
    return Ok(names);
  }
}
