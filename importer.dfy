/**
 * `safe_import` (src/minireqs/pip_package_extract.py): import a dotted name,
 * falling back to ever shorter dot-prefixes of it when the longer ones are not
 * found. The module loader is injected as a map from importable names to the
 * modules they load.
 */
module Importer {
  import opened Wrappers
  import opened Text

  /** A loaded module; `origin` is its `__file__` attribute, if it has one. */
  datatype Module = Module(origin: Option<string>)

  /**
   * The module loader: importing a name in the map yields its module; any
   * other name raises `ModuleNotFoundError`.
   */
  type Loader = map<string, Module>

  /** `p` is `name` itself or the part of `name` before one of its dots. */
  predicate IsDotPrefix(p: string, name: string)
  {
    |p| <= |name| && p == name[..|p|] && (|p| == |name| || name[|p|] == '.')
  }

  /**
   * The names `safe_import` tries, in order: the dot-join of the first `i`
   * parts of `name.split('.')`, for `i` from the number of parts down to 1.
   */
  function Attempts(name: string): (c: seq<string>)
    ensures |c| == |Split(name, '.')|
  {
    var parts := Split(name, '.');
    seq(|parts|, k requires 0 <= k < |parts| => Join(parts[..|parts| - k], '.'))
  }

  /** The first attempt is the whole name, the last its first segment. */
  lemma AttemptsEnds(name: string)
    ensures Attempts(name)[0] == name
    ensures Attempts(name)[|Attempts(name)| - 1] == FirstSegment(name)
  {
    var parts := Split(name, '.');
    var c := Attempts(name);
    JoinSplit(name, '.');
    assert parts[..|parts|] == parts;
    assert c[0] == Join(parts, '.');
    assert parts[..1] == [parts[0]];
    assert c[|c| - 1] == Join([parts[0]], '.');
  }

  /** Every attempt is a dot-prefix of the name. */
  lemma AttemptsArePrefixes(name: string)
    ensures forall k :: 0 <= k < |Attempts(name)| ==> IsDotPrefix(Attempts(name)[k], name)
  {
    var parts := Split(name, '.');
    forall k | 0 <= k < |Attempts(name)| ensures IsDotPrefix(Attempts(name)[k], name) {
      JoinPrefix(name, '.', |parts| - k);
    }
  }

  /** Each attempt is strictly shorter than every attempt before it. */
  lemma AttemptsShrink(name: string)
    ensures forall j, k :: 0 <= j < k < |Attempts(name)| ==> |Attempts(name)[k]| < |Attempts(name)[j]|
  {
    var parts := Split(name, '.');
    forall j, k | 0 <= j < k < |Attempts(name)| ensures |Attempts(name)[k]| < |Attempts(name)[j]| {
      JoinPrefixGrows(parts, '.', |parts| - k, |parts| - j);
    }
  }

  /** The attempts are exactly the dot-prefixes of the name. */
  lemma AttemptsAreDotPrefixes(name: string)
    ensures forall p :: p in Attempts(name) <==> IsDotPrefix(p, name)
  {
    var parts := Split(name, '.');
    var c := Attempts(name);
    AttemptsArePrefixes(name);
    forall p ensures p in c <==> IsDotPrefix(p, name) {
      if p in c {
        var k :| 0 <= k < |c| && c[k] == p;
        assert IsDotPrefix(c[k], name);
      }
      if IsDotPrefix(p, name) {
        var i := DotPrefixIndex(name, '.', |p|);
        var k := |parts| - i;
        assert parts[..|parts| - k] == parts[..i];
        assert c[k] == Join(parts[..i], '.');
        assert name[..|p|] == p;
        assert c[k] == p;
      }
    }
  }

  /** Position of the first of `names` the loader can import, or `|names|`. */
  function FirstLoadable(loader: Loader, names: seq<string>): (k: nat)
    ensures k <= |names|
    ensures forall j :: 0 <= j < k ==> names[j] !in loader
    ensures k < |names| ==> names[k] in loader
  {
    if names == [] then 0
    else if names[0] in loader then 0
    else 1 + FirstLoadable(loader, names[1..])
  }

  /** What `safe_import(name)` returns: the first attempt that loads, or `None`. */
  function Imported(loader: Loader, name: string): Option<Module>
  {
    var c := Attempts(name);
    var k := FirstLoadable(loader, c);
    if k < |c| then Some(loader[c[k]]) else None
  }

  /** `p` is the longest dot-prefix of `name` that the loader can import. */
  predicate LongestLoadable(loader: Loader, name: string, p: string)
  {
    && IsDotPrefix(p, name) && p in loader
    && forall q :: IsDotPrefix(q, name) && |q| > |p| ==> q !in loader
  }

  /**
   * `safe_import` yields `None` exactly when no dot-prefix of the name loads,
   * and otherwise the module of the longest dot-prefix that loads.
   */
  lemma ImportedIsLongestLoadable(loader: Loader, name: string)
    ensures Imported(loader, name).None? <==> forall p :: IsDotPrefix(p, name) ==> p !in loader
    ensures Imported(loader, name).Some? ==>
      exists p :: LongestLoadable(loader, name, p) && Imported(loader, name).value == loader[p]
    ensures forall p :: LongestLoadable(loader, name, p) ==> Imported(loader, name) == Some(loader[p])
  {
    var c := Attempts(name);
    var k := FirstLoadable(loader, c);
    AttemptsEnds(name);
    AttemptsArePrefixes(name);
    AttemptsShrink(name);
    AttemptsAreDotPrefixes(name);
    if k < |c| {
      forall q | IsDotPrefix(q, name) && |q| > |c[k]| ensures q !in loader {
        assert q in c;
        var j :| 0 <= j < |c| && c[j] == q;
        assert j < k;
      }
      assert LongestLoadable(loader, name, c[k]);
      forall p | LongestLoadable(loader, name, p) ensures Imported(loader, name) == Some(loader[p]) {
        assert p in c;
        var j :| 0 <= j < |c| && c[j] == p;
        assert !(j < k) && !(k < j);
      }
    } else {
      forall p | IsDotPrefix(p, name) ensures p !in loader {
        assert p in c;
      }
    }
  }

  /**
   * `safe_import`: tries `".".join(parts[:i])` for `i` from `len(parts)` down
   * to 1 and returns the first module that loads, or `None`.
   */
  method SafeImport(loader: Loader, name: string) returns (m: Option<Module>)
    ensures m == Imported(loader, name)
  {
    var parts := Split(name, '.');
    var i := |parts|;
    while i > 0
      invariant 0 <= i <= |parts|
      invariant forall j :: 0 <= j < |parts| - i ==> Attempts(name)[j] !in loader
    {
      var moduleName := Join(parts[..i], '.');
      assert moduleName == Attempts(name)[|parts| - i];
      if moduleName in loader {
        return Some(loader[moduleName]);
      }
      i := i - 1;
    }
    return None;
  }
}
