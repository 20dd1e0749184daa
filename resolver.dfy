/**
 * `find_pip_pkg` (src/minireqs/pip_package_extract.py): attribute an import
 * name to the installed distribution whose file manifest holds the longest
 * path that occurs inside the imported module's origin path. The
 * distribution registry is injected as a sequence, in enumeration order.
 */
module Resolver {
  import opened Wrappers
  import opened Text
  import opened Importer

  /** An installed distribution: `metadata["Name"]`, `version` and `files`. */
  datatype Distribution = Distribution(name: string, version: string, files: Option<seq<string>>)

  /** `dist.files or []`: a missing file list counts as empty. */
  function Files(d: Distribution): seq<string>
  {
    if d.files.Some? then d.files.value else []
  }

  /** Path separator normalisation, `p.replace("\\", "/")`. */
  function Normalise(p: string): (r: string)
    ensures |r| == |p| && '\\' !in r
    ensures forall i :: 0 <= i < |p| ==> r[i] == (if p[i] == '\\' then '/' else p[i])
  {
    ReplaceChar(p, '\\', '/')
  }

  /** One manifest file as the scan meets it: its owner and its normalised path. */
  datatype Entry = Entry(name: string, version: string, path: string)

  /** The entries of one distribution, in the order of its file list. */
  function EntriesOf(d: Distribution): (es: seq<Entry>)
    ensures |es| == |Files(d)|
  {
    seq(|Files(d)|, k requires 0 <= k < |Files(d)| => Entry(d.name, d.version, Normalise(Files(d)[k])))
  }

  /** Every entry of the registry, distribution by distribution: the nested loops' order. */
  function Manifest(dists: seq<Distribution>): seq<Entry>
  {
    if dists == [] then [] else Manifest(dists[..|dists| - 1]) + EntriesOf(dists[|dists| - 1])
  }

  /**
   * The registry's entries are exactly the owned, normalised files of its
   * distributions, each carrying the name and version of its owner.
   */
  lemma {:induction false} ManifestEntries(dists: seq<Distribution>, e: Entry)
    ensures e in Manifest(dists) <==>
      exists d, f :: 0 <= d < |dists| && 0 <= f < |Files(dists[d])| &&
        e == Entry(dists[d].name, dists[d].version, Normalise(Files(dists[d])[f]))
  {
    if dists != [] {
      var n := |dists| - 1;
      ManifestEntries(dists[..n], e);
      if e in EntriesOf(dists[n]) {
        var f :| 0 <= f < |Files(dists[n])| && EntriesOf(dists[n])[f] == e;
        assert e == Entry(dists[n].name, dists[n].version, Normalise(Files(dists[n])[f]));
      }
      if exists d, f :: (0 <= d < |dists| && 0 <= f < |Files(dists[d])| &&
                         e == Entry(dists[d].name, dists[d].version, Normalise(Files(dists[d])[f])))
      {
        var d, f :| 0 <= d < |dists| && 0 <= f < |Files(dists[d])| &&
          e == Entry(dists[d].name, dists[d].version, Normalise(Files(dists[d])[f]));
        if d == n {
          assert EntriesOf(dists[n])[f] == e;
        } else {
          assert dists[..n][d] == dists[d];
        }
      }
    }
  }

  /** `best_match`, `best_len` and `version` as the scan carries them. */
  datatype Best = Best(best: Option<string>, bestLen: nat, version: Option<string>)

  /** One iteration of the inner loop body. */
  function Step(b: Best, e: Entry, modulePath: string): Best
  {
    if Contains(modulePath, e.path) && |e.path| > b.bestLen
    then Best(Some(e.name), |e.path|, Some(e.version))
    else b
  }

  /** The scan state after meeting `es` in order, from `(None, 0, None)`. */
  function Scan(es: seq<Entry>, modulePath: string): Best
  {
    if es == [] then Best(None, 0, None)
    else Step(Scan(es[..|es| - 1], modulePath), es[|es| - 1], modulePath)
  }

  /** An entry that matches: a non-empty path occurring in the module path. */
  predicate Matches(e: Entry, modulePath: string)
  {
    |e.path| > 0 && Contains(modulePath, e.path)
  }

  /**
   * Entry `k` wins: it matches, no matching entry is longer, and every
   * matching entry met before it is strictly shorter.
   */
  predicate IsWinner(es: seq<Entry>, modulePath: string, k: int)
  {
    && 0 <= k < |es| && Matches(es[k], modulePath)
    && (forall j :: 0 <= j < |es| && Matches(es[j], modulePath) ==> |es[j].path| <= |es[k].path|)
    && (forall j :: 0 <= j < k && Matches(es[j], modulePath) ==> |es[j].path| < |es[k].path|)
  }

  /**
   * The scan finds a package exactly when some entry matches; then name and
   * version are those of the winning entry and `best_len` is its length, and
   * otherwise the state is still `(None, 0, None)`.
   */
  lemma {:induction false} ScanFindsWinner(es: seq<Entry>, modulePath: string)
    ensures Scan(es, modulePath).best.Some? <==> exists k :: 0 <= k < |es| && Matches(es[k], modulePath)
    ensures Scan(es, modulePath).best.None? ==> Scan(es, modulePath) == Best(None, 0, None)
    ensures Scan(es, modulePath).best.Some? ==>
      exists k :: IsWinner(es, modulePath, k) &&
        Scan(es, modulePath) == Best(Some(es[k].name), |es[k].path|, Some(es[k].version))
  {
    if es != [] {
      var n := |es| - 1;
      var init := es[..n];
      var e := es[n];
      ScanFindsWinner(init, modulePath);
      var b := Scan(init, modulePath);
      assert forall j :: 0 <= j < n ==> es[j] == init[j];
      if Contains(modulePath, e.path) && |e.path| > b.bestLen {
        if b.best.Some? {
          var k :| IsWinner(init, modulePath, k) &&
            b == Best(Some(init[k].name), |init[k].path|, Some(init[k].version));
        }
        assert IsWinner(es, modulePath, n);
      } else if b.best.Some? {
        var k :| IsWinner(init, modulePath, k) &&
          b == Best(Some(init[k].name), |init[k].path|, Some(init[k].version));
        assert IsWinner(es, modulePath, k);
      } else {
        assert !Matches(e, modulePath);
      }
    }
  }

  /** The normalised origin file of what `safe_import` loads, if it has a non-empty one. */
  function ModulePath(loader: Loader, importName: string): Option<string>
  {
    match Imported(loader, importName)
    case None => None
    case Some(m) =>
      if m.origin.None? || m.origin.value == "" then None
      else Some(Normalise(m.origin.value))
  }

  /** What `find_pip_pkg(importName)` returns. */
  function Resolve(loader: Loader, dists: seq<Distribution>, importName: string): (Option<string>, Option<string>)
  {
    match ModulePath(loader, importName)
    case None => (None, None)
    case Some(mp) =>
      var b := Scan(Manifest(dists), mp);
      (b.best, b.version)
  }

  /**
   * A name is found exactly when the module loads, has an origin file, and
   * some manifest path matches it; the name and version then both come from
   * the winning entry, which is the longest match and the first of that
   * length in enumeration order.
   */
  lemma ResolveIsBestMatch(loader: Loader, dists: seq<Distribution>, importName: string)
    ensures Resolve(loader, dists, importName).0.Some? <==> Resolve(loader, dists, importName).1.Some?
    ensures Resolve(loader, dists, importName).0.Some? <==>
      ModulePath(loader, importName).Some? &&
      exists k :: 0 <= k < |Manifest(dists)| && Matches(Manifest(dists)[k], ModulePath(loader, importName).value)
    ensures Resolve(loader, dists, importName).0.Some? ==>
      exists k :: IsWinner(Manifest(dists), ModulePath(loader, importName).value, k) &&
        Resolve(loader, dists, importName) == (Some(Manifest(dists)[k].name), Some(Manifest(dists)[k].version))
  {
    var mp := ModulePath(loader, importName);
    if mp.Some? {
      var es := Manifest(dists);
      var b := Scan(es, mp.value);
      assert Resolve(loader, dists, importName) == (b.best, b.version);
      ScanFindsWinner(es, mp.value);
      if b.best.Some? {
        var k :| IsWinner(es, mp.value, k) && b == Best(Some(es[k].name), |es[k].path|, Some(es[k].version));
        assert 0 <= k < |es| && Matches(es[k], mp.value);
        assert Resolve(loader, dists, importName).0.Some?;
        assert exists k :: 0 <= k < |Manifest(dists)| && Matches(Manifest(dists)[k], ModulePath(loader, importName).value);
      } else {
        assert !exists k :: 0 <= k < |es| && Matches(es[k], mp.value);
      }
    } else {
      assert Resolve(loader, dists, importName) == (None, None);
    }
  }

  /**
   * The nested loops of `find_pip_pkg` over every distribution and every file
   * it owns, updating `best_match`, `best_len` and `version` on each strictly
   * longer match.
   */
  method ScanDistributions(dists: seq<Distribution>, modulePath: string)
    returns (bestMatch: Option<string>, bestLen: nat, version: Option<string>)
    ensures Best(bestMatch, bestLen, version) == Scan(Manifest(dists), modulePath)
  {
    bestMatch, bestLen, version := None, 0, None;
    var d := 0;
    while d < |dists|
      invariant 0 <= d <= |dists|
      invariant Best(bestMatch, bestLen, version) == Scan(Manifest(dists[..d]), modulePath)
    {
      var files := Files(dists[d]);
      ghost var done := Manifest(dists[..d]);
      ghost var entries := EntriesOf(dists[d]);
      var f := 0;
      assert done + entries[..0] == done;
      while f < |files|
        invariant 0 <= f <= |files|
        invariant Best(bestMatch, bestLen, version) == Scan(done + entries[..f], modulePath)
      {
        var path := Normalise(files[f]);
        assert entries[f] == Entry(dists[d].name, dists[d].version, path);
        ScanSnoc(done + entries[..f], entries[f], modulePath);
        ExtendPrefix(done, entries, f);
        if Contains(modulePath, path) {
          if |path| > bestLen {
            bestMatch := Some(dists[d].name);
            bestLen := |path|;
            version := Some(dists[d].version);
          }
        }
        f := f + 1;
      }
      ManifestSnoc(dists, d);
      assert entries[..|files|] == entries;
      d := d + 1;
    }
    assert dists[..|dists|] == dists;
  }

  /** Taking one more element of `b` after `a`. */
  lemma ExtendPrefix<T>(a: seq<T>, b: seq<T>, f: nat)
    requires f < |b|
    ensures a + b[..f + 1] == (a + b[..f]) + [b[f]]
  {
    assert b[..f + 1] == b[..f] + [b[f]];
  }

  /** Scanning one more entry is one more step. */
  lemma ScanSnoc(es: seq<Entry>, e: Entry, modulePath: string)
    ensures Scan(es + [e], modulePath) == Step(Scan(es, modulePath), e, modulePath)
  {
    assert (es + [e])[..|es|] == es;
  }

  /** The registry prefix grows by the entries of the next distribution. */
  lemma ManifestSnoc(dists: seq<Distribution>, d: nat)
    requires d < |dists|
    ensures Manifest(dists[..d + 1]) == Manifest(dists[..d]) + EntriesOf(dists[d])
  {
    assert dists[..d + 1][..d] == dists[..d];
  }

  /**
   * `find_pip_pkg`: `(None, None)` when nothing loads or the module has no
   * origin file; otherwise the best match over every distribution's files.
   */
  method FindPipPkg(loader: Loader, dists: seq<Distribution>, importName: string)
    returns (name: Option<string>, version: Option<string>)
    ensures (name, version) == Resolve(loader, dists, importName)
    ensures Imported(loader, importName).None? ==> name.None? && version.None?
    ensures Imported(loader, importName).Some? && Imported(loader, importName).value.origin in {None, Some("")}
      ==> name.None? && version.None?
    ensures name.Some? <==> version.Some?
  {
    var loaded := SafeImport(loader, importName);
    if loaded.None? {
      return None, None;
    }
    if loaded.value.origin.None? || loaded.value.origin.value == "" {
      return None, None;
    }
    var modulePath := Normalise(loaded.value.origin.value);
    var bestLen;
    name, bestLen, version := ScanDistributions(dists, modulePath);
    ScanFindsWinner(Manifest(dists), modulePath);
  }
}
