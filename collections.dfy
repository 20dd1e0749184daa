/**
 * The collection steps the source takes from Python and pandas:
 * `list(set(xs))`, which lists a set in an unspecified order, and
 * `drop_duplicates(keep='first')`.
 */
module Collections {

  /** No element occurs twice. */
  predicate NoDuplicates<T(==)>(s: seq<T>)
  {
    forall i, j :: 0 <= i < j < |s| ==> s[i] != s[j]
  }

  /** The elements of a sequence as a set. */
  function Elements<T>(s: seq<T>): set<T>
  {
    set x | x in s
  }

  /**
   * `list(set(...))`: the elements of `s`, each once, in an order the model
   * leaves open just as Python's set iteration order is.
   */
  method ListOf<T(==)>(s: set<T>) returns (r: seq<T>)
    ensures NoDuplicates(r)
    ensures Elements(r) == s
    ensures |r| == |s|
  {
    r := [];
    var rest := s;
    while rest != {}
      invariant NoDuplicates(r)
      invariant rest !! Elements(r) && rest + Elements(r) == s
      invariant |r| + |rest| == |s|
      decreases |rest|
    {
      var x :| x in rest;
      r := r + [x];
      rest := rest - {x};
    }
  }

  /** The keys of the elements of `s`. */
  function Keys<T, K>(s: seq<T>, key: T -> K): set<K>
  {
    set i | 0 <= i < |s| :: key(s[i])
  }

  /** The keys of a non-empty sequence: those before its last element, and the last one's. */
  lemma KeysSnoc<T, K>(s: seq<T>, key: T -> K)
    requires |s| > 0
    ensures Keys(s, key) == Keys(s[..|s| - 1], key) + {key(s[|s| - 1])}
  {
    var n := |s| - 1;
    forall y | y in Keys(s, key) ensures y in Keys(s[..n], key) + {key(s[n])} {
      var i :| 0 <= i < |s| && key(s[i]) == y;
      if i < n { assert s[..n][i] == s[i]; }
    }
    forall y | y in Keys(s[..n], key) ensures y in Keys(s, key) {
      var i :| 0 <= i < n && key(s[..n][i]) == y;
      assert s[i] == s[..n][i];
    }
  }

  /** Every element of `r` that is a first occurrence in `init`, `s` without its last, is one in `s`. */
  lemma FirstOccurrencesExtend<T, K>(s: seq<T>, init: seq<T>, r: seq<T>, key: T -> K)
    requires |s| > 0 && init == s[..|s| - 1]
    requires forall i :: 0 <= i < |r| ==>
      exists k :: 0 <= k < |init| && init[k] == r[i] && forall j :: 0 <= j < k ==> key(init[j]) != key(r[i])
    ensures forall x :: x in r ==> x in s
    ensures forall i :: 0 <= i < |r| ==>
      exists k :: 0 <= k < |s| && s[k] == r[i] && forall j :: 0 <= j < k ==> key(s[j]) != key(r[i])
  {
    forall i | 0 <= i < |r|
      ensures r[i] in s
      ensures exists k :: 0 <= k < |s| && s[k] == r[i] && forall j :: 0 <= j < k ==> key(s[j]) != key(r[i])
    {
      var k :| 0 <= k < |init| && init[k] == r[i] && forall j :: 0 <= j < k ==> key(init[j]) != key(r[i]);
      assert s[k] == init[k];
      forall j | 0 <= j < k ensures key(s[j]) != key(r[i]) {
        assert s[j] == init[j];
      }
      assert 0 <= k < |s| && s[k] == r[i] && forall j :: 0 <= j < k ==> key(s[j]) != key(r[i]);
    }
    forall x | x in r ensures x in s {
      var i :| 0 <= i < |r| && r[i] == x;
      assert r[i] in s;
    }
  }

  /** An element whose key is new is the first of its key. */
  lemma NewKeyIsFirst<T, K>(s: seq<T>, key: T -> K)
    requires |s| > 0 && key(s[|s| - 1]) !in Keys(s[..|s| - 1], key)
    ensures forall j :: 0 <= j < |s| - 1 ==> key(s[j]) != key(s[|s| - 1])
  {
    var n := |s| - 1;
    forall j | 0 <= j < n ensures key(s[j]) != key(s[n]) {
      assert s[j] == s[..n][j];
      assert key(s[..n][j]) in Keys(s[..n], key);
    }
  }

  /** Position `k` holds the first element of `s` with its key. */
  predicate FirstOfKey<T, K(==)>(s: seq<T>, key: T -> K, k: nat)
    requires k < |s|
  {
    forall j :: 0 <= j < k ==> key(s[j]) != key(s[k])
  }

  /** Dropping the last element keeps whether an earlier position is the first of its key. */
  lemma FirstOfKeyPrefix<T, K>(s: seq<T>, key: T -> K)
    requires |s| > 0
    ensures forall k :: 0 <= k < |s| - 1 ==> (FirstOfKey(s[..|s| - 1], key, k) <==> FirstOfKey(s, key, k))
  {
    var n := |s| - 1;
    forall k | 0 <= k < n ensures FirstOfKey(s[..n], key, k) <==> FirstOfKey(s, key, k) {
      assert forall j :: 0 <= j <= k ==> s[..n][j] == s[j];
    }
  }

  /** The last position is the first of its key exactly when its key is new. */
  lemma LastFirstOfKey<T, K>(s: seq<T>, key: T -> K)
    requires |s| > 0
    ensures FirstOfKey(s, key, |s| - 1) <==> key(s[|s| - 1]) !in Keys(s[..|s| - 1], key)
  {
    var n := |s| - 1;
    if key(s[n]) in Keys(s[..n], key) {
      var j :| 0 <= j < n && key(s[..n][j]) == key(s[n]);
      assert s[j] == s[..n][j];
    } else {
      NewKeyIsFirst(s, key);
    }
  }

  /**
   * The positions of `s` that hold the first element of their key, in
   * ascending order: the rows `drop_duplicates(keep='first')` keeps.
   */
  function FirstIndices<T, K(==)>(s: seq<T>, key: T -> K): (ix: seq<nat>)
    ensures forall i, j :: 0 <= i < j < |ix| ==> ix[i] < ix[j]
    ensures forall i :: 0 <= i < |ix| ==> ix[i] < |s|
    ensures forall k: nat :: k in ix <==> k < |s| && FirstOfKey(s, key, k)
  {
    if s == [] then []
    else
      var n := |s| - 1;
      var ix := FirstIndices(s[..n], key);
      FirstOfKeyPrefix(s, key);
      LastFirstOfKey(s, key);
      if key(s[n]) in Keys(s[..n], key) then ix else ix + [n]
  }

  /**
   * pandas' `drop_duplicates(keep='first')` on a column, or on the subset
   * of columns `key` selects: keeps the first row of each key, in order.
   */
  function DropDuplicates<T(==), K(==)>(s: seq<T>, key: T -> K): (r: seq<T>)
    ensures forall i, j :: 0 <= i < j < |r| ==> key(r[i]) != key(r[j])
    ensures forall x :: x in r ==> x in s
    ensures Keys(r, key) == Keys(s, key)
    ensures forall i :: 0 <= i < |r| ==>
      exists k :: 0 <= k < |s| && s[k] == r[i] && forall j :: 0 <= j < k ==> key(s[j]) != key(r[i])
  {
    if s == [] then []
    else
      var n := |s| - 1;
      var r := DropDuplicates(s[..n], key);
      KeysSnoc(s, key);
      FirstOccurrencesExtend(s, s[..n], r, key);
      if key(s[n]) in Keys(r, key) then
        r
      else
        var r' := r + [s[n]];
        assert r'[..|r|] == r;
        KeysSnoc(r', key);
        NewKeyIsFirst(s, key);
        assert forall i :: 0 <= i < |r| ==> key(r[i]) != key(s[n]);
        r'
  }

  /**
   * `drop_duplicates(keep='first')` is the input at the first position of
   * each key, in the input's order.
   */
  lemma {:induction false} DropDuplicatesInOrder<T, K>(s: seq<T>, key: T -> K)
    ensures |DropDuplicates(s, key)| == |FirstIndices(s, key)|
    ensures forall i :: 0 <= i < |DropDuplicates(s, key)| ==>
      DropDuplicates(s, key)[i] == s[FirstIndices(s, key)[i]]
  {
    if s != [] {
      var n := |s| - 1;
      DropDuplicatesInOrder(s[..n], key);
      var r := DropDuplicates(s[..n], key);
      var ix := FirstIndices(s[..n], key);
      forall i | 0 <= i < |r| ensures r[i] == s[ix[i]] {
        assert s[..n][ix[i]] == s[ix[i]];
      }
      if key(s[n]) in Keys(s[..n], key) {
        assert DropDuplicates(s, key) == r;
        assert FirstIndices(s, key) == ix;
      } else {
        assert DropDuplicates(s, key) == r + [s[n]];
        assert FirstIndices(s, key) == ix + [n];
      }
    }
  }
}
