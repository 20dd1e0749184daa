/**
 * The string operations the resolution engine relies on, with Python's
 * semantics: `str.split(sep)` and `sep.join(parts)` for a one-character
 * separator, `sub in s`, `str.replace` of one character, and the emptiness
 * test `not s.strip()`.
 */
module Text {

  /** Index of the first `c` in `s`, or `|s|` when `s` has none. */
  function IndexOf(s: string, c: char): (i: nat)
    ensures i <= |s|
    ensures i < |s| ==> s[i] == c
    ensures forall j :: 0 <= j < i ==> s[j] != c
  {
    if s == [] then 0
    else if s[0] == c then 0
    else 1 + IndexOf(s[1..], c)
  }

  /** Python's `s.split(sep)`: never empty, and no part holds `sep`. */
  function Split(s: string, sep: char): (parts: seq<string>)
    ensures |parts| >= 1
    ensures forall k :: 0 <= k < |parts| ==> sep !in parts[k]
    decreases |s|
  {
    var i := IndexOf(s, sep);
    if i == |s| then [s] else [s[..i]] + Split(s[i + 1..], sep)
  }

  /** Python's `sep.join(parts)`. */
  function Join(parts: seq<string>, sep: char): string
  {
    if parts == [] then ""
    else if |parts| == 1 then parts[0]
    else parts[0] + [sep] + Join(parts[1..], sep)
  }

  /** Joining the parts of a split gives back the original string. */
  lemma {:induction false} JoinSplit(s: string, sep: char)
    ensures Join(Split(s, sep), sep) == s
    decreases |s|
  {
    var i := IndexOf(s, sep);
    if i < |s| {
      var rest := s[i + 1..];
      var parts := Split(s, sep);
      SplitAt(s, sep);
      assert parts[1..] == Split(rest, sep);
      JoinCons(parts, sep);
      JoinSplit(rest, sep);
      assert s == s[..i] + [sep] + rest;
    }
  }

  /** Splitting a join of separator-free parts gives back the parts. */
  lemma {:induction false} SplitJoin(parts: seq<string>, sep: char)
    requires |parts| >= 1
    requires forall k :: 0 <= k < |parts| ==> sep !in parts[k]
    ensures Split(Join(parts, sep), sep) == parts
  {
    if |parts| > 1 {
      var s := Join(parts, sep);
      var rest := Join(parts[1..], sep);
      assert s == parts[0] + [sep] + rest;
      assert IndexOf(s, sep) == |parts[0]| by {
        assert s[|parts[0]|] == sep;
        forall j | 0 <= j < |parts[0]| ensures s[j] != sep {
          assert s[j] == parts[0][j];
        }
      }
      assert s[..|parts[0]|] == parts[0];
      assert s[|parts[0]| + 1..] == rest;
      SplitJoin(parts[1..], sep);
    }
  }

  /** Joining one more part appends the separator and that part. */
  lemma {:induction false} JoinSnoc(parts: seq<string>, x: string, sep: char)
    requires |parts| >= 1
    ensures Join(parts + [x], sep) == Join(parts, sep) + [sep] + x
  {
    if |parts| > 1 {
      assert (parts + [x])[1..] == parts[1..] + [x];
      JoinSnoc(parts[1..], x, sep);
    }
  }

  /** The first part of a split that finds the separator at `d`, and the rest. */
  lemma {:induction false} SplitAt(s: string, sep: char)
    requires IndexOf(s, sep) < |s|
    ensures var d := IndexOf(s, sep);
      Split(s, sep) == [s[..d]] + Split(s[d + 1..], sep)
  {
    var d := IndexOf(s, sep);
    assert d != |s|;
  }

  /** Joining a head part onto two or more others. */
  lemma JoinCons(parts: seq<string>, sep: char)
    requires |parts| >= 2
    ensures Join(parts, sep) == parts[0] + [sep] + Join(parts[1..], sep)
  {
  }

  /** A join cut after `i` parts: the first `i` parts' join, the separator, the rest's join. */
  lemma {:induction false} JoinSplitAt(parts: seq<string>, sep: char, i: nat)
    requires 1 <= i < |parts|
    ensures Join(parts, sep) == Join(parts[..i], sep) + [sep] + Join(parts[i..], sep)
    decreases i
  {
    JoinCons(parts, sep);
    if i > 1 {
      var t := parts[1..];
      JoinSplitAt(t, sep, i - 1);
      JoinCons(parts[..i], sep);
      assert parts[..i][0] == parts[0];
      assert parts[..i][1..] == t[..i - 1];
      assert t[i - 1..] == parts[i..];
    } else {
      assert parts[..1] == [parts[0]];
      assert parts[1..] == parts[i..];
    }
  }

  /**
   * The join of the first `i` parts of `s.split(sep)` is a prefix of `s`;
   * it is all of `s` exactly when every part is taken, and otherwise the
   * separator follows it in `s`.
   */
  lemma JoinPrefix(s: string, sep: char, i: nat)
    requires 1 <= i <= |Split(s, sep)|
    ensures var p := Join(Split(s, sep)[..i], sep);
      && |p| <= |s| && p == s[..|p|]
      && (i == |Split(s, sep)| <==> |p| == |s|)
      && (i < |Split(s, sep)| ==> s[|p|] == sep)
  {
    var parts := Split(s, sep);
    JoinSplit(s, sep);
    if i == |parts| {
      assert parts[..i] == parts;
    } else {
      JoinSplitAt(parts, sep, i);
      var p := Join(parts[..i], sep);
      assert s == p + [sep] + Join(parts[i..], sep);
      assert s[..|p|] == p;
    }
  }

  /**
   * In a join of separator-free parts, every prefix that ends at a
   * separator, or is the whole join, is the join of the first `i` parts.
   */
  lemma {:induction false} JoinPrefixAt(parts: seq<string>, sep: char, len: nat) returns (i: nat)
    requires |parts| >= 1 && forall k :: 0 <= k < |parts| ==> sep !in parts[k]
    requires len == |Join(parts, sep)| || (len < |Join(parts, sep)| && Join(parts, sep)[len] == sep)
    ensures 1 <= i <= |parts|
    ensures Join(parts[..i], sep) == Join(parts, sep)[..len]
    decreases |parts|
  {
    var s := Join(parts, sep);
    var h := parts[0];
    if |parts| == 1 {
      assert s == h;
      assert forall k :: 0 <= k < |h| ==> h[k] != sep;
      assert len == |s|;
      i := 1;
      assert parts[..1] == parts;
    } else {
      var t := parts[1..];
      var s' := Join(t, sep);
      JoinCons(parts, sep);
      assert s == h + [sep] + s';
      if len <= |h| {
        assert forall k :: 0 <= k < |h| ==> s[k] == h[k] && h[k] != sep;
        assert len == |h|;
        i := 1;
        assert parts[..1] == [h];
        assert s[..len] == h;
      } else {
        var len' := len - |h| - 1;
        assert len < |s| ==> s[len] == s'[len'];
        var j := JoinPrefixAt(t, sep, len');
        i := j + 1;
        ConsPrefix(h, t, i);
        assert [h] + t == parts;
        JoinCons(parts[..i], sep);
        assert s[..len] == h + [sep] + s'[..len'];
      }
    }
  }

  /**
   * Every prefix of `s` that ends at a separator, or is all of `s`, is the
   * join of the first `i` parts of the split for some `i`.
   */
  lemma DotPrefixIndex(s: string, sep: char, len: nat) returns (i: nat)
    requires len == |s| || (len < |s| && s[len] == sep)
    ensures 1 <= i <= |Split(s, sep)|
    ensures Join(Split(s, sep)[..i], sep) == s[..len]
  {
    JoinSplit(s, sep);
    i := JoinPrefixAt(Split(s, sep), sep, len);
  }

  /** The first `i >= 2` elements of `[x] + t`: `x` and then `i - 1` of `t`. */
  lemma ConsPrefix<T>(x: T, t: seq<T>, i: nat)
    requires 2 <= i <= |t| + 1
    ensures |([x] + t)[..i]| >= 2
    ensures ([x] + t)[..i][0] == x
    ensures ([x] + t)[..i][1..] == t[..i - 1]
  {
  }

  /** The prefix joins of a split grow strictly with the number of parts. */
  lemma {:induction false} JoinPrefixGrows(parts: seq<string>, sep: char, i: nat, j: nat)
    requires 1 <= i < j <= |parts|
    ensures |Join(parts[..i], sep)| < |Join(parts[..j], sep)|
    decreases j
  {
    assert parts[..j] == parts[..j - 1] + [parts[j - 1]];
    JoinSnoc(parts[..j - 1], parts[j - 1], sep);
    if i < j - 1 {
      JoinPrefixGrows(parts, sep, i, j - 1);
    } else {
      assert parts[..j - 1] == parts[..i];
    }
  }

  /** Python's `x.split('.')[0]`: everything before the first dot. */
  function FirstSegment(x: string): (r: string)
    ensures |r| <= |x| && r == x[..|r|]
    ensures '.' !in r
    ensures '.' in x ==> |r| < |x| && x[|r|] == '.'
    ensures '.' !in x ==> r == x
  {
    Split(x, '.')[0]
  }

  /** `sub` occurs in `s` at position `i`. */
  predicate OccursAt(sub: string, s: string, i: nat)
  {
    i + |sub| <= |s| && s[i..i + |sub|] == sub
  }

  /** Python's `sub in s`. */
  function Contains(s: string, sub: string): (b: bool)
    ensures b <==> exists i: nat :: OccursAt(sub, s, i)
    decreases |s|
  {
    if |sub| > |s| then false
    else if s[..|sub|] == sub then
      assert OccursAt(sub, s, 0);
      true
    else
      var b := Contains(s[1..], sub);
      if b then
        var i: nat :| OccursAt(sub, s[1..], i);
        assert s[1..][i..i + |sub|] == s[i + 1..i + 1 + |sub|];
        assert OccursAt(sub, s, i + 1);
        true
      else
        assert forall i: nat :: !OccursAt(sub, s, i) by {
          forall i: nat ensures !OccursAt(sub, s, i) {
            if i == 0 {
              assert s[0..|sub|] == s[..|sub|];
            } else if i + |sub| <= |s| {
              assert !OccursAt(sub, s[1..], i - 1);
              assert s[1..][i - 1..i - 1 + |sub|] == s[i..i + |sub|];
            }
          }
        }
        false
  }

  /** Python's `s.replace(from, to)` for one-character `from` and `to`. */
  function ReplaceChar(s: string, from: char, to: char): (r: string)
    ensures |r| == |s|
    ensures forall i :: 0 <= i < |s| ==> r[i] == (if s[i] == from then to else s[i])
  {
    if s == [] then [] else [if s[0] == from then to else s[0]] + ReplaceChar(s[1..], from, to)
  }

  /** The characters Python's `str.isspace()` accepts, which `str.strip()` removes. */
  predicate IsSpace(c: char)
  {
    var n := c as int;
    (0x09 <= n <= 0x0d) || (0x1c <= n <= 0x20) || n == 0x85 || n == 0xa0 || n == 0x1680
    || (0x2000 <= n <= 0x200a) || n == 0x2028 || n == 0x2029 || n == 0x202f || n == 0x205f
    || n == 0x3000
  }

  /** Python's `s.lstrip()`: drops the leading whitespace. */
  function StripLeading(s: string): (r: string)
    ensures |r| <= |s| && r == s[|s| - |r|..]
    ensures forall i :: 0 <= i < |s| - |r| ==> IsSpace(s[i])
    ensures r != [] ==> !IsSpace(r[0])
  {
    if s != [] && IsSpace(s[0]) then StripLeading(s[1..]) else s
  }

  /** Python's `s.rstrip()`: drops the trailing whitespace. */
  function StripTrailing(s: string): (r: string)
    ensures |r| <= |s| && r == s[..|r|]
    ensures forall i :: |r| <= i < |s| ==> IsSpace(s[i])
    ensures r != [] ==> !IsSpace(r[|r| - 1])
  {
    if s != [] && IsSpace(s[|s| - 1]) then StripTrailing(s[..|s| - 1]) else s
  }

  /** Python's `s.strip()`. */
  function Strip(s: string): string
  {
    StripTrailing(StripLeading(s))
  }

  /** `s.strip()` is empty exactly when every character of `s` is whitespace. */
  lemma StripEmptyIffBlank(s: string)
    ensures Strip(s) == [] <==> forall i :: 0 <= i < |s| ==> IsSpace(s[i])
  {
    var l := StripLeading(s);
    if Strip(s) == [] {
      assert l == [];
    } else {
      var r := Strip(s);
      assert r[0] == l[0];
      if l[0] == s[|s| - |l|] {}
    }
  }
}
