/**
 Byte strings and their order: Click's `String`, compared as `String::compare`
 does, byte by byte as unsigned values and then by length.
 */
module Bytes {
  import opened QuickSort

  type Byte = b: int | 0 <= b < 256

  type Str = seq<Byte>

  /** Length of the longest common prefix. */
  function Common(s: Str, t: Str): (k: nat)
    ensures k <= |s| && k <= |t|
    ensures forall i :: 0 <= i < k ==> s[i] == t[i]
    ensures k < |s| && k < |t| ==> s[k] != t[k]
  {
    if s == [] || t == [] || s[0] != t[0] then 0
    else
      var k := Common(s[1..], t[1..]);
      assert forall i :: 1 <= i < k + 1 ==> s[i] == s[1..][i - 1] && t[i] == t[1..][i - 1];
      k + 1
  }

  /** `String::compare` */
  function Compare(s: Str, t: Str): (r: int)
    ensures r == 0 <==> s == t
  {
    var k := Common(s, t);
    if k < |s| && k < |t| then s[k] - t[k] else |s| - |t|
  }

  ghost predicate Less(s: Str, t: Str) {
    Compare(s, t) < 0
  }

  ghost predicate StrictlySorted(r: seq<Str>) {
    forall i, j {:trigger Less(r[i], r[j])} :: 0 <= i < j < |r| ==> Less(r[i], r[j])
  }

  /** Any position up to which the strings agree and then differ decides the order. */
  lemma DecidedAt(s: Str, t: Str, k: nat)
    requires k <= |s| && k <= |t| && s[..k] == t[..k]
    requires k < |s| && k < |t| ==> s[k] != t[k]
    ensures Common(s, t) == k
  {
    assert forall i :: 0 <= i < k ==> s[i] == s[..k][i] == t[..k][i] == t[i];
  }

  lemma CompareFlips(s: Str, t: Str)
    ensures Compare(s, t) < 0 <==> Compare(t, s) > 0
  {
    var k := Common(s, t);
    DecidedAt(t, s, k);
  }

  lemma CompareTransitive(s: Str, t: Str, u: Str)
    requires Compare(s, t) <= 0 && Compare(t, u) <= 0
    ensures Compare(s, u) <= 0
  {
    var j, k := Common(s, t), Common(t, u);
    var m := if j < k then j else k;
    assert s[..m] == t[..m] == u[..m];
    DecidedAt(s, u, m);
  }

  lemma LessTransitive(s: Str, t: Str, u: Str)
    requires Compare(s, t) <= 0 && Compare(t, u) <= 0
    requires Less(s, t) || Less(t, u)
    ensures Less(s, u)
  {
    CompareTransitive(s, t, u);
    CompareFlips(s, t);
    CompareFlips(t, u);
    if s == u {
      assert false;
    }
  }

  lemma CompareIsTotalPreorder()
    ensures TotalPreorder(Compare)
  {
    forall x, y ensures Compare(x, y) < 0 <==> Compare(y, x) > 0 {
      CompareFlips(x, y);
    }
    forall x: Str, y: Str, z: Str | Chain(x, y, z) && Compare(x, y) <= 0 && Compare(y, z) <= 0
      ensures Compare(x, z) <= 0
    {
      CompareTransitive(x, y, z);
    }
  }

  lemma PrefixLess(p: Str, s: Str)
    requires p <= s
    ensures Compare(p, s) <= 0
    ensures p != s ==> Less(p, s)
  {
    DecidedAt(p, s, |p|);
  }

  /** Strings with a given prefix form an interval of the order. */
  lemma PrefixInterval(p: Str, s: Str, t: Str, u: Str)
    requires p <= s && p <= u
    requires Compare(s, t) <= 0 && Compare(t, u) <= 0
    ensures p <= t
  {
    var j, k := Common(s, t), Common(t, u);
    if j >= |p| {
      assert t[..|p|] == s[..|p|] == p;
    }
  }

  /** A common prefix does not affect the order. */
  lemma CompareDropsPrefix(p: Str, s: Str, t: Str)
    ensures Compare(p + s, p + t) == Compare(s, t)
  {
    var k := Common(s, t);
    assert (p + s)[..|p| + k] == p + s[..k] && (p + t)[..|p| + k] == p + t[..k];
    assert s[..k] == t[..k];
    DecidedAt(p + s, p + t, |p| + k);
  }

  /** `e` stands at index `i`. */
  ghost predicate At(x: Str, i: nat, e: Str) {
    i + |e| <= |x| && forall k :: 0 <= k < |e| ==> x[i + k] == e[k]
  }

  lemma AtSplit(x: Str, i: nat, d: Str, e: Str)
    ensures At(x, i, d + e) <==> At(x, i, d) && At(x, i + |d|, e)
  {
    if At(x, i, d) && At(x, i + |d|, e) {
      forall k | 0 <= k < |d + e| ensures x[i + k] == (d + e)[k] {
        if k >= |d| {
          assert x[i + |d| + (k - |d|)] == e[k - |d|];
        }
      }
    }
    if At(x, i, d + e) {
      forall k | 0 <= k < |d| ensures x[i + k] == d[k] {
        assert (d + e)[k] == d[k];
      }
      forall k | 0 <= k < |e| ensures x[i + |d| + k] == e[k] {
        assert x[i + (|d| + k)] == (d + e)[|d| + k];
      }
    }
  }

  lemma AtItself(x: Str)
    ensures At(x, 0, x)
  {}
}
