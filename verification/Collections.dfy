/** Small things more than one module needs: optional values, facts about sequences, powers of two. */
module Collections {
  datatype Option<+T> = None | Some(value: T)

  function Without<T>(s: seq<T>, k: nat): (r: seq<T>)
    requires k < |s|
    ensures |r| == |s| - 1
  {
    s[..k] + s[k + 1..]
  }

  lemma WithoutInner<T>(s: seq<T>, k: nat)
    requires k < |s| - 1
    ensures Without(s, k) == Without(s[..|s| - 1], k) + [s[|s| - 1]]
  {
    var n := |s| - 1;
    assert s[..n][..k] == s[..k];
    assert s[k + 1..] == s[..n][k + 1..] + [s[n]];
  }

  lemma Regroup<T>(a: seq<T>, b: seq<T>, c: seq<T>)
    ensures a + b + c == a + (b + c)
  {}

  /** Two sequences joined where the last of one is the first of the other. */
  lemma JoinedAt<T>(a: seq<T>, b: seq<T>, i: nat)
    requires a != [] && i < |b| && a[|a| - 1] == b[0]
    ensures |a + b[1..]| == |a| + |b| - 1 && (a + b[1..])[|a| - 1 + i] == b[i]
  {}

  ghost predicate Distinct<T>(s: seq<T>) {
    forall i, j :: 0 <= i < j < |s| ==> s[i] != s[j]
  }

  /** m * 2^k */
  function Scaled(m: nat, k: nat): (r: nat) {
    if k == 0 then m else 2 * Scaled(m, k - 1)
  }

  function Pow2(k: nat): (r: nat) {
    Scaled(1, k)
  }
}
