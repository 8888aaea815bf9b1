/**
 The library sort `click_qsort` (click/lib/glue.cc): Bentley and McIlroy's
 three-way quicksort, driven by an explicit stack of index ranges.

 The comparator is a pure function.  Everything except sortedness is proved
 for every comparator, consistent or not; sortedness needs a total preorder.
 */
module QuickSort {
  import opened Collections


  /** `cmp` orders like a three-way comparison of a total preorder. */
  ghost predicate TotalPreorder<T(!new)>(cmp: (T, T) -> int) {
    && (forall x, y :: cmp(x, y) < 0 <==> cmp(y, x) > 0)
    && (forall x, y, z {:trigger Chain(x, y, z)} ::
          Chain(x, y, z) && cmp(x, y) <= 0 && cmp(y, z) <= 0 ==> cmp(x, z) <= 0)
  }

  /** Holds of everything; naming a chain is how a proof asks for transitivity. */
  ghost predicate Chain<T>(x: T, y: T, z: T) {
    true
  }

  lemma Transitive<T(!new)>(cmp: (T, T) -> int, x: T, y: T, z: T)
    requires TotalPreorder(cmp) && cmp(x, y) <= 0 && cmp(y, z) <= 0
    ensures cmp(x, z) <= 0
  {
    assert Chain(x, y, z);
  }

  ghost predicate Sorted<T>(s: seq<T>, cmp: (T, T) -> int) {
    forall i, j :: 0 <= i < j < |s| ==> cmp(s[i], s[j]) <= 0
  }

  /** `t` is `s` with only the elements at [lo, hi) rearranged. */
  ghost predicate PermutedWithin<T>(s: seq<T>, t: seq<T>, lo: int, hi: int) {
    && |s| == |t|
    && 0 <= lo <= hi <= |s|
    && (forall k {:trigger t[k]} :: 0 <= k < |s| && !(lo <= k < hi) ==> t[k] == s[k])
    && multiset(s) == multiset(t)
  }

  lemma PermutedTransitive<T>(s: seq<T>, t: seq<T>, u: seq<T>, lo: int, hi: int)
    requires PermutedWithin(s, t, lo, hi) && PermutedWithin(t, u, lo, hi)
    ensures PermutedWithin(s, u, lo, hi)
  {}

  lemma PermutedWider<T>(s: seq<T>, t: seq<T>, lo: int, hi: int, lo': int, hi': int)
    requires PermutedWithin(s, t, lo, hi)
    requires 0 <= lo' <= lo && hi <= hi' <= |s|
    ensures PermutedWithin(s, t, lo', hi')
  {
  }

  /** Rearranging within a range keeps that range's own multiset. */
  lemma RangeOf<T>(s: seq<T>, lo: int, hi: int)
    requires 0 <= lo <= hi <= |s|
    ensures multiset(s[lo..hi]) == multiset(s) - multiset(s[..lo]) - multiset(s[hi..])
  {
    assert s == s[..lo] + s[lo..hi] + s[hi..];
  }

  lemma PermutedRange<T>(s: seq<T>, t: seq<T>, lo: int, hi: int)
    requires PermutedWithin(s, t, lo, hi)
    ensures multiset(s[lo..hi]) == multiset(t[lo..hi])
  {
    assert s[..lo] == t[..lo] && s[hi..] == t[hi..];
    RangeOf(s, lo, hi);
    RangeOf(t, lo, hi);
  }

  lemma CountTwice<T>(t: seq<T>, i: int, j: int)
    requires 0 <= i < j < |t| && t[i] == t[j]
    ensures multiset(t)[t[i]] >= 2
  {
    assert t == t[..j] + t[j..];
    assert t[i] in t[..j] && t[j] in t[j..];
  }

  lemma {:induction false} CountOnce<T>(s: seq<T>, x: T)
    requires Distinct(s)
    ensures multiset(s)[x] <= 1
  {
    if s != [] {
      var n := |s| - 1;
      assert s == s[..n] + [s[n]];
      CountOnce(s[..n], x);
      if x == s[n] {
        assert x !in s[..n];
      }
    }
  }

  /** Rearranging keeps elements distinct. */
  lemma PermutedDistinct<T>(s: seq<T>, t: seq<T>)
    requires multiset(s) == multiset(t) && Distinct(s)
    ensures Distinct(t)
  {
    forall i, j | 0 <= i < j < |t| ensures t[i] != t[j] {
      if t[i] == t[j] {
        CountTwice(t, i, j);
        CountOnce(s, t[i]);
      }
    }
  }

  method Swap<T>(a: array<T>, i: nat, j: nat)
    requires i < a.Length && j < a.Length
    modifies a
    ensures a[..] == old(a[..])[i := old(a[j])][j := old(a[i])]
    ensures multiset(a[..]) == multiset(old(a[..]))
  {
    a[i], a[j] := a[j], a[i];
    assert a[..] == old(a[..])[i := old(a[j])][j := old(a[i])];
  }

  /** `cq_swapfunc`: exchange two disjoint runs of `s` elements. */
  method SwapRuns<T>(a: array<T>, x: nat, y: nat, s: nat)
    requires x + s <= y && y + s <= a.Length
    modifies a
    ensures RunsSwapped(old(a[..]), a[..], x, y, s)
    ensures multiset(a[..]) == multiset(old(a[..]))
  {
    var i := 0;
    while i < s
      invariant 0 <= i <= s
      invariant RunsSwapped(old(a[..]), a[..], x, y, i)
      invariant multiset(a[..]) == multiset(old(a[..]))
    {
      Swap(a, x + i, y + i);
      i := i + 1;
    }
  }

  lemma SwapInside<T>(s: seq<T>, lo: int, hi: int, i: int, j: int)
    requires 0 <= lo <= i < hi <= |s| && lo <= j < hi
    ensures PermutedWithin(s, s[i := s[j]][j := s[i]], lo, hi)
  {}

  lemma PermutedSwap<T>(s0: seq<T>, s: seq<T>, lo: int, hi: int, i: int, j: int)
    requires PermutedWithin(s0, s, lo, hi) && lo <= i < hi && lo <= j < hi
    ensures PermutedWithin(s0, s[i := s[j]][j := s[i]], lo, hi)
  {
    SwapInside(s, lo, hi, i, j);
    PermutedTransitive(s0, s, s[i := s[j]][j := s[i]], lo, hi);
  }

  /** Sorted except possibly for the element at `j`, which may belong further left. */
  ghost predicate SortedBut<T>(s: seq<T>, lo: nat, hi: nat, j: int, cmp: (T, T) -> int)
    requires hi <= |s|
  {
    forall x, y :: lo <= x < y < hi && y != j ==> cmp(s[x], s[y]) <= 0
  }

  lemma InsertStep<T(!new)>(s: seq<T>, lo: nat, hi: nat, j: nat, cmp: (T, T) -> int)
    requires lo < j < hi <= |s|
    requires TotalPreorder(cmp) && SortedBut(s, lo, hi, j, cmp) && cmp(s[j - 1], s[j]) > 0
    ensures SortedBut(s[j := s[j - 1]][j - 1 := s[j]], lo, hi, j - 1, cmp)
  {}

  lemma InsertDone<T(!new)>(s: seq<T>, lo: nat, hi: nat, j: nat, cmp: (T, T) -> int)
    requires lo <= j < hi <= |s|
    requires TotalPreorder(cmp) && SortedBut(s, lo, hi, j, cmp)
    requires j == lo || cmp(s[j - 1], s[j]) <= 0
    ensures SortedBut(s, lo, hi, lo, cmp)
  {
    forall x | lo <= x < j ensures cmp(s[x], s[j]) <= 0 {
      if x < j - 1 {
        Transitive(cmp, s[x], s[j - 1], s[j]);
      }
    }
  }

  /** What the insertion loop keeps. */
  ghost predicate Inserting<T(!new)>(s0: seq<T>, s: seq<T>, lo: nat, i: nat, hi: nat, j: nat, cmp: (T, T) -> int,
                              ok: bool) {
    && PermutedWithin(s0, s, lo, hi) && lo <= j <= i < hi <= |s|
    && (ok ==> TotalPreorder(cmp) && SortedBut(s, lo, i + 1, j, cmp))
  }

  lemma InsertingStep<T(!new)>(s0: seq<T>, s: seq<T>, lo: nat, i: nat, hi: nat, j: nat, cmp: (T, T) -> int, ok: bool)
    requires Inserting(s0, s, lo, i, hi, j, cmp, ok) && lo < j && cmp(s[j - 1], s[j]) > 0
    ensures Inserting(s0, s[j := s[j - 1]][j - 1 := s[j]], lo, i, hi, j - 1, cmp, ok)
  {
    PermutedSwap(s0, s, lo, hi, j, j - 1);
    if ok {
      InsertStep(s, lo, i + 1, j, cmp);
    }
  }

  /** Move the element at `i` down to its place among the sorted elements before it. */
  method Insert<T(!new)>(a: array<T>, lo: nat, i: nat, ghost hi: nat, cmp: (T, T) -> int)
    requires lo <= i < hi <= a.Length
    modifies a
    ensures PermutedWithin(old(a[..]), a[..], lo, hi)
    ensures TotalPreorder(cmp) && old(SortedBut(a[..], lo, i, lo, cmp)) ==> SortedBut(a[..], lo, i + 1, lo, cmp)
  {
    var j := i;
    ghost var ok := TotalPreorder(cmp) && SortedBut(a[..], lo, i, lo, cmp);
    InsertStart(a[..], lo, i, hi, cmp, ok);
    while j > lo && cmp(a[j - 1], a[j]) > 0
      invariant lo <= j <= i
      invariant Inserting(old(a[..]), a[..], lo, i, hi, j, cmp, ok)
    {
      InsertingStep(old(a[..]), a[..], lo, i, hi, j, cmp, ok);
      Swap(a, j, j - 1);
      j := j - 1;
    }
    InsertEnd(old(a[..]), a[..], lo, i, hi, j, cmp, ok);
  }

  lemma InsertStart<T(!new)>(s: seq<T>, lo: nat, i: nat, hi: nat, cmp: (T, T) -> int, ok: bool)
    requires lo <= i < hi <= |s| && (ok ==> TotalPreorder(cmp) && SortedBut(s, lo, i, lo, cmp))
    ensures Inserting(s, s, lo, i, hi, i, cmp, ok)
  {}

  lemma InsertEnd<T(!new)>(s0: seq<T>, s: seq<T>, lo: nat, i: nat, hi: nat, j: nat, cmp: (T, T) -> int, ok: bool)
    requires Inserting(s0, s, lo, i, hi, j, cmp, ok) && (j == lo || cmp(s[j - 1], s[j]) <= 0)
    ensures PermutedWithin(s0, s, lo, hi) && (ok ==> SortedBut(s, lo, i + 1, lo, cmp))
  {
    if ok {
      InsertDone(s, lo, i + 1, j, cmp);
    }
  }

  /** The insertion sort used on ranges shorter than seven. */
  method InsertionSort<T(!new)>(a: array<T>, lo: nat, hi: nat, cmp: (T, T) -> int)
    requires lo <= hi <= a.Length
    modifies a
    ensures PermutedWithin(old(a[..]), a[..], lo, hi)
    ensures TotalPreorder(cmp) ==> Sorted(a[lo..hi], cmp)
  {
    var i := lo + 1;
    while i < hi
      invariant lo + 1 <= i
      invariant i <= hi || hi <= lo + 1
      invariant PermutedWithin(old(a[..]), a[..], lo, hi)
      invariant TotalPreorder(cmp) && i <= hi ==> SortedBut(a[..], lo, i, lo, cmp)
    {
      Insert(a, lo, i, hi, cmp);
      i := i + 1;
    }
  }

  /** `m` is a median of itself and the other two values. */
  ghost predicate Median<T>(x: T, m: T, y: T, cmp: (T, T) -> int) {
    cmp(x, m) <= 0 <= cmp(y, m) || cmp(y, m) <= 0 <= cmp(x, m)
  }

  /** `cq_med3`: one of the three indices, holding a median of the three values. */
  method Med3<T(!new)>(a: array<T>, x: nat, y: nat, z: nat, cmp: (T, T) -> int) returns (m: nat)
    requires x < a.Length && y < a.Length && z < a.Length
    ensures m == x || m == y || m == z
    ensures TotalPreorder(cmp) ==>
              || (m == x && Median(a[y], a[x], a[z], cmp))
              || (m == y && Median(a[x], a[y], a[z], cmp))
              || (m == z && Median(a[x], a[z], a[y], cmp))
  {
    var xy := cmp(a[x], a[y]);
    var yz := cmp(a[y], a[z]);
    if xy < 0 {
      m := if yz < 0 then y else if cmp(a[x], a[z]) < 0 then z else x;
    } else {
      m := if yz > 0 then y else if cmp(a[x], a[z]) > 0 then z else x;
    }
  }

  /** The pivot's index: the middle, a median of three, or a pseudomedian of nine. */
  method ChoosePivot<T(!new)>(a: array<T>, lo: nat, n: nat, cmp: (T, T) -> int) returns (pm: nat)
    requires 7 <= n && lo + n <= a.Length
    ensures lo <= pm < lo + n
  {
    pm := lo + n / 2;
    if n > 7 {
      var p1, p2 := lo, lo + n - 1;
      if n > 40 {
        var offset := n / 8;
        p1 := Med3(a, p1, p1 + offset, p1 + 2 * offset, cmp);
        pm := Med3(a, pm - offset, pm, pm + offset, cmp);
        p2 := Med3(a, p2 - 2 * offset, p2 - offset, p2, cmp);
      }
      pm := Med3(a, p1, pm, p2, cmp);
    }
  }

  /** The pivot itself, or a value the comparator calls equal to it. */
  ghost predicate Eq<T>(x: T, p: T, cmp: (T, T) -> int) {
    x == p || cmp(x, p) == 0
  }

  /** The partition loop's four regions around the part still to be scanned, [pb, pc]. */
  ghost predicate Regions<T>(s: seq<T>, lo: int, hi: int, pa: int, pb: int, pc: int, pd: int, p: T,
                             cmp: (T, T) -> int) {
    && 0 <= lo < pa <= pb <= pc + 1 <= pd + 1 <= hi <= |s|
    && s[lo] == p
    && (forall k :: lo <= k < pa ==> Eq(s[k], p, cmp))
    && (forall k :: pa <= k < pb ==> cmp(s[k], p) < 0)
    && (forall k :: pc < k <= pd ==> cmp(s[k], p) > 0)
    && (forall k :: pd < k < hi ==> Eq(s[k], p, cmp))
  }

  lemma StepUp<T>(s: seq<T>, lo: int, hi: int, pa: int, pb: int, pc: int, pd: int, p: T, cmp: (T, T) -> int)
    requires Regions(s, lo, hi, pa, pb, pc, pd, p, cmp) && pb <= pc
    ensures cmp(s[pb], p) == 0 ==>
              Regions(s[pa := s[pb]][pb := s[pa]], lo, hi, pa + 1, pb + 1, pc, pd, p, cmp)
    ensures cmp(s[pb], p) < 0 ==> Regions(s, lo, hi, pa, pb + 1, pc, pd, p, cmp)
  {}

  lemma StepDown<T>(s: seq<T>, lo: int, hi: int, pa: int, pb: int, pc: int, pd: int, p: T, cmp: (T, T) -> int)
    requires Regions(s, lo, hi, pa, pb, pc, pd, p, cmp) && pb <= pc
    ensures cmp(s[pc], p) == 0 ==>
              Regions(s[pc := s[pd]][pd := s[pc]], lo, hi, pa, pb, pc - 1, pd - 1, p, cmp)
    ensures cmp(s[pc], p) > 0 ==> Regions(s, lo, hi, pa, pb, pc - 1, pd, p, cmp)
  {}

  lemma StepBoth<T>(s: seq<T>, lo: int, hi: int, pa: int, pb: int, pc: int, pd: int, p: T, cmp: (T, T) -> int)
    requires Regions(s, lo, hi, pa, pb, pc, pd, p, cmp) && pb <= pc
    requires cmp(s[pb], p) > 0 && cmp(s[pc], p) < 0
    ensures Regions(s[pb := s[pc]][pc := s[pb]], lo, hi, pa, pb + 1, pc - 1, pd, p, cmp)
  {}

  /** Advance `pb` over elements not above the pivot, gathering the equal ones on the left. */
  method ScanUp<T>(a: array<T>, ghost lo: nat, ghost hi: nat, pa0: nat, pb0: nat, pc: int, ghost pd: int, p: T,
                   cmp: (T, T) -> int)
    returns (pa: nat, pb: nat)
    requires Regions(a[..], lo, hi, pa0, pb0, pc, pd, p, cmp)
    modifies a
    ensures Regions(a[..], lo, hi, pa, pb, pc, pd, p, cmp)
    ensures PermutedWithin(old(a[..]), a[..], lo, hi)
    ensures pb0 <= pb
    ensures pb <= pc ==> cmp(a[pb], p) > 0
  {
    pa, pb := pa0, pb0;
    while pb <= pc
      invariant pb0 <= pb
      invariant Regions(a[..], lo, hi, pa, pb, pc, pd, p, cmp)
      invariant PermutedWithin(old(a[..]), a[..], lo, hi)
      decreases pc - pb
    {
      var r := cmp(a[pb], p);
      if r > 0 {
        break;
      }
      StepUp(a[..], lo, hi, pa, pb, pc, pd, p, cmp);
      if r == 0 {
        SwapInside(a[..], lo, hi, pa, pb);
        Swap(a, pa, pb);
        pa := pa + 1;
      }
      pb := pb + 1;
    }
  }

  /** Retreat `pc` over elements not below the pivot, gathering the equal ones on the right. */
  method ScanDown<T>(a: array<T>, ghost lo: nat, ghost hi: nat, ghost pa: nat, pb: nat, pc0: int, pd0: int,
                     p: T, cmp: (T, T) -> int)
    returns (pc: int, pd: int)
    requires Regions(a[..], lo, hi, pa, pb, pc0, pd0, p, cmp)
    requires pb <= pc0 ==> cmp(a[pb], p) > 0
    modifies a
    ensures Regions(a[..], lo, hi, pa, pb, pc, pd, p, cmp)
    ensures PermutedWithin(old(a[..]), a[..], lo, hi)
    ensures pc <= pc0
    ensures pb <= pc ==> cmp(a[pc], p) < 0 && cmp(a[pb], p) > 0
  {
    pc, pd := pc0, pd0;
    while pc >= pb
      invariant pc <= pc0
      invariant Regions(a[..], lo, hi, pa, pb, pc, pd, p, cmp)
      invariant PermutedWithin(old(a[..]), a[..], lo, hi)
      invariant pb <= pc ==> cmp(a[pb], p) > 0
      decreases pc - pb
    {
      var r := cmp(a[pc], p);
      if r < 0 {
        break;
      }
      StepDown(a[..], lo, hi, pa, pb, pc, pd, p, cmp);
      if r == 0 {
        SwapInside(a[..], lo, hi, pc, pd);
        Swap(a, pc, pd);
        pd := pd - 1;
      }
      pc := pc - 1;
    }
  }

  /** The exchange that ends a round of the scan. */
  method SwapBoth<T>(a: array<T>, ghost lo: nat, ghost hi: nat, ghost pa: int, pb: nat, pc: nat, ghost pd: int,
                     ghost p: T, ghost cmp: (T, T) -> int, ghost s0: seq<T>)
    requires Regions(a[..], lo, hi, pa, pb, pc, pd, p, cmp) && pb <= pc
    requires cmp(a[pb], p) > 0 && cmp(a[pc], p) < 0 && PermutedWithin(s0, a[..], lo, hi)
    modifies a
    ensures Regions(a[..], lo, hi, pa, pb + 1, pc - 1, pd, p, cmp) && PermutedWithin(s0, a[..], lo, hi)
  {
    ghost var s := a[..];
    StepBoth(s, lo, hi, pa, pb, pc, pd, p, cmp);
    PermutedSwap(s0, s, lo, hi, pb, pc);
    Swap(a, pb, pc);
  }

  /** The scan loop, from the pivot in place at `lo` to the two scans meeting. */
  method Split<T>(a: array<T>, lo: nat, n: nat, cmp: (T, T) -> int) returns (pa: nat, pb: nat, pc: int, pd: int)
    requires 1 <= n && lo + n <= a.Length
    modifies a
    ensures pb == pc + 1
    ensures Regions(a[..], lo, lo + n, pa, pb, pc, pd, old(a[lo]), cmp)
    ensures PermutedWithin(old(a[..]), a[..], lo, lo + n)
  {
    var p := a[lo];
    pa, pb := lo + 1, lo + 1;
    pc, pd := lo + n - 1, lo + n - 1;
    while true
      invariant Regions(a[..], lo, lo + n, pa, pb, pc, pd, p, cmp)
      invariant PermutedWithin(old(a[..]), a[..], lo, lo + n)
      decreases pc + 1 - pb
    {
      pa, pb := ScanUp(a, lo, lo + n, pa, pb, pc, pd, p, cmp);
      pc, pd := ScanDown(a, lo, lo + n, pa, pb, pc, pd, p, cmp);
      if pb > pc {
        break;
      }
      SwapBoth(a, lo, lo + n, pa, pb, pc, pd, p, cmp, old(a[..]));
      pb, pc := pb + 1, pc - 1;
    }
  }

  /** [lo, hi) holds `lt` values below `p`, then values equal to it, then `gt` values above it. */
  ghost predicate ThreeWay<T>(s: seq<T>, lo: int, hi: int, lt: int, gt: int, p: T, cmp: (T, T) -> int) {
    && 0 <= lo <= hi <= |s| && 0 <= lt && 0 <= gt && lt + gt < hi - lo
    && (forall k :: lo <= k < lo + lt ==> cmp(s[k], p) < 0)
    && (forall k :: lo + lt <= k < hi - gt ==> Eq(s[k], p, cmp))
    && (forall k :: hi - gt <= k < hi ==> cmp(s[k], p) > 0)
  }

  /** `t` is `s` with the runs of length `n` at `x` and `y` exchanged. */
  ghost predicate RunsSwapped<T>(s: seq<T>, t: seq<T>, x: int, y: int, n: int) {
    && |s| == |t| && 0 <= n && 0 <= x && x + n <= y && y + n <= |s|
    && (forall k :: x <= k < x + n ==> t[k] == s[k - x + y])
    && (forall k :: y <= k < y + n ==> t[k] == s[k - y + x])
    && (forall k {:trigger t[k]} :: 0 <= k < |s| && !(x <= k < x + n) && !(y <= k < y + n) ==> t[k] == s[k])
  }

  function Min(x: int, y: int): int {
    if x < y then x else y
  }

  lemma GatherLeft<T>(s: seq<T>, t: seq<T>, lo: int, hi: int, pa: int, pb: int, pc: int, pd: int, p: T,
                      cmp: (T, T) -> int)
    requires Regions(s, lo, hi, pa, pb, pc, pd, p, cmp) && pb == pc + 1
    requires RunsSwapped(s, t, lo, pb - Min(pa - lo, pb - pa), Min(pa - lo, pb - pa))
    ensures forall k :: lo <= k < lo + pb - pa ==> cmp(t[k], p) < 0
    ensures forall k :: lo + pb - pa <= k < pb ==> Eq(t[k], p, cmp)
    ensures forall k :: 0 <= k < |s| && !(lo <= k < pb) ==> t[k] == s[k]
  {}

  lemma GatherRight<T>(t: seq<T>, u: seq<T>, hi: int, pb: int, pc: int, pd: int, p: T, cmp: (T, T) -> int)
    requires 0 < pb == pc + 1 <= pd + 1 <= hi <= |t|
    requires forall k :: pc < k <= pd ==> cmp(t[k], p) > 0
    requires forall k :: pd < k < hi ==> Eq(t[k], p, cmp)
    requires RunsSwapped(t, u, pb, hi - Min(pd - pc, hi - pd - 1), Min(pd - pc, hi - pd - 1))
    ensures forall k :: pb <= k < hi - (pd - pc) ==> Eq(u[k], p, cmp)
    ensures forall k :: hi - (pd - pc) <= k < hi ==> cmp(u[k], p) > 0
    ensures forall k :: 0 <= k < |t| && !(pb <= k < hi) ==> u[k] == t[k]
  {}

  lemma Gathered<T>(s: seq<T>, t: seq<T>, u: seq<T>, lo: int, hi: int, pa: int, pb: int, pc: int, pd: int, p: T,
                    cmp: (T, T) -> int)
    requires Regions(s, lo, hi, pa, pb, pc, pd, p, cmp) && pb == pc + 1
    requires RunsSwapped(s, t, lo, pb - Min(pa - lo, pb - pa), Min(pa - lo, pb - pa))
    requires RunsSwapped(t, u, pb, hi - Min(pd - pc, hi - pd - 1), Min(pd - pc, hi - pd - 1))
    requires multiset(s) == multiset(t) == multiset(u)
    ensures ThreeWay(u, lo, hi, pb - pa, pd - pc, p, cmp)
    ensures PermutedWithin(s, u, lo, hi)
  {
    GatherLeft(s, t, lo, hi, pa, pb, pc, pd, p, cmp);
    GatherRight(t, u, hi, pb, pc, pd, p, cmp);
  }

  /** Swap the two runs of equal values into the middle. */
  method Gather<T>(a: array<T>, lo: nat, n: nat, pa: nat, pb: nat, pc: int, pd: int, ghost p: T,
                   ghost cmp: (T, T) -> int)
    requires lo + n <= a.Length && pb == pc + 1
    requires Regions(a[..], lo, lo + n, pa, pb, pc, pd, p, cmp)
    modifies a
    ensures ThreeWay(a[..], lo, lo + n, pb - pa, pd - pc, p, cmp)
    ensures PermutedWithin(old(a[..]), a[..], lo, lo + n)
  {
    ghost var s0 := a[..];
    var pn := lo + n;
    var s := Min(pa - lo, pb - pa);
    SwapRuns(a, lo, pb - s, s);
    ghost var s1 := a[..];
    s := Min(pd - pc, pn - pd - 1);
    SwapRuns(a, pb, pn - s, s);
    Gathered(s0, s1, a[..], lo, pn, pa, pb, pc, pd, p, cmp);
  }

  /** One partitioning round: pivot selection, split and gathering. */
  method Partition<T(!new)>(a: array<T>, lo: nat, n: nat, cmp: (T, T) -> int) returns (lt: nat, gt: nat, ghost p: T)
    requires 7 <= n && lo + n <= a.Length
    modifies a
    ensures PermutedWithin(old(a[..]), a[..], lo, lo + n)
    ensures ThreeWay(a[..], lo, lo + n, lt, gt, p, cmp)
  {
    var pm := ChoosePivot(a, lo, n, cmp);
    p := a[pm];
    SwapInside(a[..], lo, lo + n, lo, pm);
    Swap(a, lo, pm);
    var pa, pb, pc, pd := Split(a, lo, n, cmp);
    Gather(a, lo, n, pa, pb, pc, pd, p, cmp);
    lt, gt := pb - pa, pd - pc;
  }

  // ---------------------------------------------------------------- the work stack

  datatype Range = Range(lo: nat, hi: nat)

  /** Some pending range holds both positions. */
  ghost predicate Together(ranges: seq<Range>, i: int, j: int) {
    exists k :: 0 <= k < |ranges| && ranges[k].lo <= i < ranges[k].hi && ranges[k].lo <= j < ranges[k].hi
  }

  /** Any two positions that no pending range holds together are already in order. */
  ghost predicate SortedApart<T>(s: seq<T>, lo: int, hi: int, ranges: seq<Range>, cmp: (T, T) -> int) {
    && 0 <= lo <= hi <= |s|
    && forall i, j :: lo <= i < j < hi ==> Together(ranges, i, j) || cmp(s[i], s[j]) <= 0
  }

  /** The pending ranges lie in [lo, hi) and do not overlap. */
  ghost predicate Disjoint(ranges: seq<Range>, lo: int, hi: int) {
    && (forall k :: 0 <= k < |ranges| ==> lo <= ranges[k].lo <= ranges[k].hi <= hi)
    && (forall k, l :: 0 <= k < l < |ranges| ==> ranges[k].hi <= ranges[l].lo || ranges[l].hi <= ranges[k].lo)
  }

  /** Rearranging inside one pending range disturbs no pair that was in order. */
  lemma SortedApartPermuted<T>(s: seq<T>, t: seq<T>, lo: int, hi: int, ranges: seq<Range>, r: Range, cmp: (T, T) -> int)
    requires Disjoint(ranges + [r], lo, hi) && SortedApart(s, lo, hi, ranges + [r], cmp)
    requires PermutedWithin(s, t, r.lo, r.hi)
    ensures SortedApart(t, lo, hi, ranges + [r], cmp)
  {
    var stacked := ranges + [r];
    assert stacked[|ranges|] == r;
    forall i, j | lo <= i < j < hi && !Together(stacked, i, j)
      ensures cmp(t[i], t[j]) <= 0
    {
      var i' := Origin(s, t, r.lo, r.hi, i);
      var j' := Origin(s, t, r.lo, r.hi, j);
    }
  }

  /** Where the value now at `i` came from: the same place, or elsewhere inside the range. */
  lemma Origin<T>(s: seq<T>, t: seq<T>, lo: int, hi: int, i: int) returns (i': int)
    requires PermutedWithin(s, t, lo, hi) && 0 <= i < |t|
    ensures 0 <= i' < |s| && t[i] == s[i']
    ensures lo <= i < hi <==> lo <= i' < hi
    ensures !(lo <= i < hi) ==> i' == i
  {
    if lo <= i < hi {
      PermutedRange(s, t, lo, hi);
      assert t[i] == t[lo..hi][i - lo];
      assert t[i] in multiset(t[lo..hi]);
      assert t[i] in s[lo..hi];
      var k :| 0 <= k < |s[lo..hi]| && s[lo..hi][k] == t[i];
      i' := lo + k;
    } else {
      i' := i;
    }
  }

  /** A range that has been sorted can be dropped. */
  lemma SortedApartDone<T>(s: seq<T>, lo: int, hi: int, ranges: seq<Range>, r: Range, cmp: (T, T) -> int)
    requires SortedApart(s, lo, hi, ranges + [r], cmp)
    requires r.lo <= r.hi <= |s| && Sorted(s[r.lo..r.hi], cmp)
    ensures SortedApart(s, lo, hi, ranges, cmp)
  {
    var stacked := ranges + [r];
    forall i, j | lo <= i < j < hi && !Together(ranges, i, j)
      ensures cmp(s[i], s[j]) <= 0
    {
      if Together(stacked, i, j) {
        TogetherLast(ranges, r, i, j);
        assert s[i] == s[r.lo..r.hi][i - r.lo] && s[j] == s[r.lo..r.hi][j - r.lo];
      }
    }
  }

  lemma TogetherLast(ranges: seq<Range>, r: Range, i: int, j: int)
    requires Together(ranges + [r], i, j) && !Together(ranges, i, j)
    ensures r.lo <= i < r.hi && r.lo <= j < r.hi
  {
    var stacked := ranges + [r];
    var k :| 0 <= k < |stacked| && stacked[k].lo <= i < stacked[k].hi && stacked[k].lo <= j < stacked[k].hi;
    if k < |ranges| {
      assert ranges[k] == stacked[k];
    }
  }

  ghost predicate Covers(stacked: seq<Range>, r: Range) {
    r.lo == r.hi || r in stacked
  }

  lemma TogetherIn(ranges: seq<Range>, stacked: seq<Range>, r: Range, i: int, j: int)
    requires Covers(stacked, r) && r.lo <= i < r.hi && r.lo <= j < r.hi
    ensures Together(ranges + stacked, i, j)
  {
    var k :| 0 <= k < |stacked| && stacked[k] == r;
    assert (ranges + stacked)[|ranges| + k] == r;
  }

  lemma TogetherStill(ranges: seq<Range>, stacked: seq<Range>, i: int, j: int)
    requires Together(ranges, i, j)
    ensures Together(ranges + stacked, i, j)
  {
    var k :| 0 <= k < |ranges| && ranges[k].lo <= i < ranges[k].hi && ranges[k].lo <= j < ranges[k].hi;
    assert (ranges + stacked)[k] == ranges[k];
  }

  /** Values on either side of the pivot's run are in order. */
  lemma ThreeWayOrdered<T(!new)>(s: seq<T>, lo: int, hi: int, lt: int, gt: int, p: T, cmp: (T, T) -> int, i: int,
                          j: int)
    requires TotalPreorder(cmp) && ThreeWay(s, lo, hi, lt, gt, p, cmp)
    requires lo <= i < j < hi
    requires !(j < lo + lt) && !(hi - gt <= i)
    ensures cmp(s[i], s[j]) <= 0
  {
    assert cmp(s[i], p) <= 0;
    assert cmp(s[j], p) >= 0;
    Transitive(cmp, s[i], p, s[j]);
  }

  /** A partitioned range can be replaced by its two outer parts. */
  lemma SortedApartSplit<T(!new)>(s: seq<T>, lo: int, hi: int, ranges: seq<Range>, r: Range, stacked: seq<Range>,
                                  lt: nat, gt: nat, p: T, cmp: (T, T) -> int)
    requires TotalPreorder(cmp)
    requires SortedApart(s, lo, hi, ranges + [r], cmp)
    requires ThreeWay(s, r.lo, r.hi, lt, gt, p, cmp)
    requires Covers(stacked, Range(r.lo, r.lo + lt)) && Covers(stacked, Range(r.hi - gt, r.hi))
    ensures SortedApart(s, lo, hi, ranges + stacked, cmp)
  {
    forall i, j | lo <= i < j < hi && !Together(ranges + stacked, i, j)
      ensures cmp(s[i], s[j]) <= 0
    {
      if Together(ranges + [r], i, j) {
        if Together(ranges, i, j) {
          TogetherStill(ranges, stacked, i, j);
        } else {
          TogetherLast(ranges, r, i, j);
          if j < r.lo + lt {
            TogetherIn(ranges, stacked, Range(r.lo, r.lo + lt), i, j);
          } else if r.hi - gt <= i {
            TogetherIn(ranges, stacked, Range(r.hi - gt, r.hi), i, j);
          } else {
            ThreeWayOrdered(s, r.lo, r.hi, lt, gt, p, cmp, i, j);
          }
        }
      }
    }
  }

  lemma ScaledMonotone(m: nat, m': nat, k: nat)
    requires m <= m'
    ensures Scaled(m, k) <= Scaled(m', k)
  {}

  lemma ScaledDouble(m: nat, k: nat)
    ensures Scaled(2 * m, k) == Scaled(m, k + 1)
  {}

  lemma Pow2Monotone(j: nat, k: nat)
    requires j <= k
    ensures Pow2(j) <= Pow2(k)
    decreases k - j
  {
    if j < k {
      Pow2Monotone(j, k - 1);
    }
  }

  /** There is always an index type wide enough for an array. */
  lemma IndexWidth(n: nat)
    ensures n < Pow2(8 * n)
  {
    if n > 0 {
      IndexWidth(n - 1);
      Pow2Monotone(8 * (n - 1) + 1, 8 * n);
    }
  }

  /** The stack discipline: the entry at depth k is at most a 2^k-th of the input. */
  ghost predicate Halving(ranges: seq<Range>, n: nat) {
    forall k :: 0 <= k < |ranges| ==> ranges[k].lo <= ranges[k].hi && Scaled(ranges[k].hi - ranges[k].lo, k) <= n
  }

  /** A bound on the rounds still to do. */
  ghost function Work(ranges: seq<Range>): nat {
    if ranges == [] then 0
    else
      var r := ranges[|ranges| - 1];
      Work(ranges[..|ranges| - 1]) + (if r.lo <= r.hi then 2 * (r.hi - r.lo) + 1 else 0)
  }

  /** What one partitioning round leaves on the stack: the larger part, then the smaller if it is not empty. */
  function Pushed(r: Range, lt: nat, gt: nat): (stacked: seq<Range>)
    requires r.lo <= r.hi && lt + gt <= r.hi - r.lo
    ensures Covers(stacked, Range(r.lo, r.lo + lt)) && Covers(stacked, Range(r.hi - gt, r.hi))
  {
    var left, right := Range(r.lo, r.lo + lt), Range(r.hi - gt, r.hi);
    if gt > lt then
      if lt == 0 then [right] else [right, left]
    else
      if gt == 0 then [left] else [left, right]
  }

  lemma PushedDisjoint(ranges: seq<Range>, r: Range, lt: nat, gt: nat, lo: int, hi: int)
    requires Disjoint(ranges + [r], lo, hi) && r.lo <= r.hi && lt + gt <= r.hi - r.lo
    ensures Disjoint(ranges + Pushed(r, lt, gt), lo, hi)
  {
    var pushed := ranges + [r];
    assert pushed[|ranges|] == r;
    var stacked := ranges + Pushed(r, lt, gt);
    forall k | 0 <= k < |stacked| ensures lo <= stacked[k].lo <= stacked[k].hi <= hi {
      if k < |ranges| {
        assert pushed[k] == stacked[k];
      }
    }
    forall k, l | 0 <= k < l < |stacked|
      ensures stacked[k].hi <= stacked[l].lo || stacked[l].hi <= stacked[k].lo
    {
      if k < |ranges| {
        assert pushed[k] == stacked[k];
        if l < |ranges| {
          assert pushed[l] == stacked[l];
        }
      }
    }
  }

  /** Pushing the larger part first keeps the stack shallow. */
  lemma PushedHalving(ranges: seq<Range>, r: Range, lt: nat, gt: nat, n: nat)
    requires Halving(ranges + [r], n) && r.lo <= r.hi && lt + gt < r.hi - r.lo
    ensures Halving(ranges + Pushed(r, lt, gt), n)
  {
    var pushed, d := ranges + [r], |ranges|;
    assert pushed[d] == r;
    var stacked := ranges + Pushed(r, lt, gt);
    var big, small := if gt > lt then gt else lt, if gt > lt then lt else gt;
    ScaledMonotone(big, r.hi - r.lo, d);
    ScaledDouble(small, d);
    ScaledMonotone(2 * small, r.hi - r.lo, d);
    forall k | 0 <= k < |stacked|
      ensures stacked[k].lo <= stacked[k].hi && Scaled(stacked[k].hi - stacked[k].lo, k) <= n
    {
      if k < d {
        assert pushed[k] == stacked[k];
      }
    }
  }

  lemma PushedWork(ranges: seq<Range>, r: Range, lt: nat, gt: nat)
    requires r.lo <= r.hi && lt + gt < r.hi - r.lo
    ensures Work(ranges + Pushed(r, lt, gt)) < Work(ranges + [r])
  {
    WorkSnoc(ranges, r);
    var stacked := Pushed(r, lt, gt);
    WorkSnoc(ranges, stacked[0]);
    if |stacked| == 1 {
      assert ranges + stacked == ranges + [stacked[0]];
    } else {
      assert ranges + stacked == (ranges + [stacked[0]]) + [stacked[1]];
      WorkSnoc(ranges + [stacked[0]], stacked[1]);
    }
  }

  lemma WorkSnoc(ranges: seq<Range>, r: Range)
    requires r.lo <= r.hi
    ensures Work(ranges + [r]) == Work(ranges) + 2 * (r.hi - r.lo) + 1
  {
    assert (ranges + [r])[..|ranges|] == ranges;
  }

  /** A range long enough to partition is never deep enough to overflow the stack. */
  lemma StackFits(ranges: seq<Range>, n: nat, bits: nat)
    requires ranges != [] && Halving(ranges, n) && n < Pow2(bits)
    requires ranges[|ranges| - 1].hi - ranges[|ranges| - 1].lo >= 7
    ensures 2 * (|ranges| - 1) + 4 < (bits + 1) * 2
  {
    var d := |ranges| - 1;
    ScaledDouble(1, d);
    ScaledDouble(2, d);
    ScaledMonotone(4, ranges[d].hi - ranges[d].lo, d);
    if bits <= d + 1 {
      Pow2Monotone(bits, d + 1);
    }
  }

  /** The first 2 * |R| words of the stack buffer hold the pending ranges, relative to `base`. */
  ghost predicate Mirrors(buf: seq<nat>, base: nat, ranges: seq<Range>) {
    && 2 * |ranges| <= |buf|
    && forall k :: 0 <= k < |ranges| ==> ranges[k].lo == base + buf[2 * k] && ranges[k].hi == base + buf[2 * k + 1]
  }

  lemma MirrorsTop(buf: seq<nat>, base: nat, ranges: seq<Range>, below: seq<Range>, r: Range)
    requires Mirrors(buf, base, ranges) && ranges != [] && below == ranges[..|ranges| - 1] && r == ranges[|ranges| - 1]
    ensures ranges == below + [r] && |below| == |ranges| - 1
    ensures r == Range(base + buf[2 * |below|], base + buf[2 * |below| + 1])
    ensures Mirrors(buf, base, below)
  {}

  /** Replace the popped top entry, still in the two words at `stack`, by its two outer parts. */
  method PushParts(buf: array<nat>, stack: nat, base: nat, ghost ranges: seq<Range>, ghost r: Range, lt: nat, gt: nat)
    returns (stack': nat)
    requires Mirrors(buf[..], base, ranges + [r]) && stack == 2 * |ranges|
    requires stack + 4 < buf.Length
    requires r.lo <= r.hi && lt + gt <= r.hi - r.lo
    modifies buf
    ensures stack' == 2 * |ranges + Pushed(r, lt, gt)|
    ensures Mirrors(buf[..], base, ranges + Pushed(r, lt, gt))
  {
    MirrorsLast(buf[..], base, ranges, r);
    buf[stack + 2] := buf[stack + 1] - gt;
    buf[stack + 3] := buf[stack + 1];
    buf[stack + 1] := buf[stack] + lt;
    if buf[stack + 3] - buf[stack + 2] > buf[stack + 1] - buf[stack] {
      buf[stack], buf[stack + 2] := buf[stack + 2], buf[stack];
      buf[stack + 1], buf[stack + 3] := buf[stack + 3], buf[stack + 1];
    }
    stack' := stack + if buf[stack + 2] != buf[stack + 3] then 4 else 2;
    PushedMirrors(old(buf[..]), buf[..], base, ranges, r, lt, gt);
  }

  lemma MirrorsLast(buf: seq<nat>, base: nat, ranges: seq<Range>, r: Range)
    requires Mirrors(buf, base, ranges + [r])
    ensures Mirrors(buf, base, ranges) && 2 * |ranges| + 1 < |buf|
    ensures r.lo == base + buf[2 * |ranges|] && r.hi == base + buf[2 * |ranges| + 1]
  {
    assert (ranges + [r])[|ranges|] == r;
    assert forall k :: 0 <= k < |ranges| ==> (ranges + [r])[k] == ranges[k];
  }

  /** The two parts stand where the range stood, the larger one first. */
  lemma PushedMirrors(buf: seq<nat>, buf': seq<nat>, base: nat, ranges: seq<Range>, r: Range, lt: nat, gt: nat)
    requires Mirrors(buf, base, ranges + [r]) && 2 * |ranges| + 4 < |buf| == |buf'|
    requires r.lo <= r.hi && lt + gt <= r.hi - r.lo
    requires var k := 2 * |ranges|;
             && buf'[..k] == buf[..k] && buf[k + 1] - gt >= 0
             && if gt > lt then buf'[k..k + 4] == [buf[k + 1] - gt, buf[k + 1], buf[k], buf[k] + lt]
                else buf'[k..k + 4] == [buf[k], buf[k] + lt, buf[k + 1] - gt, buf[k + 1]]
    ensures Mirrors(buf', base, ranges + Pushed(r, lt, gt))
  {
    MirrorsLast(buf, base, ranges, r);
    var n, pushed := 2 * |ranges|, Pushed(r, lt, gt);
    var all := ranges + pushed;
    forall k | 0 <= k < |all| ensures all[k].lo == base + buf'[2 * k] && all[k].hi == base + buf'[2 * k + 1] {
      if k < |ranges| {
        assert all[k] == ranges[k];
        assert buf'[..n][2 * k] == buf[..n][2 * k] && buf'[..n][2 * k + 1] == buf[..n][2 * k + 1];
      } else {
        var top := buf'[n..n + 4];
        assert all[k] == pushed[k - |ranges|];
        assert buf'[2 * k] == top[2 * k - n] && buf'[2 * k + 1] == top[2 * k - n + 1];
        assert 2 * k == n || 2 * k == n + 2;
      }
    }
  }

  /** Everything the work loop keeps. */
  ghost predicate Pending<T(!new)>(s0: seq<T>, s: seq<T>, base: nat, n: nat, ranges: seq<Range>, cmp: (T, T) -> int) {
    && PermutedWithin(s0, s, base, base + n)
    && Disjoint(ranges, base, base + n)
    && Halving(ranges, n)
    && (TotalPreorder(cmp) ==> SortedApart(s, base, base + n, ranges, cmp))
  }

  lemma PendingPermuted<T(!new)>(s0: seq<T>, s: seq<T>, t: seq<T>, base: nat, n: nat, ranges: seq<Range>,
                          r: Range, cmp: (T, T) -> int)
    requires Pending(s0, s, base, n, ranges + [r], cmp) && PermutedWithin(s, t, r.lo, r.hi)
    ensures Pending(s0, t, base, n, ranges + [r], cmp)
  {
    assert (ranges + [r])[|ranges|] == r;
    PermutedWider(s, t, r.lo, r.hi, base, base + n);
    PermutedTransitive(s0, s, t, base, base + n);
    if TotalPreorder(cmp) {
      SortedApartPermuted(s, t, base, base + n, ranges, r, cmp);
    }
  }

  lemma PendingDone<T(!new)>(s0: seq<T>, s: seq<T>, base: nat, n: nat, ranges: seq<Range>, r: Range, cmp: (T, T) -> int)
    requires Pending(s0, s, base, n, ranges + [r], cmp)
    requires r.lo <= r.hi <= |s| && (TotalPreorder(cmp) ==> Sorted(s[r.lo..r.hi], cmp))
    ensures Pending(s0, s, base, n, ranges, cmp)
    ensures Work(ranges) < Work(ranges + [r])
  {
    WorkSnoc(ranges, r);
    assert forall k :: 0 <= k < |ranges| ==> (ranges + [r])[k] == ranges[k];
    if TotalPreorder(cmp) {
      SortedApartDone(s, base, base + n, ranges, r, cmp);
    }
  }

  lemma PendingSplit<T(!new)>(s0: seq<T>, s: seq<T>, base: nat, n: nat, ranges: seq<Range>, r: Range, lt: nat,
                       gt: nat, p: T, cmp: (T, T) -> int)
    requires Pending(s0, s, base, n, ranges + [r], cmp)
    requires ThreeWay(s, r.lo, r.hi, lt, gt, p, cmp)
    ensures Pending(s0, s, base, n, ranges + Pushed(r, lt, gt), cmp)
    ensures Work(ranges + Pushed(r, lt, gt)) < Work(ranges + [r])
  {
    PushedDisjoint(ranges, r, lt, gt, base, base + n);
    PushedHalving(ranges, r, lt, gt, n);
    PushedWork(ranges, r, lt, gt);
    if TotalPreorder(cmp) {
      SortedApartSplit(s, base, base + n, ranges, r, Pushed(r, lt, gt), lt, gt, p, cmp);
    }
  }

  /** All values equal to the pivot: the range is sorted already. */
  lemma ThreeWayAllEqual<T(!new)>(s: seq<T>, lo: nat, hi: nat, p: T, cmp: (T, T) -> int)
    requires TotalPreorder(cmp) && ThreeWay(s, lo, hi, 0, 0, p, cmp)
    ensures Sorted(s[lo..hi], cmp)
  {
    forall i, j | lo <= i < j < hi ensures cmp(s[i], s[j]) <= 0 {
      ThreeWayOrdered(s, lo, hi, 0, 0, p, cmp, i, j);
    }
  }

  /** One pass of the work loop over a popped range: sort it outright, or partition it. */
  method Round<T(!new)>(a: array<T>, lo: nat, hi: nat, cmp: (T, T) -> int,
                        ghost s0: seq<T>, ghost base: nat, ghost n: nat, ghost ranges: seq<Range>, ghost r: Range)
    returns (done: bool, lt: nat, gt: nat)
    requires r == Range(lo, hi) && lo <= hi
    requires Pending(s0, a[..], base, n, ranges + [r], cmp)
    modifies a
    ensures done ==> Pending(s0, a[..], base, n, ranges, cmp) && Work(ranges) < Work(ranges + [r])
    ensures !done ==>
              && hi - lo >= 7 && 0 < lt + gt < hi - lo
              && Pending(s0, a[..], base, n, ranges + Pushed(r, lt, gt), cmp)
              && Work(ranges + Pushed(r, lt, gt)) < Work(ranges + [r])
  {
    ghost var s := a[..];
    lt, gt := 0, 0;
    assert (ranges + [r])[|ranges|] == r;
    if hi - lo < 7 {
      InsertionSort(a, lo, hi, cmp);
      PendingPermuted(s0, s, a[..], base, n, ranges, r, cmp);
      PendingDone(s0, a[..], base, n, ranges, r, cmp);
      return true, 0, 0;
    }
    ghost var p: T;
    lt, gt, p := Partition(a, lo, hi - lo, cmp);
    PendingPermuted(s0, s, a[..], base, n, ranges, r, cmp);
    done := lt == 0 && gt == 0;
    if done {
      if TotalPreorder(cmp) {
        ThreeWayAllEqual(a[..], lo, hi, p, cmp);
      }
      PendingDone(s0, a[..], base, n, ranges, r, cmp);
    } else {
      PendingSplit(s0, a[..], base, n, ranges, r, lt, gt, p, cmp);
    }
  }

  lemma PendingEnd<T(!new)>(s0: seq<T>, s: seq<T>, base: nat, n: nat, cmp: (T, T) -> int)
    requires Pending(s0, s, base, n, [], cmp)
    ensures PermutedWithin(s0, s, base, base + n)
    ensures TotalPreorder(cmp) ==> Sorted(s[base..base + n], cmp)
  {}

  lemma PendingStart<T(!new)>(s: seq<T>, base: nat, n: nat, cmp: (T, T) -> int)
    requires base + n <= |s|
    ensures Pending(s, s, base, n, [Range(base, base + n)], cmp)
  {
    var ranges := [Range(base, base + n)];
    forall i, j | base <= i < j < base + n ensures Together(ranges, i, j) {
      assert ranges[0].lo <= i < ranges[0].hi && ranges[0].lo <= j < ranges[0].hi;
    }
  }

  /** One round of the work loop: pop a range, process it, push what remains of it. */
  method Step<T(!new)>(a: array<T>, buf: array<nat>, top: nat, base: nat, cmp: (T, T) -> int,
                       ghost s0: seq<T>, ghost n: nat, ghost bits: nat, ghost ranges: seq<Range>)
    returns (stack: nat, ghost ranges': seq<Range>)
    requires a as object != buf
    requires buf.Length == (bits + 1) * 2 && n < Pow2(bits)
    requires top == 2 * |ranges| && ranges != [] && Mirrors(buf[..], base, ranges)
    requires Pending(s0, a[..], base, n, ranges, cmp)
    modifies a, buf
    ensures stack == 2 * |ranges'| && Mirrors(buf[..], base, ranges')
    ensures Pending(s0, a[..], base, n, ranges', cmp)
    ensures Work(ranges') < Work(ranges)
  {
    stack := top - 2;
    var lo, hi := buf[stack], buf[stack + 1];
    ghost var below, r := ranges[..|ranges| - 1], ranges[|ranges| - 1];
    MirrorsTop(buf[..], base, ranges, below, r);
    assert r.lo <= r.hi;
    var done, lt, gt := Round(a, base + lo, base + hi, cmp, s0, base, n, below, r);
    if done {
      ranges' := below;
    } else {
      StackFits(ranges, n, bits);
      assert stack + 4 < buf.Length;
      stack := PushParts(buf, stack, base, below, r, lt, gt);
      ranges' := below + Pushed(r, lt, gt);
    }
  }

  /**
   `click_qsort` on the `n` elements from `base`, with `sizeofSize` the width
   in bytes of an index.  For every comparator the call terminates, stays in
   bounds, never trips the stack assertion and only rearranges; for a total
   preorder the result is sorted.
   */
  method ClickQsort<T(!new)>(a: array<T>, base: nat, n: nat, cmp: (T, T) -> int, sizeofSize: nat)
    requires base + n <= a.Length
    requires 1 <= sizeofSize && n < Pow2(8 * sizeofSize)
    modifies a
    ensures PermutedWithin(old(a[..]), a[..], base, base + n)
    ensures TotalPreorder(cmp) ==> Sorted(a[base..base + n], cmp)
  {
    var buf := new nat[(8 * sizeofSize + 1) * 2];
    buf[0], buf[1] := 0, n;
    var stack := 2;
    ghost var ranges := [Range(base, base + n)];
    PendingStart(a[..], base, n, cmp);
    while stack != 0
      invariant fresh(buf) && buf.Length == (8 * sizeofSize + 1) * 2
      invariant stack == 2 * |ranges| && Mirrors(buf[..], base, ranges)
      invariant Pending(old(a[..]), a[..], base, n, ranges, cmp)
      decreases Work(ranges)
    {
      stack, ranges := Step(a, buf, stack, base, cmp, old(a[..]), n, 8 * sizeofSize, ranges);
    }
    PendingEnd(old(a[..]), a[..], base, n, cmp);
  }
}
