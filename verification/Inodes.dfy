/**
 `ClickIno` (click/lib/ino.cc): the table behind Click's file systems.  One
 entry per element name and per directory above one, sorted by name, with
 each directory's descendants counted in `skip` and element numbers mapped
 back to positions by `xindex`.
 */
module Inodes {
  import opened QuickSort
  import opened Bytes
  import opened Collections

  const SLASH: Byte := 47

  /** The table's counters are 16 bits wide. */
  function U16(n: nat): nat {
    n % 0x1_0000
  }

  datatype Entry = Entry(name: Str, elementnoPlus1: nat, xindex: nat, skip: nat, fake: bool)

  /** No byte sorts below '/', and the name neither is empty nor starts with '/'. */
  ghost predicate ValidName(s: Str) {
    s != [] && s[0] != SLASH && forall k :: 0 <= k < |s| ==> s[k] >= SLASH
  }

  /** `p` is a directory above `s`. */
  ghost predicate IsAncestor(p: Str, s: Str) {
    0 < |p| < |s| && p <= s && s[|p|] == SLASH
  }

  /** `s` is one of the names or a directory above one. */
  ghost predicate InClosure(s: Str, names: seq<Str>) {
    exists i :: 0 <= i < |names| && (s == names[i] || IsAncestor(s, names[i]))
  }

  /** Besides the root, the table has exactly the names and the directories above them. */
  ghost predicate ClosureOf(r: seq<Str>, names: seq<Str>) {
    forall s :: (s != [] && s in r) <==> InClosure(s, names)
  }

  ghost predicate ValidNames(names: seq<Str>) {
    Distinct(names) && forall i :: 0 <= i < |names| ==> ValidName(names[i])
  }

  function NamesOf(x: seq<Entry>): (r: seq<Str>)
    ensures |r| == |x|
    ensures forall i :: 0 <= i < |x| ==> r[i] == x[i].name
  {
    seq(|x|, i requires 0 <= i < |x| => x[i].name)
  }

  /** Position of the last `c`, or -1. */
  function FindRight(s: Str, c: Byte): (k: int)
    ensures -1 <= k < |s|
    ensures 0 <= k ==> s[k] == c
    ensures forall i :: k < i < |s| ==> s[i] != c
  {
    if s == [] then -1 else if s[|s| - 1] == c then |s| - 1 else FindRight(s[..|s| - 1], c)
  }

  // ---------------------------------------------------------------- order facts

  /**
   If the part of `name` before a slash also starts the preceding name, it is
   a whole component there: '/' is the least byte of a name.
   */
  lemma WholeComponent(prev: Str, name: Str, k: nat)
    requires forall i :: 0 <= i < |prev| ==> prev[i] >= SLASH
    requires 0 < k < |name| && name[k] == SLASH && Less(prev, name)
    requires name[..k] <= prev
    ensures name[..k] == prev || IsAncestor(name[..k], prev)
  {
    if |prev| > k {
      assert forall i :: 0 <= i < k ==> prev[i] == name[..k][i];
      assert Common(prev, name) >= k;
    }
  }

  /** A prefix of a name that does not start the preceding name starts no earlier one. */
  lemma NotSeenBefore(r: seq<Str>, i: int, p: Str, j: int)
    requires StrictlySorted(r) && 0 <= j < i < |r|
    requires p <= r[i] && !(p <= r[i - 1])
    ensures !(p <= r[j])
  {
    if p <= r[j] && j < i - 1 {
      assert Less(r[j], r[i - 1]) && Less(r[i - 1], r[i]);
      PrefixInterval(p, r[j], r[i - 1], r[i]);
    }
  }

  lemma SortedFirst(r: seq<Str>, i: int, j: int)
    requires StrictlySorted(r) && 0 <= i < |r| && 0 <= j < |r|
    requires Compare(r[i], r[j]) <= 0
    ensures i <= j
  {
    if j < i {
      assert Less(r[j], r[i]);
      CompareFlips(r[j], r[i]);
    }
  }

  lemma AncestorLess(p: Str, s: Str)
    requires IsAncestor(p, s)
    ensures Less(p, s)
  {
    PrefixLess(p, s);
  }

  lemma AncestorTransitive(p: Str, q: Str, s: Str)
    requires IsAncestor(p, q) && IsAncestor(q, s)
    ensures IsAncestor(p, s)
  {
    assert s[|p|] == s[..|q|][|p|];
  }

  /** Two ancestors of the same name lie one above the other. */
  lemma AncestorsNest(p: Str, q: Str, s: Str)
    requires IsAncestor(p, s) && (IsAncestor(q, s) || q == s) && |p| < |q|
    ensures IsAncestor(p, q)
  {
    assert p == s[..|p|] && q == s[..|q|];
  }

  /** A name between a directory and one of its descendants is a descendant too. */
  lemma DescendantsContiguous(d: Str, t: Str, s: Str)
    requires IsAncestor(d, s) && Less(d, t) && Compare(t, s) <= 0
    requires forall i :: 0 <= i < |t| ==> t[i] >= SLASH
    ensures IsAncestor(d, t)
  {
    PrefixInterval(d, d, t, s);
    if t != s {
      assert |t| > |d|;
      assert forall i :: 0 <= i < |d| ==> t[i] == d[i] == s[i];
      assert Common(t, s) >= |d|;
    }
  }

  // ---------------------------------------------------------------- permutations

  /** Rearranging keeps entries' names distinct. */
  lemma DistinctPermuted(x: seq<Entry>, y: seq<Entry>)
    requires multiset(x) == multiset(y) && Distinct(NamesOf(x))
    ensures Distinct(NamesOf(y))
  {
    forall i, j | 0 <= i < j < |y| ensures y[i].name != y[j].name {
      assert y[i] in multiset(y) && y[j] in multiset(y);
      var i' :| 0 <= i' < |x| && x[i'] == y[i];
      var j' :| 0 <= j' < |x| && x[j'] == y[j];
      if y[i].name == y[j].name {
        assert NamesOf(x)[i'] == NamesOf(x)[j'];
        CountTwice(y, i, j);
        CountOnce(x, y[i]);
        assert false;
      }
    }
  }

  // ---------------------------------------------------------------- building the table

  function EntryCompare(a: Entry, b: Entry): int {
    Compare(a.name, b.name)
  }

  lemma EntryCompareIsTotalPreorder()
    ensures TotalPreorder(EntryCompare)
  {
    CompareIsTotalPreorder();
    forall x: Entry, y: Entry, z: Entry | Chain(x, y, z) && EntryCompare(x, y) <= 0 && EntryCompare(y, z) <= 0
      ensures EntryCompare(x, z) <= 0
    {
      CompareTransitive(x.name, y.name, z.name);
    }
  }

  const SENTINEL := Entry([], 0, 0, 0, false)

  /** A sentinel, then one entry per element in element order. */
  method ElementEntries(names: seq<Str>) returns (x: seq<Entry>)
    ensures |x| == |names| + 1 && x[0] == SENTINEL
    ensures forall i :: 1 <= i < |x| ==> x[i] == Entry(names[i - 1], U16(i), 0, 0, false)
  {
    x := [SENTINEL];
    for i := 1 to |names| + 1
      invariant |x| == i && x[0] == SENTINEL
      invariant forall k :: 1 <= k < i ==> x[k] == Entry(names[k - 1], U16(k), 0, 0, false)
    {
      x := x + [Entry(names[i - 1], U16(i), 0, 0, false)];
    }
  }

  /** Sort all entries but the first, with `click_qsort`. */
  method SortEntries(x: seq<Entry>) returns (y: seq<Entry>)
    requires 1 <= |x|
    requires x[0].name == [] && Distinct(NamesOf(x))
    ensures PermutedWithin(x, y, 1, |x|)
    ensures StrictlySorted(NamesOf(y))
  {
    var a := new Entry[|x|](i requires 0 <= i < |x| => x[i]);
    assert a[..] == x;
    // Any index width that can count the entries will do.
    IndexWidth(|x|);
    ClickQsort(a, 1, |x| - 1, EntryCompare, |x|);
    y := a[..];
    EntryCompareIsTotalPreorder();
    DistinctPermuted(x, y);
    forall i, j | 0 <= i < j < |y| ensures Less(y[i].name, y[j].name) {
      assert NamesOf(y)[i] != NamesOf(y)[j];
      if i == 0 {
        PrefixLess([], y[j].name);
      } else {
        assert y[i] == a[1..1 + (|x| - 1)][i - 1] && y[j] == a[1..1 + (|x| - 1)][j - 1];
      }
    }
  }

  /** `q` is a directory above one of the elements before `i`. */
  ghost predicate FromEarlier(r: seq<Str>, i: int, q: Str)
    requires i <= |r|
  {
    exists j :: 1 <= j < i && IsAncestor(q, r[j])
  }

  /** The directories above element `j` are in the table. */
  ghost predicate Present(r: seq<Str>, x: seq<Str>, j: int)
    requires 0 <= j < |r|
  {
    forall p :: IsAncestor(p, r[j]) ==> p in x
  }

  /** What the directory pass has done after the elements before `i`. */
  ghost predicate ClosedUpTo(r: seq<Str>, x: seq<Str>, i: int) {
    && 1 <= i <= |r| <= |x| && x[..|r|] == r
    && Distinct(x)
    && (forall k :: |r| <= k < |x| ==> FromEarlier(r, i, x[k]))
    && (forall j {:trigger Present(r, x, j)} :: 1 <= j < i ==> Present(r, x, j))
  }

  /** The same in the middle of element `i`, whose ancestors longer than `slash` are in the table. */
  ghost predicate Adding(r: seq<Str>, x: seq<Str>, i: int, slash: int) {
    && 1 <= i < |r| <= |x| && x[..|r|] == r
    && -1 <= slash < |r[i]| && (0 <= slash ==> r[i][slash] == SLASH)
    && Distinct(x)
    && (forall k :: |r| <= k < |x| ==> FromEarlier(r, i, x[k]) || (IsAncestor(x[k], r[i]) && |x[k]| > slash))
    && (forall j {:trigger Present(r, x, j)} :: 1 <= j < i ==> Present(r, x, j))
    && (forall p :: IsAncestor(p, r[i]) && |p| > slash ==> p in x)
  }

  ghost predicate SortedElements(r: seq<Str>) {
    && 1 <= |r| && r[0] == [] && StrictlySorted(r)
    && forall i :: 1 <= i < |r| ==> ValidName(r[i])
  }

  lemma AddingStart(r: seq<Str>, x: seq<Str>, i: int)
    requires SortedElements(r) && ClosedUpTo(r, x, i) && i < |r|
    ensures Adding(r, x, i, FindRight(r[i], SLASH))
  {
  }

  lemma NotInTable(r: seq<Str>, x: seq<Str>, i: int, slash: int)
    requires SortedElements(r) && Adding(r, x, i, slash) && 0 < slash && !(r[i][..slash] <= r[i - 1])
    ensures r[i][..slash] !in x
  {
    var p := r[i][..slash];
    forall k | 0 <= k < |x| ensures x[k] != p {
      if k < |r| {
        assert x[k] == r[k];
        NotElement(r, i, p, k);
      } else if FromEarlier(r, i, x[k]) {
        NotEarlier(r, i, p, x[k]);
      }
    }
  }

  lemma NotElement(r: seq<Str>, i: int, p: Str, k: int)
    requires SortedElements(r) && 1 <= i < |r| && 0 <= k < |r| && p <= r[i] && 0 < |p| < |r[i]| && !(p <= r[i - 1])
    ensures r[k] != p
  {
    PrefixLess(p, r[i]);
    if k < i {
      NotSeenBefore(r, i, p, k);
    } else if i < k {
      assert Less(r[i], r[k]);
      LessTransitive(p, r[i], r[k]);
    }
  }

  lemma NotEarlier(r: seq<Str>, i: int, p: Str, q: Str)
    requires SortedElements(r) && 1 <= i < |r| && p <= r[i] && 0 < |p| < |r[i]| && !(p <= r[i - 1]) &&
             FromEarlier(r, i, q)
    ensures q != p
  {
    var j :| 1 <= j < i && IsAncestor(q, r[j]);
    NotSeenBefore(r, i, p, j);
  }

  lemma AddingStep(r: seq<Str>, x: seq<Str>, i: int, slash: int)
    requires SortedElements(r) && Adding(r, x, i, slash) && 0 <= slash && !(r[i][..slash] <= r[i - 1])
    ensures 0 < slash
    ensures Adding(r, x + [r[i][..slash]], i, FindRight(r[i][..slash], SLASH))
  {
    assert ValidName(r[i]);
    var p := r[i][..slash];
    NotInTable(r, x, i, slash);
    var y, slash' := x + [p], FindRight(p, SLASH);
    assert IsAncestor(p, r[i]);
    assert p == y[|x|];
    assert forall k :: slash' < k < slash ==> r[i][k] == p[k] != SLASH;
    forall q | IsAncestor(q, r[i]) && |q| > slash' ensures q in y {
      if |q| == slash {
        assert q == p;
      }
    }
    forall j | 1 <= j < i ensures Present(r, y, j) {
      PresentStill(r, x, p, j);
    }
  }

  lemma PresentStill(r: seq<Str>, x: seq<Str>, p: Str, j: int)
    requires 0 <= j < |r| && Present(r, x, j)
    ensures Present(r, x + [p], j)
  {}

  /** The ancestors not longer than a shared prefix are those of the preceding name. */
  lemma SharedAncestors(r: seq<Str>, i: int, slash: int, q: Str)
    requires SortedElements(r) && 1 <= i < |r|
    requires 0 <= slash < |r[i]| && r[i][slash] == SLASH && r[i][..slash] <= r[i - 1]
    requires IsAncestor(q, r[i]) && |q| <= slash
    ensures 2 <= i && (q == r[i - 1] || IsAncestor(q, r[i - 1]))
  {
    var p := r[i][..slash];
    assert |q| > 0 && Less(r[i - 1], r[i]);
    WholeComponent(r[i - 1], r[i], slash);
    if |q| < slash {
      AncestorsNest(q, p, r[i]);
      if p != r[i - 1] {
        AncestorTransitive(q, p, r[i - 1]);
      }
    } else {
      assert q == p;
    }
  }

  lemma FromEarlierNext(r: seq<Str>, i: int, q: Str)
    requires 1 <= i < |r| && (FromEarlier(r, i, q) || IsAncestor(q, r[i]))
    ensures FromEarlier(r, i + 1, q)
  {}

  /** Every directory above element `i` is in the table by now. */
  lemma AncestorPresent(r: seq<Str>, x: seq<Str>, i: int, slash: int, q: Str)
    requires SortedElements(r) && Adding(r, x, i, slash) && (slash < 0 || r[i][..slash] <= r[i - 1]) &&
             IsAncestor(q, r[i])
    ensures q in x
  {
    if |q| <= slash {
      SharedAncestors(r, i, slash, q);
      PrefixIn(r, x, i - 1);
      PresentHas(r, x, i - 1, q);
    }
  }

  lemma PresentHas(r: seq<Str>, x: seq<Str>, j: int, q: Str)
    requires 0 <= j < |r| && Present(r, x, j)
    ensures IsAncestor(q, r[j]) ==> q in x
  {}

  lemma PrefixIn(r: seq<Str>, x: seq<Str>, k: int)
    requires |r| <= |x| && x[..|r|] == r && 0 <= k < |r|
    ensures r[k] in x
  {
    assert x[..|r|][k] == x[k];
  }

  lemma AddingDone(r: seq<Str>, x: seq<Str>, i: int, slash: int)
    requires SortedElements(r) && Adding(r, x, i, slash)
    requires slash < 0 || r[i][..slash] <= r[i - 1]
    ensures ClosedUpTo(r, x, i + 1)
  {
    forall q | IsAncestor(q, r[i]) ensures q in x {
      AncestorPresent(r, x, i, slash, q);
    }
    AddedFromEarlier(r, x, i, slash);
  }

  lemma AddedFromEarlier(r: seq<Str>, x: seq<Str>, i: int, slash: int)
    requires Adding(r, x, i, slash)
    ensures forall k :: |r| <= k < |x| ==> FromEarlier(r, i + 1, x[k])
  {
    forall k | |r| <= k < |x| ensures FromEarlier(r, i + 1, x[k]) {
      FromEarlierNext(r, i, x[k]);
    }
  }

  /** `y` is `x` followed by made-up directory entries. */
  ghost predicate Extends(x: seq<Entry>, y: seq<Entry>) {
    && |x| <= |y| && y[..|x|] == x
    && forall k :: |x| <= k < |y| ==> y[k] == Entry(y[k].name, U16(k), 0, 0, true)
  }

  lemma ExtendsAppend(x: seq<Entry>, y: seq<Entry>, name: Str)
    requires Extends(x, y)
    ensures var z := y + [Entry(name, U16(|y|), 0, 0, true)];
            Extends(x, z) && NamesOf(z) == NamesOf(y) + [name]
  {
  }

  /** Append the missing directories above element `i`, walking its slashes from the right. */
  method AddAncestors(x: seq<Entry>, y0: seq<Entry>, i: int) returns (y: seq<Entry>)
    requires SortedElements(NamesOf(x)) && 1 <= i < |x|
    requires Extends(x, y0) && ClosedUpTo(NamesOf(x), NamesOf(y0), i)
    ensures Extends(x, y) && ClosedUpTo(NamesOf(x), NamesOf(y), i + 1)
  {
    y := y0;
    ghost var r := NamesOf(x);
    assert y[..|x|][i] == x[i] && y[..|x|][i - 1] == x[i - 1];
    var name, last := y[i].name, y[i - 1].name;
    var slash := FindRight(name, SLASH);
    AddingStart(r, NamesOf(y), i);
    while slash >= 0 && (|last| < slash || last[..slash] != name[..slash])
      invariant Extends(x, y)
      invariant Adding(r, NamesOf(y), i, slash)
      decreases slash
    {
      AddingStep(r, NamesOf(y), i, slash);
      ExtendsAppend(x, y, name[..slash]);
      y := y + [Entry(name[..slash], U16(|y|), 0, 0, true)];
      slash := FindRight(name[..slash], SLASH);
    }
    AddingDone(r, NamesOf(y), i, slash);
  }

  /** Append an entry for every directory above an element that has none yet. */
  method AddDirectories(x: seq<Entry>) returns (y: seq<Entry>)
    requires SortedElements(NamesOf(x))
    ensures Extends(x, y) && ClosedUpTo(NamesOf(x), NamesOf(y), |x|)
  {
    y := x;
    SortedDistinct(NamesOf(x));
    for i := 1 to |x|
      invariant Extends(x, y) && ClosedUpTo(NamesOf(x), NamesOf(y), i)
    {
      y := AddAncestors(x, y, i);
    }
  }

  /** Sorted, valid, and holding every directory above each of its names. */
  ghost predicate Table(r: seq<Str>) {
    && SortedElements(r)
    && forall i, p :: 0 <= i < |r| && IsAncestor(p, r[i]) ==> p in r
  }

  lemma ClosedIsTable(r: seq<Str>, x: seq<Str>, y: seq<Str>)
    requires SortedElements(r) && ClosedUpTo(r, x, |r|)
    requires |y| == |x| && StrictlySorted(y) && y[0] == []
    requires forall s :: s in x <==> s in y
    ensures Table(y)
  {
    forall k | 1 <= k < |x| ensures ValidName(x[k]) {
      if k < |r| {
        assert x[k] == r[k];
      } else {
        var d := x[k];
        var j :| 1 <= j < |r| && IsAncestor(d, r[j]);
        assert ValidName(r[j]);
      }
    }
    forall i, p | 0 <= i < |y| && IsAncestor(p, y[i]) ensures p in y {
      assert y[i] in y && y[i] in x;
      var k :| 0 <= k < |x| && x[k] == y[i];
      if k < |r| {
        assert x[k] == r[k] && Present(r, x, k);
      } else {
        var j :| 1 <= j < |r| && IsAncestor(x[k], r[j]);
        AncestorTransitive(p, x[k], r[j]);
        assert Present(r, x, j);
      }
    }
    forall i | 1 <= i < |y| ensures ValidName(y[i]) {
      assert Less(y[0], y[i]) && y[i] in x;
      assert x[0] == r[0] == [];
    }
  }

  // ---------------------------------------------------------------- skip counts

  /** Directory `i`'s descendants are exactly the `d` entries after it. */
  ghost predicate Descendants(r: seq<Str>, i: int, d: int) {
    && 0 <= i && 0 <= d && i + d < |r|
    && (forall j :: i < j <= i + d ==> IsAncestor(r[i], r[j]))
    && (forall j :: 0 <= j < |r| && IsAncestor(r[i], r[j]) ==> i < j <= i + d)
  }

  /** The scan's own assertion: a longer entry with a slash in the right place starts with the directory's name. */
  lemma ScanAssertion(r: seq<Str>, i: int, j: int)
    requires Table(r) && 1 <= i < j < |r|
    requires forall k :: i < k < j ==> IsAncestor(r[i], r[k])
    requires |r[j]| > |r[i]| && r[j][|r[i]|] == SLASH
    ensures r[j][..|r[i]|] == r[i]
  {
    var p := r[j][..|r[i]|];
    assert ValidName(r[i]) && IsAncestor(p, r[j]);
    assert p in r;
    var k :| 0 <= k < |r| && r[k] == p;
    AncestorLess(p, r[j]);
    SortedFirst(r, k, j);
    if k < i {
      assert Less(r[k], r[i]) && Less(r[i], r[j]);
      PrefixLess(p, p);
      PrefixInterval(p, p, r[i], r[j]);
    }
  }

  /** Where the scan stops, the descendants end. */
  lemma ScanComplete(r: seq<Str>, i: int, j: int)
    requires Table(r) && 1 <= i < j <= |r|
    requires forall k :: i < k < j ==> IsAncestor(r[i], r[k])
    requires j < |r| ==> !IsAncestor(r[i], r[j])
    ensures Descendants(r, i, j - 1 - i)
  {
    forall k | 0 <= k < |r| && IsAncestor(r[i], r[k]) ensures i < k < j {
      AncestorLess(r[i], r[k]);
      SortedFirst(r, i, k);
      if j <= k {
        assert ValidName(r[j]) && Less(r[i], r[j]);
        assert j < k ==> Less(r[j], r[k]);
        DescendantsContiguous(r[i], r[j], r[k]);
      }
    }
  }

  lemma U16Next(d: nat)
    ensures U16(U16(d) + 1) == U16(d + 1)
  {}

  /** Count one directory's descendants. */
  method CountDescendants(x: seq<Entry>, i: int) returns (skip: nat, ghost d: nat)
    requires Table(NamesOf(x)) && 1 <= i < |x|
    ensures Descendants(NamesOf(x), i, d) && skip == U16(d)
  {
    ghost var r := NamesOf(x);
    var name := x[i].name;
    var length := |name|;
    skip, d := 0, 0;
    var j := i + 1;
    while j < |x| && |x[j].name| > length && x[j].name[length] == SLASH
      invariant i < j <= |x| && j == i + 1 + d && skip == U16(d)
      invariant forall k :: i < k < j ==> IsAncestor(r[i], r[k])
    {
      ScanAssertion(r, i, j);
      assert x[j].name[..length] == name;
      assert ValidName(r[i]);
      U16Next(d);
      skip, d := U16(skip + 1), d + 1;
      j := j + 1;
    }
    ScanComplete(r, i, j);
  }

  /** The count of directory `i`'s descendants, as stored. */
  ghost predicate SkipRight(r: seq<Str>, i: int, skip: nat) {
    exists d: nat :: Descendants(r, i, d) && skip == U16(d)
  }

  /** `y` differs from `x` in `skip` and `xindex` only. */
  ghost predicate SameEntries(x: seq<Entry>, y: seq<Entry>) {
    && |x| == |y|
    && forall i :: 0 <= i < |x| ==>
         x[i].name == y[i].name && x[i].elementnoPlus1 == y[i].elementnoPlus1 && x[i].fake == y[i].fake
  }

  lemma LastHasNone(r: seq<Str>, i: int)
    requires Table(r) && 1 <= i == |r| - 1
    ensures Descendants(r, i, 0)
  {
    ScanComplete(r, i, |r|);
  }

  /** Store every directory's descendant count; the sentinel's counts everything. */
  method FillSkips(x: seq<Entry>) returns (y: seq<Entry>)
    requires Table(NamesOf(x)) && 2 <= |x|
    requires forall i :: 0 <= i < |x| ==> x[i].skip == 0 == x[i].xindex
    ensures SameEntries(x, y) && NamesOf(y) == NamesOf(x) && SkipsStored(y)
    ensures forall i :: 0 <= i < |y| ==> y[i].xindex == 0
  {
    var n := |x|;
    y := x[0 := x[0].(skip := U16(n - 1))];
    for i := 1 to n - 1
      invariant Filled(x, y, i)
    {
      assert NamesOf(y) == NamesOf(x);
      var skip, d := CountDescendants(y, i);
      FilledStep(x, y, i, skip);
      y := y[i := y[i].(skip := skip)];
    }
    FilledAll(x, y);
  }

  lemma FilledAll(x: seq<Entry>, y: seq<Entry>)
    requires Table(NamesOf(x)) && 2 <= |x| && Filled(x, y, |x| - 1)
    ensures NamesOf(y) == NamesOf(x) && SkipsStored(y)
  {
    assert NamesOf(y) == NamesOf(x);
    LastHasNone(NamesOf(x), |x| - 1);
    LastFilled(x, y);
  }

  lemma LastFilled(x: seq<Entry>, y: seq<Entry>)
    requires 2 <= |x| && Filled(x, y, |x| - 1) && NamesOf(y) == NamesOf(x) && Descendants(NamesOf(x), |x| - 1, 0)
    ensures SkipsStored(y)
  {
    forall i | 1 <= i < |y| ensures SkipRight(NamesOf(y), i, y[i].skip) {
      assert i == |x| - 1 ==> Descendants(NamesOf(y), i, 0) && y[i].skip == U16(0);
    }
  }

  /** The counts of the entries before `i` are stored. */
  ghost predicate Filled(x: seq<Entry>, y: seq<Entry>, i: int) {
    && SameEntries(x, y) && 1 <= i < |x|
    && y[0].skip == U16(|x| - 1)
    && (forall k :: i <= k < |x| ==> y[k].skip == 0)
    && (forall k :: 1 <= k < i ==> SkipRight(NamesOf(x), k, y[k].skip))
    && (forall k :: 0 <= k < |x| ==> y[k].xindex == 0)
  }

  lemma FilledStep(x: seq<Entry>, y: seq<Entry>, i: int, skip: nat)
    requires Filled(x, y, i) && i + 1 < |x| && SkipRight(NamesOf(x), i, skip)
    ensures Filled(x, y[i := y[i].(skip := skip)], i + 1)
  {}

  // ---------------------------------------------------------------- element numbers

  ghost predicate HasNumber(m: map<Str, nat>, k: nat) {
    exists s :: s in m && m[s] == k
  }

  /** Before they are cut to 16 bits, the numbers are 1 to n - 1, one per name, the elements' first in order. */
  ghost predicate Numbers(m: map<Str, nat>, names: seq<Str>, n: nat) {
    && (forall s :: s in m ==> 1 <= m[s] < n)
    && (forall s, t :: s in m && t in m && s != t ==> m[s] != m[t])
    && (forall k :: 1 <= k < n ==> HasNumber(m, k))
    && (forall s :: s in m ==> if m[s] <= |names| then s == names[m[s] - 1] else s !in names)
  }

  /** The entry holds its name's number, in 16 bits, and is made up if no element has that name. */
  ghost predicate Carries(e: Entry, names: seq<Str>, m: map<Str, nat>) {
    e.name in m && e.elementnoPlus1 == U16(m[e.name]) && (e.fake <==> m[e.name] > |names|)
  }

  ghost predicate Named(x: seq<Entry>, s: Str) {
    exists i :: 1 <= i < |x| && x[i].name == s
  }

  ghost predicate NumberedBy(x: seq<Entry>, names: seq<Str>, m: map<Str, nat>) {
    && Numbers(m, names, |x|)
    && (forall i :: 1 <= i < |x| ==> Carries(x[i], names, m))
    && (forall s :: s in m ==> Named(x, s))
  }

  ghost predicate HasNumbering(x: seq<Entry>, names: seq<Str>) {
    exists m: map<Str, nat> :: NumberedBy(x, names, m)
  }

  /** `xindex` maps element numbers back to positions. */
  ghost predicate Indexed(x: seq<Entry>) {
    && (forall i :: 0 <= i < |x| ==> x[i].elementnoPlus1 < |x| && x[i].xindex < |x|)
    && (forall i {:trigger x[x[i].elementnoPlus1]} :: 0 <= i < |x| ==> x[x[i].elementnoPlus1].xindex == i)
    && (forall e {:trigger x[x[e].xindex]} :: 0 <= e < |x| ==> x[x[e].xindex].elementnoPlus1 == e)
  }

  /** The last position after the sentinel and before `i` that carries number `e`, or 0. */
  function LastWith(x: seq<Entry>, i: nat, e: nat): (k: nat)
    requires i <= |x|
    ensures k == 0 || (1 <= k < i && x[k].elementnoPlus1 == e)
    ensures forall j :: k < j < i ==> x[j].elementnoPlus1 != e
  {
    if i <= 1 then 0 else if x[i - 1].elementnoPlus1 == e then i - 1 else LastWith(x, i - 1, e)
  }

  /** The pass over the first `i` entries has left every slot with its number's last position, in 16 bits. */
  ghost predicate IndexedUpTo(x: seq<Entry>, y: seq<Entry>, i: nat) {
    i <= |x| == |y| && forall e {:trigger LastWith(x, i, e)} :: 0 <= e < |y| ==> y[e].xindex == U16(LastWith(x, i, e))
  }

  /** Record each entry's position under its element number. */
  method FillXindex(x: seq<Entry>) returns (y: seq<Entry>)
    requires 1 <= |x| && forall i :: 0 <= i < |x| ==> x[i].elementnoPlus1 < |x| && x[i].xindex == 0
    ensures OnlyXindex(x, y) && IndexedUpTo(x, y, |x|)
  {
    y := x;
    IndexStart(x);
    for i := 1 to |x|
      invariant OnlyXindex(x, y) && IndexedUpTo(x, y, i)
    {
      var e := y[i].elementnoPlus1;
      IndexStep(x, y, i, e);
      y := y[e := y[e].(xindex := U16(i))];
    }
  }

  /** `y` differs from `x` in `xindex` only. */
  ghost predicate OnlyXindex(x: seq<Entry>, y: seq<Entry>) {
    SameEntries(x, y) && forall k :: 0 <= k < |x| ==> y[k].skip == x[k].skip
  }

  lemma IndexStart(x: seq<Entry>)
    requires 1 <= |x| && forall i :: 0 <= i < |x| ==> x[i].xindex == 0
    ensures IndexedUpTo(x, x, 1)
  {}

  lemma IndexStep(x: seq<Entry>, y: seq<Entry>, i: nat, e: nat)
    requires OnlyXindex(x, y) && IndexedUpTo(x, y, i) && 1 <= i < |x| && e == x[i].elementnoPlus1 < |x|
    ensures var z := y[e := y[e].(xindex := U16(i))]; OnlyXindex(x, z) && IndexedUpTo(x, z, i + 1)
  {
    var z := y[e := y[e].(xindex := U16(i))];
    forall k | 0 <= k < |z| ensures z[k].xindex == U16(LastWith(x, i + 1, k)) {
      assert LastWith(x, i + 1, k) == if k == e then i else LastWith(x, i, k);
    }
  }

  // ---------------------------------------------------------------- the whole table

  /** The table for a router with these element names, of any size. */
  ghost predicate Prepared(x: seq<Entry>, names: seq<Str>) {
    && Table(NamesOf(x))
    && ClosureOf(NamesOf(x), names)
    && SkipsStored(x) && HasNumbering(x, names) && Slotted(x)
  }

  /** Each `skip` is the number of descendants, the root's that of all other entries, in 16 bits. */
  ghost predicate SkipsStored(x: seq<Entry>) {
    && 1 <= |x| && x[0].skip == U16(|x| - 1)
    && forall i :: 1 <= i < |x| ==> SkipRight(NamesOf(x), i, x[i].skip)
  }

  /** Each slot a 16-bit number can name holds its number's last position, in 16 bits. */
  ghost predicate Slotted(x: seq<Entry>) {
    && 1 <= |x| && x[0].elementnoPlus1 == 0
    && (forall e :: 0 <= e < |x| ==> x[e].xindex < |x|)
    && (forall e {:trigger LastWith(x, |x|, e)} ::
          0 <= e < |x| && e < 0x1_0000 ==> x[e].xindex == U16(LastWith(x, |x|, e)))
  }

  lemma U16Facts(d: nat)
    ensures U16(d) <= d && U16(d) < 0x1_0000
    ensures U16(d) == d <==> d < 0x1_0000
  {}

  lemma SamePermutedNames(x: seq<Entry>, y: seq<Entry>)
    requires 1 <= |x| && PermutedWithin(x, y, 1, |x|)
    ensures forall s :: s in NamesOf(x) <==> s in NamesOf(y)
  {
    forall s ensures s in NamesOf(x) <==> s in NamesOf(y) {
      if s in NamesOf(x) {
        var i :| 0 <= i < |x| && NamesOf(x)[i] == s;
        assert x[i] in multiset(x) && x[i] in multiset(y);
        var j :| 0 <= j < |y| && y[j] == x[i];
        assert NamesOf(y)[j] == s;
      }
      if s in NamesOf(y) {
        var i :| 0 <= i < |y| && NamesOf(y)[i] == s;
        assert y[i] in multiset(y) && y[i] in multiset(x);
        var j :| 0 <= j < |x| && x[j] == y[i];
        assert NamesOf(x)[j] == s;
      }
    }
  }

  lemma PermutedBack<T>(x: seq<T>, y: seq<T>)
    requires 1 <= |x| && PermutedWithin(x, y, 1, |x|)
    ensures PermutedWithin(y, x, 1, |x|)
  {}

  lemma NumberedPermuted(x: seq<Entry>, y: seq<Entry>, names: seq<Str>, m: map<Str, nat>)
    requires 1 <= |x| && PermutedWithin(x, y, 1, |x|) && NumberedBy(x, names, m)
    ensures NumberedBy(y, names, m)
  {
    forall i | 1 <= i < |y| ensures Carries(y[i], names, m) {
      var i' := Origin(x, y, 1, |x|, i);
    }
    PermutedBack(x, y);
    forall s | s in m ensures Named(y, s) {
      assert Named(x, s);
      var i :| 1 <= i < |x| && x[i].name == s;
      var i' := Origin(y, x, 1, |x|, i);
    }
  }

  ghost function Position(r: seq<Str>, s: Str): (k: nat)
    requires s in r
    ensures k < |r| && r[k] == s
  {
    var k :| 0 <= k < |r| && r[k] == s;
    k
  }

  /** The name's number is one more than its place. */
  ghost predicate InPlace(names: seq<Str>, m: map<Str, nat>, s: Str) {
    s in m && 1 <= m[s] <= |names| && names[m[s] - 1] == s
  }

  lemma PlaceOf(names: seq<Str>, m: map<Str, nat>, k: nat)
    requires Distinct(names) && k < |names| && InPlace(names, m, names[k])
    ensures m[names[k]] == k + 1
  {}

  lemma NumbersInOrder(names: seq<Str>, m: map<Str, nat>)
    requires Distinct(names) && (forall k :: 0 <= k < |names| ==> names[k] in m)
    requires forall s {:trigger InPlace(names, m, s)} :: s in m ==> InPlace(names, m, s)
    ensures Numbers(m, names, |names| + 1)
  {
    forall k | 1 <= k < |names| + 1 ensures HasNumber(m, k) {
      assert names[k - 1] in m;
      PlaceOf(names, m, k - 1);
    }
    forall s | s in m ensures 1 <= m[s] <= |names| && names[m[s] - 1] == s {
      assert InPlace(names, m, s);
    }
  }

  /** The elements in their order. */
  lemma NumberedInOrder(x: seq<Entry>, names: seq<Str>) returns (m: map<Str, nat>)
    requires |x| == |names| + 1 && Distinct(names)
    requires forall i :: 1 <= i < |x| ==> x[i] == Entry(names[i - 1], U16(i), 0, 0, false)
    ensures NumberedBy(x, names, m)
  {
    m := map s | s in names :: Position(names, s) + 1;
    forall s | s in m ensures InPlace(names, m, s) {}
    InPlaceNumbers(x, names, m);
  }

  lemma InPlaceNumbers(x: seq<Entry>, names: seq<Str>, m: map<Str, nat>)
    requires |x| == |names| + 1 && Distinct(names)
    requires forall i :: 1 <= i < |x| ==> x[i] == Entry(names[i - 1], U16(i), 0, 0, false)
    requires forall s {:trigger InPlace(names, m, s)} :: s in m ==> InPlace(names, m, s)
    requires forall k :: 0 <= k < |names| ==> names[k] in m
    ensures NumberedBy(x, names, m)
  {
    NumbersInOrder(names, m);
    forall i | 1 <= i < |x| ensures Carries(x[i], names, m) {
      assert names[i - 1] in m;
      PlaceOf(names, m, i - 1);
    }
    forall s | s in m ensures Named(x, s) {
      assert InPlace(names, m, s);
      assert x[m[s]].name == s;
    }
  }

  /** The made-up directories go on counting where the elements end. */
  lemma NumberedExtends(x: seq<Entry>, y: seq<Entry>, names: seq<Str>, m: map<Str, nat>) returns (m': map<Str, nat>)
    requires |x| == |names| + 1 && Extends(x, y) && Distinct(NamesOf(y)) && NumberedBy(x, names, m)
    ensures NumberedBy(y, names, m')
  {
    var r := NamesOf(y);
    m' := map s | s in r[1..] :: if s in m then m[s] else Position(r, s);
    forall i | 1 <= i < |y| ensures y[i].name in m <==> i < |x| {
      NewName(x, y, names, m, i);
    }
    forall i | 1 <= i < |y| ensures GoesOn(x, y, m, m', i) {
      assert r[i] == r[1..][i - 1];
      NewName(x, y, names, m, i);
    }
    forall s | s in m' ensures Named(y, s) {
      var i :| 0 <= i < |r[1..]| && r[1..][i] == s;
      assert y[i + 1].name == s;
    }
    StillCarries(x, y, names, m, m');
    ElementsNumbered(names, m, |x|);
    NumbersExtend(x, y, names, m, m');
  }

  /** An old entry keeps its number, an added one is numbered by its position. */
  ghost predicate GoesOn(x: seq<Entry>, y: seq<Entry>, m: map<Str, nat>, m': map<Str, nat>, i: int)
    requires 0 <= i < |y|
  {
    var s := y[i].name;
    s in m' && if i < |x| then s in m && m'[s] == m[s] else s !in m && m'[s] == i
  }

  lemma StillCarries(x: seq<Entry>, y: seq<Entry>, names: seq<Str>, m: map<Str, nat>, m': map<Str, nat>)
    requires |x| == |names| + 1 && Extends(x, y) && forall i :: 1 <= i < |x| ==> Carries(x[i], names, m)
    requires forall i :: 1 <= i < |y| ==> GoesOn(x, y, m, m', i)
    ensures forall i :: 1 <= i < |y| ==> Carries(y[i], names, m')
  {
    forall i | 1 <= i < |y| ensures Carries(y[i], names, m') {
      assert GoesOn(x, y, m, m', i);
      if i < |x| {
        assert y[i] == y[..|x|][i] == x[i];
        assert Carries(x[i], names, m);
      }
    }
  }

  /** Every element has a number. */
  lemma ElementsNumbered(names: seq<Str>, m: map<Str, nat>, n: nat)
    requires Numbers(m, names, n) && n == |names| + 1
    ensures forall s :: s in names ==> s in m
  {
    forall s | s in names ensures s in m {
      var k :| 0 <= k < |names| && names[k] == s;
      assert HasNumber(m, k + 1);
    }
  }

  /** The names of added entries are new. */
  lemma NewName(x: seq<Entry>, y: seq<Entry>, names: seq<Str>, m: map<Str, nat>, i: int)
    requires |x| == |names| + 1 && Extends(x, y) && Distinct(NamesOf(y)) && NumberedBy(x, names, m) && 1 <= i < |y|
    ensures y[i].name in m <==> i < |x|
    ensures i >= |x| ==> Position(NamesOf(y), y[i].name) == i
  {
    assert forall k :: 0 <= k < |x| ==> y[k] == y[..|x|][k] == x[k];
    if i < |x| {
      assert Carries(x[i], names, m);
    } else {
      assert forall k :: 0 <= k < |x| ==> NamesOf(y)[k] != NamesOf(y)[i];
      assert !Named(x, y[i].name);
    }
  }

  lemma NumbersExtend(x: seq<Entry>, y: seq<Entry>, names: seq<Str>, m: map<Str, nat>, m': map<Str, nat>)
    requires |x| == |names| + 1 && Extends(x, y) && NumberedBy(x, names, m)
    requires forall i :: 1 <= i < |y| ==> GoesOn(x, y, m, m', i)
    requires (forall s :: s in m' ==> Named(y, s)) && (forall s :: s in names ==> s in m)
    ensures Numbers(m', names, |y|)
  {
    forall s | s in m' ensures NumberedAt(x, y, m, m', s) {
      assert Named(y, s);
      var i :| 1 <= i < |y| && y[i].name == s;
      assert GoesOn(x, y, m, m', i);
    }
    forall k | 1 <= k < |y| ensures HasNumber(m', k) {
      NumberReached(x, y, names, m, m', k);
    }
  }

  /** A name's number is its old one, or the position of its entry. */
  ghost predicate NumberedAt(x: seq<Entry>, y: seq<Entry>, m: map<Str, nat>, m': map<Str, nat>, s: Str)
    requires s in m'
  {
    if s in m then m'[s] == m[s] else |x| <= m'[s] < |y| && y[m'[s]].name == s
  }

  lemma NumberReached(x: seq<Entry>, y: seq<Entry>, names: seq<Str>, m: map<Str, nat>, m': map<Str, nat>, k: nat)
    requires |x| == |names| + 1 && Extends(x, y) && NumberedBy(x, names, m) && 1 <= k < |y|
    requires forall i :: 1 <= i < |y| ==> GoesOn(x, y, m, m', i)
    ensures HasNumber(m', k)
  {
    if k < |x| {
      assert HasNumber(m, k);
      var s :| s in m && m[s] == k;
      assert Named(x, s);
      var i :| 1 <= i < |x| && x[i].name == s;
      assert y[i] == y[..|x|][i] == x[i] && GoesOn(x, y, m, m', i);
    } else {
      assert GoesOn(x, y, m, m', k);
    }
  }

  /** The names in the table are the elements' names and the directories above them. */
  lemma NamesAreClosure(x0: seq<Entry>, x1: seq<Entry>, x2: seq<Entry>, names: seq<Str>)
    requires |x0| == |names| + 1 && x0[0].name == [] && ValidNames(names)
    requires forall i :: 1 <= i < |x0| ==> x0[i].name == names[i - 1]
    requires PermutedWithin(x0, x1, 1, |x0|) && ClosedUpTo(NamesOf(x1), NamesOf(x2), |x1|)
    ensures ClosureOf(NamesOf(x2), names)
  {
    var r := NamesOf(x1);
    var t := NamesOf(x2);
    forall s | s != [] && s in t ensures InClosure(s, names) {
      var k :| 0 <= k < |t| && t[k] == s;
      if k < |r| {
        assert t[..|r|][k] == r[k] && k != 0;
        var k' := Origin(x0, x1, 1, |x0|, k);
        assert s == names[k' - 1];
      } else {
        var j :| 1 <= j < |r| && IsAncestor(s, r[j]);
        var j' := Origin(x0, x1, 1, |x0|, j);
        assert IsAncestor(s, names[j' - 1]);
      }
    }
    forall s | InClosure(s, names) ensures s != [] && s in t {
      var i :| 0 <= i < |names| && (s == names[i] || IsAncestor(s, names[i]));
      assert ValidName(names[i]);
      PermutedBack(x0, x1);
      var j := Origin(x1, x0, 1, |x0|, i + 1);
      assert r[j] == names[i] == t[..|r|][j];
      assert Present(r, t, j);
    }
  }

  lemma SortedIsElements(x0: seq<Entry>, x1: seq<Entry>, names: seq<Str>)
    requires |x0| == |names| + 1 && x0[0].name == [] && ValidNames(names)
    requires forall i :: 1 <= i < |x0| ==> x0[i].name == names[i - 1]
    requires PermutedWithin(x0, x1, 1, |x0|) && StrictlySorted(NamesOf(x1))
    ensures SortedElements(NamesOf(x1))
    ensures forall s :: s in names ==> s in NamesOf(x1)
  {
    forall i | 1 <= i < |x1| ensures ValidName(x1[i].name) {
      var i' := Origin(x0, x1, 1, |x0|, i);
    }
    forall s | s in names ensures s in NamesOf(x1) {
      var i :| 0 <= i < |names| && names[i] == s;
      PermutedBack(x0, x1);
      var j := Origin(x1, x0, 1, |x0|, i + 1);
      assert NamesOf(x1)[j] == s;
    }
  }

  lemma SortedDistinct(r: seq<Str>)
    requires StrictlySorted(r)
    ensures Distinct(r)
  {
    forall i, j | 0 <= i < j < |r| ensures r[i] != r[j] {
      assert Less(r[i], r[j]);
    }
  }

  /** What the table must be like before the final sort and the index passes. */
  ghost predicate Collected(x: seq<Entry>, names: seq<Str>) {
    && 1 <= |x| && x[0] == SENTINEL && Distinct(NamesOf(x))
    && (forall i :: 0 <= i < |x| ==> x[i].skip == 0 == x[i].xindex && x[i].elementnoPlus1 < |x|)
    && ClosureOf(NamesOf(x), names)
    && HasNumbering(x, names)
  }

  lemma CollectedNumbers(x0: seq<Entry>, x1: seq<Entry>, x: seq<Entry>, names: seq<Str>)
    requires |x0| == |names| + 1 && Distinct(names)
    requires forall i :: 1 <= i < |x0| ==> x0[i] == Entry(names[i - 1], U16(i), 0, 0, false)
    requires PermutedWithin(x0, x1, 1, |x0|) && Extends(x1, x) && Distinct(NamesOf(x))
    ensures HasNumbering(x, names)
  {
    var m := NumberedInOrder(x0, names);
    NumberedPermuted(x0, x1, names, m);
    var m' := NumberedExtends(x1, x, names, m);
  }

  lemma CollectedFresh(x0: seq<Entry>, x1: seq<Entry>, x: seq<Entry>)
    requires 1 <= |x0| && PermutedWithin(x0, x1, 1, |x0|) && Extends(x1, x)
    requires forall i :: 0 <= i < |x0| ==> x0[i].skip == 0 == x0[i].xindex && x0[i].elementnoPlus1 < |x0|
    ensures x[0] == x0[0]
    ensures forall i :: 0 <= i < |x| ==> x[i].skip == 0 == x[i].xindex && x[i].elementnoPlus1 < |x|
  {
    assert x[..|x1|][0] == x1[0];
    forall i | 0 <= i < |x| ensures x[i].skip == 0 == x[i].xindex && x[i].elementnoPlus1 < |x| {
      if i < |x1| {
        var i' := Origin(x0, x1, 1, |x0|, i);
        assert x[i] == x[..|x1|][i];
      }
    }
  }

  /** The sorted elements followed by the directories added to them. */
  method CollectEntries(names: seq<Str>) returns (x: seq<Entry>, ghost r: seq<Str>)
    requires ValidNames(names)
    ensures SortedElements(r) && |r| == |names| + 1 && ClosedUpTo(r, NamesOf(x), |r|)
    ensures Collected(x, names)
  {
    var x0 := ElementEntries(names);
    var x1 := SortEntries(x0);
    SortedIsElements(x0, x1, names);
    r := NamesOf(x1);
    x := AddDirectories(x1);
    NamesAreClosure(x0, x1, x, names);
    CollectedFresh(x0, x1, x);
    CollectedNumbers(x0, x1, x, names);
  }

  lemma CollectedSorted(x: seq<Entry>, y: seq<Entry>, names: seq<Str>)
    requires Collected(x, names) && PermutedWithin(x, y, 1, |x|) && StrictlySorted(NamesOf(y))
    ensures Collected(y, names)
  {
    SortedDistinct(NamesOf(y));
    SamePermutedNames(x, y);
    forall i | 0 <= i < |y| ensures y[i].skip == 0 == y[i].xindex && y[i].elementnoPlus1 < |y| {
      var i' := Origin(x, y, 1, |x|, i);
    }
    var m: map<Str, nat> :| NumberedBy(x, names, m);
    NumberedPermuted(x, y, names, m);
  }

  /** Same entries, so the same numbering. */
  lemma SameNumbering(x: seq<Entry>, y: seq<Entry>, names: seq<Str>)
    requires SameEntries(x, y) && HasNumbering(x, names)
    ensures HasNumbering(y, names)
  {
    var m: map<Str, nat> :| NumberedBy(x, names, m);
    forall i | 1 <= i < |y| ensures Carries(y[i], names, m) {
      assert Carries(x[i], names, m);
    }
    forall s | s in m ensures Named(y, s) {
      assert Named(x, s);
      var i :| 1 <= i < |x| && x[i].name == s;
      assert y[i].name == s;
    }
    assert NumberedBy(y, names, m);
  }

  lemma {:induction false} SameLast(x: seq<Entry>, y: seq<Entry>, i: nat, e: nat)
    requires SameEntries(x, y) && i <= |x|
    ensures LastWith(x, i, e) == LastWith(y, i, e)
  {
    if i > 1 {
      SameLast(x, y, i - 1, e);
    }
  }

  lemma SlotsFilled(z: seq<Entry>, y: seq<Entry>)
    requires 1 <= |z| && SameEntries(z, y) && IndexedUpTo(z, y, |z|) && y[0].elementnoPlus1 == 0
    ensures Slotted(y)
  {
    forall e | 0 <= e < |y|
      ensures y[e].xindex < |y| && y[e].xindex == U16(LastWith(y, |y|, e))
    {
      SameLast(z, y, |y|, e);
      U16Facts(LastWith(y, |y|, e));
    }
  }

  /** The two index passes over the sorted table. */
  method FinishTable(x: seq<Entry>, ghost names: seq<Str>) returns (y: seq<Entry>)
    requires 2 <= |x| && Collected(x, names) && Table(NamesOf(x))
    ensures Prepared(y, names)
  {
    var z := FillSkips(x);
    y := FillXindex(z);
    FinishedIsPrepared(x, z, y, names);
  }

  lemma FinishedIsPrepared(x: seq<Entry>, z: seq<Entry>, y: seq<Entry>, names: seq<Str>)
    requires HasNumbering(x, names) && ClosureOf(NamesOf(x), names) && Table(NamesOf(x)) && x[0].elementnoPlus1 == 0
    requires SameEntries(x, z) && SkipsStored(z) && OnlyXindex(z, y) && IndexedUpTo(z, y, |z|)
    ensures Prepared(y, names)
  {
    SameEntriesTransitive(x, z, y);
    SameTable(x, y, names);
    SameNumbering(x, y, names);
    SlotsFilled(z, y);
    SkipsKept(z, y);
  }

  lemma SameEntriesTransitive(x: seq<Entry>, z: seq<Entry>, y: seq<Entry>)
    requires SameEntries(x, z) && SameEntries(z, y)
    ensures SameEntries(x, y)
  {}

  lemma SameTable(x: seq<Entry>, y: seq<Entry>, names: seq<Str>)
    requires SameEntries(x, y) && ClosureOf(NamesOf(x), names) && Table(NamesOf(x))
    ensures ClosureOf(NamesOf(y), names) && Table(NamesOf(y))
  {
    assert NamesOf(x) == NamesOf(y);
  }

  lemma SkipsKept(z: seq<Entry>, y: seq<Entry>)
    requires OnlyXindex(z, y) && SkipsStored(z)
    ensures SkipsStored(y)
  {
    assert NamesOf(z) == NamesOf(y);
    forall i | 1 <= i < |y| ensures SkipRight(NamesOf(y), i, y[i].skip) {
      assert SkipRight(NamesOf(z), i, z[i].skip);
    }
  }

  // ---------------------------------------------------------------- sixteen bits

  lemma ManyOf(x: seq<Entry>, names: seq<Str>, m: map<Str, nat>, i: int, j: int)
    requires Distinct(NamesOf(x)) && NumberedBy(x, names, m) && |x| <= 0x1_0000
    requires 1 <= i < |x| && 1 <= j < |x| && x[i].elementnoPlus1 == x[j].elementnoPlus1
    ensures i == j
  {
    assert Carries(x[i], names, m) && Carries(x[j], names, m);
    U16Facts(m[x[i].name]);
    U16Facts(m[x[j].name]);
    assert NamesOf(x)[i] == NamesOf(x)[j];
  }

  /** Entry `i`'s number leads back to it. */
  lemma BackToEntry(x: seq<Entry>, names: seq<Str>, m: map<Str, nat>, i: int)
    requires Distinct(NamesOf(x)) && Slotted(x) && NumberedBy(x, names, m) && |x| <= 0x1_0000 && 1 <= i < |x|
    ensures 1 <= x[i].elementnoPlus1 == m[x[i].name] < |x| && x[x[i].elementnoPlus1].xindex == i
  {
    assert Carries(x[i], names, m);
    U16Facts(m[x[i].name]);
    var e := x[i].elementnoPlus1;
    var k := LastWith(x, |x|, e);
    ManyOf(x, names, m, i, k);
    U16Facts(k);
  }

  /** No entry but the sentinel has number 0, so its slot is left alone. */
  lemma RootSlot(x: seq<Entry>)
    requires Slotted(x) && forall k :: 1 <= k < |x| ==> x[k].elementnoPlus1 != 0
    ensures x[0].xindex == 0
  {
    assert LastWith(x, |x|, 0) == 0;
  }

  lemma NotZero(x: seq<Entry>, names: seq<Str>, m: map<Str, nat>, k: int)
    requires Distinct(NamesOf(x)) && Slotted(x) && NumberedBy(x, names, m) && |x| <= 0x1_0000 && 0 <= k < |x|
    ensures k > 0 ==> x[k].elementnoPlus1 != 0
  {
    if k > 0 {
      BackToEntry(x, names, m, k);
    }
  }

  lemma NumberTaken(x: seq<Entry>, names: seq<Str>, m: map<Str, nat>, e: int)
    requires Distinct(NamesOf(x)) && Slotted(x) && NumberedBy(x, names, m) && |x| <= 0x1_0000 && 1 <= e < |x|
    ensures x[x[e].xindex].elementnoPlus1 == e
  {
    assert HasNumber(m, e);
    var s :| s in m && m[s] == e;
    assert Named(x, s);
    var i :| 1 <= i < |x| && x[i].name == s;
    BackToEntry(x, names, m, i);
  }

  /** No entry can say that it is number 65536. */
  lemma NoSuchNumber(x: seq<Entry>, names: seq<Str>, m: map<Str, nat>)
    requires Slotted(x) && NumberedBy(x, names, m) && |x| > 0x1_0000
    ensures x[x[0x1_0000].xindex].elementnoPlus1 != 0x1_0000
  {
    var i := x[0x1_0000].xindex;
    if i > 0 {
      assert Carries(x[i], names, m);
      U16Facts(m[x[i].name]);
    }
  }

  /** The numbers lead back to the entries exactly in tables of at most 65536 entries. */
  lemma IndexedIff(x: seq<Entry>, names: seq<Str>)
    requires Prepared(x, names)
    ensures Indexed(x) <==> |x| <= 0x1_0000
  {
    var m: map<Str, nat> :| NumberedBy(x, names, m);
    SortedDistinct(NamesOf(x));
    NumbersLeadBack(x, names, m);
  }

  lemma NumbersLeadBack(x: seq<Entry>, names: seq<Str>, m: map<Str, nat>)
    requires Distinct(NamesOf(x)) && Slotted(x) && NumberedBy(x, names, m)
    ensures Indexed(x) <==> |x| <= 0x1_0000
  {
    if |x| <= 0x1_0000 {
      forall k | 1 <= k < |x| ensures x[k].elementnoPlus1 != 0 {
        NotZero(x, names, m, k);
      }
      RootSlot(x);
      forall i | 1 <= i < |x|
        ensures 1 <= x[i].elementnoPlus1 < |x| && x[x[i].elementnoPlus1].xindex == i
      {
        BackToEntry(x, names, m, i);
      }
      forall e | 1 <= e < |x| ensures x[x[e].xindex].elementnoPlus1 == e {
        NumberTaken(x, names, m, e);
      }
    } else {
      NoSuchNumber(x, names, m);
    }
  }
  // ---------------------------------------------------------------- searching

  /** The name of a directory entry: `dir/component`, or the bare component at the root. */
  function Join(dir: Str, component: Str): Str {
    if dir == [] then component else dir + [SLASH] + component
  }

  /** The prefix shared by everything inside a directory. */
  function Inside(dir: Str): Str {
    if dir == [] then [] else dir + [SLASH]
  }

  /** Below the directory, the root included. */
  ghost predicate Below(dir: Str, s: Str) {
    if dir == [] then s != [] else IsAncestor(dir, s)
  }

  /** Directly inside the directory. */
  ghost predicate IsChild(dir: Str, s: Str) {
    Below(dir, s) && SLASH !in s[|Inside(dir)|..]
  }

  lemma BelowIsInside(dir: Str, s: Str)
    requires Below(dir, s)
    ensures Inside(dir) <= s && Join(dir, s[|Inside(dir)|..]) == s
  {}

  lemma JoinIsBelow(dir: Str, component: Str)
    requires component != []
    ensures Below(dir, Join(dir, component))
  {}

  /** What is below the entry at `xi` is exactly the `d` entries after it. */
  ghost predicate Holds(x: seq<Entry>, xi: int, d: int) {
    && 0 <= xi && 0 <= d && xi + d < |x|
    && (forall j :: 0 <= j < |x| ==> (xi < j <= xi + d <==> Below(x[xi].name, x[j].name)))
  }

  /** The entry's `skip` says how many that are. */
  ghost predicate Extent(x: seq<Entry>, xi: int) {
    0 <= xi < |x| && Holds(x, xi, x[xi].skip)
  }

  ghost predicate Counted(x: seq<Entry>, xi: int)
    requires 0 <= xi < |x|
  {
    exists d: nat :: Holds(x, xi, d) && x[xi].skip == U16(d)
  }

  /** A sorted table in which every `skip` is the number of entries below, in 16 bits. */
  ghost predicate SkipTable(x: seq<Entry>) {
    Table(NamesOf(x)) && forall xi {:trigger Counted(x, xi)} :: 0 <= xi < |x| ==> Counted(x, xi)
  }

  lemma PreparedSkips(x: seq<Entry>, names: seq<Str>)
    requires Prepared(x, names)
    ensures SkipTable(x)
  {
    forall xi | 0 <= xi < |x| ensures Counted(x, xi) {
      var d := SkipCounts(x, names, xi);
    }
  }

  /** Of any entry of any table, `skip` is the number of entries below it, in 16 bits. */
  lemma SkipCounts(x: seq<Entry>, names: seq<Str>, xi: int) returns (d: nat)
    requires Prepared(x, names) && 0 <= xi < |x|
    ensures Holds(x, xi, d) && x[xi].skip == U16(d)
  {
    var r := NamesOf(x);
    if xi == 0 {
      d := |x| - 1;
      forall j | 1 <= j < |x| ensures x[j].name != [] {
        assert ValidName(r[j]);
      }
    } else {
      assert SkipRight(r, xi, x[xi].skip);
      d :| Descendants(r, xi, d) && x[xi].skip == U16(d);
      DescendantsHold(x, xi, d);
    }
  }

  lemma DescendantsHold(x: seq<Entry>, xi: int, d: nat)
    requires SortedElements(NamesOf(x)) && 1 <= xi < |x| && Descendants(NamesOf(x), xi, d)
    ensures Holds(x, xi, d)
  {
    var r := NamesOf(x);
    assert ValidName(r[xi]);
    forall j | 0 <= j < |x| ensures xi < j <= xi + d <==> Below(x[xi].name, x[j].name) {
      assert r[j] == x[j].name;
    }
  }

  lemma HoldsOnce(x: seq<Entry>, xi: int, d: int, d': int)
    requires Holds(x, xi, d) && Holds(x, xi, d')
    ensures d <= d'
  {
    if d > 0 {
      assert Below(x[xi].name, x[xi + d].name);
    }
  }

  /** The stored count is right exactly for entries with fewer than 65536 below them. */
  lemma ExtentIff(x: seq<Entry>, xi: int, d: nat)
    requires SkipTable(x) && Holds(x, xi, d)
    ensures Extent(x, xi) <==> d < 0x1_0000
    ensures x[xi].skip <= d
  {
    assert Counted(x, xi);
    var d': nat :| Holds(x, xi, d') && x[xi].skip == U16(d');
    HoldsOnce(x, xi, d, d');
    HoldsOnce(x, xi, d', d);
    U16Facts(d);
    if Extent(x, xi) {
      HoldsOnce(x, xi, d, x[xi].skip);
    }
  }

  /** The root's count, exactly for tables of at most 65536 entries. */
  lemma RootExtentIff(x: seq<Entry>)
    requires SkipTable(x)
    ensures Extent(x, 0) <==> |x| <= 0x1_0000
  {
    assert Counted(x, 0);
    var d: nat :| Holds(x, 0, d) && x[0].skip == U16(d);
    if |x| > 1 {
      assert ValidName(NamesOf(x)[|x| - 1]);
      assert Below(x[0].name, x[|x| - 1].name);
    }
    ExtentIff(x, 0, d);
  }

  /** If a directory's count is right, so are those of the entries in it. */
  lemma InnerExtent(x: seq<Entry>, xi: int, q: int)
    requires SkipTable(x) && Extent(x, xi) && xi < q <= xi + x[xi].skip
    ensures Extent(x, q)
  {
    assert Counted(x, q);
    var d: nat :| Holds(x, q, d) && x[q].skip == U16(d);
    assert Counted(x, xi);
    var e: nat :| Holds(x, xi, e) && x[xi].skip == U16(e);
    U16Facts(e);
    if d > 0 {
      assert Below(x[xi].name, x[q].name) && Below(x[q].name, x[q + d].name);
      assert ValidName(NamesOf(x)[q]);
      BelowBelow(x[xi].name, x[q].name, x[q + d].name);
    }
    ExtentIff(x, q, d);
  }

  lemma BelowBelow(dir: Str, s: Str, t: Str)
    requires Below(dir, s) && IsAncestor(s, t)
    ensures Below(dir, t)
  {
    if dir != [] {
      AncestorTransitive(dir, s, t);
    }
  }

  /** Whatever is in the directory has its position in the directory's range. */
  ghost predicate InRange(x: seq<Entry>, xi: int)
    requires 0 <= xi < |x|
  {
    forall i, c: Str :: 0 <= i < |x| && c != [] && x[i].name == Join(x[xi].name, c) ==> xi < i <= xi + x[xi].skip
  }

  /** That is so exactly if its count is right. */
  lemma SearchRangeIff(x: seq<Entry>, xi: int)
    requires SkipTable(x) && 0 <= xi < |x|
    ensures Extent(x, xi) <==> InRange(x, xi)
  {
    assert Counted(x, xi);
    var d: nat :| Holds(x, xi, d) && x[xi].skip == U16(d);
    ExtentIff(x, xi, d);
    if d < 0x1_0000 {
      forall i, c: Str | 0 <= i < |x| && c != [] && x[i].name == Join(x[xi].name, c)
        ensures xi < i <= xi + x[xi].skip
      {
        JoinIsBelow(x[xi].name, c);
      }
    } else {
      var c := LastComponent(x, xi, d);
      assert !InRange(x, xi);
    }
  }

  /** The last entry below a directory is beyond a count cut to 16 bits. */
  lemma LastComponent(x: seq<Entry>, xi: int, d: nat) returns (c: Str)
    requires StrictlySorted(NamesOf(x)) && Holds(x, xi, d) && d >= 0x1_0000 && x[xi].skip == U16(d)
    ensures c != [] && x[xi + d].name == Join(x[xi].name, c) && xi + x[xi].skip < xi + d
  {
    var dir, s, t := x[xi].name, x[xi + d].name, x[xi + 1].name;
    assert Below(dir, s) && Below(dir, t);
    BelowIsInside(dir, s);
    BelowIsInside(dir, t);
    assert Less(NamesOf(x)[xi + 1], NamesOf(x)[xi + d]);
    NotTheFirst(Inside(dir), t, s);
    c := s[|Inside(dir)|..];
    U16Facts(d);
  }

  lemma NotTheFirst(p: Str, t: Str, s: Str)
    requires p <= t && p <= s && Less(t, s)
    ensures s[|p|..] != []
  {
    if p != t {
      PrefixLess(p, t);
      CompareFlips(t, p);
    }
  }

  /** `name_search`: binary search for `p + n` among entries that all start with `p`. */
  method NameSearch(x: seq<Entry>, n: Str, first: int, last: int, nameOffset: nat, ghost p: Str) returns (found: int)
    requires StrictlySorted(NamesOf(x)) && 0 <= first && last < |x|
    requires |p| == nameOffset && forall i :: first <= i <= last ==> p <= x[i].name
    ensures found == -1 || first <= found <= last
    ensures found >= 0 ==> x[found].name == p + n
    ensures found < 0 ==> forall i :: first <= i <= last ==> x[i].name != p + n
  {
    var lo, hi := first, last;
    while lo <= hi
      invariant first <= lo && hi <= last
      invariant forall i :: first <= i <= last && !(lo <= i <= hi) ==> x[i].name != p + n
    {
      var mid := lo + (hi - lo) / 2;
      var cmp := Compare(n, x[mid].name[nameOffset..]);
      ProbeDecides(NamesOf(x), mid, p, n);
      if cmp == 0 {
        return mid;
      } else if cmp < 0 {
        hi := mid - 1;
      } else {
        lo := mid + 1;
      }
    }
    return -1;
  }

  lemma ProbeDecides(r: seq<Str>, mid: int, p: Str, n: Str)
    requires StrictlySorted(r) && 0 <= mid < |r| && p <= r[mid]
    ensures Compare(n, r[mid][|p|..]) == 0 ==> r[mid] == p + n
    ensures Compare(n, r[mid][|p|..]) < 0 ==> forall i :: mid <= i < |r| ==> r[i] != p + n
    ensures Compare(n, r[mid][|p|..]) > 0 ==> forall i :: 0 <= i <= mid ==> r[i] != p + n
  {
    var t := r[mid][|p|..];
    assert r[mid] == p + t;
    CompareDropsPrefix(p, n, t);
    CompareFlips(p + n, r[mid]);
    forall i | 0 <= i < |r| && r[i] == p + n
      ensures Compare(n, t) < 0 ==> i < mid
      ensures Compare(n, t) > 0 ==> i > mid
    {
      assert mid < i ==> Less(r[mid], r[i]);
      assert i < mid ==> Less(r[i], r[mid]);
    }
  }

  // ---------------------------------------------------------------- stepping over children

  /** No entry of the directory before `q` is above an entry from `q` on. */
  ghost predicate Boundary(x: seq<Entry>, xi: int, q: int) {
    0 <= xi && forall j, k :: xi < j < q <= k < |x| ==> !IsAncestor(x[j].name, x[k].name)
  }

  lemma FirstSlash(s: Str, n: nat) returns (k: nat)
    requires n <= |s| && SLASH in s[n..]
    ensures n <= k < |s| && s[k] == SLASH && SLASH !in s[n..k]
    decreases |s| - n
  {
    if s[n] == SLASH {
      k := n;
    } else {
      assert s[n..] == [s[n]] + s[n + 1..];
      k := FirstSlash(s, n + 1);
      assert s[n..k] == [s[n]] + s[n + 1..k];
    }
  }

  /** The directory's direct child on the way to one of its descendants. */
  lemma ChildTowards(r: seq<Str>, dir: Str, i: int) returns (k: int)
    requires Table(r) && 1 <= i < |r| && Below(dir, r[i]) && !IsChild(dir, r[i])
    ensures 0 <= k < |r| && IsChild(dir, r[k]) && IsAncestor(r[k], r[i])
  {
    var s := r[i];
    assert ValidName(s);
    BelowIsInside(dir, s);
    var n := |Inside(dir)|;
    var m := FirstSlash(s, n);
    var t := s[..m];
    assert IsAncestor(t, r[i]);
    assert t[n..] == s[n..m];
    assert t in r;
    k :| 0 <= k < |r| && r[k] == t;
  }

  /** At a boundary inside the directory stands a direct child. */
  lemma BoundaryIsChild(x: seq<Entry>, xi: int, q: int, d: nat)
    requires Table(NamesOf(x)) && Holds(x, xi, d) && xi < q <= xi + d
    requires Boundary(x, xi, q)
    ensures IsChild(x[xi].name, x[q].name)
  {
    var r := NamesOf(x);
    if !IsChild(x[xi].name, x[q].name) {
      var k := ChildTowards(r, x[xi].name, q);
      AncestorLess(r[k], r[q]);
      SortedFirst(r, k, q);
    }
  }

  /** What a child holds is in the directory, but not directly. */
  lemma NotDirectly(dir: Str, s: Str, t: Str)
    requires Below(dir, s) && IsAncestor(s, t)
    ensures Below(dir, t) && !IsChild(dir, t)
  {
    if dir != [] {
      AncestorTransitive(dir, s, t);
    }
    assert t[|Inside(dir)|..][|s| - |Inside(dir)|] == SLASH;
  }

  /** What a child holds passes no other child. */
  lemma ChildPasses(x: seq<Entry>, xi: int, q: int, e: nat)
    requires SortedElements(NamesOf(x)) && 0 <= xi < q < |x| && IsChild(x[xi].name, x[q].name) && Holds(x, q, e)
    ensures forall j :: q < j <= q + e ==> !IsChild(x[xi].name, x[j].name)
  {
    assert ValidName(NamesOf(x)[q]);
    forall j | q < j <= q + e ensures !IsChild(x[xi].name, x[j].name) {
      assert Below(x[q].name, x[j].name);
      NotDirectly(x[xi].name, x[q].name, x[j].name);
    }
  }

  /** Skipping a child's descendants leads to the next boundary. */
  lemma StepBoundary(x: seq<Entry>, xi: int, q: int)
    requires SortedElements(NamesOf(x)) && 0 <= xi < q && Extent(x, q) && Boundary(x, xi, q)
    ensures Boundary(x, xi, q + x[q].skip + 1)
  {
    assert ValidName(NamesOf(x)[q]);
    var q' := q + x[q].skip + 1;
    forall j, k | xi < j < q' <= k < |x| ensures !IsAncestor(x[j].name, x[k].name) {
      if q < j && IsAncestor(x[j].name, x[k].name) {
        assert IsAncestor(x[q].name, x[j].name);
        AncestorTransitive(x[q].name, x[j].name, x[k].name);
      }
    }
  }

  /** The directory's direct children before `q`. */
  ghost function ChildrenBefore(x: seq<Entry>, xi: int, q: int): set<int>
    requires 0 <= xi < |x|
  {
    set j | 0 <= j < |x| && j < q && IsChild(x[xi].name, x[j].name)
  }

  /** The children the walk can reach: those in the range `skip` gives. */
  ghost function ChildrenInRange(x: seq<Entry>, here: int): set<int>
    requires 0 <= here < |x|
  {
    ChildrenBefore(x, here, here + x[here].skip + 1)
  }

  ghost predicate NoChildIn(x: seq<Entry>, here: int, lo: int, hi: int)
    requires 0 <= here < |x|
  {
    forall j :: lo < j < hi && 0 <= j < |x| ==> !IsChild(x[here].name, x[j].name)
  }

  lemma OneMoreChild(x: seq<Entry>, here: int, q: int, after: int)
    requires 0 <= here < q < |x| && IsChild(x[here].name, x[q].name) && q < after && NoChildIn(x, here, q, after)
    ensures |ChildrenBefore(x, here, after)| == |ChildrenBefore(x, here, q)| + 1
  {
    forall j
      ensures j in ChildrenBefore(x, here, after) <==> j in ChildrenBefore(x, here, q) || j == q
    {}
    assert ChildrenBefore(x, here, after) == ChildrenBefore(x, here, q) + {q};
  }

  /** Going up from what a directory holds leads back to it exactly from its direct children. */
  lemma ParentOfChild(dir: Str, component: Str)
    ensures Parent(Join(dir, component)) == dir <==>
              SLASH !in component || (dir == [] && FindRight(component, SLASH) == 0)
  {
    var name, n := Join(dir, component), |Inside(dir)|;
    assert forall k :: n <= k < |name| ==> name[k] == component[k - n];
    var slash := FindRight(name, SLASH);
    if SLASH in component {
      var k :| 0 <= k < |component| && component[k] == SLASH;
      assert name[n + k] == SLASH;
      assert slash >= n;
    } else if dir != [] {
      assert name[|dir|] == SLASH && name[..|dir|] == dir;
    }
  }

  /** A name up to its last slash; the root's empty name if it has none. */
  function Parent(name: Str): Str {
    var slash := FindRight(name, SLASH);
    if slash < 0 then [] else name[..slash]
  }

  /**
   A direct child in range has so many entries below it that its own count
   wraps, and ends inside the range: the walk goes on among its descendants.
   */
  ghost predicate WrapsInside(x: seq<Entry>, here: int)
    requires 0 <= here < |x|
  {
    exists q :: here < q < |x| && WrappedChild(x, here, q)
  }

  ghost predicate WrappedChild(x: seq<Entry>, here: int, q: int)
    requires 0 <= here < |x| && 0 <= q < |x|
  {
    IsChild(x[here].name, x[q].name) && !Extent(x, q) && q + x[q].skip < here + x[here].skip
  }

  /** The stops of a walk from `p` to `end`. */
  ghost function Walk(x: seq<Entry>, p: nat, end: int): (n: nat)
    requires end < |x|
    ensures n > 0 <==> p <= end
    decreases end - p
  {
    if p > end then 0 else 1 + Walk(x, p + x[p].skip + 1, end)
  }

  /** The stops among the descendants of a child whose count wraps: the entries counted that are not children. */
  ghost function Strays(x: seq<Entry>, here: int): (n: nat)
    requires 0 <= here < |x| && here + x[here].skip < |x|
    ensures n > 0 <==> WrapsInside(x, here)
  {
    if WrapsInside(x, here) then
      var q :| here < q < |x| && WrappedChild(x, here, q);
      Walk(x, q + x[q].skip + 1, here + x[here].skip)
    else 0
  }

  /** The direct children the walk cannot reach. */
  ghost function ChildrenBeyond(x: seq<Entry>, here: int): set<int>
    requires 0 <= here < |x|
  {
    ChildrenBefore(x, here, |x|) - ChildrenInRange(x, here)
  }

  /** Count the direct children of the entry at `here`, stepping over each child's own entries. */
  method CountChildren(x: seq<Entry>, here: int) returns (n: nat)
    requires SkipTable(x) && 0 <= here < |x|
    ensures here + x[here].skip < |x| && n == |ChildrenInRange(x, here)| + Strays(x, here)
    ensures n == |ChildrenBefore(x, here, |x|)| <==> Strays(x, here) == |ChildrenBeyond(x, here)|
    ensures !WrapsInside(x, here) ==>
              (n == |ChildrenBefore(x, here, |x|)| <==> NoChildIn(x, here, here + x[here].skip, |x|))
    ensures Extent(x, here) ==> n == |ChildrenBefore(x, here, |x|)|
    ensures x[here].skip == 0 ==> n == 0
  {
    CountingStart(x, here);
    var xi, next := here + 1, here + x[here].skip + 1;
    n := 0;
    while xi < next
      invariant here < xi && here + x[here].skip < |x| && Tally(x, here, xi, n)
    {
      var after := xi + x[xi].skip + 1;
      CountingStep(x, here, xi, n, after);
      n, xi := n + 1, after;
    }
    CountingEnd(x, here, n);
  }

  /** The walk is on course, or done, or has gone astray among a child's descendants. */
  ghost predicate Tally(x: seq<Entry>, here: int, xi: nat, n: nat)
    requires 0 <= here < |x| && here + x[here].skip < |x|
  {
    || (xi <= here + x[here].skip && Boundary(x, here, xi) && n == |ChildrenBefore(x, here, xi)|)
    || (xi > here + x[here].skip && !WrapsInside(x, here) && n == |ChildrenInRange(x, here)|)
    || (WrapsInside(x, here) && n + Walk(x, xi, here + x[here].skip) == |ChildrenInRange(x, here)| + Strays(x, here))
  }

  lemma CountingStart(x: seq<Entry>, here: int)
    requires SkipTable(x) && 0 <= here < |x|
    ensures here + x[here].skip < |x| && Tally(x, here, here + 1, 0)
  {
    var d := TrueCount(x, here);
    assert ChildrenBefore(x, here, here + 1) == {};
  }

  /** How many entries are below one, the wrapped count being no more. */
  lemma TrueCount(x: seq<Entry>, here: int) returns (d: nat)
    requires SkipTable(x) && 0 <= here < |x|
    ensures Holds(x, here, d) && x[here].skip <= d && x[here].skip < 0x1_0000
    ensures if Extent(x, here) then d == x[here].skip else d >= 0x1_0000
  {
    assert Counted(x, here);
    d :| Holds(x, here, d) && x[here].skip == U16(d);
    U16Facts(d);
    ExtentIff(x, here, d);
  }

  lemma CountingStep(x: seq<Entry>, here: int, xi: int, n: nat, after: int)
    requires SkipTable(x) && 0 <= here < |x| && here < xi <= here + x[here].skip < |x| && Tally(x, here, xi, n)
    requires after == xi + x[xi].skip + 1
    ensures Tally(x, here, after, n + 1)
  {
    if Boundary(x, here, xi) && n == |ChildrenBefore(x, here, xi)| {
      var e := NextChild(x, here, xi);
      if Extent(x, xi) && after <= here + x[here].skip {
        OnCourse(x, here, xi, n, after);
      } else {
        AtLast(x, here, xi, n, after);
      }
    } else {
      assert Walk(x, xi, here + x[here].skip) == 1 + Walk(x, after, here + x[here].skip);
    }
  }

  /** On course, the walk stands at a child, and no other child is among the entries below it. */
  lemma NextChild(x: seq<Entry>, here: int, xi: int) returns (e: nat)
    requires SkipTable(x) && 0 <= here < |x| && here < xi <= here + x[here].skip < |x| && Boundary(x, here, xi)
    ensures IsChild(x[here].name, x[xi].name) && NoChildIn(x, here, xi, xi + e + 1)
    ensures if Extent(x, xi) then e == x[xi].skip else xi + e > here + x[here].skip
  {
    var d := TrueCount(x, here);
    e := TrueCount(x, xi);
    BoundaryIsChild(x, here, xi, d);
    ChildPasses(x, here, xi, e);
  }

  lemma OnCourse(x: seq<Entry>, here: int, xi: int, n: nat, after: int)
    requires SkipTable(x) && 0 <= here < xi < |x| && here + x[here].skip < |x| && IsChild(x[here].name, x[xi].name)
    requires Extent(x, xi) && Boundary(x, here, xi) && n == |ChildrenBefore(x, here, xi)|
    requires after == xi + x[xi].skip + 1 <= here + x[here].skip && NoChildIn(x, here, xi, after)
    ensures Tally(x, here, after, n + 1)
  {
    OneMoreChild(x, here, xi, after);
    StepBoundary(x, here, xi);
  }

  lemma AtLast(x: seq<Entry>, here: int, xi: int, n: nat, after: int)
    requires SkipTable(x) && 0 <= here < |x| && here < xi <= here + x[here].skip < |x|
    requires IsChild(x[here].name, x[xi].name)
    requires n == |ChildrenBefore(x, here, xi)| && NoChildIn(x, here, xi, here + x[here].skip + 1)
    requires after == xi + x[xi].skip + 1 && (Extent(x, xi) ==> after > here + x[here].skip)
    ensures Tally(x, here, after, n + 1)
  {
    OneMoreChild(x, here, xi, here + x[here].skip + 1);
    LastChild(x, here, xi);
    if WrapsInside(x, here) {
      OnlyWrapped(x, here, xi);
    }
  }

  /** At the last child in range the walk ends, or goes astray. */
  lemma LastChild(x: seq<Entry>, here: int, xi: int)
    requires SkipTable(x) && 0 <= here < |x| && here < xi <= here + x[here].skip < |x| &&
             IsChild(x[here].name, x[xi].name)
    requires NoChildIn(x, here, xi, here + x[here].skip + 1)
    ensures WrapsInside(x, here) <==> WrappedChild(x, here, xi)
    ensures forall q :: here < q < |x| && WrappedChild(x, here, q) ==> q == xi
  {
    forall q | here < q < |x| && WrappedChild(x, here, q) ensures q == xi {
      var d := TrueCount(x, here);
      var e := TrueCount(x, q);
      ChildPasses(x, here, q, e);
    }
  }

  lemma OnlyWrapped(x: seq<Entry>, here: int, xi: int)
    requires 0 <= here < |x| && here + x[here].skip < |x| && here < xi < |x| && WrappedChild(x, here, xi)
    requires forall q :: here < q < |x| && WrappedChild(x, here, q) ==> q == xi
    ensures WrapsInside(x, here) && Strays(x, here) == Walk(x, xi + x[xi].skip + 1, here + x[here].skip)
  {}

  lemma CountingEnd(x: seq<Entry>, here: int, n: nat)
    requires SkipTable(x) && 0 <= here < |x|
    requires here + x[here].skip < |x| && n == |ChildrenInRange(x, here)| + Strays(x, here)
    ensures n == |ChildrenBefore(x, here, |x|)| <==> Strays(x, here) == |ChildrenBeyond(x, here)|
    ensures !WrapsInside(x, here) ==>
              (n == |ChildrenBefore(x, here, |x|)| <==> NoChildIn(x, here, here + x[here].skip, |x|))
    ensures Extent(x, here) ==> n == |ChildrenBefore(x, here, |x|)|
    ensures x[here].skip == 0 ==> n == 0
  {
    RangeAndBeyond(x, here);
    if Extent(x, here) {
      RightRange(x, here);
    }
    if x[here].skip == 0 {
      EmptyRange(x, here);
    }
  }

  lemma RightRange(x: seq<Entry>, here: int)
    requires SkipTable(x) && Extent(x, here)
    ensures !WrapsInside(x, here) && NoChildIn(x, here, here + x[here].skip, |x|)
  {
    if WrapsInside(x, here) {
      var q :| here < q < |x| && WrappedChild(x, here, q);
      InnerExtent(x, here, q);
    }
    forall j | here + x[here].skip < j < |x| ensures !IsChild(x[here].name, x[j].name) {
      assert !Below(x[here].name, x[j].name);
    }
  }

  lemma EmptyRange(x: seq<Entry>, here: int)
    requires SkipTable(x) && 0 <= here < |x| && x[here].skip == 0
    ensures !WrapsInside(x, here) && ChildrenInRange(x, here) == {}
  {
    var d := TrueCount(x, here);
  }

  lemma RangeAndBeyond(x: seq<Entry>, here: int)
    requires 0 <= here < |x| && here + x[here].skip < |x|
    ensures |ChildrenBefore(x, here, |x|)| == |ChildrenInRange(x, here)| + |ChildrenBeyond(x, here)|
    ensures |ChildrenBeyond(x, here)| == 0 <==> NoChildIn(x, here, here + x[here].skip, |x|)
  {
    var part, beyond := ChildrenInRange(x, here), ChildrenBeyond(x, here);
    assert ChildrenBefore(x, here, |x|) == part + beyond;
    if NoChildIn(x, here, here + x[here].skip, |x|) {
      assert beyond == {};
    } else {
      var j :| here + x[here].skip < j < |x| && IsChild(x[here].name, x[j].name);
      assert j in beyond;
    }
  }

  /** The entry for the directory above the entry at `xi`; the search cannot fail. */
  method FindParent(x: seq<Entry>, xi: int) returns (found: int)
    requires Table(NamesOf(x)) && 0 <= xi < |x| && FindRight(x[xi].name, SLASH) >= 0
    ensures 1 <= found < |x| && x[found].name == Parent(x[xi].name)
  {
    var name := x[xi].name;
    var slash := FindRight(name, SLASH);
    assert NamesOf(x)[xi] == name && xi != 0;
    assert ValidName(NamesOf(x)[xi]);
    found := NameSearch(x, name[..slash], 1, |x| - 1, 0, []);
    assert found >= 0 by {
      assert IsAncestor(name[..slash], NamesOf(x)[xi]);
      assert name[..slash] in NamesOf(x);
      var i :| 0 <= i < |x| && NamesOf(x)[i] == name[..slash];
      assert x[i].name == [] + name[..slash];
    }
  }

  lemma NumberOf(x: seq<Entry>, names: seq<Str>, i: int)
    requires Prepared(x, names) && 0 <= i < |x|
    ensures x[i].elementnoPlus1 < |x| && (|x| <= 0x1_0000 ==> x[x[i].elementnoPlus1].xindex == i)
  {
    IndexedIff(x, names);
    if i > 0 {
      var m: map<Str, nat> :| NumberedBy(x, names, m);
      assert Carries(x[i], names, m);
      U16Facts(m[x[i].name]);
    }
  }

  // ---------------------------------------------------------------- a table that is too large

  /** Distinct valid names without slashes, in base 128. */
  function ManyName(i: nat): (s: Str)
    requires i < 0x1_0000
  {
    [48 + i / 128 / 128, 48 + i / 128 % 128, 48 + i % 128]
  }

  function ManyNames(): (names: seq<Str>) {
    seq(0x1_0000, i requires 0 <= i < 0x1_0000 => ManyName(i))
  }

  lemma ManyNameDiffers(i: nat, j: nat)
    requires i < 0x1_0000 && j < 0x1_0000 && ManyName(i) == ManyName(j)
    ensures i == j
  {
    DigitsOf(i);
    DigitsOf(j);
    assert ManyName(i)[0] == ManyName(j)[0] && ManyName(i)[1] == ManyName(j)[1] && ManyName(i)[2] == ManyName(j)[2];
  }

  lemma DigitsOf(i: nat)
    ensures i == 16384 * (i / 128 / 128) + 128 * (i / 128 % 128) + i % 128
  {}

  lemma ManyNamesValid()
    ensures ValidNames(ManyNames()) && forall i :: 0 <= i < |ManyNames()| ==> SLASH !in ManyNames()[i]
  {
    var names := ManyNames();
    forall i, j | 0 <= i < j < |names| ensures names[i] != names[j] {
      if ManyName(i) == ManyName(j) {
        ManyNameDiffers(i, j);
      }
    }
  }

  /** A name without a slash is in no directory. */
  lemma FlatClosure(s: Str, names: seq<Str>)
    requires InClosure(s, names) && forall i :: 0 <= i < |names| ==> SLASH !in names[i]
    ensures s in names
  {
    var i :| 0 <= i < |names| && (s == names[i] || IsAncestor(s, names[i]));
  }

  /** Names without slashes need no directories. */
  lemma FlatTable(x: seq<Entry>, names: seq<Str>)
    requires Prepared(x, names) && Distinct(names) && forall i :: 0 <= i < |names| ==> SLASH !in names[i]
    ensures |x| == |names| + 1
  {
    var m: map<Str, nat> :| NumberedBy(x, names, m);
    forall s | s in m ensures s in names {
      assert Named(x, s);
      var i :| 1 <= i < |x| && x[i].name == s;
      assert ValidName(NamesOf(x)[i]);
      assert s in NamesOf(x);
      FlatClosure(s, names);
    }
    FlatNumbers(x, names, m);
  }

  lemma FlatNumbers(x: seq<Entry>, names: seq<Str>, m: map<Str, nat>)
    requires NumberedBy(x, names, m) && ClosureOf(NamesOf(x), names) && 1 <= |x| && x[0].name == []
    requires Distinct(names) && forall s :: s in m ==> s in names
    ensures |x| == |names| + 1
  {
    assert |x| > |names| + 1 ==> HasNumber(m, |names| + 1);
    if |names| > 0 {
      var k := |names| - 1;
      assert InClosure(names[k], names);
      assert names[k] in NamesOf(x);
      var i :| 0 <= i < |x| && NamesOf(x)[i] == names[k];
      assert i > 0;
      assert Carries(x[i], names, m);
      assert names[m[names[k]] - 1] == names[k];
    }
  }

  /** With 65536 elements every range is empty, the root's too, and the numbers do not lead back. */
  lemma LargeTable(x: seq<Entry>)
    requires Prepared(x, ManyNames())
    ensures |x| == 0x1_0001 && !Extent(x, 0) && !Indexed(x) && forall i :: 0 <= i < |x| ==> x[i].skip == 0
    ensures forall k :: 0 <= k < 0x1_0000 ==> ManyNames()[k] in NamesOf(x)
  {
    ManyNamesValid();
    TooLarge(x, ManyNames());
    forall i | 0 <= i < |x| ensures x[i].skip == 0 {
      if i > 0 {
        FlatSkip(x, ManyNames(), i);
      }
    }
  }

  /** A name without a slash holds nothing. */
  lemma FlatSkip(x: seq<Entry>, names: seq<Str>, i: int)
    requires Prepared(x, names) && 1 <= i < |x| && forall k :: 0 <= k < |names| ==> SLASH !in names[k]
    ensures x[i].skip == 0
  {
    PreparedSkips(x, names);
    var d := TrueCount(x, i);
    if d > 0 {
      assert ValidName(NamesOf(x)[i]);
      assert Below(x[i].name, x[i + 1].name);
      assert x[i + 1].name[|x[i].name|] == SLASH;
      assert NamesOf(x)[i + 1] in NamesOf(x);
      FlatClosure(NamesOf(x)[i + 1], names);
    }
  }

  lemma TooLarge(x: seq<Entry>, names: seq<Str>)
    requires Prepared(x, names) && |names| == 0x1_0000
    requires Distinct(names) && forall i :: 0 <= i < |names| ==> SLASH !in names[i]
    ensures |x| == 0x1_0001 && x[0].skip == 0 && !Extent(x, 0) && !Indexed(x)
    ensures forall k :: 0 <= k < |names| ==> names[k] in NamesOf(x)
  {
    FlatTable(x, names);
    IndexedIff(x, names);
    NoRootExtent(x, names);
    AllNamed(NamesOf(x), names);
  }

  lemma NoRootExtent(x: seq<Entry>, names: seq<Str>)
    requires Prepared(x, names) && |x| == 0x1_0001
    ensures x[0].skip == 0 && !Extent(x, 0)
  {
    PreparedSkips(x, names);
    RootExtentIff(x);
  }

  lemma AllNamed(r: seq<Str>, names: seq<Str>)
    requires ClosureOf(r, names)
    ensures forall k :: 0 <= k < |names| ==> names[k] in r
  {
    forall k | 0 <= k < |names| ensures names[k] in r {
      assert InClosure(names[k], names);
    }
  }

  // ---------------------------------------------------------------- the object

  /** Search for a component in the range of the directory at `xi`. */
  method SearchIn(x: seq<Entry>, component: Str, xi: int) returns (found: int)
    requires SkipTable(x) && 0 <= xi < |x|
    ensures -1 <= found < |x|
    ensures found >= 0 ==> xi < found && x[found].name == Join(x[xi].name, component)
    ensures found < 0 <==> forall i :: xi < i <= xi + x[xi].skip && i < |x| ==> x[i].name != Join(x[xi].name, component)
    ensures Extent(x, xi) && component != [] && found < 0 ==>
              forall i :: 0 <= i < |x| ==> x[i].name != Join(x[xi].name, component)
  {
    var dir := x[xi].name;
    RangeInside(x, xi);
    found := NameSearch(x, component, xi + 1, xi + x[xi].skip, if dir != [] then |dir| + 1 else 0, Inside(dir));
    assert Inside(dir) + component == Join(dir, component);
    SearchRangeIff(x, xi);
  }

  lemma RangeInside(x: seq<Entry>, xi: int)
    requires SkipTable(x) && 0 <= xi < |x|
    ensures xi + x[xi].skip < |x| && forall i :: xi < i <= xi + x[xi].skip ==> Inside(x[xi].name) <= x[i].name
  {
    assert Counted(x, xi);
    var d: nat :| Holds(x, xi, d) && x[xi].skip == U16(d);
    U16Facts(d);
    forall i | xi < i <= xi + x[xi].skip ensures Inside(x[xi].name) <= x[i].name {
      BelowIsInside(x[xi].name, x[i].name);
    }
  }

  /** The entry of the directory above the one at `xi`, the sentinel for the root. */
  method ParentEntry(x: seq<Entry>, xi: int) returns (found: int)
    requires Table(NamesOf(x)) && 0 <= xi < |x|
    ensures 0 <= found < |x| && x[found].name == Parent(x[xi].name)
  {
    assert NamesOf(x)[0] == x[0].name;
    found := 0;
    if FindRight(x[xi].name, SLASH) >= 0 {
      found := FindParent(x, xi);
    }
  }

  lemma BackAgain(x: seq<Entry>, xi: int, component: Str, found: int, xb: int)
    requires Table(NamesOf(x)) && 0 <= xi < found < |x| && 0 <= xb < |x|
    requires x[found].name == Join(x[xi].name, component) && x[xb].name == Parent(x[found].name)
    ensures xb == xi <==> SLASH !in component
  {
    assert ValidName(NamesOf(x)[found]);
    ParentOfChild(x[xi].name, component);
    SortedDistinct(NamesOf(x));
    assert xb == xi <==> NamesOf(x)[xb] == NamesOf(x)[xi];
  }

  /** Going up from a plain component's entry gives the number of the directory's. */
  lemma UpFromChild(x: seq<Entry>, xi: int, component: Str, found: int, f: int, back: int)
    requires Table(NamesOf(x)) && 0 <= xi < found < |x| && 0 <= f < |x| && x[found].name == Join(x[xi].name, component)
    requires exists i :: 0 <= i < |x| && x[i].name == Parent(x[f].name) && x[i].elementnoPlus1 == back + 1
    ensures f == found && SLASH !in component ==> back + 1 == x[xi].elementnoPlus1
  {
    var i :| 0 <= i < |x| && x[i].name == Parent(x[f].name) && x[i].elementnoPlus1 == back + 1;
    if f == found {
      BackAgain(x, xi, component, found, i);
    }
  }

  /** Where numbers lead back to entries, going up leads back to the directory for plain components only. */
  lemma UpAndBack(x: seq<Entry>, xi: int, component: Str, found: int, xb: int, elementno: int, back: int)
    requires Table(NamesOf(x)) && 0 <= xi < found < |x| && 0 <= xb < |x|
    requires x[found].name == Join(x[xi].name, component) && x[xb].name == Parent(x[found].name)
    requires x[xi].elementnoPlus1 == elementno + 1 && x[xb].elementnoPlus1 == back + 1 &&
             (back == elementno ==> xb == xi)
    ensures back == elementno <==> SLASH !in component
  {
    BackAgain(x, xi, component, found, xb);
  }

  class ClickIno {
    var x: seq<Entry>
    var generation: nat
    ghost var names: seq<Str>

    constructor ()
      ensures x == [] && generation == 0
    {
      x, generation, names := [], 0, [];
    }

    ghost predicate Valid()
      reads this
    {
      Prepared(x, names)
    }

    /** `true_prepare`: rebuild the table for a router with these element names. */
    method TruePrepare(elements: seq<Str>, gen: nat)
      requires ValidNames(elements)
      modifies this
      ensures Valid() && names == elements && generation == gen
    {
      names, generation := elements, gen;
      if |elements| == 0 {
        x := [SENTINEL];
        assert NumberedBy(x, elements, map[]);
        return;
      }
      var y, r := CollectEntries(elements);
      var z := y;
      if |y| != |elements| + 1 {
        z := SortEntries(y);
        CollectedSorted(y, z, elements);
        SamePermutedNames(y, z);
      } else {
        assert NamesOf(y) == NamesOf(y)[..|r|] == r;
      }
      ClosedIsTable(r, NamesOf(y), NamesOf(z));
      x := FinishTable(z, elements);
    }

    /** `xindex`: where an element's entry is; -1 stands for the root. */
    function XIndex(elementno: int): (xi: int)
      requires Valid() && -1 <= elementno < |x| - 1
      reads this
      ensures 0 <= xi < |x|
      ensures |x| <= 0x1_0000 ==> x[xi].elementnoPlus1 == elementno + 1
    {
      IndexedIff(x, names);
      x[elementno + 1].xindex
    }

    /** `element_name_search`: the entry for `component` in an element's directory, or -1 if its range holds none. */
    method ElementNameSearch(component: Str, elementno: int) returns (found: int)
      requires Valid() && -1 <= elementno < |x| - 1
      ensures -1 <= found < |x|
      ensures found >= 0 ==> XIndex(elementno) < found && x[found].name == Join(x[XIndex(elementno)].name, component)
      ensures var xi := XIndex(elementno);
              found < 0 <==>
                forall i :: xi < i <= xi + x[xi].skip && i < |x| ==> x[i].name != Join(x[xi].name, component)
      ensures Extent(x, XIndex(elementno)) && component != [] && found < 0 ==>
                forall i :: 0 <= i < |x| ==> x[i].name != Join(x[XIndex(elementno)].name, component)
    {
      PreparedSkips(x, names);
      found := SearchIn(x, component, XIndex(elementno));
    }

    /** In the table of 65536 elements no lookup finds anything, from the root or from an element. */
    method LostInLarge(component: Str, elementno: int) returns (found: int)
      requires Valid() && names == ManyNames() && -1 <= elementno < |x| - 1
      ensures found == -1
      ensures forall k :: 0 <= k < 0x1_0000 ==> ManyNames()[k] in NamesOf(x)
    {
      LargeTable(x);
      found := ElementNameSearch(component, elementno);
    }

    /** The part of `nlink` that counts subdirectories, stepping over each child's own entries. */
    method CountSubdirectories(elementno: int) returns (nlink: nat)
      requires Valid() && -1 <= elementno < |x| - 1
      ensures var xi := XIndex(elementno);
              && xi + x[xi].skip < |x| && nlink == |ChildrenInRange(x, xi)| + Strays(x, xi)
              && (nlink == |ChildrenBefore(x, xi, |x|)| <==> Strays(x, xi) == |ChildrenBeyond(x, xi)|)
              && (!WrapsInside(x, xi) ==>
                    (nlink == |ChildrenBefore(x, xi, |x|)| <==> NoChildIn(x, xi, xi + x[xi].skip, |x|)))
      ensures Extent(x, XIndex(elementno)) ==> nlink == |ChildrenBefore(x, XIndex(elementno), |x|)|
      ensures x[XIndex(elementno)].skip == 0 ==> nlink == 0
    {
      PreparedSkips(x, names);
      nlink := CountChildren(x, XIndex(elementno));
    }

    /** The ".." lookup: the parent's element number, -1 for the root.  Its assertion cannot fail. */
    method DotDot(elementno: int) returns (parent: int)
      requires Valid() && -1 <= elementno < |x| - 1
      ensures -1 <= parent < |x| - 1
      ensures var name := x[XIndex(elementno)].name;
              exists i :: 0 <= i < |x| && x[i].name == Parent(name) && x[i].elementnoPlus1 == parent + 1
      ensures |x| <= 0x1_0000 ==> x[XIndex(parent)].name == Parent(x[XIndex(elementno)].name)
    {
      var found := ParentEntry(x, XIndex(elementno));
      NumberOf(x, names, found);
      parent := x[found].elementnoPlus1 - 1;
    }

    /** The number of the element or directory at an entry. */
    method NumberAt(found: int) returns (number: int)
      requires Valid() && 0 <= found < |x|
      ensures -1 <= number < |x| - 1 && number + 1 == x[found].elementnoPlus1
      ensures |x| <= 0x1_0000 ==> XIndex(number) == found
    {
      NumberOf(x, names, found);
      number := x[found].elementnoPlus1 - 1;
    }

    /** The ".." from an entry found in an element's directory. */
    method Up(found: int, ghost component: Str, ghost elementno: int) returns (number: int, back: int)
      requires Valid() && -1 <= elementno < |x| - 1 && XIndex(elementno) < found < |x|
      requires x[found].name == Join(x[XIndex(elementno)].name, component)
      ensures -1 <= number < |x| - 1 && -1 <= back < |x| - 1 && number + 1 == x[found].elementnoPlus1
      ensures XIndex(number) == found && SLASH !in component ==> back + 1 == x[XIndex(elementno)].elementnoPlus1
      ensures |x| <= 0x1_0000 ==> (back == elementno <==> SLASH !in component)
    {
      number := NumberAt(found);
      back := DotDot(number);
      UpFromChild(x, XIndex(elementno), component, found, XIndex(number), back);
      if |x| <= 0x1_0000 {
        UpAndBack(x, XIndex(elementno), component, found, XIndex(back), elementno, back);
      }
    }

    /**
     A component search followed by "..".  From a plain component whose number
     leads back to its entry it comes to the directory it started from, and up
     to 65536 entries it does so for no other component.
     */
    method DownAndUp(component: Str, elementno: int) returns (found: int, number: int, back: int)
      requires Valid() && -1 <= elementno < |x| - 1
      ensures -1 <= found < |x|
      ensures found >= 0 ==>
                && -1 <= number < |x| - 1 && -1 <= back < |x| - 1 && number + 1 == x[found].elementnoPlus1
                && (XIndex(number) == found && SLASH !in component ==> back + 1 == x[XIndex(elementno)].elementnoPlus1)
                && (|x| <= 0x1_0000 ==> (back == elementno <==> SLASH !in component))
    {
      found := ElementNameSearch(component, elementno);
      number, back := -1, -1;
      if found >= 0 {
        number, back := Up(found, component, elementno);
      }
    }
  }
}
