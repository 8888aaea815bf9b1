/**
 The context tree of `NameInfo` (click/lib/nameinfo.cc): the name databases
 of one type, each installed for a compound-element context, linked by
 parent, first-child and next-sibling pointers.  Pointers are indices into
 the installed databases, in installation order; -1 is the null pointer.
 */
module NameTree {
  import opened Bytes
  import opened Collections

  // ---------------------------------------------------------------- specificity

  /** `j` is more specific than `i`: a longer context, or the same length installed later. */
  ghost predicate KeyLess(ctx: seq<Str>, i: int, j: int) {
    && 0 <= j < |ctx|
    && (0 <= i < |ctx| ==> |ctx[i]| < |ctx[j]| || (|ctx[i]| == |ctx[j]| && i < j))
    && i < |ctx|
  }

  /** The database applies to the context `prefix`. */
  ghost predicate Applies(ctx: seq<Str>, i: int, prefix: Str) {
    0 <= i < |ctx| && ctx[i] <= prefix
  }

  /** `c` is the most specific database that applies to `prefix`, -1 if none does. */
  ghost predicate IsClosest(ctx: seq<Str>, prefix: Str, c: int) {
    && -1 <= c < |ctx|
    && (c >= 0 ==> Applies(ctx, c, prefix))
    && forall j :: Applies(ctx, j, prefix) ==> j == c || KeyLess(ctx, j, c)
  }

  /** `q` is `i`'s contextual parent: the most specific of the less specific databases that apply to its context. */
  ghost predicate IsParent(ctx: seq<Str>, i: int, q: int) {
    && 0 <= i < |ctx| && -1 <= q < |ctx|
    && (q >= 0 ==> Applies(ctx, q, ctx[i]) && KeyLess(ctx, q, i))
    && forall j :: Applies(ctx, j, ctx[i]) && KeyLess(ctx, j, i) ==> j == q || KeyLess(ctx, j, q)
  }

  /** A database that applies to `prefix` is above every more specific one that does. */
  lemma AppliesBelow(ctx: seq<Str>, prefix: Str, i: int, j: int)
    requires Applies(ctx, i, prefix) && Applies(ctx, j, prefix) && KeyLess(ctx, i, j)
    ensures Applies(ctx, i, ctx[j])
  {
    assert ctx[i] == prefix[..|ctx[i]|] && ctx[j] == prefix[..|ctx[j]|];
  }

  /** The parent of a database that applies is the next most specific one that applies. */
  lemma ParentIsNext(ctx: seq<Str>, prefix: Str, i: int, q: int)
    requires Applies(ctx, i, prefix) && IsParent(ctx, i, q)
    ensures q >= 0 ==> Applies(ctx, q, prefix)
    ensures forall j :: Applies(ctx, j, prefix) && KeyLess(ctx, j, i) ==> j == q || KeyLess(ctx, j, q)
  {
    forall j | Applies(ctx, j, prefix) && KeyLess(ctx, j, i) ensures j == q || KeyLess(ctx, j, q) {
      AppliesBelow(ctx, prefix, j, i);
    }
  }

  /** The least specific applicable database more specific than `c`, among the first `n`. */
  lemma LeastAbove(ctx: seq<Str>, prefix: Str, c: int, n: nat) returns (k: int)
    requires -1 <= c < |ctx| && n <= |ctx|
    ensures k == -1 || (0 <= k < n && Applies(ctx, k, prefix) && KeyLess(ctx, c, k))
    ensures forall j :: 0 <= j < n && Applies(ctx, j, prefix) && KeyLess(ctx, c, j) ==>
                          k >= 0 && (j == k || KeyLess(ctx, k, j))
  {
    k := -1;
    for m := 0 to n
      invariant k == -1 || (0 <= k < m && Applies(ctx, k, prefix) && KeyLess(ctx, c, k))
      invariant forall j :: 0 <= j < m && Applies(ctx, j, prefix) && KeyLess(ctx, c, j) ==>
                              k >= 0 && (j == k || KeyLess(ctx, k, j))
    {
      if Applies(ctx, m, prefix) && KeyLess(ctx, c, m) && (k == -1 || KeyLess(ctx, m, k)) {
        k := m;
      }
    }
  }

  /** If no child of an applicable database applies, it is the closest. */
  lemma ClosestIfNoChild(ctx: seq<Str>, parent: seq<int>, prefix: Str, c: int)
    requires |parent| == |ctx| && forall i :: 0 <= i < |ctx| ==> IsParent(ctx, i, parent[i])
    requires -1 <= c < |ctx| && (c >= 0 ==> Applies(ctx, c, prefix))
    requires forall i :: 0 <= i < |ctx| && parent[i] == c ==> !Applies(ctx, i, prefix)
    ensures IsClosest(ctx, prefix, c)
  {
    var k := LeastAbove(ctx, prefix, c, |ctx|);
    if k >= 0 {
      ParentIsNext(ctx, prefix, k, parent[k]);
      assert c >= 0 ==> c == parent[k] || KeyLess(ctx, c, parent[k]);
      if parent[k] != c {
        assert Applies(ctx, parent[k], prefix) && KeyLess(ctx, c, parent[k]);
      }
    }
  }

  /** Sibling contexts are never prefixes of each other. */
  lemma SiblingsPrefixFree(ctx: seq<Str>, parent: seq<int>, i: int, j: int)
    requires |parent| == |ctx| && forall i :: 0 <= i < |ctx| ==> IsParent(ctx, i, parent[i])
    requires 0 <= i < |ctx| && 0 <= j < |ctx| && i != j && parent[i] == parent[j]
    ensures !(ctx[i] <= ctx[j])
  {
    if ctx[i] <= ctx[j] {
      if KeyLess(ctx, i, j) {
        assert Applies(ctx, i, ctx[j]);
      } else {
        assert ctx[i] == ctx[j] && Applies(ctx, j, ctx[i]);
      }
    }
  }

  // ---------------------------------------------------------------- installing

  /** The parents after installing `p` below its closest database `c`. */
  function ParentsAfter(ctx: seq<Str>, parent: seq<int>, p: Str, c: int): (r: seq<int>)
    requires |parent| == |ctx|
  {
    seq(|ctx|, i requires 0 <= i < |ctx| => if parent[i] == c && p <= ctx[i] then |ctx| else parent[i]) + [c]
  }

  /** A more specific database that applied there keeps its parent; those under `c` inside `p` move under it. */
  lemma InstallParents(ctx: seq<Str>, parent: seq<int>, p: Str, c: int)
    requires |parent| == |ctx| && forall i :: 0 <= i < |ctx| ==> IsParent(ctx, i, parent[i])
    requires IsClosest(ctx, p, c)
    ensures forall i :: 0 <= i <= |ctx| ==> IsParent(ctx + [p], i, ParentsAfter(ctx, parent, p, c)[i])
  {
    var ctx', n := ctx + [p], |ctx|;
    forall i | 0 <= i <= n ensures IsParent(ctx', i, ParentsAfter(ctx, parent, p, c)[i]) {
      if i == n {
        InstalledParent(ctx, p, c);
      } else {
        OldParent(ctx, parent, p, c, i);
      }
    }
  }

  lemma InstalledParent(ctx: seq<Str>, p: Str, c: int)
    requires IsClosest(ctx, p, c)
    ensures IsParent(ctx + [p], |ctx|, c)
  {
    var ctx', n := ctx + [p], |ctx|;
    forall j | Applies(ctx', j, p) && KeyLess(ctx', j, n) ensures j == c || KeyLess(ctx', j, c) {
      assert Applies(ctx, j, p);
    }
  }

  lemma OldParent(ctx: seq<Str>, parent: seq<int>, p: Str, c: int, i: int)
    requires |parent| == |ctx| && forall i :: 0 <= i < |ctx| ==> IsParent(ctx, i, parent[i])
    requires IsClosest(ctx, p, c) && 0 <= i < |ctx|
    ensures IsParent(ctx + [p], i, if parent[i] == c && p <= ctx[i] then |ctx| else parent[i])
  {
    var q := parent[i];
    assert IsParent(ctx, i, q);
    if p <= ctx[i] && |p| < |ctx[i]| {
      if q == c {
        Adopted(ctx, p, c, i);
      } else {
        OtherParentCloser(ctx, p, c, i, q);
        ParentKept(ctx, p, i, q);
      }
    } else {
      if p <= ctx[i] {
        assert ctx[i] == p && Applies(ctx, i, p);
        assert q != c;
      }
      ParentKept(ctx, p, i, q);
    }
  }

  lemma Adopted(ctx: seq<Str>, p: Str, c: int, i: int)
    requires IsClosest(ctx, p, c) && IsParent(ctx, i, c) && p <= ctx[i] && |p| < |ctx[i]|
    ensures IsParent(ctx + [p], i, |ctx|)
  {
    var ctx', n := ctx + [p], |ctx|;
    forall j | Applies(ctx', j, ctx'[i]) && KeyLess(ctx', j, i) ensures j == n || KeyLess(ctx', j, n) {
      if j < n {
        assert Applies(ctx, j, ctx[i]) && KeyLess(ctx, j, i);
      }
    }
  }

  /** A parent stays if the new database is not between it and its child. */
  lemma ParentKept(ctx: seq<Str>, p: Str, i: int, q: int)
    requires IsParent(ctx, i, q)
    requires p <= ctx[i] && |p| < |ctx[i]| ==> KeyLess(ctx + [p], |ctx|, q)
    ensures IsParent(ctx + [p], i, q)
  {
    var ctx', n := ctx + [p], |ctx|;
    forall j | Applies(ctx', j, ctx'[i]) && KeyLess(ctx', j, i) ensures j == q || KeyLess(ctx', j, q) {
      if j < n {
        assert Applies(ctx, j, ctx[i]) && KeyLess(ctx, j, i);
      }
    }
  }

  /** A database inside `p` whose parent is not the closest one has a parent inside `p` too. */
  lemma OtherParentCloser(ctx: seq<Str>, p: Str, c: int, i: int, q: int)
    requires IsClosest(ctx, p, c) && IsParent(ctx, i, q) && p <= ctx[i] && |p| < |ctx[i]| && q != c
    ensures KeyLess(ctx + [p], |ctx|, q)
  {
    if c >= 0 {
      assert Applies(ctx, c, ctx[i]) && KeyLess(ctx, c, i);
    }
    if q >= 0 && |ctx[q]| <= |p| {
      assert ctx[q] == ctx[i][..|ctx[q]|] == p[..|ctx[q]|];
      assert Applies(ctx, q, p);
    }
  }

  // ---------------------------------------------------------------- sibling lists

  /** Following `sibling` from `head` spells out `list`. */
  ghost predicate Spells(sibling: seq<int>, head: int, list: seq<int>) {
    && head == (if list == [] then -1 else list[0])
    && (forall k :: 0 <= k < |list| ==> 0 <= list[k] < |sibling|)
    && (forall k :: 0 <= k < |list| ==> sibling[list[k]] == if k + 1 < |list| then list[k + 1] else -1)
  }

  lemma SpellsNext(sibling: seq<int>, head: int, list: seq<int>, k: int)
    requires Spells(sibling, head, list) && 0 <= k < |list|
    ensures 0 <= list[k] < |sibling| && list[k] in list
    ensures sibling[list[k]] == if k + 1 < |list| then list[k + 1] else -1
  {}

  lemma SpellsFrame(sibling: seq<int>, sibling': seq<int>, head: int, list: seq<int>)
    requires Spells(sibling, head, list) && |sibling| <= |sibling'|
    requires forall x :: x in list ==> sibling'[x] == sibling[x]
    ensures Spells(sibling', head, list)
  {
    assert forall k :: 0 <= k < |list| ==> list[k] in list;
  }

  /** Unlinking the element after position `a - 1`. */
  lemma SpellsRemove(sibling: seq<int>, head: int, list: seq<int>, a: int)
    requires Spells(sibling, head, list) && Distinct(list) && 1 <= a < |list|
    ensures Spells(sibling[list[a - 1] := sibling[list[a]]], head, list[..a] + list[a + 1..])
  {
    var s', list' := sibling[list[a - 1] := sibling[list[a]]], list[..a] + list[a + 1..];
    assert list'[0] == list[0];
    forall k | 0 <= k < |list'|
      ensures 0 <= list'[k] < |s'| && s'[list'[k]] == if k + 1 < |list'| then list'[k + 1] else -1
    {
      var j := if k < a then k else k + 1;
      assert list'[k] == list[j];
      SpellsNext(sibling, head, list, j);
      SpellsNext(sibling, head, list, a);
      assert j != a - 1 ==> list[j] != list[a - 1];
    }
    assert head == list'[0] && Spells(s', head, list');
  }

  lemma SpellsPush(sibling: seq<int>, head: int, list: seq<int>, x: int)
    requires Spells(sibling, head, list) && 0 <= x < |sibling| && x !in list
    ensures Spells(sibling[x := head], x, [x] + list)
  {
    assert forall k :: 0 <= k < |list| ==> list[k] in list;
  }

  /** The three pointers of every database. */
  datatype Links = Links(child: seq<int>, sibling: seq<int>, parent: seq<int>)

  /** Which of `list` lie inside `p` and which do not. */
  ghost predicate Partitioned(ctx: seq<Str>, p: Str, list: seq<int>, kept: seq<int>, moved: seq<int>) {
    && (forall x :: x in kept <==> x in list && 0 <= x < |ctx| && !(p <= ctx[x]))
    && (forall x :: x in moved <==> x in list && 0 <= x < |ctx| && p <= ctx[x])
    && Distinct(kept) && Distinct(moved)
  }

  /** The adoption loop after `i` of the former siblings `list` of the new database `n`. */
  ghost predicate Adopting(ctx: seq<Str>, s0: Links, s: Links, p: Str, n: int, list: seq<int>, i: int,
                           kept: seq<int>, moved: seq<int>) {
    && 0 <= n < |ctx| && 0 <= i <= |list|
    && |s.child| == |s.sibling| == |s.parent| == |ctx| == |s0.child| == |s0.sibling| == |s0.parent|
    && Spells(s.sibling, n, [n] + kept + list[i..])
    && Spells(s.sibling, s.child[n], moved)
    && Partitioned(ctx, p, list[..i], kept, moved)
    && (forall x :: 0 <= x < |ctx| && x !in list && x != n ==> s.sibling[x] == s0.sibling[x])
    && (forall x :: 0 <= x < |ctx| && x != n ==> s.child[x] == s0.child[x])
    && (forall x :: 0 <= x < |ctx| ==> s.parent[x] == if x in moved then n else s0.parent[x])
  }

  ghost predicate AdoptionList(ctx: seq<Str>, n: int, list: seq<int>) {
    Distinct(list) && n !in list && 0 <= n < |ctx| && forall k :: 0 <= k < |list| ==> 0 <= list[k] < |ctx|
  }

  lemma PrefixMember(list: seq<int>, i: int)
    requires Distinct(list) && 0 <= i < |list|
    ensures list[i] !in list[..i]
    ensures forall x :: x in list[..i + 1] <==> x in list[..i] || x == list[i]
    ensures list[i..] == [list[i]] + list[i + 1..]
  {
    assert list[..i + 1] == list[..i] + [list[i]];
  }

  lemma KeepStep(ctx: seq<Str>, s0: Links, s: Links, p: Str, n: int, list: seq<int>, i: int, kept: seq<int>,
                 moved: seq<int>)
    requires AdoptionList(ctx, n, list) && Adopting(ctx, s0, s, p, n, list, i, kept, moved) && i < |list|
    requires !(p <= ctx[list[i]])
    ensures Adopting(ctx, s0, s, p, n, list, i + 1, kept + [list[i]], moved)
  {
    PrefixMember(list, i);
    assert [n] + kept + list[i..] == [n] + (kept + [list[i]]) + list[i + 1..];
  }

  lemma MoveStep(ctx: seq<Str>, s0: Links, s: Links, p: Str, n: int, list: seq<int>, i: int, kept: seq<int>,
                 moved: seq<int>)
    requires AdoptionList(ctx, n, list) && Adopting(ctx, s0, s, p, n, list, i, kept, moved) && i < |list|
    requires p <= ctx[list[i]]
    ensures var x := list[i];
            var prev := ([n] + kept)[|kept|];
            && 0 <= prev < |ctx| && prev != x
            && Adopting(ctx, s0,
                        Links(s.child[n := x], s.sibling[prev := s.sibling[x]][x := s.child[n]], s.parent[x := n]),
                        p, n, list, i + 1, kept, [x] + moved)
  {
    var x := list[i];
    var spelled := [n] + kept + list[i..];
    var a := |kept| + 1;
    PrefixMember(list, i);
    assert spelled[a] == x && spelled[a - 1] == ([n] + kept)[|kept|];
    ListDistinct(ctx, p, n, list, i, kept, moved);
    SpellsRemove(s.sibling, n, spelled, a);
    assert spelled[..a] + spelled[a + 1..] == [n] + kept + list[i + 1..];
    var sib1 := s.sibling[spelled[a - 1] := s.sibling[x]];
    SpellsFrame(s.sibling, sib1, s.child[n], moved);
    SpellsPush(sib1, s.child[n], moved, x);
    SpellsFrame(sib1, sib1[x := s.child[n]], n, [n] + kept + list[i + 1..]);
  }

  lemma ListDistinct(ctx: seq<Str>, p: Str, n: int, list: seq<int>, i: int, kept: seq<int>, moved: seq<int>)
    requires AdoptionList(ctx, n, list) && 0 <= i < |list| && Partitioned(ctx, p, list[..i], kept, moved)
    ensures Distinct([n] + kept + list[i..])
    ensures forall x :: x in moved ==> x !in [n] + kept + list[i..]
    ensures list[i] !in moved && list[i] !in kept
  {
    assert forall k :: 0 <= k < i ==> list[..i][k] == list[k];
    assert forall k :: i <= k < |list| ==> list[k] == list[i..][k - i] && list[k] !in list[..i];
    assert forall x :: x in list[i..] ==> x !in list[..i];
    var spelled := [n] + kept + list[i..];
    forall j, k | 0 <= j < k < |spelled| ensures spelled[j] != spelled[k] {
      if 1 <= j <= |kept| {
        assert spelled[j] in kept;
      }
      if 1 <= k <= |kept| {
        assert spelled[k] in kept;
      } else {
        assert spelled[k] in list[i..] && spelled[k] in list;
      }
    }
  }

  /** Move the databases inside `p` from the list after `n` into `n`'s children. */
  method Adopt(ctx: seq<Str>, s0: Links, p: Str, n: int, ghost list: seq<int>)
    returns (s: Links, ghost kept: seq<int>, ghost moved: seq<int>)
    requires AdoptionList(ctx, n, list)
    requires |s0.child| == |s0.sibling| == |s0.parent| == |ctx|
    requires Spells(s0.sibling, n, [n] + list) && s0.child[n] == -1
    requires forall k :: 0 <= k < |list| ==> ctx[list[k]] != p
    ensures Adopting(ctx, s0, s, p, n, list, |list|, kept, moved)
  {
    s, kept, moved := s0, [], [];
    var prev := n;
    ghost var i := 0;
    assert [n] + [] + list[0..] == [n] + list;
    while s.sibling[prev] != -1
      invariant Adopting(ctx, s0, s, p, n, list, i, kept, moved)
      invariant prev == ([n] + kept)[|kept|]
      invariant 0 <= prev < |ctx|
      decreases |list| - i
    {
      NextInList(s.sibling, n, kept, list, i);
      s, prev, kept, moved := AdoptOne(ctx, s0, s, p, n, prev, list, i, kept, moved);
      i := i + 1;
    }
    NextInList(s.sibling, n, kept, list, i);
  }

  /** The next database after `prev` becomes a child of `n` if it lies inside `p`, and is passed over otherwise. */
  method AdoptOne(ctx: seq<Str>, ghost s0: Links, s: Links, p: Str, n: int, prev: int, ghost list: seq<int>,
                  ghost i: int, ghost kept: seq<int>, ghost moved: seq<int>)
    returns (s': Links, prev': int, ghost kept': seq<int>, ghost moved': seq<int>)
    requires AdoptionList(ctx, n, list) && Adopting(ctx, s0, s, p, n, list, i, kept, moved) && i < |list|
    requires 0 <= prev < |ctx| && prev == ([n] + kept)[|kept|] && s.sibling[prev] == list[i] && ctx[list[i]] != p
    ensures Adopting(ctx, s0, s', p, n, list, i + 1, kept', moved')
    ensures 0 <= prev' < |ctx| && prev' == ([n] + kept')[|kept'|]
  {
    s', prev', kept', moved' := s, prev, kept, moved;
    var x := s.sibling[prev];
    if |p| < |ctx[x]| && p <= ctx[x] {
      MoveStep(ctx, s0, s, p, n, list, i, kept, moved);
      s' := Links(s.child[n := x], s.sibling[prev := s.sibling[x]][x := s.child[n]], s.parent[x := n]);
      moved' := [x] + moved;
    } else {
      KeepStep(ctx, s0, s, p, n, list, i, kept, moved);
      prev' := x;
      kept' := kept + [x];
    }
  }

  lemma NextInList(sibling: seq<int>, n: int, kept: seq<int>, list: seq<int>, i: int)
    requires 0 <= i <= |list| && Spells(sibling, n, [n] + kept + list[i..])
    ensures 0 <= ([n] + kept)[|kept|] < |sibling|
    ensures sibling[([n] + kept)[|kept|]] == if i < |list| then list[i] else -1
  {
    var spelled := [n] + kept + list[i..];
    var k := |kept|;
    assert spelled[k] == ([n] + kept)[k];
    SpellsNext(sibling, n, spelled, k);
  }

  // ---------------------------------------------------------------- the whole structure

  /** The head of the list of children: of the root for k == 0, of database k - 1 otherwise. */
  function Head(root: int, child: seq<int>, k: nat): int
    requires k <= |child|
  {
    if k == 0 then root else child[k - 1]
  }

  /** `kids[k]` lists the databases whose parent is k - 1, linked by sibling pointers. */
  ghost predicate Linked(root: int, s: Links, kids: seq<seq<int>>) {
    && |s.child| == |s.sibling| == |s.parent| == |kids| - 1
    && (forall k :: 0 <= k < |kids| ==> Distinct(kids[k]))
    && (forall k :: 0 <= k < |kids| ==> Spells(s.sibling, Head(root, s.child, k), kids[k]))
    && (forall k :: 0 <= k < |kids| ==> Children(kids[k], s.parent, k))
  }

  /** `list` holds exactly the databases whose parent is k - 1. */
  ghost predicate Children(list: seq<int>, parent: seq<int>, k: int) {
    forall x :: x in list <==> 0 <= x < |parent| && parent[x] + 1 == k
  }

  /** The pointers right after the new database is put at the head of `c`'s children. */
  function Prepended(root: int, s: Links, c: int): (r: Links)
    requires -1 <= c < |s.child| == |s.sibling| == |s.parent|
    ensures |r.child| == |r.sibling| == |r.parent| == |s.child| + 1
  {
    var n := |s.child|;
    Links((if c >= 0 then s.child[c := n] else s.child) + [-1],
          s.sibling + [Head(root, s.child, c + 1)],
          s.parent + [c])
  }

  lemma PrependedSpells(root: int, s: Links, kids: seq<seq<int>>, c: int)
    requires Linked(root, s, kids) && -1 <= c < |s.child|
    ensures var n, list, r := |s.child|, kids[c + 1], Prepended(root, s, c);
            && Spells(r.sibling, n, [n] + list) && r.child[n] == -1
            && Distinct(list) && n !in list && forall k :: 0 <= k < |list| ==> 0 <= list[k] < n
  {
    var n, list, r := |s.child|, kids[c + 1], Prepended(root, s, c);
    assert Spells(s.sibling, Head(root, s.child, c + 1), list);
    SpellsFrame(s.sibling, r.sibling, Head(root, s.child, c + 1), list);
    assert forall k :: 0 <= k < |list| ==> list[k] in list;
    SpellsPush(r.sibling, Head(root, s.child, c + 1), list, n);
    assert r.sibling[n := Head(root, s.child, c + 1)] == r.sibling;
  }

  /** Lists other than `c`'s are untouched by the adoption. */
  lemma OtherListsKept(ctx: seq<Str>, root: int, s: Links, kids: seq<seq<int>>, c: int, p: Str,
                       s': Links, kept: seq<int>, moved: seq<int>, k: int)
    requires Linked(root, s, kids) && -1 <= c < |s.child| == |ctx|
    requires var n, list := |ctx|, kids[c + 1];
             Adopting(ctx + [p], Prepended(root, s, c), s', p, n, list, |list|, kept, moved)
    requires 0 <= k < |kids| && k != c + 1
    ensures Spells(s'.sibling, Head(if c < 0 then |ctx| else root, s'.child, k), kids[k])
  {
    var n, list := |ctx|, kids[c + 1];
    assert Spells(s.sibling, Head(root, s.child, k), kids[k]);
    forall x | x in kids[k] ensures s'.sibling[x] == s.sibling[x] {
      assert Children(kids[c + 1], s.parent, c + 1) && Children(kids[k], s.parent, k);
      assert x !in list && x != n;
    }
    SpellsFrame(s.sibling, s'.sibling, Head(root, s.child, k), kids[k]);
  }

  lemma AdoptedLinked(ctx: seq<Str>, root: int, s: Links, kids: seq<seq<int>>, c: int, p: Str,
                      s': Links, kept: seq<int>, moved: seq<int>)
    requires Linked(root, s, kids) && -1 <= c < |s.child| == |ctx|
    requires forall i :: 0 <= i < |ctx| ==> IsParentIndex(s.parent[i], |ctx|)
    requires var n, list := |ctx|, kids[c + 1];
             Adopting(ctx + [p], Prepended(root, s, c), s', p, n, list, |list|, kept, moved)
    ensures s'.parent == ParentsAfter(ctx, s.parent, p, c)
    ensures Linked(if c < 0 then |ctx| else root, s', kids[c + 1 := [|ctx|] + kept] + [moved])
  {
    var n, list := |ctx|, kids[c + 1];
    var kids' := kids[c + 1 := [n] + kept] + [moved];
    var root' := if c < 0 then n else root;
    assert list[..|list|] == list && [n] + kept + list[|list|..] == [n] + kept;
    assert Children(list, s.parent, c + 1);
    forall k | 0 <= k < |kept| ensures kept[k] < n {
      assert kept[k] in kept;
    }
    var after := ParentsAfter(ctx, s.parent, p, c);
    forall x | 0 <= x <= n ensures s'.parent[x] == after[x] {
      assert x in moved <==> x in list && p <= (ctx + [p])[x];
      assert x in list <==> 0 <= x < n && s.parent[x] + 1 == c + 1;
    }
    assert s'.parent == after;
    assert Distinct([n] + kept);
    forall k | 0 <= k < |kids'| ensures Spells(s'.sibling, Head(root', s'.child, k), kids'[k]) && Distinct(kids'[k]) {
      if k < |kids| && k != c + 1 {
        OtherListsKept(ctx, root, s, kids, c, p, s', kept, moved, k);
      }
    }
    AdoptedMembers(ctx, s, kids, c, p, s', kept, moved);
  }

  lemma AdoptedMembers(ctx: seq<Str>, s: Links, kids: seq<seq<int>>, c: int, p: Str,
                       s': Links, kept: seq<int>, moved: seq<int>)
    requires |s.parent| == |ctx| == |kids| - 1 && -1 <= c < |ctx|
    requires forall k :: 0 <= k < |kids| ==> Children(kids[k], s.parent, k)
    requires Partitioned(ctx + [p], p, kids[c + 1], kept, moved)
    requires forall i :: 0 <= i < |ctx| ==> IsParentIndex(s.parent[i], |ctx|)
    requires s'.parent == ParentsAfter(ctx, s.parent, p, c)
    ensures var kids' := kids[c + 1 := [|ctx|] + kept] + [moved];
            forall k :: 0 <= k < |kids'| ==> Children(kids'[k], s'.parent, k)
  {
    var n := |ctx|;
    var kids' := kids[c + 1 := [n] + kept] + [moved];
    assert Children(kids[c + 1], s.parent, c + 1);
    forall k | 0 <= k < |kids'| ensures Children(kids'[k], s'.parent, k) {
      if k < |kids| {
        assert Children(kids[k], s.parent, k);
      }
    }
  }

  ghost predicate IsParentIndex(q: int, n: nat) {
    -1 <= q < n
  }

  // ---------------------------------------------------------------- a second database for the same context

  /** The pointers after putting the new database between `c` and all its children. */
  function Interposed(s: Links, c: int, parent: seq<int>): (r: Links)
    requires 0 <= c < |s.child|
  {
    Links(s.child[c := |s.child|] + [s.child[c]], s.sibling + [-1], parent + [c])
  }

  lemma InterposedLinked(ctx: seq<Str>, root: int, s: Links, kids: seq<seq<int>>, c: int, p: Str, parent: seq<int>)
    requires Linked(root, s, kids) && 0 <= c < |s.child| == |ctx|
    requires forall i :: 0 <= i < |ctx| ==> IsParent(ctx, i, s.parent[i])
    requires ctx[c] == p
    requires |parent| == |ctx|
    requires forall x :: 0 <= x < |ctx| ==> parent[x] == if x in kids[c + 1] then |ctx| else s.parent[x]
    ensures Interposed(s, c, parent).parent == ParentsAfter(ctx, s.parent, p, c)
    ensures Linked(root, Interposed(s, c, parent), kids[c + 1 := [|ctx|]] + [kids[c + 1]])
  {
    var n, list, s' := |ctx|, kids[c + 1], Interposed(s, c, parent);
    var kids' := kids[c + 1 := [n]] + [list];
    assert Children(list, s.parent, c + 1);
    var after := ParentsAfter(ctx, s.parent, p, c);
    forall x | 0 <= x < n ensures parent[x] == after[x] {
      assert IsParent(ctx, x, s.parent[x]);
      assert x in list <==> s.parent[x] + 1 == c + 1;
    }
    assert s'.parent == after;
    forall k | 0 <= k < |kids'|
      ensures Spells(s'.sibling, Head(root, s'.child, k), kids'[k]) && Distinct(kids'[k]) &&
              Children(kids'[k], s'.parent, k)
    {
      var k0 := if k < |kids| then k else c + 1;
      assert Spells(s.sibling, Head(root, s.child, k0), kids[k0]) && Children(kids[k0], s.parent, k0) &&
             Distinct(kids[k0]);
      assert IsParent(ctx, c, s.parent[c]);
      SpellsFrame(s.sibling, s'.sibling, Head(root, s.child, k0), kids[k0]);
    }
  }

  /** Walk a list of siblings, making `n` their parent. */
  method Reparent(s: Links, head: int, n: int, ghost list: seq<int>) returns (parent: seq<int>)
    requires Spells(s.sibling, head, list) && Distinct(list) && |s.parent| == |s.sibling|
    ensures |parent| == |s.parent|
    ensures forall x :: 0 <= x < |parent| ==> parent[x] == if x in list then n else s.parent[x]
  {
    parent := s.parent;
    var x := head;
    ghost var i := 0;
    while x != -1
      invariant 0 <= i <= |list| && x == (if i < |list| then list[i] else -1)
      invariant |parent| == |s.parent|
      invariant forall y :: 0 <= y < |parent| ==> parent[y] == if y in list[..i] then n else s.parent[y]
      decreases |list| - i
    {
      assert list[..i + 1] == list[..i] + [list[i]];
      SpellsNext(s.sibling, head, list, i);
      parent := parent[x := n];
      x := s.sibling[x];
      i := i + 1;
    }
    assert i == |list| && list[..i] == list;
  }

  // ---------------------------------------------------------------- the tree

  /** The answer of the most specific applicable database that defines the name. */
  ghost predicate Answers<V>(ctx: seq<Str>, contents: seq<map<Str, V>>, prefix: Str, name: Str, r: Option<V>)
    requires |ctx| == |contents|
  {
    match r
    case None => forall j :: Applies(ctx, j, prefix) ==> name !in contents[j]
    case Some(v) => exists i :: Wins(ctx, contents, prefix, name, i) && contents[i][name] == v
  }

  /** Of the applicable databases that define the name, `i` has the longest context, and is the latest for it. */
  ghost predicate Wins<V>(ctx: seq<Str>, contents: seq<map<Str, V>>, prefix: Str, name: Str, i: int)
    requires |ctx| == |contents|
  {
    && Applies(ctx, i, prefix) && name in contents[i]
    && forall j :: Applies(ctx, j, prefix) && name in contents[j] ==> j == i || KeyLess(ctx, j, i)
  }

  class ContextTree<V> {
    var ctx: seq<Str>
    var contents: seq<map<Str, V>>
    var root: int
    var links: Links
    ghost var kids: seq<seq<int>>

    ghost predicate Valid()
      reads this
    {
      && |contents| == |ctx| == |links.child| == |links.sibling| == |links.parent|
      && Parented(ctx, links.parent)
      && Linked(root, links, kids)
    }

    constructor ()
      ensures Valid() && ctx == [] && contents == []
    {
      ctx, contents, root, links, kids := [], [], -1, Links([], [], []), [[]];
    }

    /** The walk of `namedb`: descend into a database that applies, else go on to its sibling. */
    method Closest(prefix: Str) returns (closest: int)
      requires Valid()
      ensures IsClosest(ctx, prefix, closest)
    {
      closest := -1;
      var db := root;
      ghost var k, list := 0, kids[0];
      assert Spells(links.sibling, Head(root, links.child, 0), list);
      while db != -1
        invariant -1 <= closest < |ctx| && (closest >= 0 ==> Applies(ctx, closest, prefix))
        invariant list == kids[closest + 1] && 0 <= k <= |list|
        invariant db == (if k < |list| then list[k] else -1)
        invariant forall j :: 0 <= j < k ==> !Applies(ctx, list[j], prefix)
        decreases (if closest < 0 then |prefix| + 1 else |prefix| - |ctx[closest]|), |ctx| - closest, |list| - k
      {
        assert Spells(links.sibling, Head(root, links.child, closest + 1), list);
        assert Children(list, links.parent, closest + 1);
        SpellsNext(links.sibling, Head(root, links.child, closest + 1), list, k);
        assert IsParent(ctx, db, links.parent[db]);
        if |ctx[db]| <= |prefix| && ctx[db] <= prefix {
          assert Spells(links.sibling, Head(root, links.child, db + 1), kids[db + 1]);
          closest := db;
          db := links.child[db];
          k, list := 0, kids[closest + 1];
        } else {
          db := links.sibling[db];
          k := k + 1;
        }
      }
      NoneApplies(ctx, links.parent, list, closest, prefix);
    }

    /** Put a database for a context that has none below the closest one, adopting those inside it. */
    method InstallNew(p: Str, c: int, content: map<Str, V>)
      requires Valid() && IsClosest(ctx, p, c) && (c >= 0 ==> ctx[c] != p)
      modifies this
      ensures Valid() && ctx == old(ctx) + [p] && contents == old(contents) + [content]
    {
      var n := |ctx|;
      ghost var list := kids[c + 1];
      PrependedSpells(root, links, kids, c);
      ExactIsClosest(ctx, p, c);
      var s, kept, moved := Adopt(ctx + [p], Prepended(root, links, c), p, n, list);
      AdoptedTree(ctx, root, links, kids, c, p, s, kept, moved);
      if c < 0 {
        root := n;
      }
      links, kids := s, kids[c + 1 := [n] + kept] + [moved];
      ctx, contents := ctx + [p], contents + [content];
    }

    /** Put a second database for the same context between the first and its children. */
    method InstallAgain(p: Str, c: int, content: map<Str, V>)
      requires Valid() && IsClosest(ctx, p, c) && c >= 0 && ctx[c] == p
      modifies this
      ensures Valid() && ctx == old(ctx) + [p] && contents == old(contents) + [content]
    {
      ghost var list := kids[c + 1];
      assert Spells(links.sibling, Head(root, links.child, c + 1), list) && Children(list, links.parent, c + 1);
      if links.child[c] != -1 {
        assert links.child[c] == list[0] && list[0] in list;
        assert IsParent(ctx, list[0], c);
        ChildLonger(ctx, p, c, list[0]);
        assert |ctx[links.child[c]]| > |p|;
      }
      var parent := Reparent(links, links.child[c], |ctx|, list);
      InterposedLinked(ctx, root, links, kids, c, p, parent);
      InstallParents(ctx, links.parent, p, c);
      links, kids := Interposed(links, c, parent), kids[c + 1 := [|ctx|]] + [list];
      ctx, contents := ctx + [p], contents + [content];
    }

    /** `installdb` */
    method Install(p: Str, content: map<Str, V>)
      requires Valid()
      modifies this
      ensures Valid() && ctx == old(ctx) + [p] && contents == old(contents) + [content]
    {
      var c := Closest(p);
      if c >= 0 && ctx[c] == p {
        InstallAgain(p, c, content);
      } else {
        InstallNew(p, c, content);
      }
    }

    /** `query`, on this tree: ask the closest database, then its contextual parents. */
    method Query(prefix: Str, name: Str) returns (r: Option<V>)
      requires Valid()
      ensures Answers(ctx, contents, prefix, name, r)
    {
      var db := Closest(prefix);
      while db != -1
        invariant -1 <= db < |ctx| && (db >= 0 ==> Applies(ctx, db, prefix))
        invariant forall j :: Applies(ctx, j, prefix) && name in contents[j] ==> j == db || KeyLess(ctx, j, db)
        decreases if db < 0 then 0 else |ctx[db]| + 1, db
      {
        if name in contents[db] {
          assert Wins(ctx, contents, prefix, name, db);
          return Some(contents[db][name]);
        }
        assert IsParent(ctx, db, links.parent[db]);
        ParentIsNext(ctx, prefix, db, links.parent[db]);
        db := links.parent[db];
      }
      return None;
    }
  }

  lemma NoneApplies(ctx: seq<Str>, parent: seq<int>, list: seq<int>, c: int, prefix: Str)
    requires |parent| == |ctx| && forall i :: 0 <= i < |ctx| ==> IsParent(ctx, i, parent[i])
    requires -1 <= c < |ctx| && (c >= 0 ==> Applies(ctx, c, prefix))
    requires Children(list, parent, c + 1)
    requires forall j :: 0 <= j < |list| ==> !Applies(ctx, list[j], prefix)
    ensures IsClosest(ctx, prefix, c)
  {
    forall i | 0 <= i < |ctx| && parent[i] == c ensures !Applies(ctx, i, prefix) {
      assert i in list;
    }
    ClosestIfNoChild(ctx, parent, prefix, c);
  }

  /** The assertion of `installdb`: what is below the closest database for `p` itself has a longer context. */
  lemma ChildLonger(ctx: seq<Str>, p: Str, c: int, x: int)
    requires IsClosest(ctx, p, c) && c >= 0 && ctx[c] == p && IsParent(ctx, x, c)
    ensures |ctx[x]| > |p|
  {
    if |ctx[x]| == |p| {
      assert Applies(ctx, x, p);
    }
  }

  /** If the closest database is not for `p` itself, no database is. */
  lemma ExactIsClosest(ctx: seq<Str>, p: Str, c: int)
    requires IsClosest(ctx, p, c) && (c >= 0 ==> ctx[c] != p)
    ensures forall i :: 0 <= i < |ctx| ==> ctx[i] != p
  {
    forall i | 0 <= i < |ctx| ensures ctx[i] != p {
      if ctx[i] == p {
        assert Applies(ctx, i, p);
      }
    }
  }

  ghost predicate Parented(ctx: seq<Str>, parent: seq<int>) {
    |parent| == |ctx| && forall i :: 0 <= i < |ctx| ==> IsParent(ctx, i, parent[i])
  }

  /** After the adoption both kinds of pointers are right again. */
  lemma AdoptedTree(ctx: seq<Str>, root: int, s: Links, kids: seq<seq<int>>, c: int, p: Str,
                    s': Links, kept: seq<int>, moved: seq<int>)
    requires Parented(ctx, s.parent) && IsClosest(ctx, p, c) && Linked(root, s, kids)
    requires Adopting(ctx + [p], Prepended(root, s, c), s', p, |ctx|, kids[c + 1], |kids[c + 1]|, kept, moved)
    ensures Parented(ctx + [p], s'.parent)
    ensures Linked(if c < 0 then |ctx| else root, s', kids[c + 1 := [|ctx|] + kept] + [moved])
  {
    ParentIndices(ctx, s.parent);
    AdoptedLinked(ctx, root, s, kids, c, p, s', kept, moved);
    InstallParents(ctx, s.parent, p, c);
  }

  lemma ParentIndices(ctx: seq<Str>, parent: seq<int>)
    requires |parent| == |ctx| && forall i :: 0 <= i < |ctx| ==> IsParent(ctx, i, parent[i])
    ensures forall i :: 0 <= i < |ctx| ==> IsParentIndex(parent[i], |ctx|)
  {}

  /** There is only one such answer. */
  lemma AnswersUnique<V>(ctx: seq<Str>, contents: seq<map<Str, V>>, prefix: Str, name: Str, r: Option<V>, r': Option<V>)
    requires |ctx| == |contents| && Answers(ctx, contents, prefix, name, r) && Answers(ctx, contents, prefix, name, r')
    ensures r == r'
  {
    if r.Some? && r'.Some? {
      var i :| Wins(ctx, contents, prefix, name, i) && contents[i][name] == r.value;
      var j :| Wins(ctx, contents, prefix, name, j) && contents[j][name] == r'.value;
      assert i == j || (KeyLess(ctx, j, i) && KeyLess(ctx, i, j));
    }
  }

  /** A database as it is installed. */
  datatype Install<V> = Install(context: Str, content: map<Str, V>)

  function ContextsOf<V>(ds: seq<Install<V>>): (r: seq<Str>)
    ensures |r| == |ds|
  {
    seq(|ds|, i requires 0 <= i < |ds| => ds[i].context)
  }

  function ContentsOf<V>(ds: seq<Install<V>>): (r: seq<map<Str, V>>)
    ensures |r| == |ds|
  {
    seq(|ds|, i requires 0 <= i < |ds| => ds[i].content)
  }

  /** Any sequence of installs, then a query: the answer depends on the installs alone. */
  method QueryAfter<V>(ds: seq<Install<V>>, prefix: Str, name: Str) returns (r: Option<V>)
    ensures Answers(ContextsOf(ds), ContentsOf(ds), prefix, name, r)
  {
    var tree := new ContextTree<V>();
    for i := 0 to |ds|
      invariant fresh(tree) && tree.Valid()
      invariant tree.ctx == ContextsOf(ds[..i]) && tree.contents == ContentsOf(ds[..i])
    {
      tree.Install(ds[i].context, ds[i].content);
    }
    assert ds[..|ds|] == ds;
    r := tree.Query(prefix, name);
  }

  /** `NameInfo::query`: the databases of the element's router, if it has any, then the global ones. */
  method QueryWithFallback<V>(local: ContextTree?<V>, global: ContextTree<V>, prefix: Str, name: Str)
    returns (r: Option<V>)
    requires global.Valid() && (local != null ==> local.Valid())
    ensures local != null && (exists v :: Answers(local.ctx, local.contents, prefix, name, Some(v))) ==>
              r.Some? && Answers(local.ctx, local.contents, prefix, name, r)
    ensures local == null || Answers(local.ctx, local.contents, prefix, name, None) ==>
              Answers(global.ctx, global.contents, [], name, r)
  {
    if local != null {
      r := local.Query(prefix, name);
      if r.Some? {
        return;
      }
    }
    r := global.Query([], name);
  }
}
