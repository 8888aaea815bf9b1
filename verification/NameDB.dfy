/**
 `DynamicNameDB` (click/lib/nameinfo.cc): a modifiable map from names to
 fixed-size values.  Lookups scan linearly until there have been enough of
 them without a definition, then the names are sorted and lookups become
 binary searches.
 */
module NameDB {
  import opened QuickSort
  import opened Bytes
  import opened Collections

  /** Lookups without a definition before the database is sorted. */
  const SORT_AFTER := 20

  /** The counter value that marks a sorted database. */
  const SORTED := 100

  /** The bytes of the value at index `i`. */
  function Slot(values: seq<Byte>, vsize: nat, i: nat): (v: seq<Byte>)
    requires |values| >= vsize * i + vsize
    ensures |v| == vsize
  {
    values[vsize * i..vsize * i + vsize]
  }

  ghost predicate Shape(names: seq<Str>, values: seq<Byte>, vsize: nat) {
    && Distinct(names) && [] !in names && vsize > 0
    && |values| == vsize * |names|
  }

  lemma SlotFits(names: seq<Str>, values: seq<Byte>, vsize: nat, i: nat)
    requires |values| == vsize * |names| && i < |names|
    ensures vsize * i + vsize <= |values|
    ensures vsize * i + vsize == vsize * (i + 1)
  {
    assert vsize * (i + 1) <= vsize * |names|;
  }

  ghost function IndexOf(names: seq<Str>, s: Str): (i: nat)
    requires s in names
    ensures i < |names| && names[i] == s
  {
    var i :| 0 <= i < |names| && names[i] == s; i
  }

  /** The map the database stands for. */
  ghost function Contents(names: seq<Str>, values: seq<Byte>, vsize: nat): (m: map<Str, seq<Byte>>)
    requires Shape(names, values, vsize)
  {
    map s | s in names :: SlotFits(names, values, vsize, IndexOf(names, s)); Slot(values, vsize, IndexOf(names, s))
  }

  lemma ContentsAt(names: seq<Str>, values: seq<Byte>, vsize: nat, i: nat)
    requires Shape(names, values, vsize) && i < |names|
    ensures vsize * i + vsize <= |values|
    ensures names[i] in Contents(names, values, vsize)
    ensures Contents(names, values, vsize)[names[i]] == Slot(values, vsize, i)
  {
    SlotFits(names, values, vsize, i);
    assert IndexOf(names, names[i]) == i;
  }

  lemma SlotAppended(values: seq<Byte>, v: seq<Byte>, vsize: nat, n: nat, k: nat)
    requires |values| == vsize * n && |v| == vsize && k <= n
    ensures vsize * k + vsize <= |values + v|
    ensures Slot(values + v, vsize, k) ==
              if k == n then v else (assert vsize * (k + 1) <= vsize * n; Slot(values, vsize, k))
  {
    assert k < n ==> vsize * (k + 1) <= vsize * n;
  }

  lemma RunWritten(values: seq<Byte>, v: seq<Byte>, at: nat, from: nat)
    requires at + |v| <= |values| && from + |v| <= |values|
    requires from == at || from + |v| <= at || at + |v| <= from
    ensures var w := values[..at] + v + values[at + |v|..];
            |w| == |values| && w[from..from + |v|] == if from == at then v else values[from..from + |v|]
  {}

  /** Overwriting one slot leaves the others alone. */
  lemma SlotWritten(values: seq<Byte>, v: seq<Byte>, vsize: nat, n: nat, i: nat, k: nat)
    requires |values| == vsize * n && 0 < |v| == vsize && i < n && k < n
    ensures vsize * i + vsize <= |values| && vsize * k + vsize <= |values|
    ensures var w := values[..vsize * i] + v + values[vsize * i + vsize..];
            |w| == |values| && Slot(w, vsize, k) == if k == i then v else Slot(values, vsize, k)
  {
    var at, from := vsize * i, vsize * k;
    TwoSlots(vsize, n, i, k);
    RunWritten(values, v, at, from);
    assert at == from <==> i == k;
  }

  /** Two slots of `n` lie inside and are one or apart. */
  lemma TwoSlots(vsize: nat, n: nat, i: nat, k: nat)
    requires i < n && k < n && vsize > 0
    ensures vsize * i + vsize <= vsize * n && vsize * k + vsize <= vsize * n
    ensures i == k || vsize * k + vsize <= vsize * i || vsize * i + vsize <= vsize * k
    ensures vsize * i == vsize * k ==> i == k
  {
    SlotsApart(vsize, i, n);
    SlotsApart(vsize, k, n);
    if k < i {
      SlotsApart(vsize, k, i);
    } else if i < k {
      SlotsApart(vsize, i, k);
    }
  }

  lemma SlotsApart(vsize: nat, i: nat, k: nat)
    requires i < k
    ensures vsize * i + vsize <= vsize * k
  {
    if i + 1 < k {
      SlotsApart(vsize, i, k - 1);
    }
    assert vsize * k == vsize * (k - 1) + vsize;
  }

  /** Defining a new name at the end. */
  lemma ContentsAppended(names: seq<Str>, values: seq<Byte>, vsize: nat, name: Str, v: seq<Byte>)
    requires Shape(names, values, vsize) && name !in names && name != [] && |v| == vsize
    ensures Shape(names + [name], values + v, vsize)
    ensures Contents(names + [name], values + v, vsize) == Contents(names, values, vsize)[name := v]
  {
    var names', values' := names + [name], values + v;
    assert vsize * (|names| + 1) == vsize * |names| + vsize;
    forall s | s in names' ensures Contents(names', values', vsize)[s] == Contents(names, values, vsize)[name := v][s] {
      var k := IndexOf(names', s);
      SlotAppended(values, v, vsize, |names|, k);
      ContentsAt(names', values', vsize, k);
      if k < |names| {
        assert s == names[k];
        ContentsAt(names, values, vsize, k);
      }
    }
  }

  /** Overwriting the value of a present name. */
  lemma ContentsWritten(names: seq<Str>, values: seq<Byte>, vsize: nat, i: nat, v: seq<Byte>)
    requires Shape(names, values, vsize) && i < |names| && |v| == vsize
    ensures vsize * i + vsize <= |values|
    ensures var w := values[..vsize * i] + v + values[vsize * i + vsize..];
            && Shape(names, w, vsize)
            && Contents(names, w, vsize) == Contents(names, values, vsize)[names[i] := v]
  {
    SlotWritten(values, v, vsize, |names|, i, i);
    var w := values[..vsize * i] + v + values[vsize * i + vsize..];
    forall s | s in names ensures Contents(names, w, vsize)[s] == Contents(names, values, vsize)[names[i] := v][s] {
      var k := IndexOf(names, s);
      SlotWritten(values, v, vsize, |names|, i, k);
      ContentsAt(names, w, vsize, k);
      ContentsAt(names, values, vsize, k);
    }
  }

  ghost predicate IsPermutation(p: seq<int>, n: nat) {
    && |p| == n && Distinct(p)
    && (forall i :: 0 <= i < n ==> 0 <= p[i] < n)
    && (forall k :: 0 <= k < n ==> k in p)
  }

  lemma SortedIsPermutation(id: seq<int>, p: seq<int>)
    requires forall i :: 0 <= i < |id| ==> id[i] == i
    requires |p| == |id| && multiset(p) == multiset(id)
    ensures IsPermutation(p, |p|)
  {
    PermutedDistinct(id, p);
    forall i | 0 <= i < |p| ensures 0 <= p[i] < |p| {
      assert p[i] in multiset(p) && p[i] in multiset(id) && p[i] in id;
    }
    forall k | 0 <= k < |p| ensures k in p {
      assert id[k] in multiset(id) && k in multiset(p);
    }
  }

  /** Rearranging names and values by the same permutation keeps the map. */
  lemma ContentsPermuted(names: seq<Str>, values: seq<Byte>, vsize: nat, p: seq<int>, names': seq<Str>,
                         values': seq<Byte>)
    requires Shape(names, values, vsize) && IsPermutation(p, |names|)
    requires |names'| == |names| && |values'| == vsize * |names'|
    requires forall i :: 0 <= i < |p| ==> names'[i] == names[p[i]]
    requires forall i :: 0 <= i < |p| ==> vsize * i + vsize <= |values'| && vsize * p[i] + vsize <= |values|
                                          && Slot(values', vsize, i) == Slot(values, vsize, p[i])
    ensures Shape(names', values', vsize)
    ensures Contents(names', values', vsize) == Contents(names, values, vsize)
  {
    forall i, j | 0 <= i < j < |names'| ensures names'[i] != names'[j] {
      assert p[i] != p[j];
    }
    forall s ensures s in names <==> s in names' {
      if s in names {
        var k :| 0 <= k < |names| && names[k] == s;
        assert k in p;
        var i :| 0 <= i < |p| && p[i] == k;
        assert names'[i] == s;
      }
    }
    forall s | s in names' ensures Contents(names', values', vsize)[s] == Contents(names, values, vsize)[s] {
      var i := IndexOf(names', s);
      ContentsAt(names', values', vsize, i);
      ContentsAt(names, values, vsize, p[i]);
    }
  }

  /** The name at an index, for the comparator handed to the sort. */
  function NameAt(names: seq<Str>, i: int): Str {
    if 0 <= i < |names| then names[i] else []
  }

  function ByName(names: seq<Str>): (int, int) -> int {
    (i, j) => Compare(NameAt(names, i), NameAt(names, j))
  }

  lemma ByNameIsTotalPreorder(names: seq<Str>)
    ensures TotalPreorder(ByName(names))
  {
    var cmp := ByName(names);
    CompareIsTotalPreorder();
    forall i: int, j: int, k: int | Chain(i, j, k) && cmp(i, j) <= 0 && cmp(j, k) <= 0
      ensures cmp(i, k) <= 0
    {
      CompareTransitive(NameAt(names, i), NameAt(names, j), NameAt(names, k));
    }
  }

  /** The permutation that sorts the names, by `click_qsort`. */
  method SortingPermutation(names: seq<Str>) returns (p: seq<int>)
    requires Distinct(names)
    ensures IsPermutation(p, |names|)
    ensures forall i, j :: 0 <= i < j < |p| ==> Compare(names[p[i]], names[p[j]]) < 0
  {
    var a := Indices(|names|);
    ghost var id := a[..];
    ByNameIsTotalPreorder(names);
    p := SortIndices(a, ByName(names));
    SortsNames(names, id, p);
  }

  method Indices(n: nat) returns (a: array<int>)
    ensures fresh(a) && a.Length == n && forall i :: 0 <= i < n ==> a[..][i] == i
  {
    a := new int[n](i => i);
  }

  method SortIndices(a: array<int>, cmp: (int, int) -> int) returns (p: seq<int>)
    requires TotalPreorder(cmp)
    modifies a
    ensures PermutedWithin(old(a[..]), p, 0, a.Length) && Sorted(p, cmp)
  {
    var n := a.Length;
    IndexWidth(n + 1);
    ClickQsort(a, 0, n, cmp, n + 1);
    p := a[..];
    assert a[0..0 + n] == p;
  }

  lemma SortsNames(names: seq<Str>, id: seq<int>, p: seq<int>)
    requires Distinct(names) && |id| == |names| && (forall i :: 0 <= i < |id| ==> id[i] == i)
    requires PermutedWithin(id, p, 0, |id|) && Sorted(p, ByName(names))
    ensures IsPermutation(p, |names|)
    ensures forall i, j :: 0 <= i < j < |p| ==> Compare(names[p[i]], names[p[j]]) < 0
  {
    SortedIsPermutation(id, p);
    SortedIsStrict(names, p);
  }

  lemma SortedIsStrict(names: seq<Str>, p: seq<int>)
    requires Distinct(names) && IsPermutation(p, |names|) && Sorted(p, ByName(names))
    ensures forall i, j :: 0 <= i < j < |p| ==> Compare(names[p[i]], names[p[j]]) < 0
  {
    forall i, j | 0 <= i < j < |p| ensures Compare(names[p[i]], names[p[j]]) < 0 {
      assert ByName(names)(p[i], p[j]) <= 0;
      assert p[i] != p[j];
    }
  }

  /** The first `i` values, in the permutation's order. */
  ghost predicate Copied(values: seq<Byte>, vsize: nat, p: seq<int>, values': seq<Byte>, i: nat) {
    && |values'| == vsize * i && i <= |p|
    && (forall k :: 0 <= k < i ==>
          && 0 <= p[k] && vsize * k + vsize <= |values'| && vsize * p[k] + vsize <= |values|
          && Slot(values', vsize, k) == Slot(values, vsize, p[k]))
  }

  lemma CopyStep(values: seq<Byte>, vsize: nat, p: seq<int>, values': seq<Byte>, i: nat)
    requires Copied(values, vsize, p, values', i) && i < |p|
    requires 0 <= p[i] && vsize * p[i] + vsize <= |values|
    ensures Copied(values, vsize, p, values' + Slot(values, vsize, p[i]), i + 1)
  {
    var v := Slot(values, vsize, p[i]);
    assert vsize * (i + 1) == vsize * i + vsize;
    forall k | 0 <= k <= i
      ensures vsize * k + vsize <= |values' + v| && vsize * p[k] + vsize <= |values|
      ensures Slot(values' + v, vsize, k) == Slot(values, vsize, p[k])
    {
      SlotAppended(values', v, vsize, i, k);
      if k < i {
        assert Slot(values', vsize, k) == Slot(values, vsize, p[k]);
      }
    }
  }

  /** The names and values read out in the permutation's order. */
  method Rearranged(names: seq<Str>, values: seq<Byte>, vsize: nat, p: seq<int>) returns (names': seq<Str>,
                    values': seq<Byte>)
    requires Shape(names, values, vsize) && IsPermutation(p, |names|)
    ensures |names'| == |names| && forall i :: 0 <= i < |p| ==> names'[i] == names[p[i]]
    ensures Shape(names', values', vsize) && Contents(names', values', vsize) == Contents(names, values, vsize)
  {
    names', values' := [], [];
    for i := 0 to |p|
      invariant |names'| == i
      invariant forall k :: 0 <= k < i ==> names'[k] == names[p[k]]
      invariant Copied(values, vsize, p, values', i)
    {
      SlotFits(names, values, vsize, p[i]);
      CopyStep(values, vsize, p, values', i);
      names', values' := names' + [names[p[i]]], values' + Slot(values, vsize, p[i]);
    }
    ContentsPermuted(names, values, vsize, p, names', values');
  }

  class DynamicNameDB {
    const vsize: nat
    var sorted: nat
    var names: seq<Str>
    var values: seq<Byte>

    ghost predicate Valid()
      reads this
    {
      && Shape(names, values, vsize)
      && sorted <= SORTED
      && (sorted == SORTED ==> StrictlySorted(names))
    }

    ghost function Map(): (m: map<Str, seq<Byte>>)
      requires Valid()
      reads this
    {
      Contents(names, values, vsize)
    }

    constructor (vsize: nat)
      requires vsize > 0
      ensures Valid() && this.vsize == vsize && Map() == map[]
    {
      this.vsize := vsize;
      sorted, names, values := 0, [], [];
    }

    /** `sort`: order the names, moving every value with its name. */
    method Sort()
      requires Valid()
      modifies this
      ensures Valid() && Map() == old(Map())
      ensures names != [] ==> sorted == SORTED
      ensures names == [] ==> sorted == old(sorted)
    {
      if sorted == SORTED || |names| == 0 {
        return;
      }
      var p := SortingPermutation(names);
      var names', values' := Rearranged(names, values, vsize, p);
      names, values, sorted := names', values', SORTED;
    }

    /**
     `find`: the index of a name's value, or -1.  With `create`, a missing
     nonempty name is added first, its value unspecified.
     */
    method Find(name: Str, create: bool) returns (i: int)
      requires Valid()
      modifies this
      ensures Valid()
      ensures name in old(Map()) ==> Map() == old(Map())
      ensures name !in old(Map()) && create && name != [] ==>
                name in Map() && Map() == old(Map())[name := Map()[name]]
      ensures name !in old(Map()) && !(create && name != []) ==> Map() == old(Map())
      ensures name in Map() ==> 0 <= i < |names| && names[i] == name
      ensures name !in Map() ==> i == -1
    {
      if sorted > SORT_AFTER {
        Sort();
      }
      if sorted == SORTED {
        i := BinarySearch(names, name);
      } else {
        sorted := sorted + 1;
        i := LinearSearch(names, name);
      }
      if i >= 0 {
        return;
      }
      if create && name != [] {
        var blank := seq(vsize, _ => 0);
        ContentsAppended(names, values, vsize, name, blank);
        sorted := 0;
        names := names + [name];
        values := values + blank;
        i := |names| - 1;
      }
    }

    method Query(name: Str) returns (r: Option<seq<Byte>>)
      requires Valid()
      modifies this
      ensures Valid() && Map() == old(Map())
      ensures r == if name in old(Map()) then Some(old(Map())[name]) else None
    {
      var i := Find(name, false);
      if i >= 0 {
        ContentsAt(names, values, vsize, i);
        r := Some(Slot(values, vsize, i));
      } else {
        r := None;
      }
    }

    method Define(name: Str, value: seq<Byte>) returns (ok: bool)
      requires Valid() && |value| == vsize
      modifies this
      ensures Valid()
      ensures ok <==> name != []
      ensures Map() == if ok then old(Map())[name := value] else old(Map())
    {
      var i := Find(name, true);
      ok := i >= 0;
      if ok {
        Store(i, value);
      }
    }

    /** Copy a value into slot `i`. */
    method Store(i: nat, value: seq<Byte>)
      requires Valid() && i < |names| && |value| == vsize
      modifies this`values
      ensures Valid() && Map() == old(Map())[names[i] := value]
    {
      ContentsWritten(names, values, vsize, i, value);
      values := values[..vsize * i] + value + values[vsize * i + vsize..];
    }
  }

  method LinearSearch(names: seq<Str>, name: Str) returns (i: int)
    ensures name in names ==> 0 <= i < |names| && names[i] == name
    ensures name !in names ==> i == -1
  {
    i := 0;
    while i < |names|
      invariant 0 <= i <= |names| && name !in names[..i]
    {
      if name == names[i] {
        return i;
      }
      i := i + 1;
    }
    return -1;
  }

  method BinarySearch(names: seq<Str>, name: Str) returns (i: int)
    requires StrictlySorted(names)
    ensures name in names ==> 0 <= i < |names| && names[i] == name
    ensures name !in names ==> i == -1
  {
    var l, r := 0, |names|;
    while l < r
      invariant 0 <= l <= r <= |names|
      invariant forall k :: 0 <= k < |names| && !(l <= k < r) ==> names[k] != name
    {
      var m := l + (r - l) / 2;
      var cmp := Compare(name, names[m]);
      CompareFlips(name, names[m]);
      assert forall k :: 0 <= k < m ==> Less(names[k], names[m]);
      assert forall k :: m < k < |names| ==> Less(names[m], names[k]);
      if cmp == 0 {
        return m;
      } else if cmp < 0 {
        r := m;
      } else {
        l := m + 1;
      }
    }
    return -1;
  }

  // ---------------------------------------------------------------- whole histories

  datatype Op = Define(name: Str, value: seq<Byte>) | Query(name: Str)

  datatype Answer = Defined(ok: bool) | Found(r: Option<seq<Byte>>)

  /** What a plain map would hold after the operation. */
  function MapAfter(m: map<Str, seq<Byte>>, op: Op): map<Str, seq<Byte>> {
    match op
    case Define(name, value) => if name == [] then m else m[name := value]
    case Query(_) => m
  }

  /** What a plain map would answer. */
  function MapAnswer(m: map<Str, seq<Byte>>, op: Op): Answer {
    match op
    case Define(name, _) => Defined(name != [])
    case Query(name) => Found(if name in m then Some(m[name]) else None)
  }

  function MapAnswers(m: map<Str, seq<Byte>>, ops: seq<Op>): (r: seq<Answer>)
    ensures |r| == |ops|
    decreases |ops|
  {
    if ops == [] then [] else [MapAnswer(m, ops[0])] + MapAnswers(MapAfter(m, ops[0]), ops[1..])
  }

  lemma {:induction false} MapAnswersStep(m: map<Str, seq<Byte>>, ops: seq<Op>, op: Op)
    ensures MapAnswers(m, ops + [op]) == MapAnswers(m, ops) + [MapAnswer(MapsTo(m, ops), op)]
    ensures MapsTo(m, ops + [op]) == MapAfter(MapsTo(m, ops), op)
    decreases |ops|
  {
    if ops != [] {
      assert (ops + [op])[1..] == ops[1..] + [op];
      MapAnswersStep(MapAfter(m, ops[0]), ops[1..], op);
    }
  }

  function MapsTo(m: map<Str, seq<Byte>>, ops: seq<Op>): map<Str, seq<Byte>>
    decreases |ops|
  {
    if ops == [] then m else MapsTo(MapAfter(m, ops[0]), ops[1..])
  }

  /** Any interleaving of definitions and queries is answered as a plain map would answer it. */
  method Replay(vsize: nat, ops: seq<Op>) returns (answers: seq<Answer>)
    requires vsize > 0 && forall i :: 0 <= i < |ops| && ops[i].Define? ==> |ops[i].value| == vsize
    ensures answers == MapAnswers(map[], ops)
  {
    var db := new DynamicNameDB(vsize);
    answers := [];
    for i := 0 to |ops|
      invariant fresh(db) && db.vsize == vsize && db.Valid()
      invariant db.Map() == MapsTo(map[], ops[..i])
      invariant answers == MapAnswers(map[], ops[..i])
    {
      MapAnswersStep(map[], ops[..i], ops[i]);
      assert ops[..i + 1] == ops[..i] + [ops[i]];
      match ops[i] {
        case Define(name, value) =>
          var ok := db.Define(name, value);
          answers := answers + [Defined(ok)];
        case Query(name) =>
          var r := db.Query(name);
          answers := answers + [Found(r)];
      }
    }
    assert ops[..|ops|] == ops;
  }
}
