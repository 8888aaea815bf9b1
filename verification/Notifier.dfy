/**
 Activity signals (click/lib/notifier.cc, click/include/click/notifier.hh).  A
 basic signal is a bit of some 32-bit word; a derived signal combines several
 and is active when one of them is.  It holds either one (word, mask) pair or
 an array of them, sorted by address and ended by a zero mask.

 Word addresses are integers counted from that of `static_value`, so that the
 static word is at 0 and other words may lie on either side of it.
 */
module Notifier {
  import opened Collections

  const STATIC := 0

  /** A word or a mask is the set of its one bits. */
  type Word = set<nat>

  // ---------------------------------------------------------------- what a signal denotes

  datatype Basic = Basic(address: int, bit: nat)

  /** A signal denotes the basic signals it listens to. */
  type Signals = set<Basic>

  const IDLE: Signals := {Basic(STATIC, 1)}
  const BUSY: Signals := {Basic(STATIC, 0)}
  const OVERDERIVED: Signals := {Basic(STATIC, 0), Basic(STATIC, 2)}

  predicate Busy(m: Signals) {
    Basic(STATIC, 0) in m
  }

  /** Not empty, and the busy bit of the static word only together with other static bits. */
  predicate Proper(m: Signals) {
    m != {} && (Busy(m) ==> forall b :: b in m ==> b.address == STATIC)
  }

  /** The sum of two signals. */
  function Combine(a: Signals, b: Signals): (r: Signals) {
    if Busy(a) || b == IDLE then a
    else if a == IDLE || Busy(b) then b
    else a + b
  }

  /** Active when one of its bits is set. */
  ghost predicate Active(m: Signals, word: int -> Word) {
    exists b :: b in m && b.bit in word(b.address)
  }

  /** The static word is `true_mask | overderived_mask`. */
  ghost predicate StaticSet(word: int -> Word) {
    word(STATIC) == {0, 2}
  }

  // ---------------------------------------------------------------- the algebra of signals

  lemma WithinIdle(m: Signals)
    requires m != {}
    ensures m <= IDLE ==> m == IDLE
  {
    var x :| x in m;
    assert m <= IDLE ==> x == Basic(STATIC, 1);
  }

  lemma UnionNotIdle(a: Signals, b: Signals)
    requires a != {} && b != {} && a + b == IDLE
    ensures a == IDLE && b == IDLE
  {
    WithinIdle(a);
    WithinIdle(b);
  }

  lemma CombineProper(a: Signals, b: Signals)
    requires Proper(a) && Proper(b)
    ensures Proper(Combine(a, b))
    ensures Busy(Combine(a, b)) <==> Busy(a) || Busy(b)
  {}

  lemma CombineAssociative(a: Signals, b: Signals, c: Signals)
    requires Proper(a) && Proper(b) && Proper(c)
    ensures Combine(Combine(a, b), c) == Combine(a, Combine(b, c))
  {
    if a + b == IDLE {
      UnionNotIdle(a, b);
    }
    if b + c == IDLE {
      UnionNotIdle(b, c);
    }
    assert (a + b) + c == a + (b + c);
  }

  /** The documentation calls derivation commutative: it is, except between two busy signals that differ. */
  lemma CombineCommutes(a: Signals, b: Signals)
    ensures Combine(a, b) == Combine(b, a) <==> !(Busy(a) && Busy(b) && a != b)
  {
    assert a + b == b + a;
  }

  lemma BusyDoesNotCommute()
    ensures Proper(BUSY) && Proper(OVERDERIVED) && BUSY != OVERDERIVED
    ensures Combine(BUSY, OVERDERIVED) == BUSY
    ensures Combine(OVERDERIVED, BUSY) == OVERDERIVED
  {
    assert Basic(STATIC, 2) in OVERDERIVED && Basic(STATIC, 2) !in BUSY;
  }

  /** A sum is active exactly when one of its terms is. */
  lemma CombineActive(a: Signals, b: Signals, word: int -> Word)
    requires StaticSet(word)
    ensures Active(Combine(a, b), word) <==> Active(a, word) || Active(b, word)
  {
    BusyIsActive(a, word);
    BusyIsActive(b, word);
    assert forall x :: x in a + b <==> x in a || x in b;
  }

  lemma BusyIsActive(m: Signals, word: int -> Word)
    requires StaticSet(word)
    ensures Busy(m) ==> Active(m, word)
    ensures !Active(IDLE, word)
  {}

  // ---------------------------------------------------------------- any number of signals

  ghost predicate AllProper(ss: seq<Signals>) {
    forall i :: 0 <= i < |ss| ==> Proper(ss[i])
  }

  /** What accumulating the signals with `+=` from an idle signal denotes. */
  function Derived(ss: seq<Signals>): (r: Signals) {
    if ss == [] then IDLE else Combine(Derived(ss[..|ss| - 1]), ss[|ss| - 1])
  }

  lemma {:induction false} DerivedProper(ss: seq<Signals>)
    requires AllProper(ss)
    ensures Proper(Derived(ss))
  {
    if ss != [] {
      var n := |ss| - 1;
      DerivedProper(ss[..n]);
      CombineProper(Derived(ss[..n]), ss[n]);
    }
  }

  /** The derived signal is active exactly when one of the signals it was derived from is. */
  lemma {:induction false} DerivedActive(ss: seq<Signals>, word: int -> Word)
    requires StaticSet(word)
    ensures Active(Derived(ss), word) <==> exists i :: 0 <= i < |ss| && Active(ss[i], word)
  {
    if ss == [] {
      BusyIsActive(IDLE, word);
    } else {
      var n := |ss| - 1;
      var init := ss[..n];
      DerivedActive(init, word);
      CombineActive(Derived(init), ss[n], word);
      assert forall i :: 0 <= i < n ==> init[i] == ss[i];
    }
  }

  /** A busy signal wins, the first one if they differ. */
  lemma {:induction false} DerivedBusy(ss: seq<Signals>, k: nat)
    requires k < |ss| && Busy(ss[k]) && forall i :: 0 <= i < k ==> !Busy(ss[i])
    ensures Derived(ss) == ss[k]
  {
    var n := |ss| - 1;
    if k < n {
      DerivedBusy(ss[..n], k);
    } else {
      DerivedQuiet(ss[..n]);
    }
  }

  lemma {:induction false} DerivedQuiet(ss: seq<Signals>)
    requires forall i :: 0 <= i < |ss| ==> !Busy(ss[i])
    ensures !Busy(Derived(ss))
  {
    if ss != [] {
      DerivedQuiet(ss[..|ss| - 1]);
    }
  }

  /** Without busy signals, the derived signal denotes exactly the union of the non-idle ones. */
  lemma {:induction false} DerivedIsUnion(ss: seq<Signals>)
    requires AllProper(ss) && forall i :: 0 <= i < |ss| ==> !Busy(ss[i])
    ensures Derived(ss) == if AllIdle(ss) then IDLE else UnionOf(ss)
  {
    if ss != [] {
      var n := |ss| - 1;
      var init, last := ss[..n], ss[n];
      assert forall i :: 0 <= i < n ==> init[i] == ss[i];
      DerivedIsUnion(init);
      DerivedQuiet(init);
      UnionOfLast(ss);
      if !AllIdle(init) {
        NotIdleUnion(init);
      } else {
        IdleUnion(init);
      }
    }
  }

  ghost predicate AllIdle(ss: seq<Signals>) {
    forall i :: 0 <= i < |ss| ==> ss[i] == IDLE
  }

  /** The basic signals of the signals that are not idle. */
  ghost function UnionOf(ss: seq<Signals>): (r: Signals) {
    set i, b | 0 <= i < |ss| && ss[i] != IDLE && b in ss[i] :: b
  }

  lemma UnionOfLast(ss: seq<Signals>)
    requires ss != []
    ensures var n := |ss| - 1; UnionOf(ss) == UnionOf(ss[..n]) + if ss[n] == IDLE then {} else ss[n]
  {}

  lemma IdleUnion(ss: seq<Signals>)
    requires AllIdle(ss)
    ensures UnionOf(ss) == {}
  {}

  lemma {:induction false} NotIdleUnion(ss: seq<Signals>)
    requires AllProper(ss) && !AllIdle(ss)
    ensures UnionOf(ss) != {} && UnionOf(ss) != IDLE
  {
    var i :| 0 <= i < |ss| && ss[i] != IDLE;
    assert ss[i] <= UnionOf(ss);
    WithinIdle(ss[i]);
  }

  /** No two busy signals among them differ. */
  ghost predicate OneBusy(ss: seq<Signals>) {
    forall i, j :: 0 <= i < |ss| && 0 <= j < |ss| && Busy(ss[i]) && Busy(ss[j]) ==> ss[i] == ss[j]
  }

  lemma WithoutProper(ss: seq<Signals>, i: nat)
    requires i < |ss| && AllProper(ss) && OneBusy(ss)
    ensures AllProper(Without(ss, i)) && OneBusy(Without(ss, i))
  {
    var r := Without(ss, i);
    assert forall k :: 0 <= k < |r| ==> r[k] == ss[if k < i then k else k + 1];
  }

  lemma WithoutOne<T>(ss: seq<T>, i: nat)
    requires i < |ss|
    ensures multiset(Without(ss, i)) == multiset(ss) - multiset{ss[i]}
  {
    assert ss == ss[..i] + ([ss[i]] + ss[i + 1..]);
  }

  lemma WithoutLast(ss: seq<Signals>, i: nat)
    requires i < |ss| - 1
    ensures Derived(Without(ss, i)) == Combine(Derived(Without(ss[..|ss| - 1], i)), ss[|ss| - 1])
  {
    var n := |ss| - 1;
    var rest := Without(ss[..n], i);
    assert Without(ss, i) == rest + [ss[n]] && (rest + [ss[n]])[..n - 1] == rest;
  }

  lemma Exchange(a: Signals, b: Signals, c: Signals)
    requires Proper(a) && Proper(b) && Proper(c) && (Busy(b) && Busy(c) ==> b == c)
    ensures Combine(Combine(a, b), c) == Combine(Combine(a, c), b)
  {
    CombineAssociative(a, b, c);
    CombineAssociative(a, c, b);
    CombineCommutes(b, c);
  }

  /** Any one of the signals may be added last. */
  lemma {:induction false} AddLast(ss: seq<Signals>, i: nat)
    requires i < |ss| && AllProper(ss) && OneBusy(ss)
    ensures Derived(ss) == Combine(Derived(Without(ss, i)), ss[i])
  {
    var n := |ss| - 1;
    var init, last := ss[..n], ss[n];
    if i == n {
      assert Without(ss, i) == init;
    } else {
      AddLast(init, i);
      WithoutProper(init, i);
      WithoutLast(ss, i);
      DerivedProper(Without(init, i));
      Exchange(Derived(Without(init, i)), ss[i], last);
    }
  }

  /** The order of the signals does not matter. */
  lemma {:induction false} DerivedAnyOrder(ss: seq<Signals>, tt: seq<Signals>)
    requires AllProper(ss) && OneBusy(ss) && multiset(ss) == multiset(tt)
    ensures Derived(ss) == Derived(tt)
    decreases |tt|
  {
    if tt == [] {
      assert |multiset(ss)| == |ss| && |multiset(tt)| == 0;
    } else {
      var n := |tt| - 1;
      var last, init := tt[n], tt[..n];
      assert tt == init + [last];
      assert last in multiset(tt);
      var i :| 0 <= i < |ss| && ss[i] == last;
      WithoutOne(ss, i);
      AddLast(ss, i);
      WithoutProper(ss, i);
      DerivedAnyOrder(Without(ss, i), init);
    }
  }

  lemma BusyFirst(ss: seq<Signals>, i: nat)
    requires i < |ss| && Busy(ss[i])
    ensures Derived([ss[i]] + Without(ss, i)) == ss[i]
    ensures multiset([ss[i]] + Without(ss, i)) == multiset(ss)
  {
    WithoutOne(ss, i);
    DerivedBusy([ss[i]] + Without(ss, i), 0);
  }

  /** Every order of the signals gives the same sum exactly when no two busy ones differ. */
  lemma OrderIndependentIff(ss: seq<Signals>)
    requires AllProper(ss)
    ensures OneBusy(ss) <==> forall tt :: multiset(tt) == multiset(ss) ==> Derived(tt) == Derived(ss)
  {
    if OneBusy(ss) {
      forall tt | multiset(tt) == multiset(ss)
        ensures Derived(tt) == Derived(ss)
      {
        DerivedAnyOrder(ss, tt);
      }
    } else {
      var tt := OtherOrder(ss);
    }
  }

  lemma OtherOrder(ss: seq<Signals>) returns (tt: seq<Signals>)
    requires !OneBusy(ss)
    ensures multiset(tt) == multiset(ss) && Derived(tt) != Derived(ss)
  {
    var i, j :| 0 <= i < |ss| && 0 <= j < |ss| && Busy(ss[i]) && Busy(ss[j]) && ss[i] != ss[j];
    BusyFirst(ss, i);
    BusyFirst(ss, j);
    tt := [ss[if Derived(ss) == ss[i] then j else i]] + Without(ss, if Derived(ss) == ss[i] then j else i);
  }

  // ---------------------------------------------------------------- the array of pairs

  datatype VmPair = VmPair(address: int, mask: Word)

  /** Strictly sorted by address, no empty masks. */
  ghost predicate Canonical(l: seq<VmPair>) {
    && (forall i :: 0 <= i < |l| ==> l[i].mask != {})
    && (forall i, j :: 0 <= i < j < |l| ==> l[i].address < l[j].address)
  }

  function Bits(address: int, mask: Word): (r: Signals) {
    set k | k in mask :: Basic(address, k)
  }

  function Meaning(l: seq<VmPair>): (r: Signals) {
    if l == [] then {} else Meaning(l[..|l| - 1]) + Bits(l[|l| - 1].address, l[|l| - 1].mask)
  }

  lemma {:induction false} MeaningAt(l: seq<VmPair>, b: Basic)
    ensures b in Meaning(l) <==> exists i :: 0 <= i < |l| && l[i].address == b.address && b.bit in l[i].mask
  {
    if l != [] {
      var n := |l| - 1;
      MeaningAt(l[..n], b);
      assert b in Bits(l[n].address, l[n].mask) <==> l[n].address == b.address && b.bit in l[n].mask;
      assert forall i :: 0 <= i < n ==> l[..n][i] == l[i];
    }
  }

  /** What a canonical array denotes at one address is one entry's mask. */
  lemma MeaningOne(l: seq<VmPair>, i: nat, b: nat)
    requires Canonical(l) && i < |l|
    ensures Basic(l[i].address, b) in Meaning(l) <==> b in l[i].mask
  {
    MeaningAt(l, Basic(l[i].address, b));
  }

  /** Two canonical arrays that denote the same set are the same array. */
  lemma CanonicalUnique(l: seq<VmPair>, l': seq<VmPair>)
    requires Canonical(l) && Canonical(l') && Meaning(l) == Meaning(l')
    ensures l == l'
  {
    SamePrefix(l, l', |l|);
    SamePrefix(l', l, |l'|);
  }

  lemma {:induction false} SamePrefix(l: seq<VmPair>, l': seq<VmPair>, k: nat)
    requires Canonical(l) && Canonical(l') && Meaning(l) == Meaning(l') && k <= |l|
    ensures k <= |l'| && l[..k] == l'[..k]
  {
    if k > 0 {
      SamePrefix(l, l', k - 1);
      var j := Found(l, l', k - 1);
      assert forall i :: 0 <= i < k - 1 ==> l[i] == l[..k - 1][i] == l'[i];
      assert j >= k - 1;
      var j' := Found(l', l, k - 1);
      assert j' >= k - 1;
      assert l[k - 1].address == l'[k - 1].address;
      SameMask(l, l', k - 1);
    }
  }

  lemma Found(l: seq<VmPair>, l': seq<VmPair>, i: nat) returns (j: nat)
    requires Canonical(l) && Meaning(l) == Meaning(l') && i < |l|
    ensures j < |l'| && l'[j].address == l[i].address
  {
    var b :| b in l[i].mask;
    MeaningAt(l, Basic(l[i].address, b));
    MeaningAt(l', Basic(l[i].address, b));
    j :| 0 <= j < |l'| && l'[j].address == l[i].address;
  }

  lemma SameMask(l: seq<VmPair>, l': seq<VmPair>, i: nat)
    requires Canonical(l) && Canonical(l') && Meaning(l) == Meaning(l')
    requires i < |l| && i < |l'| && l[i].address == l'[i].address
    ensures l[i] == l'[i]
  {
    forall b: nat
      ensures b in l[i].mask <==> b in l'[i].mask
    {
      MeaningOne(l, i, b);
      MeaningOne(l', i, b);
    }
  }

  /** `i` is where an address belongs. */
  ghost predicate Place(l: seq<VmPair>, address: int, i: nat) {
    && i <= |l|
    && (forall k :: 0 <= k < i ==> l[k].address < address)
    && (forall k :: i <= k < |l| ==> address <= l[k].address)
  }

  function Merged(l: seq<VmPair>, i: nat, address: int, mask: Word): (r: seq<VmPair>)
    requires i <= |l|
  {
    if i < |l| && l[i].address == address then l[i := VmPair(address, l[i].mask + mask)]
    else l[..i] + [VmPair(address, mask)] + l[i..]
  }

  lemma MergedCanonical(l: seq<VmPair>, i: nat, address: int, mask: Word)
    requires Canonical(l) && Place(l, address, i) && mask != {}
    ensures Canonical(Merged(l, i, address, mask))
  {}

  lemma MergedMeaning(l: seq<VmPair>, i: nat, address: int, mask: Word)
    requires i <= |l|
    ensures Meaning(Merged(l, i, address, mask)) == Meaning(l) + Bits(address, mask)
  {
    forall b
      ensures b in Meaning(Merged(l, i, address, mask)) <==> b in Meaning(l) || b in Bits(address, mask)
    {
      MeaningAt(l, b);
      MeaningAt(Merged(l, i, address, mask), b);
      MergedAt(l, i, address, mask, b);
    }
  }

  lemma MergedAt(l: seq<VmPair>, i: nat, address: int, mask: Word, b: Basic)
    requires i <= |l|
    ensures var r := Merged(l, i, address, mask);
      (exists k :: 0 <= k < |r| && r[k].address == b.address && b.bit in r[k].mask) <==>
      || (exists k :: 0 <= k < |l| && l[k].address == b.address && b.bit in l[k].mask)
      || (address == b.address && b.bit in mask)
  {
    var r := Merged(l, i, address, mask);
    if i < |l| && l[i].address == address {
      assert r[i] == VmPair(address, l[i].mask + mask);
      assert forall k :: 0 <= k < |l| && k != i ==> r[k] == l[k];
    } else {
      assert r[i] == VmPair(address, mask);
      assert forall k :: 0 <= k < i ==> r[k] == l[k];
      assert forall k :: i <= k < |l| ==> r[k + 1] == l[k];
      assert forall k :: i < k < |r| ==> r[k] == l[k - 1];
    }
  }

  // ---------------------------------------------------------------- the signal object

  const END := VmPair(STATIC, {})

  /** An array of pairs: nonzero masks in strictly increasing address order, then a zero mask. */
  ghost predicate Ended(l: seq<VmPair>) {
    && l != []
    && l[|l| - 1].mask == {}
    && Canonical(l[..|l| - 1])
  }

  lemma MergedIn(l: seq<VmPair>, i: nat, address: int, m: Word, pairs: seq<VmPair>, l': seq<VmPair>)
    requires Canonical(l) && Place(l, address, i) && m != {} && l' == Merged(l, i, address, m)
    requires pairs != [] && pairs[|pairs| - 1].mask == {} && pairs[..|pairs| - 1] == l'
    ensures Ended(pairs) && Meaning(l') == Meaning(l) + Bits(address, m)
  {
    MergedCanonical(l, i, address, m);
    MergedMeaning(l, i, address, m);
  }

  lemma BitsFacts(address: int, mask: Word, mask': Word)
    ensures Busy(Bits(address, mask)) <==> address == STATIC && 0 in mask
    ensures Bits(address, mask) == IDLE <==> address == STATIC && mask == {1}
    ensures Bits(address, mask + mask') == Bits(address, mask) + Bits(address, mask')
    ensures mask != {} ==> Bits(address, mask) != {}
  {
    forall k: nat
      ensures Basic(address, k) in Bits(address, mask) <==> k in mask
    {}
    if mask != {} {
      var k :| k in mask;
      assert Basic(address, k) in Bits(address, mask);
    }
    if Bits(address, mask) == IDLE {
      assert Basic(STATIC, 1) in Bits(address, mask);
      forall k | k in mask
        ensures k == 1
      {
        assert Basic(address, k) in Bits(address, mask);
      }
    }
  }

  class NotifierSignal {
    /** A nonzero mask belongs to the one word at `v1`; a zero mask says that `vm` holds the pairs. */
    var mask: Word
    var v1: int
    var vm: array<VmPair>

    ghost predicate Valid()
      reads this, vm
    {
      mask == {} ==> vm.Length >= 3 && Ended(vm[..]) && !Busy(Meaning(vm[..vm.Length - 1]))
    }

    ghost function Value(): (r: Signals)
      requires Valid()
      reads this, vm
    {
      if mask != {} then Bits(v1, mask) else Meaning(vm[..vm.Length - 1])
    }

    constructor (address: int, mask: Word)
      requires mask != {}
      ensures Valid() && fresh(vm) && Value() == Bits(address, mask)
    {
      this.mask, v1 := mask, address;
      vm := new VmPair[0];
    }

    predicate IsIdle()
      reads this
    {
      mask == {1} && v1 == STATIC
    }

    predicate IsBusy()
      reads this
    {
      0 in mask && v1 == STATIC
    }

    /** The tests on the fields say what the denoted set is. */
    lemma Tests()
      requires Valid()
      ensures Proper(Value())
      ensures IsBusy() <==> Busy(Value())
      ensures IsIdle() <==> Value() == IDLE
    {
      if mask != {} {
        BitsFacts(v1, mask, {});
      } else {
        TwoAddresses(vm[..vm.Length - 1]);
      }
    }

    /** Insertion of one pair into the array. */
    method Insert(address: int, m: Word)
      requires vm.Length >= 2 && Ended(vm[..]) && m != {}
      modifies this`vm, vm
      ensures vm == old(vm) || fresh(vm)
      ensures vm.Length >= old(vm.Length) && Ended(vm[..])
      ensures vm.Length == old(vm.Length) ==> exists k :: 0 <= k < vm.Length - 1 && old(vm[k].address) == address
      ensures Meaning(vm[..vm.Length - 1]) == old(Meaning(vm[..vm.Length - 1])) + Bits(address, m)
    {
      ghost var l := vm[..vm.Length - 1];
      var i := FindPlace(address);
      PutPair(i, address, m);
      MergedIn(l, i, address, m, vm[..], vm[..vm.Length - 1]);
    }

    /** Add the mask to the entry at `i` if it is for this address, else put a new entry before it. */
    method PutPair(i: nat, address: int, m: Word)
      requires Ended(vm[..]) && i < vm.Length && (vm[i].mask == {} <==> i == vm.Length - 1)
      modifies this`vm, vm
      ensures vm == old(vm) || fresh(vm)
      ensures vm.Length == old(vm.Length) ==> i < vm.Length - 1 && old(vm[i].address) == address
      ensures vm.Length >= old(vm.Length) && vm[vm.Length - 1].mask == {}
      ensures vm[..vm.Length - 1] == Merged(old(vm[..vm.Length - 1]), i, address, m)
    {
      if vm[i].mask != {} && vm[i].address == address {
        OrMask(i, m);
      } else {
        vm := WithPair(i, VmPair(address, m));
      }
    }

    /** Add bits to the mask at `i`. */
    method OrMask(i: nat, m: Word)
      requires i < vm.Length - 1
      modifies vm
      ensures vm[..vm.Length - 1] == old(vm[..vm.Length - 1])[i := VmPair(old(vm[i].address), old(vm[i].mask) + m)]
      ensures vm[vm.Length - 1] == old(vm[vm.Length - 1])
    {
      vm[i] := VmPair(vm[i].address, vm[i].mask + m);
    }

    /** A longer copy of the array with a new pair at `i`. */
    method WithPair(i: nat, p: VmPair) returns (vmp: array<VmPair>)
      requires Ended(vm[..]) && i < vm.Length
      ensures fresh(vmp) && vmp.Length == vm.Length + 1
      ensures vmp[..vm.Length] == vm[..vm.Length - 1][..i] + [p] + vm[..vm.Length - 1][i..]
      ensures vmp[vm.Length] == vm[vm.Length - 1]
    {
      var n := FindEnd(i);
      vmp := new VmPair[n + 2];
      forall k | 0 <= k < i {
        vmp[k] := vm[k];
      }
      forall k | i <= k < n + 1 {
        vmp[k + 1] := vm[k];
      }
      vmp[i] := p;
    }

    method FindEnd(i: nat) returns (n: nat)
      requires Ended(vm[..]) && i < vm.Length
      ensures n == vm.Length - 1
    {
      ghost var l := vm[..vm.Length - 1];
      assert forall k :: 0 <= k < |l| ==> vm[k] == l[k];
      n := i;
      while vm[n].mask != {}
        invariant n < vm.Length
        decreases vm.Length - n
      {
        n := n + 1;
      }
    }

    method FindPlace(address: int) returns (i: nat)
      requires Ended(vm[..])
      ensures i < vm.Length && Place(vm[..vm.Length - 1], address, i)
      ensures vm[i].mask == {} <==> i == vm.Length - 1
    {
      ghost var l := vm[..vm.Length - 1];
      i := 0;
      while vm[i].mask != {} && vm[i].address < address
        invariant i < vm.Length
        invariant forall k :: 0 <= k < i ==> l[k].address < address
        decreases vm.Length - i
      {
        assert l[i] == vm[i];
        i := i + 1;
      }
      assert i < vm.Length - 1 ==> l[i] == vm[i];
    }

    /** `hard_derive_one` */
    method HardDeriveOne(address: int, m: Word)
      requires Valid() && m != {} && !Busy(Bits(address, m))
      modifies this, vm
      ensures Valid() && (vm == old(vm) || fresh(vm))
      ensures Value() == if Busy(old(Value())) then old(Value()) else old(Value()) + Bits(address, m)
    {
      if mask != {} {
        BitsFacts(v1, mask, m);
        if IsBusy() {
          return;
        }
        if v1 == address {
          mask := mask + m;
          return;
        }
        MakeArray();
      }
      Insert(address, m);
    }

    /** A single pair becomes an array of one entry. */
    method MakeArray()
      requires mask != {}
      modifies this
      ensures mask == {} && fresh(vm) && vm.Length == 2 && Ended(vm[..])
      ensures vm[0].address == old(v1) && Meaning(vm[..1]) == Bits(old(v1), old(mask))
    {
      OneEntry(VmPair(v1, mask));
      var vmp := new VmPair[2];
      vmp[0] := VmPair(v1, mask);
      vmp[1] := END;
      assert vmp[..1] == [VmPair(v1, mask)];
      vm := vmp;
      mask := {};
    }

    /** `operator=` */
    method Assign(x: NotifierSignal)
      requires Valid() && x.Valid()
      modifies this
      ensures Valid() && Value() == old(x.Value())
      ensures vm == old(vm) || fresh(vm)
    {
      if this != x {
        mask := x.mask;
        if mask != {} {
          v1 := x.v1;
        } else {
          var n := x.FindEnd(0);
          var vmp := new VmPair[n + 1];
          forall k | 0 <= k < n + 1 {
            vmp[k] := x.vm[k];
          }
          vm := vmp;
          assert vm[..] == old(x.vm[..]) && vm[..vm.Length - 1] == old(x.vm[..x.vm.Length - 1]);
        }
      }
    }

    /** `operator+=`; `x` may be this signal itself. */
    method AddAssign(x: NotifierSignal)
      requires Valid() && x.Valid() && (this != x ==> vm != x.vm)
      modifies this, vm
      ensures Valid() && (vm == old(vm) || fresh(vm))
      ensures Value() == Combine(old(Value()), old(x.Value()))
    {
      Tests();
      x.Tests();
      if IsBusy() || x.IsIdle() {
      } else if IsIdle() || x.IsBusy() {
        Assign(x);
      } else if mask != {} && x.mask != {} && v1 == x.v1 {
        BitsFacts(v1, mask, x.mask);
        mask := mask + x.mask;
      } else if x.mask != {} {
        HardDeriveOne(x.v1, x.mask);
      } else if this != x {
        DeriveAll(x.vm[..]);
      }
    }

    /** One pair after another, up to the zero mask. */
    method DeriveAll(pairs: seq<VmPair>)
      requires Valid() && !Busy(Value()) && Ended(pairs) && !Busy(Meaning(pairs[..|pairs| - 1]))
      modifies this, vm
      ensures Valid() && (vm == old(vm) || fresh(vm))
      ensures Value() == old(Value()) + Meaning(pairs[..|pairs| - 1])
    {
      ghost var l, start := pairs[..|pairs| - 1], Value();
      var i := 0;
      while pairs[i].mask != {}
        invariant i <= |l| && Valid() && (vm == old(vm) || fresh(vm))
        invariant Value() == start + Meaning(l[..i]) && !Busy(Value())
        decreases |l| - i
      {
        DeriveStep(start, l, i);
        HardDeriveOne(pairs[i].address, pairs[i].mask);
        i := i + 1;
      }
      assert l[..i] == l;
    }

    /** `active`: the words' present contents are a parameter. */
    method IsActive(word: int -> Word) returns (r: bool)
      requires Valid()
      ensures r <==> Active(Value(), word)
    {
      if mask != {} {
        r := word(v1) * mask != {};
        ActiveBits(v1, mask, word);
      } else {
        ghost var l := vm[..vm.Length - 1];
        var i := 0;
        while vm[i].mask != {}
          invariant i <= |l| && !Active(Meaning(l[..i]), word)
          decreases |l| - i
        {
          ActiveStep(l, i, word);
          if word(vm[i].address) * vm[i].mask != {} {
            ActiveMore(l, i + 1, word);
            return true;
          }
          i := i + 1;
        }
        assert l[..i] == l;
        r := false;
      }
    }

    /** `operator==` decides equality of the sets of basic signals. */
    method Equals(x: NotifierSignal) returns (r: bool)
      requires Valid() && x.Valid()
      ensures r <==> Value() == x.Value()
    {
      if mask == x.mask {
        if mask != {} {
          r := v1 == x.v1;
          SameSingle(v1, mask, x.v1, x.mask);
        } else {
          r := HardEquals(vm[..], x.vm[..]);
          ghost var l, l' := vm[..vm.Length - 1], x.vm[..x.vm.Length - 1];
          if Meaning(l) == Meaning(l') {
            CanonicalUnique(l, l');
          }
          assert r ==> l == l';
        }
      } else {
        r := false;
        if mask != {} && x.mask != {} {
          SameSingle(v1, mask, x.v1, x.mask);
        } else if mask == {} {
          NotSingle(vm[..vm.Length - 1], x.v1, x.mask);
        } else {
          NotSingle(x.vm[..x.vm.Length - 1], v1, mask);
        }
      }
    }
  }

  /** `hard_equals`: the walk stays inside both arrays. */
  method HardEquals(a: seq<VmPair>, b: seq<VmPair>) returns (r: bool)
    requires Ended(a) && Ended(b)
    ensures r <==> a[..|a| - 1] == b[..|b| - 1]
  {
    ghost var l, l' := a[..|a| - 1], b[..|b| - 1];
    var i := 0;
    while a[i].mask != {} && a[i].mask == b[i].mask && a[i].address == b[i].address
      invariant i <= |l| && i <= |l'| && l[..i] == l'[..i]
      decreases |l| - i
    {
      assert l[i] == l'[i];
      i := i + 1;
    }
    r := a[i].mask == {} && a[i].mask == b[i].mask;
    assert l[..i] == l'[..i];
    assert r ==> i == |l| && i == |l'|;
    assert i < |l| ==> l[i] == a[i];
    assert i < |l'| ==> l'[i] == b[i];
  }

  lemma ActiveBits(address: int, mask: Word, word: int -> Word)
    ensures Active(Bits(address, mask), word) <==> word(address) * mask != {}
  {
    var both := word(address) * mask;
    if both != {} {
      var k :| k in both;
      assert Basic(address, k) in Bits(address, mask);
    }
    if Active(Bits(address, mask), word) {
      var b :| b in Bits(address, mask) && b.bit in word(b.address);
      assert b.bit in both;
    }
  }

  lemma ActiveStep(l: seq<VmPair>, i: nat, word: int -> Word)
    requires i < |l|
    ensures Active(Meaning(l[..i + 1]), word) <==>
      Active(Meaning(l[..i]), word) || word(l[i].address) * l[i].mask != {}
  {
    assert l[..i + 1][..i] == l[..i];
    ActiveBits(l[i].address, l[i].mask, word);
    assert Meaning(l[..i + 1]) == Meaning(l[..i]) + Bits(l[i].address, l[i].mask);
  }

  lemma {:induction false} ActiveMore(l: seq<VmPair>, i: nat, word: int -> Word)
    requires i <= |l| && Active(Meaning(l[..i]), word)
    ensures Active(Meaning(l), word)
    decreases |l| - i
  {
    if i < |l| {
      ActiveStep(l, i, word);
      ActiveMore(l, i + 1, word);
    } else {
      assert l[..i] == l;
    }
  }

  lemma BitsWithin(v: int, m: Word, v': int, m': Word)
    requires Bits(v, m) <= Bits(v', m')
    ensures m <= m'
  {
    forall k | k in m
      ensures k in m'
    {
      assert Basic(v, k) in Bits(v', m');
    }
  }

  lemma SameSingle(v: int, m: Word, v': int, m': Word)
    requires m != {} && m' != {}
    ensures Bits(v, m) == Bits(v', m') <==> v == v' && m == m'
  {
    if Bits(v, m) == Bits(v', m') {
      var k :| k in m;
      assert Basic(v, k) in Bits(v', m');
      BitsWithin(v, m, v', m');
      BitsWithin(v', m', v, m);
    }
  }

  lemma NotSingle(l: seq<VmPair>, address: int, mask: Word)
    requires Canonical(l) && |l| >= 2
    ensures Meaning(l) != Bits(address, mask)
  {
    var b :| b in l[0].mask;
    var c :| c in l[1].mask;
    MeaningOne(l, 0, b);
    MeaningOne(l, 1, c);
    assert Basic(l[0].address, b) in Meaning(l) && Basic(l[1].address, c) in Meaning(l);
  }

  /** The denotations of single-word signals. */
  function Denoted(pairs: seq<VmPair>): (ss: seq<Signals>)
    ensures |ss| == |pairs| && forall i :: 0 <= i < |ss| ==> ss[i] == Bits(pairs[i].address, pairs[i].mask)
  {
    seq(|pairs|, i requires 0 <= i < |pairs| => Bits(pairs[i].address, pairs[i].mask))
  }

  /** Basic signals accumulated one by one into a signal that starts idle. */
  method Accumulate(pairs: seq<VmPair>) returns (s: NotifierSignal)
    requires forall i :: 0 <= i < |pairs| ==> pairs[i].mask != {}
    ensures fresh(s) && fresh(s.vm) && s.Valid() && s.Value() == Derived(Denoted(pairs))
  {
    BitsFacts(STATIC, {1}, {});
    s := new NotifierSignal(STATIC, {1});
    for i := 0 to |pairs|
      invariant fresh(s) && fresh(s.vm) && s.Valid()
      invariant s.Value() == Derived(Denoted(pairs[..i]))
    {
      var x := new NotifierSignal(pairs[i].address, pairs[i].mask);
      s.AddAssign(x);
      assert Denoted(pairs[..i + 1])[..i] == Denoted(pairs[..i]);
    }
    assert pairs[..|pairs|] == pairs;
  }

  lemma {:induction false} DenotedPermuted(ps: seq<VmPair>, qs: seq<VmPair>)
    requires multiset(ps) == multiset(qs)
    ensures multiset(Denoted(ps)) == multiset(Denoted(qs))
    decreases |qs|
  {
    assert |ps| == |multiset(ps)| == |qs|;
    if qs != [] {
      var n := |qs| - 1;
      assert qs == qs[..n] + [qs[n]];
      assert qs[n] in multiset(ps);
      var i :| 0 <= i < |ps| && ps[i] == qs[n];
      WithoutOne(ps, i);
      DenotedPermuted(Without(ps, i), qs[..n]);
      DenotedWithout(ps, i);
      DenotedWithout(qs, n);
      assert Without(qs, n) == qs[..n];
    }
  }

  lemma DenotedWithout(ps: seq<VmPair>, i: nat)
    requires i < |ps|
    ensures multiset(Denoted(ps)) == multiset(Denoted(Without(ps, i))) + multiset{Bits(ps[i].address, ps[i].mask)}
  {
    WithoutOne(Denoted(ps), i);
    assert Denoted(Without(ps, i)) == Without(Denoted(ps), i);
    assert Denoted(ps)[i] in multiset(Denoted(ps));
  }

  /** Basic signals accumulated in two different orders compare equal. */
  method SameInAnyOrder(ps: seq<VmPair>, qs: seq<VmPair>) returns (same: bool)
    requires forall i :: 0 <= i < |ps| ==> ps[i].mask != {}
    requires multiset(ps) == multiset(qs) && OneBusy(Denoted(ps))
    ensures same
  {
    forall i | 0 <= i < |qs|
      ensures qs[i].mask != {}
    {
      assert qs[i] in multiset(ps);
    }
    var s := Accumulate(ps);
    var t := Accumulate(qs);
    DenotedPermuted(ps, qs);
    DenotedProper(ps);
    DerivedAnyOrder(Denoted(ps), Denoted(qs));
    same := s.Equals(t);
  }

  lemma DenotedProper(ps: seq<VmPair>)
    requires forall i :: 0 <= i < |ps| ==> ps[i].mask != {}
    ensures AllProper(Denoted(ps))
  {
    forall i | 0 <= i < |ps|
      ensures Proper(Denoted(ps)[i])
    {
      BitsFacts(ps[i].address, ps[i].mask, {});
    }
  }

  lemma DeriveStep(v: Signals, l: seq<VmPair>, i: nat)
    requires i < |l| && !Busy(v) && !Busy(Meaning(l))
    ensures var b := Bits(l[i].address, l[i].mask);
            && !Busy(b) && v + Meaning(l[..i]) + b == v + Meaning(l[..i + 1])
            && (!Busy(v + Meaning(l[..i])) ==> !Busy(v + Meaning(l[..i + 1])))
  {
    NotBusyPart(l, i);
  }

  lemma NotBusyPart(l: seq<VmPair>, i: nat)
    requires i < |l| && !Busy(Meaning(l))
    ensures Meaning(l[..i + 1]) == Meaning(l[..i]) + Bits(l[i].address, l[i].mask)
    ensures !Busy(Bits(l[i].address, l[i].mask))
  {
    assert l[..i + 1][..i] == l[..i];
    BitsFacts(l[i].address, l[i].mask, {});
    MeaningAt(l, Basic(STATIC, 0));
  }

  lemma OneEntry(p: VmPair)
    requires p.mask != {}
    ensures Canonical([p]) && Meaning([p]) == Bits(p.address, p.mask)
  {
    assert Meaning([p]) == Meaning([]) + Bits(p.address, p.mask);
  }

  /** A canonical array of two entries or more is neither idle nor empty. */
  lemma TwoAddresses(l: seq<VmPair>)
    requires Canonical(l) && |l| >= 2
    ensures Meaning(l) != {} && Meaning(l) != IDLE
  {
    var b :| b in l[0].mask;
    var c :| c in l[1].mask;
    MeaningOne(l, 0, b);
    MeaningOne(l, 1, c);
  }
}
