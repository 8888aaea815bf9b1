/**
 The Internet checksum `click_in_cksum` (click/lib/in_cksum.c): 16-bit words
 in host byte order summed in a 32-bit accumulator, folded twice and
 complemented, against the one's-complement sum of RFC 1071.
 */
module Checksum {
  import opened Bytes

  const TWO16 := 0x1_0000
  const TWO32 := 0x1_0000_0000
  const ONES := 0xFFFF

  /** A 16-bit word from two bytes in memory order. */
  function Word(b0: Byte, b1: Byte, big: bool): (w: nat)
    ensures w <= ONES
  {
    if big then 256 * b0 + b1 else b0 + 256 * b1
  }

  /** The two bytes of a word, in memory order. */
  function WordBytes(w: nat, big: bool): (b: Str)
    requires w <= ONES
    ensures |b| == 2 && Word(b[0], b[1], big) == w
  {
    if big then [w / 256, w % 256] else [w % 256, w / 256]
  }

  function SwapBytes(w: nat): (r: nat)
    requires w <= ONES
    ensures r <= ONES
  {
    256 * (w % 256) + w / 256
  }

  /** The sum of the message's words in unbounded arithmetic; an odd last byte is padded with zero. */
  function WordSum(a: Str, big: bool): (s: nat)
    ensures s <= (|a| + 1) / 2 * ONES
  {
    if |a| == 0 then 0
    else if |a| == 1 then Word(a[0], 0, big)
    else Word(a[0], a[1], big) + WordSum(a[2..], big)
  }

  /** The one's-complement sum: carries are added back until none is left. */
  function FoldFully(s: nat): (r: nat)
    ensures r <= ONES
  {
    if s <= ONES then s else FoldFully(s % TWO16 + s / TWO16)
  }

  /** The checksum of RFC 1071. */
  function Reference(a: Str, big: bool): (c: nat)
    ensures c <= ONES
  {
    ONES - FoldFully(WordSum(a, big))
  }

  /** The two fold steps and the truncated complement. */
  function FoldTwice(s: nat): (r: nat)
    ensures r <= ONES
  {
    var f := s % TWO16 + s / TWO16;
    ONES - (f + f / TWO16) % TWO16
  }

  /** The value `click_in_cksum` returns. */
  function Cksum(a: Str, big: bool): (c: nat)
    ensures c <= ONES
  {
    FoldTwice(WordSum(a, big) % TWO32)
  }

  /** Wrapping early does not change the wrapped total. */
  lemma AddWraps(x: nat, rest: nat)
    ensures (x % TWO32 + rest) % TWO32 == (x + rest) % TWO32
  {
    var q := x / TWO32;
    assert x + rest == x % TWO32 + rest + TWO32 * q;
    ModShift(x % TWO32 + rest, q);
  }

  lemma {:induction false} ModShift(x: nat, q: nat)
    ensures (x + TWO32 * q) % TWO32 == x % TWO32
  {
    if q > 0 {
      ModShift(x, q - 1);
    }
  }

  /** The accumulation loop: `sum` is a 32-bit word. */
  method Accumulate(a: Str, big: bool) returns (sum: nat)
    ensures sum == WordSum(a, big) % TWO32
  {
    var nleft, w := |a|, 0;
    sum := 0;
    while nleft > 1
      invariant 0 <= w <= |a| && nleft == |a| - w
      invariant (sum + WordSum(a[w..], big)) % TWO32 == WordSum(a, big) % TWO32
    {
      assert a[w..][2..] == a[w + 2..];
      AddWraps(sum + Word(a[w], a[w + 1], big), WordSum(a[w + 2..], big));
      sum := (sum + Word(a[w], a[w + 1], big)) % TWO32;
      w, nleft := w + 2, nleft - 2;
    }
    sum := (sum + if nleft == 1 then Word(a[w], 0, big) else 0) % TWO32;
  }

  /** `click_in_cksum` */
  method ClickInCksum(a: Str, big: bool) returns (answer: nat)
    ensures answer == Cksum(a, big)
  {
    var sum := Accumulate(a, big);
    sum := sum % TWO16 + sum / TWO16;
    sum := sum + sum / TWO16;
    answer := ONES - sum % TWO16;
  }

  // ---------------------------------------------------------------- arithmetic modulo 65535

  /** Folding keeps the value modulo 65535, and only zero folds to zero. */
  lemma {:induction false} FoldWitness(s: nat) returns (k: nat)
    ensures s == FoldFully(s) + ONES * k
    ensures FoldFully(s) == 0 <==> s == 0
  {
    if s <= ONES {
      k := 0;
    } else {
      var k' := FoldWitness(s % TWO16 + s / TWO16);
      k := k' + s / TWO16;
    }
  }

  /** Nonzero sums that differ by a multiple of 65535 fold to the same word. */
  lemma FoldCongruent(s: nat, t: nat, k: int)
    requires s > 0 && t > 0 && s == t + ONES * k
    ensures FoldFully(s) == FoldFully(t)
  {
    var i := FoldWitness(s);
    var j := FoldWitness(t);
    OneResidue(FoldFully(s), FoldFully(t), k + j - i);
  }

  lemma OneResidue(a: int, b: int, m: int)
    requires 0 < a <= ONES && 0 < b <= ONES && a == b + ONES * m
    ensures a == b
  {}

  /** Two fold steps are enough for a 32-bit sum. */
  lemma FoldTwiceIsFull(s: nat)
    requires s < TWO32
    ensures FoldTwice(s) == ONES - FoldFully(s)
  {
    var f := s % TWO16 + s / TWO16;
    HalvesFit(s);
    FoldOnce(f);
    assert FoldFully(s) == FoldFully(f);
  }

  lemma HalvesFit(s: nat)
    requires s < TWO32
    ensures s % TWO16 + s / TWO16 <= 2 * ONES
    ensures s <= ONES ==> s % TWO16 + s / TWO16 == s
  {}

  /** One fold step is enough for a sum of two words. */
  lemma FoldOnce(f: nat)
    requires f <= 2 * ONES
    ensures FoldFully(f) == (f + f / TWO16) % TWO16
  {
    if f > ONES {
      var r := f - TWO16;
      assert f % TWO16 == r && f / TWO16 == 1;
      assert FoldFully(f) == FoldFully(r + 1);
    }
  }

  /** The lost carries reappear modulo 65535. */
  lemma LostCarries(s: nat) returns (i: nat, j: nat)
    ensures FoldFully(s) + ONES * i == FoldFully(s % TWO32) + ONES * j + s / TWO32
    ensures FoldFully(s) == 0 <==> s == 0
    ensures FoldFully(s % TWO32) == 0 <==> s % TWO32 == 0
  {
    i := FoldWitness(s);
    j := FoldWitness(s % TWO32);
    var lost := s / TWO32;
    assert TWO32 * lost == lost + ONES * (65537 * lost);
    j := j + 65537 * lost;
  }

  lemma SameResidue(f: nat, g: nat, lost: nat, i: nat, j: nat)
    requires 0 < f <= ONES && 0 < g <= ONES
    requires f + ONES * i == g + ONES * j + lost
    ensures f == g <==> lost % ONES == 0
  {
    var q, r := lost / ONES, lost % ONES;
    assert f - g == ONES * (j + q - i) + r;
  }

  /** The 32-bit accumulator gives the right checksum exactly when its lost carries cancel modulo 65535. */
  lemma WrapMatters(s: nat)
    ensures FoldTwice(s % TWO32) == ONES - FoldFully(s) <==>
              s < TWO32 || (s % TWO32 != 0 && (s / TWO32) % ONES == 0)
  {
    var kept := s % TWO32;
    FoldTwiceIsFull(kept);
    SameFold(s, kept);
  }

  lemma SameFold(s: nat, kept: nat)
    requires kept == s % TWO32
    ensures FoldFully(kept) == FoldFully(s) <==> s < TWO32 || (kept != 0 && (s / TWO32) % ONES == 0)
  {
    if s >= TWO32 {
      var i, j := LostCarries(s);
      if kept != 0 {
        SameResidue(FoldFully(s), FoldFully(kept), s / TWO32, i, j);
      }
    }
  }

  /** The right checksum for every message length an `int` can hold: if and only if the word sum fits 32 bits. */
  lemma CorrectIffFits(a: Str, big: bool)
    requires |a| < 0x8000_0000
    ensures Cksum(a, big) == Reference(a, big) <==> WordSum(a, big) < TWO32
  {
    var s := WordSum(a, big);
    WrapMatters(s);
    FewCarries(s);
  }

  lemma FewCarries(s: nat)
    requires s <= 0x4000_0000 * ONES
    ensures s >= TWO32 ==> (s / TWO32) % ONES != 0
  {
    assert s / TWO32 < ONES;
  }

  /** Every message of at most 131074 bytes is summed without wrapping. */
  lemma CorrectWhenShort(a: Str, big: bool)
    requires |a| <= 131074
    ensures WordSum(a, big) < TWO32
    ensures Cksum(a, big) == Reference(a, big)
  {
    SumFits(a, big, 65537);
    CorrectIffFits(a, big);
  }

  lemma SumFits(a: Str, big: bool, n: nat)
    requires |a| <= 2 * n
    ensures WordSum(a, big) <= n * ONES
  {
    assert (|a| + 1) / 2 <= n;
  }

  /** A word, or an odd last byte, repeated over `n` bytes. */
  function Repeated(b0: Byte, b1: Byte, n: nat): (a: Str)
    ensures |a| == n
  {
    if n == 0 then [] else if n == 1 then [b0] else [b0, b1] + Repeated(b0, b1, n - 2)
  }

  lemma {:induction false} RepeatedSum(b0: Byte, b1: Byte, n: nat, big: bool)
    ensures WordSum(Repeated(b0, b1, n), big) == n / 2 * Word(b0, b1, big) + if n % 2 == 1 then Word(b0, 0, big) else 0
    decreases n
  {
    if n >= 2 {
      var a := Repeated(b0, b1, n);
      assert a[2..] == Repeated(b0, b1, n - 2);
      RepeatedSum(b0, b1, n - 2, big);
      OneWordMore(n, Word(b0, b1, big));
    }
  }

  lemma OneWordMore(n: nat, w: nat)
    requires n >= 2
    ensures n / 2 * w == (n - 2) / 2 * w + w && n % 2 == (n - 2) % 2
  {
    var h := (n - 2) / 2;
    assert n / 2 == h + 1;
    assert (h + 1) * w == h * w + w;
  }

  /** That bound is sharp: at every greater length, all-ones data gets a wrong checksum. */
  lemma WrongWhenLonger(n: nat, big: bool)
    requires 131074 < n < 0x8000_0000
    ensures Cksum(Repeated(255, 255, n), big) != Reference(Repeated(255, 255, n), big)
  {
    RepeatedSum(255, 255, n, big);
    CorrectIffFits(Repeated(255, 255, n), big);
  }

  // ---------------------------------------------------------------- storing the checksum

  lemma {:induction false} WordSumAppend(a: Str, b: Str, big: bool)
    requires |a| % 2 == 0
    ensures WordSum(a + b, big) == WordSum(a, big) + WordSum(b, big)
  {
    if a == [] {
      assert a + b == b;
    } else {
      assert (a + b)[2..] == a[2..] + b;
      WordSumAppend(a[2..], b, big);
    }
  }

  lemma WordSumStored(pre: Str, w: Str, post: Str, big: bool)
    requires |pre| % 2 == 0 && |w| == 2
    ensures WordSum(pre + w + post, big) == WordSum(pre, big) + Word(w[0], w[1], big) + WordSum(post, big)
  {
    assert pre + w + post == pre + (w + post);
    WordSumAppend(pre, w + post, big);
    WordSumAppend(w, post, big);
    assert w[2..] == [];
  }

  lemma ComplementSums(s: nat)
    ensures FoldFully(s + (ONES - FoldFully(s))) == ONES
  {
    var k := FoldWitness(s);
    FoldCongruent(s + (ONES - FoldFully(s)), ONES, k);
  }

  /** Adding the complement never wraps: the total is a multiple of 65535, and 2^32 - 1 is one. */
  lemma ComplementFits(t: nat)
    requires t < TWO32
    ensures t + (ONES - FoldFully(t)) < TWO32
  {
    var k := FoldWitness(t);
    assert t + (ONES - FoldFully(t)) == ONES * (k + 1);
    assert TWO32 - 1 == ONES * 65537;
  }

  /**
   Storing the checksum in the aligned zero word it was computed over makes
   the whole message sum to zero, at every length: also where the checksum
   itself is not the one of RFC 1071.
   */
  lemma StoredVerifies(pre: Str, post: Str, big: bool)
    requires |pre| % 2 == 0
    ensures Cksum(pre + WordBytes(Cksum(pre + [0, 0] + post, big), big) + post, big) == 0
  {
    var c := Cksum(pre + [0, 0] + post, big);
    var w, s := WordBytes(c, big), WordSum(pre, big) + WordSum(post, big);
    WordSumStored(pre, [0, 0], post, big);
    assert c == FoldTwice(s % TWO32);
    WordSumStored(pre, w, post, big);
    assert WordSum(pre + w + post, big) == s + c;
    SumWithComplement(s, c);
  }

  lemma SumWithComplement(s: nat, c: nat)
    requires c == FoldTwice(s % TWO32)
    ensures FoldTwice((s + c) % TWO32) == 0
  {
    var t := s % TWO32;
    FoldTwiceIsFull(t);
    ComplementFits(t);
    AddWraps(s, c);
    assert (t + c) % TWO32 == t + c;
    FoldTwiceIsFull(t + c);
    ComplementSums(t);
  }

  // ---------------------------------------------------------------- byte order

  lemma {:induction false} WordSumSwapped(a: Str) returns (k: nat)
    ensures 256 * WordSum(a, false) == WordSum(a, true) + ONES * k
    ensures WordSum(a, true) == 0 <==> WordSum(a, false) == 0
  {
    if |a| == 0 {
      k := 0;
    } else if |a| == 1 {
      k := 0;
    } else {
      var k' := WordSumSwapped(a[2..]);
      k := k' + a[1];
    }
  }

  /** The RFC's checksum does not depend on the host's byte order, up to the order of its own two bytes. */
  lemma ReferenceByteOrder(a: Str)
    ensures Reference(a, true) == SwapBytes(Reference(a, false))
  {
    var k := WordSumSwapped(a);
    var lit, big := WordSum(a, false), WordSum(a, true);
    if lit != 0 {
      var j := FoldWitness(lit);
      var g := FoldFully(lit);
      assert 256 * g == SwapBytes(g) + ONES * (g / 256);
      FoldCongruent(big, SwapBytes(g), 256 * j + g / 256 - k);
      assert FoldFully(SwapBytes(g)) == SwapBytes(g);
    }
    SwapComplement(FoldFully(lit));
  }

  /** Swapping the bytes of a word multiplies it by 256 modulo 65535. */
  lemma SwapIsTimes256(g: nat)
    requires g <= ONES
    ensures 256 * g == SwapBytes(g) + ONES * (g / 256)
    ensures SwapBytes(g) == 0 <==> g == 0
  {}

  /** What one order's sum lost to the accumulator. */
  function Lost(a: Str, big: bool): (q: nat) {
    WordSum(a, big) / TWO32
  }

  /** What it kept. */
  function Kept(a: Str, big: bool): (t: nat)
    ensures t < TWO32
  {
    WordSum(a, big) % TWO32
  }

  /** The kept sums relate as the full ones do, but for the lost carries. */
  lemma KeptSwapped(a: Str) returns (m: int)
    ensures 256 * FoldFully(Kept(a, false)) + 256 * Lost(a, false) ==
              FoldFully(Kept(a, true)) + Lost(a, true) + ONES * m
  {
    var k := WordSumSwapped(a);
    var i := FoldWitness(Kept(a, false));
    var j := FoldWitness(Kept(a, true));
    var p, q := Lost(a, false), Lost(a, true);
    Carried(WordSum(a, false));
    Carried(WordSum(a, true));
    m := k + (j + 65537 * q) - 256 * (i + 65537 * p);
  }

  lemma Carried(s: nat)
    ensures s == s % TWO32 + s / TWO32 + ONES * (65537 * (s / TWO32))
  {
    var q := s / TWO32;
    assert TWO32 * q == q + ONES * (65537 * q);
  }

  /**
   The value the code returns on a machine of the other byte order has its two
   bytes swapped exactly if the sums of the two orders lost carries in the same
   proportion, and neither or both were left with nothing.
   */
  lemma ByteOrder(a: Str)
    ensures Cksum(a, true) == SwapBytes(Cksum(a, false)) <==>
              (Lost(a, true) - 256 * Lost(a, false)) % ONES == 0 && (Kept(a, true) == 0 <==> Kept(a, false) == 0)
  {
    var f, g := FoldFully(Kept(a, true)), FoldFully(Kept(a, false));
    FoldTwiceIsFull(Kept(a, true));
    FoldTwiceIsFull(Kept(a, false));
    SwapComplement(g);
    SwapIsTimes256(g);
    var m := KeptSwapped(a);
    var i := FoldWitness(Kept(a, true));
    var j := FoldWitness(Kept(a, false));
    SwapResidue(f, SwapBytes(g), Lost(a, true) - 256 * Lost(a, false), m - g / 256);
  }

  lemma SwapResidue(f: nat, h: nat, lost: int, m: int)
    requires f <= ONES && h <= ONES && h == f + lost + ONES * m
    ensures f == h <==> lost % ONES == 0 && (f == 0 <==> h == 0)
  {
    if f == h {
      assert lost == ONES * -m;
      MultipleOfOnes(-m);
    }
    if lost % ONES == 0 && (f == 0 <==> h == 0) && f != 0 {
      OneResidue(h, f, m + lost / ONES);
    }
  }

  lemma MultipleOfOnes(m: int)
    ensures (ONES * m) % ONES == 0
  {}

  /** So it is up to 131074 bytes. */
  lemma ByteOrderWhenShort(a: Str)
    requires |a| <= 131074
    ensures Cksum(a, true) == SwapBytes(Cksum(a, false))
  {
    CorrectWhenShort(a, true);
    CorrectWhenShort(a, false);
    ReferenceByteOrder(a);
  }

  /** Longer data can lose a carry in one order only. */
  lemma ByteOrderFails()
    ensures var a := Repeated(255, 0, 131588); Cksum(a, true) != SwapBytes(Cksum(a, false))
  {
    HighBytesCarry(131588);
    OneOrderWraps(Repeated(255, 0, 131588));
  }

  lemma HighBytesCarry(n: nat)
    requires n == 131588
    ensures Lost(Repeated(255, 0, n), true) == 1 && Lost(Repeated(255, 0, n), false) == 0
  {
    RepeatedSum(255, 0, n, true);
    RepeatedSum(255, 0, n, false);
  }

  lemma OneOrderWraps(a: Str)
    requires Lost(a, true) == 1 && Lost(a, false) == 0
    ensures Cksum(a, true) != SwapBytes(Cksum(a, false))
  {
    ByteOrder(a);
  }

  lemma SwapComplement(g: nat)
    requires g <= ONES
    ensures ONES - SwapBytes(g) == SwapBytes(ONES - g)
  {
    var hi, lo := g / 256, g % 256;
    assert ONES - g == 256 * (255 - hi) + (255 - lo);
  }
}
