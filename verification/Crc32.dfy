/**
 The table-driven CRC of click/lib/crc32.c: a 32-bit register, most
 significant bit first, no reflection and no final inversion.  A word is the
 sequence of its bits, most significant first.
 */
module Crc32 {
  import opened Bytes
  import opened Collections

  type Bits = seq<bool>

  function Xor(a: Bits, b: Bits): (r: Bits)
    requires |a| == |b|
    ensures |r| == |a| && forall i :: 0 <= i < |r| ==> r[i] == (a[i] != b[i])
  {
    seq(|a|, i requires 0 <= i < |a| => a[i] != b[i])
  }

  function Zeros(n: nat): (z: Bits)
    ensures |z| == n && forall i :: 0 <= i < n ==> !z[i]
  {
    seq(n, _ => false)
  }

  /** The low `n` bits of a number. */
  function BitsOf(x: nat, n: nat): (b: Bits)
    ensures |b| == n
  {
    if n == 0 then [] else BitsOf(x / 2, n - 1) + [x % 2 == 1]
  }

  function Number(b: Bits): (x: nat) {
    if b == [] then 0 else 2 * Number(b[..|b| - 1]) + if b[|b| - 1] then 1 else 0
  }

  lemma {:induction false} NumberBits(b: Bits)
    ensures BitsOf(Number(b), |b|) == b && Number(b) < Pow2(|b|)
  {
    if b != [] {
      NumberBits(b[..|b| - 1]);
    }
  }

  const POLYNOMIAL: Bits := BitsOf(0x04c11db7, 32)

  // ---------------------------------------------------------------- the register

  function Shifted(c: Bits): (r: Bits)
    requires c != []
    ensures |r| == |c|
  {
    c[1..] + [false]
  }

  /** One step of the shift register. */
  function Step(c: Bits): (r: Bits)
    requires |c| == 32
    ensures |r| == 32
  {
    if c[0] then Xor(Shifted(c), POLYNOMIAL) else Shifted(c)
  }

  function Steps(c: Bits, n: nat): (r: Bits)
    requires |c| == 32
    ensures |r| == 32
    decreases n
  {
    if n == 0 then c else Steps(Step(c), n - 1)
  }

  /** Feeding one message bit at the top, and a whole message bit by bit. */
  function FeedBit(c: Bits, bit: bool): (r: Bits)
    requires |c| == 32
    ensures |r| == 32
  {
    if c[0] != bit then Xor(Shifted(c), POLYNOMIAL) else Shifted(c)
  }

  function Feed(c: Bits, m: Bits): (r: Bits)
    requires |c| == 32
    ensures |r| == 32
    decreases |m|
  {
    if m == [] then c else Feed(FeedBit(c, m[0]), m[1..])
  }

  // ---------------------------------------------------------------- division

  /** Long division by x^32 + POLYNOMIAL over GF(2): the 32 bits that remain. */
  function Remainder(d: Bits): (r: Bits)
    requires |d| >= 32
    ensures |r| == 32
    decreases |d|
  {
    if |d| == 32 then d
    else if d[0] then Remainder(Xor(d[1..33], POLYNOMIAL) + d[33..])
    else Remainder(d[1..])
  }

  /** The message times x^32, the start value added to its leading bits. */
  function Dividend(c: Bits, m: Bits): (d: Bits)
    requires |c| == 32
    ensures |d| == |m| + 32
  {
    Xor(m + Zeros(32), c + Zeros(|m|))
  }

  /** The register holds the remainder of the division. */
  lemma {:induction false} FeedIsRemainder(c: Bits, m: Bits)
    requires |c| == 32
    ensures Feed(c, m) == Remainder(Dividend(c, m))
    decreases |m|
  {
    var d := Dividend(c, m);
    if m == [] {
      assert d == c;
    } else {
      var c', d' := FeedBit(c, m[0]), Dividend(FeedBit(c, m[0]), m[1..]);
      FeedIsRemainder(c', m[1..]);
      DividendStep(c, m);
    }
  }

  lemma DividendStep(c: Bits, m: Bits)
    requires |c| == 32 && m != []
    ensures var d, d' := Dividend(c, m), Dividend(FeedBit(c, m[0]), m[1..]);
      d' == if d[0] then Xor(d[1..33], POLYNOMIAL) + d[33..] else d[1..]
  {
    var d, c' := Dividend(c, m), FeedBit(c, m[0]);
    var d' := Dividend(c', m[1..]);
    var e := if d[0] then Xor(d[1..33], POLYNOMIAL) + d[33..] else d[1..];
    forall i | 0 <= i < |d'|
      ensures d'[i] == e[i]
    {
      DividendAt(c, m, i + 1);
      DividendAt(c', m[1..], i);
    }
  }

  lemma DividendAt(c: Bits, m: Bits, i: nat)
    requires |c| == 32 && i < |m| + 32
    ensures Dividend(c, m)[i] == ((i < |m| && m[i]) != (i < 32 && c[i]))
  {}

  // ---------------------------------------------------------------- linearity

  lemma StepLinear(a: Bits, b: Bits)
    requires |a| == 32 && |b| == 32
    ensures Step(Xor(a, b)) == Xor(Step(a), Step(b))
  {}

  lemma {:induction false} StepsLinear(a: Bits, b: Bits, n: nat)
    requires |a| == 32 && |b| == 32
    ensures Steps(Xor(a, b), n) == Xor(Steps(a, n), Steps(b, n))
    decreases n
  {
    if n > 0 {
      StepLinear(a, b);
      StepsLinear(Step(a), Step(b), n - 1);
    }
  }

  lemma FeedBitLinear(a: Bits, b: Bits, x: bool, y: bool)
    requires |a| == 32 && |b| == 32
    ensures FeedBit(Xor(a, b), x != y) == Xor(FeedBit(a, x), FeedBit(b, y))
  {}

  /** The CRC of a difference is the difference of the CRCs. */
  lemma {:induction false} FeedLinear(a: Bits, b: Bits, m: Bits, m': Bits)
    requires |a| == 32 && |b| == 32 && |m| == |m'|
    ensures Feed(Xor(a, b), Xor(m, m')) == Xor(Feed(a, m), Feed(b, m'))
    decreases |m|
  {
    if m != [] {
      FeedBitLinear(a, b, m[0], m'[0]);
      FeedLinear(FeedBit(a, m[0]), FeedBit(b, m'[0]), m[1..], m'[1..]);
      assert Xor(m, m')[1..] == Xor(m[1..], m'[1..]);
    }
  }

  lemma {:induction false} FeedConcat(c: Bits, m: Bits, m': Bits)
    requires |c| == 32
    ensures Feed(c, m + m') == Feed(Feed(c, m), m')
    decreases |m|
  {
    if m == [] {
      assert m + m' == m';
    } else {
      assert (m + m')[1..] == m[1..] + m';
      FeedConcat(FeedBit(c, m[0]), m[1..], m');
    }
  }

  // ---------------------------------------------------------------- a byte at a time

  /** Up to 32 message bits can be added into the register before it steps. */
  lemma {:induction false} FeedIsSteps(c: Bits, m: Bits)
    requires |c| == 32 && |m| <= 32
    ensures Feed(c, m) == Steps(Xor(c, m + Zeros(32 - |m|)), |m|)
    decreases |m|
  {
    var a := m + Zeros(32 - |m|);
    if m == [] {
      assert Xor(c, a) == c;
    } else {
      var rest := m[1..];
      FeedIsSteps(FeedBit(c, m[0]), rest);
      assert Shifted(a) == rest + Zeros(32 - |rest|);
      StepFeeds(c, a);
      assert a[0] == m[0];
      assert Steps(Xor(c, a), |m|) == Steps(Step(Xor(c, a)), |rest|);
    }
  }

  lemma StepFeeds(c: Bits, a: Bits)
    requires |c| == 32 && |a| == 32
    ensures Step(Xor(c, a)) == Xor(FeedBit(c, a[0]), Shifted(a))
  {}

  lemma {:induction false} ZerosShift(k: nat, r: Bits)
    requires k + |r| == 32
    ensures Steps(Zeros(k) + r, k) == r + Zeros(k)
    decreases k
  {
    if k == 0 {
      assert Zeros(k) + r == r && r + Zeros(k) == r;
    } else {
      var c := Zeros(k) + r;
      assert Step(c) == Zeros(k - 1) + (r + [false]);
      ZerosShift(k - 1, r + [false]);
      assert r + [false] + Zeros(k - 1) == r + Zeros(k);
    }
  }

  /** Entry `i` of the table: the byte at the top of the register, eight steps. */
  function Entry(i: nat): (r: Bits)
    ensures |r| == 32
  {
    Steps(BitsOf(i, 8) + Zeros(24), 8)
  }

  /** The byte that comes out of the register, with the message byte added. */
  function Index(c: Bits, b: Byte): (i: nat)
    requires |c| == 32
    ensures i < 256
  {
    var top := Xor(c[..8], BitsOf(b, 8));
    NumberBits(top);
    assert Pow2(8) == 256;
    Number(top)
  }

  /** One table look-up does the work of eight message bits. */
  lemma LookUp(c: Bits, b: Byte)
    requires |c| == 32
    ensures Xor(c[8..] + Zeros(8), Entry(Index(c, b))) == Feed(c, BitsOf(b, 8))
  {
    var m := BitsOf(b, 8);
    var top := Xor(c[..8], m);
    var high, low := top + Zeros(24), Zeros(8) + c[8..];
    FeedIsSteps(c, m);
    assert Xor(c, m + Zeros(24)) == Xor(low, high);
    StepsLinear(low, high, 8);
    ZerosShift(8, c[8..]);
    NumberBits(top);
  }

  function MessageBits(m: Str): (b: Bits)
    ensures |b| == 8 * |m|
  {
    if m == [] then [] else MessageBits(m[..|m| - 1]) + BitsOf(m[|m| - 1], 8)
  }

  /** The CRC of a message, from any start value. */
  function Crc(c: Bits, m: Str): (r: Bits)
    requires |c| == 32
    ensures |r| == 32
  {
    Feed(c, MessageBits(m))
  }

  lemma {:induction false} MessageBitsConcat(m: Str, m': Str)
    ensures MessageBits(m + m') == MessageBits(m) + MessageBits(m')
    decreases |m'|
  {
    if m' == [] {
      assert m + m' == m && MessageBits(m) + [] == MessageBits(m);
    } else {
      var n := |m'| - 1;
      var last := BitsOf(m'[n], 8);
      MessageBitsConcat(m, m'[..n]);
      assert (m + m')[..|m + m'| - 1] == m + m'[..n] && (m + m')[|m + m'| - 1] == m'[n];
      Regroup(MessageBits(m), MessageBits(m'[..n]), last);
    }
  }

  /** Updating in pieces is updating over the concatenation. */
  lemma CrcConcat(c: Bits, m: Str, m': Str)
    requires |c| == 32
    ensures Crc(c, m + m') == Crc(Crc(c, m), m')
  {
    MessageBitsConcat(m, m');
    FeedConcat(c, MessageBits(m), MessageBits(m'));
  }

  // ---------------------------------------------------------------- the residue

  /** The four bytes of a word, most significant first. */
  function WordBytes(c: Bits): (m: Str)
    requires |c| == 32
  {
    NumberBits(c[..8]);
    NumberBits(c[8..16]);
    NumberBits(c[16..24]);
    NumberBits(c[24..]);
    assert Pow2(8) == 256;
    [Number(c[..8]), Number(c[8..16]), Number(c[16..24]), Number(c[24..])]
  }

  lemma WordBytesBits(c: Bits)
    requires |c| == 32
    ensures MessageBits(WordBytes(c)) == c
  {
    var m := WordBytes(c);
    NumberBits(c[..8]);
    NumberBits(c[8..16]);
    NumberBits(c[16..24]);
    NumberBits(c[24..]);
    assert m[..3] == [m[0], m[1], m[2]] && m[..3][..2] == [m[0], m[1]] && m[..3][..2][..1] == [m[0]];
    assert MessageBits([m[0]]) == MessageBits([]) + BitsOf(m[0], 8) == c[..8];
    assert MessageBits([m[0], m[1]]) == c[..8] + c[8..16] == c[..16];
    assert MessageBits([m[0], m[1], m[2]]) == c[..16] + c[16..24] == c[..24];
  }

  lemma {:induction false} StepsZero(n: nat)
    ensures Steps(Zeros(32), n) == Zeros(32)
  {
    if n > 0 {
      StepsZero(n - 1);
      assert Step(Zeros(32)) == Zeros(32);
    }
  }

  /** A message followed by its own CRC, most significant byte first, leaves zero. */
  lemma ResidueZero(c: Bits, m: Str)
    requires |c| == 32
    ensures Crc(c, m + WordBytes(Crc(c, m))) == Zeros(32)
  {
    var r := Crc(c, m);
    CrcConcat(c, m, WordBytes(r));
    WordBytesBits(r);
    FeedIsSteps(r, r);
    assert Xor(r, r + Zeros(0)) == Zeros(32);
    StepsZero(32);
  }

  // ---------------------------------------------------------------- errors it detects

  lemma LastBit(x: nat, n: nat)
    requires n > 0 && x % 2 == 1
    ensures BitsOf(x, n)[n - 1]
  {}

  /** The register loses nothing: only zero steps to zero. */
  lemma StepInjective(c: Bits)
    requires |c| == 32 && Step(c) == Zeros(32)
    ensures c == Zeros(32)
  {
    LastBit(0x04c11db7, 32);
    assert Shifted(c)[31] == false;
    assert Step(c)[31] == Zeros(32)[31];
    forall i | 0 < i < 32
      ensures !c[i]
    {
      assert Step(c)[i - 1] == c[i];
    }
  }

  lemma {:induction false} StepsInjective(c: Bits, n: nat)
    requires |c| == 32 && Steps(c, n) == Zeros(32)
    ensures c == Zeros(32)
    decreases n
  {
    if n > 0 {
      StepsInjective(Step(c), n - 1);
      StepInjective(c);
    }
  }

  lemma Differ(a: Bits, b: Bits) returns (i: nat)
    requires |a| == |b| && a != b
    ensures i < |a| && a[i] != b[i]
  {
    assert a[..|a|] == a && b[..|b|] == b;
    i := 0;
    while i < |a| && a[i] == b[i]
      invariant i <= |a| && a[..i] == b[..i]
    {
      i := i + 1;
    }
  }

  lemma XorSelf(a: Bits)
    ensures Xor(a, a) == Zeros(|a|)
  {}

  lemma FeedZeros(c: Bits, n: nat)
    requires |c| == 32
    ensures Feed(c, Zeros(n)) == Steps(c, n)
    decreases n
  {
    if n > 0 {
      FeedZeros(FeedBit(c, false), n - 1);
      assert Zeros(n)[1..] == Zeros(n - 1);
    }
  }

  /** A burst: zeros, at most 32 bits that are not all zero, zeros. */
  lemma BurstNotZero(k: nat, e: Bits, n: nat)
    requires |e| <= 32 && e != Zeros(|e|)
    ensures Feed(Zeros(32), Zeros(k) + e + Zeros(n)) != Zeros(32)
  {
    var z := Zeros(32);
    FeedConcat(z, Zeros(k) + e, Zeros(n));
    FeedConcat(z, Zeros(k), e);
    FeedZeros(z, k);
    StepsZero(k);
    ShortNotZero(e);
    FeedZeros(Feed(z, e), n);
    if Steps(Feed(z, e), n) == z {
      StepsInjective(Feed(z, e), n);
    }
  }

  lemma ShortNotZero(e: Bits)
    requires |e| <= 32 && e != Zeros(|e|)
    ensures Feed(Zeros(32), e) != Zeros(32)
  {
    var z := Zeros(32);
    FeedIsSteps(z, e);
    var a := e + Zeros(32 - |e|);
    assert Xor(z, a) == a;
    var i := Differ(e, Zeros(|e|));
    assert a[i] != z[i];
    if Steps(a, |e|) == z {
      StepsInjective(a, |e|);
    }
  }

  /** Any change confined to 32 consecutive bits changes the CRC. */
  lemma BurstDetected(c: Bits, m: Bits, m': Bits, k: nat, n: nat)
    requires |c| == 32 && |m| == |m'| && m != m'
    requires k + n <= |m| <= k + n + 32
    requires m[..k] == m'[..k] && m[|m| - n..] == m'[|m| - n..]
    ensures Feed(c, m) != Feed(c, m')
  {
    var d := Xor(m, m');
    var e := d[k..|m| - n];
    FeedLinear(c, c, m, m');
    XorSelf(c);
    assert d == Zeros(k) + e + Zeros(n) by {
      BurstShape(m, m', k, n);
    }
    var i := Differ(m, m');
    assert d[i];
    assert e[i - k] != Zeros(|e|)[i - k];
    BurstNotZero(k, e, n);
    XorSelf(Feed(c, m));
  }

  lemma BurstShape(m: Bits, m': Bits, k: nat, n: nat)
    requires |m| == |m'| && k + n <= |m| && m[..k] == m'[..k] && m[|m| - n..] == m'[|m| - n..]
    ensures Xor(m, m') == Zeros(k) + Xor(m, m')[k..|m| - n] + Zeros(n)
  {
    var d := Xor(m, m');
    forall i | 0 <= i < k
      ensures !d[i]
    {
      assert m[..k][i] == m'[..k][i];
    }
    forall i | |m| - n <= i < |m|
      ensures !d[i]
    {
      assert m[|m| - n..][i - (|m| - n)] == m'[|m| - n..][i - (|m| - n)];
    }
  }

  lemma {:induction false} BitsNumber(x: nat, n: nat)
    requires x < Pow2(n)
    ensures Number(BitsOf(x, n)) == x
  {
    if n > 0 {
      BitsNumber(x / 2, n - 1);
      assert BitsOf(x, n)[..n - 1] == BitsOf(x / 2, n - 1);
    }
  }

  lemma {:induction false} MessageBitsInjective(m: Str, m': Str)
    requires |m| == |m'| && MessageBits(m) == MessageBits(m')
    ensures m == m'
  {
    if m != [] {
      var n := |m| - 1;
      LastByte(m);
      LastByte(m');
      MessageBitsInjective(m[..n], m'[..n]);
    }
  }

  lemma LastByte(m: Str)
    requires m != []
    ensures var n := |m| - 1; MessageBits(m[..n]) == MessageBits(m)[..8 * n] && m[n] == Number(MessageBits(m)[8 * n..])
  {
    assert Pow2(8) == 256;
    BitsNumber(m[|m| - 1], 8);
  }

  /** Any change confined to four consecutive bytes changes the CRC. */
  lemma FourBytesDetected(c: Bits, m: Str, m': Str, k: nat, n: nat)
    requires |c| == 32 && |m| == |m'| && m != m'
    requires k + n <= |m| <= k + n + 4
    requires m[..k] == m'[..k] && m[|m| - n..] == m'[|m| - n..]
    ensures Crc(c, m) != Crc(c, m')
  {
    var b, b' := MessageBits(m), MessageBits(m');
    if b == b' {
      MessageBitsInjective(m, m');
    }
    SameAround(m, m', k);
    SameAround(m, m', |m| - n);
    BurstDetected(c, b, b', 8 * k, 8 * n);
  }

  /** Messages that agree before or after a byte have bits that agree before or after its first. */
  lemma SameAround(m: Str, m': Str, k: int)
    requires 0 <= k <= |m| == |m'|
    ensures var b, b' := MessageBits(m), MessageBits(m');
            (m[..k] == m'[..k] ==> b[..8 * k] == b'[..8 * k]) && (m[k..] == m'[k..] ==> b[8 * k..] == b'[8 * k..])
  {
    MessageSplit(m, m[..k], m[k..]);
    MessageSplit(m', m'[..k], m'[k..]);
  }

  lemma MessageSplit(m: Str, p: Str, q: Str)
    requires m == p + q
    ensures MessageBits(m)[..8 * |p|] == MessageBits(p) && MessageBits(m)[8 * |p|..] == MessageBits(q)
  {
    MessageBitsConcat(p, q);
    CutAt(MessageBits(m), MessageBits(p), MessageBits(q), 8 * |p|);
  }

  lemma CutAt(b: Bits, p: Bits, q: Bits, k: nat)
    requires b == p + q && |p| == k
    ensures b[..k] == p && b[k..] == q
  {}

  // ---------------------------------------------------------------- the code

  /** The static table and its flag. */
  class CrcTable {
    var initialized: bool
    const table: array<Bits>

    ghost predicate Valid()
      reads this, table
    {
      table.Length == 256 && (initialized ==> forall i :: 0 <= i < 256 ==> table[i] == Entry(i))
    }

    constructor ()
      ensures Valid() && fresh(table) && !initialized
    {
      table := new Bits[256];
      initialized := false;
    }

    /** `gen_crc_table` */
    method Generate()
      requires table.Length == 256
      modifies table
      ensures forall i :: 0 <= i < 256 ==> table[i] == Entry(i)
    {
      for i := 0 to 256
        invariant forall k :: 0 <= k < i ==> table[k] == Entry(k)
      {
        var accum := ShiftTimes(BitsOf(i, 8) + Zeros(24), 8);
        table[i] := accum;
      }
    }

    /** The inner loop, which makes eight shifts. */
    static method ShiftTimes(c: Bits, n: nat) returns (accum: Bits)
      requires |c| == 32
      ensures accum == Steps(c, n)
    {
      accum := c;
      for j := 0 to n
        invariant |accum| == 32 && Steps(accum, n - j) == Steps(c, n)
      {
        if accum[0] {
          accum := Xor(Shifted(accum), POLYNOMIAL);
        } else {
          accum := Shifted(accum);
        }
      }
    }

    /** `update_crc` */
    method Update(start: Bits, data: Str) returns (accum: Bits)
      requires Valid() && |start| == 32
      modifies this, table
      ensures Valid() && initialized && accum == Crc(start, data)
    {
      if !initialized {
        initialized := true;
        Generate();
      }
      accum := start;
      for j := 0 to |data|
        invariant Valid() && initialized
        invariant |accum| == 32 && accum == Crc(start, data[..j])
      {
        LookUp(accum, data[j]);
        FeedConcat(start, MessageBits(data[..j]), BitsOf(data[j], 8));
        assert data[..j + 1][..j] == data[..j];
        var i := Index(accum, data[j]);
        accum := Xor(accum[8..] + Zeros(8), table[i]);
      }
      assert data[..|data|] == data;
    }
  }

  /** The table-driven update is the division of the message by the polynomial. */
  method UpdateDivides(start: Bits, data: Str) returns (r: Bits)
    requires |start| == 32
    ensures r == Remainder(Dividend(start, MessageBits(data)))
  {
    var t := new CrcTable();
    r := t.Update(start, data);
    FeedIsRemainder(start, MessageBits(data));
  }
}
