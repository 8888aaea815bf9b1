/**
 Streaming MD5 (click/lib/md5.cc): a message handed over in pieces, buffered
 into 64-byte blocks, padded and finished as in sections 3.1 and 3.2 of
 RFC 1321.  The compression of one block is a parameter.
 */
module Md5 {
  import opened Bytes

  const TWO32 := 0x1_0000_0000
  const TWO64 := 0x1_0000_0000_0000_0000
  const INT_MAX := 0x7FFF_FFFF

  datatype Abcd = Abcd(a: nat, b: nat, c: nat, d: nat)

  const INIT := Abcd(0x67452301, 0xefcdab89, 0x98badcfe, 0x10325476)

  type Compress = (Abcd, Str) -> Abcd

  /** The chaining value after all full blocks of `m`. */
  function Fold(f: Compress, h: Abcd, m: Str): (r: Abcd)
    decreases |m|
  {
    if |m| < 64 then h else Fold(f, f(h, m[..64]), m[64..])
  }

  /** The bytes after the last full block. */
  function Tail(m: Str): (t: Str)
    ensures |t| == |m| % 64
  {
    m[|m| - |m| % 64..]
  }

  function Zeros(n: nat): (z: Str)
    ensures |z| == n && forall i :: 0 <= i < n ==> z[i] == 0
  {
    seq(n, _ => 0)
  }

  /** The low `n` bytes of a number, least significant first. */
  function LittleEndian(x: nat, n: nat): (b: Str)
    ensures |b| == n
  {
    if n == 0 then [] else [x % 256] + LittleEndian(x / 256, n - 1)
  }

  /** Bytes of padding: one to 64, up to 56 modulo 64. */
  function PadLength(n: nat): (k: nat)
    ensures 1 <= k <= 64 && (n + k) % 64 == 56
  {
    (55 - n) % 64 + 1
  }

  /** The padded message of RFC 1321: a one bit, zeros to 448 modulo 512 bits, then the bit length modulo 2^64. */
  function Padded(m: Str): (p: Str) {
    m + Padding(|m|) + LittleEndian(8 * |m| % TWO64, 8)
  }

  function Padding(n: nat): (p: Str)
    ensures |p| == PadLength(n)
  {
    [0x80] + Zeros(PadLength(n) - 1)
  }

  /** The padded message is a whole number of blocks, and padding adds at least one byte and at most a block
      before the length. */
  lemma PaddedLength(m: Str)
    ensures |Padded(m)| % 64 == 0 && |m| + 9 <= |Padded(m)| <= |m| + 72
  {
    var n, k := |m|, PadLength(|m|);
    assert |Padded(m)| == n + k + 8;
    WholeBlocks(n + k);
  }

  lemma WholeBlocks(x: nat)
    requires x % 64 == 56
    ensures (x + 8) % 64 == 0
  {}

  function DigestBytes(h: Abcd): (b: Str)
    ensures |b| == 16
  {
    LittleEndian(h.a, 4) + LittleEndian(h.b, 4) + LittleEndian(h.c, 4) + LittleEndian(h.d, 4)
  }

  /** The digest of a whole message at once. */
  function Digest(f: Compress, m: Str): (b: Str)
    ensures |b| == 16
  {
    DigestBytes(Fold(f, INIT, Padded(m)))
  }

  // ---------------------------------------------------------------- folding in pieces

  lemma {:induction false} FoldConcat(f: Compress, h: Abcd, p: Str, q: Str)
    requires |p| % 64 == 0
    ensures Fold(f, h, p + q) == Fold(f, Fold(f, h, p), q)
    decreases |p|
  {
    if p == [] {
      assert p + q == q;
    } else {
      assert (p + q)[..64] == p[..64] && (p + q)[64..] == p[64..] + q;
      FoldConcat(f, f(h, p[..64]), p[64..], q);
    }
  }

  /** Appending to a message is folding its tail together with the new bytes. */
  lemma FoldAppend(f: Compress, h: Abcd, m: Str, d: Str)
    ensures Fold(f, h, m + d) == Fold(f, Fold(f, h, m), Tail(m) + d)
    ensures Tail(m + d) == Tail(Tail(m) + d)
  {
    var full, t := m[..|m| - |m| % 64], Tail(m);
    assert m == full + t && m + d == full + (t + d);
    FoldConcat(f, h, full, t);
    FoldConcat(f, h, full, t + d);
    TailAfterBlocks(full, t + d);
  }

  lemma TailAfterBlocks(full: Str, m: Str)
    requires |full| % 64 == 0
    ensures Tail(full + m) == Tail(m)
  {
    var n, k := |m| - |m| % 64, |full| / 64;
    assert |full + m| == 64 * k + |m|;
    MultipleOf64(|m|, k);
    assert (full + m)[|full| + n..] == m[n..];
  }

  lemma FoldShort(f: Compress, h: Abcd, m: Str)
    requires |m| < 64
    ensures Fold(f, h, m) == h && Tail(m) == m
  {}

  lemma FoldBlock(f: Compress, h: Abcd, b: Str, rest: Str)
    requires |b| == 64
    ensures Fold(f, h, b + rest) == Fold(f, f(h, b), rest)
    ensures Tail(b + rest) == Tail(rest)
  {
    assert (b + rest)[..64] == b && (b + rest)[64..] == rest;
    var n := |rest|;
    assert |b + rest| % 64 == n % 64;
    assert Tail(b + rest) == (b + rest)[64 + (n - n % 64)..] == rest[n - n % 64..];
  }

  // ---------------------------------------------------------------- the length counter

  /** The two counter words after adding the bits of `n` bytes, carry included. */
  function AddBits(c0: nat, c1: nat, n: nat): (r: (nat, nat))
    ensures r.0 < TWO32 && r.1 < TWO32
  {
    var nbits := 8 * n % TWO32;
    var d1 := (c1 + n / 0x2000_0000) % TWO32;
    var d0 := (c0 + nbits) % TWO32;
    (d0, if d0 < nbits then (d1 + 1) % TWO32 else d1)
  }

  lemma AddBitsIsSum(c0: nat, c1: nat, n: nat)
    requires c0 < TWO32 && c1 < TWO32
    ensures var (d0, d1) := AddBits(c0, c1, n);
            d1 * TWO32 + d0 == (c1 * TWO32 + c0 + 8 * n) % TWO64
  {
    var hi, lo := n / 0x2000_0000, 8 * n % TWO32;
    assert 8 * n == hi * TWO32 + lo;
    var carry := if c0 + lo >= TWO32 then 1 else 0;
    var (d0, d1) := AddBits(c0, c1, n);
    assert d0 == c0 + lo - carry * TWO32;
    assert d0 < lo <==> carry == 1;
    WrapTwice(c1 + hi, carry);
    WrapHigh(c1 + hi + carry, d0);
  }

  lemma WrapTwice(x: nat, carry: nat)
    requires carry <= 1
    ensures (x % TWO32 + carry) % TWO32 == (x + carry) % TWO32
  {}

  lemma WrapHigh(x: nat, d0: nat)
    requires d0 < TWO32
    ensures (x % TWO32) * TWO32 + d0 == (x * TWO32 + d0) % TWO64
  {
    var q, r := x / 0x1_0000_0000, x % 0x1_0000_0000;
    assert x * 0x1_0000_0000 + d0 == q * 0x1_0000_0000_0000_0000 + (r * 0x1_0000_0000 + d0);
    Remainder64(q, r * 0x1_0000_0000 + d0);
  }

  lemma Remainder64(q: nat, r: nat)
    requires r < TWO64
    ensures (q * 0x1_0000_0000_0000_0000 + r) % 0x1_0000_0000_0000_0000 == r
  {}

  /** Adding up modulo 2^64. */
  lemma BitsAppended(a: nat, n: nat)
    ensures (8 * a % TWO64 + 8 * n) % TWO64 == 8 * (a + n) % TWO64
  {
    var q := 8 * a / TWO64;
    assert 8 * (a + n) == q * TWO64 + (8 * a % TWO64 + 8 * n);
  }

  /** The block offset can be read off the low counter word. */
  lemma OffsetFromCount(c0: nat, c1: nat, n: nat)
    requires c0 < TWO32 && c1 * TWO32 + c0 == 8 * n % TWO64
    ensures c0 / 8 % 64 == n % 64
    ensures (55 - c0 / 8) % 64 == (55 - n) % 64
  {
    var q := 8 * n / TWO64;
    assert 8 * n == TWO64 * q + (c1 * TWO32 + c0);
    OffsetFromWords(c0, q * TWO32 + c1, n);
  }

  lemma OffsetFromWords(c0: nat, k: nat, n: nat)
    requires 8 * n == 0x1_0000_0000 * k + c0
    ensures c0 / 8 % 64 == n % 64
    ensures (55 - c0 / 8) % 64 == (55 - n) % 64
  {
    var w := c0 / 8;
    assert n == w + 64 * (0x80_0000 * k);
    MultipleOf64(w, 0x80_0000 * k);
  }

  lemma {:induction false} MultipleOf64(w: int, m: nat)
    ensures (w + 64 * m) % 64 == w % 64 && (55 - (w + 64 * m)) % 64 == (55 - w) % 64
  {
    if m > 0 {
      MultipleOf64(w, m - 1);
      OneBlockMore(w + 64 * (m - 1));
      OneBlockMore(55 - (w + 64 * m));
    }
  }

  lemma OneBlockMore(x: int)
    ensures (x + 64) % 64 == x % 64
  {}

  // ---------------------------------------------------------------- words as bytes

  /** `(byte)(word >> 8 * k)` */
  function ByteOf(word: nat, k: nat): (b: Byte)
    requires k < 4
  {
    word / [1, 0x100, 0x1_0000, 0x100_0000][k] % 256
  }

  /** Four bytes of each word, low byte first. */
  function WordBytes(words: seq<nat>): (b: Str)
    ensures |b| == 4 * |words|
  {
    if words == [] then [] else LittleEndian(words[0], 4) + WordBytes(words[1..])
  }

  lemma LittleEndianBytes(x: nat, k: nat)
    requires k < 4
    ensures LittleEndian(x, 4)[k] == ByteOf(x, k)
  {
    var x1 := x / 256;
    var x2 := x1 / 256;
    var x3 := x2 / 256;
    ShiftTwice(x);
    assert LittleEndian(x3, 1) == [x3 % 256] + LittleEndian(x3 / 256, 0);
    assert LittleEndian(x2, 2) == [x2 % 256] + LittleEndian(x3, 1);
    assert LittleEndian(x1, 3) == [x1 % 256] + LittleEndian(x2, 2);
    assert LittleEndian(x, 4) == [x % 256, x1 % 256, x2 % 256, x3 % 256];
  }

  lemma ShiftTwice(x: nat)
    ensures x / 256 / 256 == x / 0x1_0000 && x / 0x1_0000 / 256 == x / 0x100_0000
  {}

  lemma {:induction false} WordBytesAt(words: seq<nat>, i: nat)
    requires i < 4 * |words|
    ensures WordBytes(words)[i] == ByteOf(words[i / 4], i % 4)
  {
    if i < 4 {
      LittleEndianBytes(words[0], i);
    } else {
      WordBytesAt(words[1..], i - 4);
      assert words[1..][(i - 4) / 4] == words[i / 4];
    }
  }

  /** The stores through `i >> 2` and `i & 3`. */
  method StoreWords(words: seq<nat>) returns (b: Str)
    ensures b == WordBytes(words)
  {
    b := [];
    for i := 0 to 4 * |words|
      invariant b == WordBytes(words)[..i]
    {
      WordBytesAt(words, i);
      b := b + [ByteOf(words[i / 4], i % 4)];
    }
  }

  /** A number in two words, low word first, has its eight bytes in order. */
  lemma TwoWords(c0: nat, c1: nat)
    requires c0 < TWO32
    ensures LittleEndian(c1 * TWO32 + c0, 8) == WordBytes([c0, c1])
  {
    assert Pow256(2) == 0x1_0000 && Pow256(4) == TWO32;
    LowBytes(c1 * TWO32 + c0, c0, c1, 4);
    assert WordBytes([c1]) == LittleEndian(c1, 4) + WordBytes([]);
    assert [c0, c1][1..] == [c1];
  }

  function Pow256(n: nat): (p: nat)
    ensures p > 0
  {
    if n == 0 then 1 else 256 * Pow256(n - 1)
  }

  lemma LowByte(x: nat, c0: nat, c1: nat, p: nat)
    requires x == c1 * (256 * p) + c0 && c0 < 256 * p
    ensures x % 256 == c0 % 256 && x / 256 == c1 * p + c0 / 256 && c0 / 256 < p
  {
    var m := c1 * p;
    assert c1 * (256 * p) == 256 * m;
  }

  lemma {:induction false} LowBytes(x: nat, c0: nat, c1: nat, n: nat)
    requires x == c1 * Pow256(n) + c0 && c0 < Pow256(n)
    ensures LittleEndian(x, n + 4) == LittleEndian(c0, n) + LittleEndian(c1, 4)
    decreases n
  {
    if n > 0 {
      LowByte(x, c0, c1, Pow256(n - 1));
      LowBytes(x / 256, c0 / 256, c1, n - 1);
    }
  }

  lemma DigestIsWords(h: Abcd)
    ensures DigestBytes(h) == WordBytes([h.a, h.b, h.c, h.d])
  {
    var w := [h.a, h.b, h.c, h.d];
    assert w[1..] == [h.b, h.c, h.d] && w[1..][1..] == [h.c, h.d] && w[1..][1..][1..] == [h.d];
    assert WordBytes([h.d]) == LittleEndian(h.d, 4) + WordBytes([]);
    assert WordBytes([h.c, h.d]) == LittleEndian(h.c, 4) + LittleEndian(h.d, 4);
  }

  // ---------------------------------------------------------------- the state

  /** Two 32-bit words hold the bits of `n` bytes modulo 2^64. */
  ghost predicate Counts(c0: nat, c1: nat, n: nat) {
    c0 < TWO32 && c1 < TWO32 && c1 * TWO32 + c0 == 8 * n % TWO64
  }

  lemma CountsAdded(c0: nat, c1: nat, n: nat, m: nat)
    requires Counts(c0, c1, n)
    ensures var (d0, d1) := AddBits(c0, c1, m); Counts(d0, d1, n + m)
  {
    AddBitsIsSum(c0, c1, m);
    BitsAppended(n, m);
  }

  class Md5State {
    const compress: Compress
    const buf: array<Byte>
    var count0: nat
    var count1: nat
    var abcd: Abcd
    ghost var message: Str

    /** The state stands for the message: full blocks folded in, the tail in the buffer, the bit count stored. */
    ghost predicate Valid()
      reads this, buf
    {
      && buf.Length == 64
      && abcd == Fold(compress, INIT, message)
      && buf[..|message| % 64] == Tail(message)
      && Counts(count0, count1, |message|)
    }

    /** `md5_init` */
    constructor (compress: Compress)
      ensures Valid() && fresh(buf) && message == [] && this.compress == compress
    {
      this.compress := compress;
      buf := new Byte[64];
      count0, count1, abcd := 0, 0, INIT;
      message := [];
    }

    method CopyIn(at: nat, d: Str)
      requires at + |d| <= buf.Length
      modifies buf
      ensures buf[..at + |d|] == old(buf[..at]) + d
    {
      for i := 0 to |d|
        invariant buf[..at + i] == old(buf[..at]) + d[..i]
      {
        buf[at + i] := d[i];
        assert buf[..at + i + 1] == buf[..at + i] + [d[i]];
      }
    }

    method AddLength(n: nat)
      requires count0 < TWO32 && count1 < TWO32
      modifies this`count0, this`count1
      ensures (count0, count1) == AddBits(old(count0), old(count1), n)
    {
      var nbits := 8 * n % TWO32;
      count1 := (count1 + n / 0x2000_0000) % TWO32;
      count0 := (count0 + nbits) % TWO32;
      if count0 < nbits {
        count1 := (count1 + 1) % TWO32;
      }
    }

    /** The part of `md5_append` after the length: fold in the block the buffer completes, then the full
        blocks, and keep the rest. */
    method Absorb(data: Str, offset: nat)
      requires buf.Length == 64 && offset < 64 && data != []
      modifies this`abcd, buf
      ensures abcd == Fold(compress, old(abcd), old(buf[..offset]) + data)
      ensures buf[..(offset + |data|) % 64] == Tail(old(buf[..offset]) + data)
    {
      ghost var all := buf[..offset] + data;
      var p := 0;
      if offset != 0 {
        var copy := if offset + |data| > 64 then 64 - offset else |data|;
        CopyIn(offset, data[..copy]);
        if offset + copy < 64 {
          assert data[..copy] == data;
          FoldShort(compress, abcd, all);
          return;
        }
        p := copy;
        assert all == buf[..] + data[p..];
        FoldBlock(compress, abcd, buf[..], data[p..]);
        abcd := compress(abcd, buf[..]);
      } else {
        assert all == data[0..];
      }
      p := FoldBlocks(data, p);
      CopyIn(0, data[p..]);
      assert (offset + |data|) % 64 == |data[p..]|;
    }

    /** The full-block loop. */
    method FoldBlocks(data: Str, from: nat) returns (p: nat)
      requires from <= |data|
      modifies this`abcd
      ensures from <= p <= |data| && |data| - p < 64
      ensures abcd == Fold(compress, old(abcd), data[from..]) && data[p..] == Tail(data[from..])
    {
      p := from;
      while |data| - p >= 64
        invariant from <= p <= |data|
        invariant Fold(compress, abcd, data[p..]) == Fold(compress, old(abcd), data[from..])
        invariant Tail(data[p..]) == Tail(data[from..])
      {
        assert data[p..] == data[p..p + 64] + data[p + 64..];
        FoldBlock(compress, abcd, data[p..p + 64], data[p + 64..]);
        abcd := compress(abcd, data[p..p + 64]);
        p := p + 64;
      }
      FoldShort(compress, abcd, data[p..]);
    }

    /**
     `md5_append`.  The source adds the offset and the length as `int`s, so
     the sum must not exceed INT_MAX.
     */
    method Append(data: Str)
      requires Valid() && |message| % 64 + |data| <= INT_MAX
      modifies this, buf
      ensures Valid() && message == old(message) + data
    {
      OffsetFromCount(count0, count1, |message|);
      var offset := count0 / 8 % 64;
      if |data| == 0 {
        assert message + data == message;
        return;
      }
      CountsAdded(count0, count1, |message|, |data|);
      AddLength(|data|);
      FoldAppend(compress, INIT, message, data);
      Absorb(data, offset);
      message := message + data;
    }

    method SavedLength() returns (data: Str)
      requires Valid()
      ensures data == LittleEndian(8 * |message| % TWO64, 8)
    {
      CountBytes(count0, count1, |message|);
      data := StoreWords([count0, count1]);
    }

    method PaddingBytes() returns (pad: Str)
      requires Valid()
      ensures pad == Padding(|message|) && |pad| <= 64
    {
      CountBytes(count0, count1, |message|);
      pad := PAD[..(55 - count0 / 8) % 64 + 1];
    }

    method AppendPadding()
      requires Valid()
      modifies this, buf
      ensures Valid() && message == old(message) + Padding(|old(message)|)
    {
      var pad := PaddingBytes();
      Append(pad);
    }

    /** The length saved, the padding appended, then the length. */
    method Pad()
      requires Valid()
      modifies this, buf
      ensures Valid() && message == Padded(old(message))
    {
      var data := SavedLength();
      AppendPadding();
      Append(data);
    }

    /** `md5_finish` */
    method Finish() returns (digest: Str)
      requires Valid()
      modifies this, buf
      ensures Valid() && message == Padded(old(message))
      ensures digest == Digest(compress, old(message))
    {
      Pad();
      digest := StoreWords([abcd.a, abcd.b, abcd.c, abcd.d]);
      DigestIsWords(abcd);
    }
  }

  const PAD: Str := [0x80] + Zeros(63)

  /** The counter words give the number of padding bytes and, stored, the length at the end. */
  lemma CountBytes(c0: nat, c1: nat, n: nat)
    requires Counts(c0, c1, n)
    ensures var k := (55 - c0 / 8) % 64 + 1; k <= |PAD| && PAD[..k] == Padding(n)
    ensures WordBytes([c0, c1]) == LittleEndian(8 * n % TWO64, 8)
  {
    OffsetFromCount(c0, c1, n);
    PadBytes(n, (55 - c0 / 8) % 64 + 1);
    TwoWords(c0, c1);
  }

  lemma PadBytes(n: nat, k: nat)
    requires k == PadLength(n)
    ensures k <= |PAD| && PAD[..k] == Padding(n)
  {}

  /** The pieces handed over, joined. */
  function Joined(pieces: seq<Str>): (m: Str) {
    if pieces == [] then [] else Joined(pieces[..|pieces| - 1]) + pieces[|pieces| - 1]
  }

  /** Init, any appends, finish: the digest of the joined pieces, however the message is cut. */
  method DigestInPieces(compress: Compress, pieces: seq<Str>) returns (digest: Str)
    requires forall i :: 0 <= i < |pieces| ==> |Joined(pieces[..i])| % 64 + |pieces[i]| <= INT_MAX
    ensures digest == Digest(compress, Joined(pieces))
  {
    var state := new Md5State(compress);
    for i := 0 to |pieces|
      invariant state.Valid() && fresh(state) && fresh(state.buf)
      invariant state.compress == compress && state.message == Joined(pieces[..i])
    {
      state.Append(pieces[i]);
      assert pieces[..i + 1][..i] == pieces[..i];
    }
    assert pieces[..|pieces|] == pieces;
    digest := state.Finish();
  }
}
