/**
 The wire format of IGMPv3 membership reports: `ReportIGMPElement`, which
 builds packets (elements/reportigmp.cc), and `ProcessReport`, which takes
 them apart (elements/ProcessReport.cc).  The layout is that of section 4.2
 of RFC 3376.
 */
module Reports {
  import opened Bytes
  import opened Checksum
  import opened Collections

  /** An address as its four bytes in memory, that is, in network order. */
  datatype IPAddress = IPAddress(b0: Byte, b1: Byte, b2: Byte, b3: Byte)

  datatype GroupRecord = GroupRecord(rtype: Byte, group: IPAddress, sources: seq<IPAddress>)

  const IS_INCLUDE: Byte := 1
  const IS_EXCLUDE: Byte := 2
  const TO_IN: Byte := 3
  const TO_EX: Byte := 4
  const REPORT: Byte := 0x22
  const IP_HEADER := 20
  const REPORT_HEADER := 8
  const RECORD_HEADER := 8

  /** A count as it is stored: truncated to 16 bits, most significant byte first. */
  function Htons(n: nat): (b: Str)
    ensures |b| == 2
  {
    [n % TWO16 / 256, n % 256]
  }

  function Ntohs(b0: Byte, b1: Byte): (n: nat)
    ensures n < TWO16
  {
    256 * b0 + b1
  }

  lemma NtohsHtons(n: nat)
    ensures Ntohs(Htons(n)[0], Htons(n)[1]) == n % TWO16
  {
    var q, k := n / 0x1_0000, n % 0x1_0000;
    assert n == 256 * (256 * q + k / 256) + k % 256;
  }

  function AddressBytes(a: IPAddress): (b: Str)
    ensures |b| == 4
  {
    [a.b0, a.b1, a.b2, a.b3]
  }

  function SourceBytes(sources: seq<IPAddress>): (b: Str)
    ensures |b| == 4 * |sources|
  {
    if sources == [] then [] else AddressBytes(sources[0]) + SourceBytes(sources[1..])
  }

  /** The bytes of one group record. */
  function RecordBytes(r: GroupRecord): (b: Str)
    ensures |b| == RecordSize(r)
  {
    [r.rtype, 0] + Htons(|r.sources|) + AddressBytes(r.group) + SourceBytes(r.sources)
  }

  /** `calculateGrouprecordSize` */
  function RecordSize(r: GroupRecord): nat {
    RECORD_HEADER + 4 * |r.sources|
  }

  function RecordsBytes(rs: seq<GroupRecord>): (b: Str) {
    if rs == [] then [] else RecordBytes(rs[0]) + RecordsBytes(rs[1..])
  }

  /** A report whose checksum field is still zero. */
  function Unsummed(rs: seq<GroupRecord>): (b: Str)
    ensures |b| >= REPORT_HEADER && b[0] == REPORT && b[2] == 0 == b[3]
  {
    [REPORT, 0, 0, 0, 0, 0] + Htons(|rs|) + RecordsBytes(rs)
  }

  /** The finished report. */
  function ReportBytes(rs: seq<GroupRecord>, big: bool): (b: Str)
    ensures |b| == |Unsummed(rs)|
  {
    var u := Unsummed(rs);
    var c := WordBytes(Cksum(u, big), big);
    u[2 := c[0]][3 := c[1]]
  }

  // ---------------------------------------------------------------- writing

  lemma {:induction false} RecordsBytesAppend(rs: seq<GroupRecord>, r: GroupRecord)
    ensures RecordsBytes(rs + [r]) == RecordsBytes(rs) + RecordBytes(r)
  {
    if rs == [] {
      assert ([r])[1..] == [];
    } else {
      assert (rs + [r])[1..] == rs[1..] + [r];
      RecordsBytesAppend(rs[1..], r);
    }
  }

  lemma {:induction false} SourceBytesAppend(ss: seq<IPAddress>, a: IPAddress)
    ensures SourceBytes(ss + [a]) == SourceBytes(ss) + AddressBytes(a)
  {
    if ss == [] {
      assert ([a])[1..] == [];
    } else {
      assert (ss + [a])[1..] == ss[1..] + [a];
      SourceBytesAppend(ss[1..], a);
    }
  }

  /** `t` is `s` with `e` written over it at `i`. */
  ghost predicate Written(s: Str, t: Str, i: nat, e: Str) {
    i + |e| <= |s| && t == s[..i] + e + s[i + |e|..]
  }

  lemma WrittenTwice(s: Str, t: Str, u: Str, i: nat, d: Str, e: Str)
    requires Written(s, t, i, d) && Written(t, u, i + |d|, e)
    ensures Written(s, u, i, d + e)
  {
    assert t[..i + |d|] == s[..i] + d;
    assert t[i + |d| + |e|..] == s[i + |d| + |e|..];
  }

  /** Store an address, as the pointer write to a 32-bit field does. */
  method StoreAddress(buf: array<Byte>, at: nat, a: IPAddress)
    requires at + 4 <= buf.Length
    modifies buf
    ensures Written(old(buf[..]), buf[..], at, AddressBytes(a))
  {
    buf[at], buf[at + 1], buf[at + 2], buf[at + 3] := a.b0, a.b1, a.b2, a.b3;
    assert buf[..] == old(buf[..at]) + AddressBytes(a) + old(buf[at + 4..]);
  }

  /** The inner loop of `generatePacket`. */
  method StoreSources(buf: array<Byte>, at: nat, sources: seq<IPAddress>)
    requires at + 4 * |sources| <= buf.Length
    modifies buf
    ensures Written(old(buf[..]), buf[..], at, SourceBytes(sources))
  {
    for j := 0 to |sources|
      invariant Written(old(buf[..]), buf[..], at, SourceBytes(sources[..j]))
    {
      ghost var before := buf[..];
      StoreAddress(buf, at + 4 * j, sources[j]);
      WrittenTwice(old(buf[..]), before, buf[..], at, SourceBytes(sources[..j]), AddressBytes(sources[j]));
      SourceBytesAppend(sources[..j], sources[j]);
      assert sources[..j + 1] == sources[..j] + [sources[j]];
    }
    assert sources[..|sources|] == sources;
  }

  /** One turn of the outer loop of `generatePacket`. */
  method StoreRecord(buf: array<Byte>, at: nat, r: GroupRecord)
    requires at + RecordSize(r) <= buf.Length
    modifies buf
    ensures Written(old(buf[..]), buf[..], at, RecordBytes(r))
  {
    ghost var s0 := buf[..];
    var n := Htons(|r.sources|);
    buf[at], buf[at + 1], buf[at + 2], buf[at + 3] := r.rtype, 0, n[0], n[1];
    ghost var s1 := buf[..];
    assert s1 == s0[..at] + ([r.rtype, 0] + n) + s0[at + 4..];
    StoreAddress(buf, at + 4, r.group);
    ghost var s2 := buf[..];
    StoreSources(buf, at + RECORD_HEADER, r.sources);
    WrittenTwice(s0, s1, s2, at, [r.rtype, 0] + n, AddressBytes(r.group));
    WrittenTwice(s0, s2, buf[..], at, [r.rtype, 0] + n + AddressBytes(r.group), SourceBytes(r.sources));
  }

  /** The total size of the records. */
  method SumSizes(rs: seq<GroupRecord>) returns (n: nat)
    ensures n == |RecordsBytes(rs)|
  {
    n := 0;
    for i := 0 to |rs|
      invariant n == |RecordsBytes(rs[..i])|
    {
      RecordsBytesAppend(rs[..i], rs[i]);
      assert rs[..i + 1] == rs[..i] + [rs[i]];
      n := n + RecordSize(rs[i]);
    }
    assert rs[..|rs|] == rs;
  }

  lemma {:induction false} RecordsBytesConcat(rs: seq<GroupRecord>, ts: seq<GroupRecord>)
    ensures RecordsBytes(rs + ts) == RecordsBytes(rs) + RecordsBytes(ts)
  {
    if rs == [] {
      assert rs + ts == ts;
    } else {
      assert (rs + ts)[1..] == rs[1..] + ts;
      RecordsBytesConcat(rs[1..], ts);
    }
  }

  /** The offset after the first records stays inside the packet. */
  lemma OffsetFits(rs: seq<GroupRecord>, i: nat)
    requires i < |rs|
    ensures RecordsBytes(rs[..i + 1]) == RecordsBytes(rs[..i]) + RecordBytes(rs[i])
    ensures |RecordsBytes(rs[..i])| + RecordSize(rs[i]) <= |RecordsBytes(rs)|
  {
    assert rs[..i + 1] == rs[..i] + [rs[i]];
    RecordsBytesAppend(rs[..i], rs[i]);
    assert rs == rs[..i + 1] + rs[i + 1..];
    RecordsBytesConcat(rs[..i + 1], rs[i + 1..]);
  }

  lemma WrittenPrefix(s: Str, t: Str, i: nat, e: Str)
    requires Written(s, t, i, e)
    ensures |t| == |s| && t[..i + |e|] == s[..i] + e
  {}

  method AppendRecord(packet: array<Byte>, offset: nat, r: GroupRecord)
    requires offset + RecordSize(r) <= packet.Length
    modifies packet
    ensures packet[..offset + RecordSize(r)] == old(packet[..offset]) + RecordBytes(r)
  {
    ghost var before := packet[..];
    StoreRecord(packet, offset, r);
    WrittenPrefix(before, packet[..], offset, RecordBytes(r));
  }

  /** The record loop of `generatePacket`. */
  method StoreRecords(packet: array<Byte>, rs: seq<GroupRecord>)
    requires packet.Length == REPORT_HEADER + |RecordsBytes(rs)|
    modifies packet
    ensures packet[..] == old(packet[..REPORT_HEADER]) + RecordsBytes(rs)
  {
    var offset := REPORT_HEADER;
    ghost var header, stored := packet[..REPORT_HEADER], [];
    for i := 0 to |rs|
      invariant stored == RecordsBytes(rs[..i])
      invariant offset == REPORT_HEADER + |stored| <= packet.Length
      invariant packet[..offset] == header + stored
    {
      OffsetFits(rs, i);
      AppendRecord(packet, offset, rs[i]);
      offset := offset + RecordSize(rs[i]);
      Regroup(header, stored, RecordBytes(rs[i]));
      stored := stored + RecordBytes(rs[i]);
    }
    assert rs[..|rs|] == rs && packet[..] == packet[..offset];
  }

  /** `generatePacket` */
  method GeneratePacket(rs: seq<GroupRecord>, big: bool) returns (packet: array<Byte>)
    ensures fresh(packet) && packet[..] == ReportBytes(rs, big)
  {
    var size := SumSizes(rs);
    packet := new Byte[REPORT_HEADER + size](_ => 0);
    var n := Htons(|rs|);
    packet[0] := REPORT;
    packet[6], packet[7] := n[0], n[1];
    assert packet[..REPORT_HEADER] == [REPORT, 0, 0, 0, 0, 0] + n;
    StoreRecords(packet, rs);
    var sum := ClickInCksum(packet[..], big);
    var c := WordBytes(sum, big);
    packet[2], packet[3] := c[0], c[1];
  }

  // ---------------------------------------------------------------- reading

  /** What becomes of a packet; `Overrun` is a read past its end, which the source does not check for. */
  datatype Outcome = Parsed(records: seq<GroupRecord>) | Rejected | Overrun

  function AddressAt(b: Str, i: nat): IPAddress
    requires i + 4 <= |b|
  {
    IPAddress(b[i], b[i + 1], b[i + 2], b[i + 3])
  }

  function SourcesAt(b: Str, i: nat, n: nat): (ss: seq<IPAddress>)
    requires i + 4 * n <= |b|
    ensures |ss| == n
    decreases n
  {
    if n == 0 then [] else [AddressAt(b, i)] + SourcesAt(b, i + 4, n - 1)
  }

  /** The `n` records from offset `i`, each read where the one before it ends. */
  function RecordsAt(b: Str, i: nat, n: nat): (r: Outcome)
    ensures !r.Rejected?
    decreases n
  {
    if n == 0 then Parsed([])
    else if i + RECORD_HEADER > |b| then Overrun
    else
      var k := Ntohs(b[i + 2], b[i + 3]);
      if i + RECORD_HEADER + 4 * k > |b| then Overrun
      else
        var r := GroupRecord(b[i], AddressAt(b, i + 4), SourcesAt(b, i + RECORD_HEADER, k));
        match RecordsAt(b, i + RECORD_HEADER + 4 * k, n - 1)
        case Parsed(rs) => Parsed([r] + rs)
        case Overrun => Overrun
  }

  /** The outcome for the bytes after the IP header. */
  function Decode(b: Str, big: bool): Outcome {
    if |b| < REPORT_HEADER then Overrun
    else
      var z := b[2 := 0][3 := 0];
      if Cksum(z, big) != Word(b[2], b[3], big) || z[0] != REPORT then Rejected
      else RecordsAt(z, REPORT_HEADER, Ntohs(z[6], z[7]))
  }

  /** The loop over a record's sources. */
  method ReadSources(b: Str, at: nat, n: nat) returns (ss: seq<IPAddress>)
    requires at + 4 * n <= |b|
    ensures ss == SourcesAt(b, at, n)
  {
    ss := [];
    for j := 0 to n
      invariant |ss| == j && ss + SourcesAt(b, at + 4 * j, n - j) == SourcesAt(b, at, n)
    {
      ghost var rest := SourcesAt(b, at + 4 * (j + 1), n - (j + 1));
      assert ss + ([AddressAt(b, at + 4 * j)] + rest) == ss + [AddressAt(b, at + 4 * j)] + rest;
      ss := ss + [AddressAt(b, at + 4 * j)];
    }
  }

  class ProcessReport {
    var verifiedChecksum: bool
    var rtype: Byte
    var checksum: nat
    var records: seq<GroupRecord>

    constructor ()
      ensures records == []
    {
      verifiedChecksum, rtype, checksum, records := false, 0, 0, [];
    }

    /** `verifyChecksum`: compare the stored sum with the sum over the packet with the field zeroed, in place. */
    method VerifyChecksum(p: array<Byte>, big: bool) returns (ok: bool)
      requires IP_HEADER + REPORT_HEADER <= p.Length
      modifies p
      ensures p[..] == old(p[..])[IP_HEADER + 2 := 0][IP_HEADER + 3 := 0]
      ensures ok <==> Cksum(p[IP_HEADER..], big) == Word(old(p[IP_HEADER + 2]), old(p[IP_HEADER + 3]), big)
    {
      var stored := Word(p[IP_HEADER + 2], p[IP_HEADER + 3], big);
      p[IP_HEADER + 2], p[IP_HEADER + 3] := 0, 0;
      var sum := ClickInCksum(p[IP_HEADER..], big);
      ok := sum == stored;
    }

    /** `process`, on a packet with its IP header. */
    method Process(p: array<Byte>, big: bool) returns (r: Outcome)
      modifies this, p
      ensures p.Length < IP_HEADER ==> r == Overrun
      ensures p.Length >= IP_HEADER ==> r == Decode(old(p[IP_HEADER..]), big)
      ensures records == match r { case Parsed(rs) => old(records) + rs case _ => old(records) }
    {
      if p.Length < IP_HEADER + REPORT_HEADER {
        return Overrun;
      }
      ghost var b := p[IP_HEADER..];
      verifiedChecksum := VerifyChecksum(p, big);
      ghost var z := p[IP_HEADER..];
      assert z == b[2 := 0][3 := 0];
      checksum := Word(p[IP_HEADER + 2], p[IP_HEADER + 3], big);
      if !verifiedChecksum {
        return Rejected;
      }
      rtype := p[IP_HEADER];
      if rtype != REPORT {
        return Rejected;
      }
      r := ReadRecords(p[IP_HEADER..], Ntohs(p[IP_HEADER + 6], p[IP_HEADER + 7]));
      if r.Parsed? {
        records := records + r.records;
      }
    }
  }

  /** The record loop of `process`. */
  method ReadRecords(b: Str, n: nat) returns (r: Outcome)
    ensures r == RecordsAt(b, REPORT_HEADER, n)
  {
    var offset: nat, records := REPORT_HEADER, [];
    for i := 0 to n
      invariant Prepended(records, RecordsAt(b, offset, n - i)) == RecordsAt(b, REPORT_HEADER, n)
    {
      if offset + RECORD_HEADER > |b| {
        return Overrun;
      }
      var k := Ntohs(b[offset + 2], b[offset + 3]);
      if offset + RECORD_HEADER + 4 * k > |b| {
        return Overrun;
      }
      var ss := ReadSources(b, offset + RECORD_HEADER, k);
      var g := GroupRecord(b[offset], AddressAt(b, offset + 4), ss);
      RecordsStep(b, offset, n - i, records, g, k);
      records := records + [g];
      offset := offset + RECORD_HEADER + 4 * k;
    }
    return Parsed(records);
  }

  /** The outcome once the records read so far are put in front. */
  ghost function Prepended(done: seq<GroupRecord>, rest: Outcome): Outcome {
    match rest case Parsed(rs) => Parsed(done + rs) case _ => rest
  }

  lemma RecordsStep(b: Str, i: nat, n: nat, done: seq<GroupRecord>, g: GroupRecord, k: nat)
    requires 0 < n && i + RECORD_HEADER <= |b| && k == Ntohs(b[i + 2], b[i + 3]) && i + RECORD_HEADER + 4 * k <= |b|
    requires g == GroupRecord(b[i], AddressAt(b, i + 4), SourcesAt(b, i + RECORD_HEADER, k))
    ensures Prepended(done, RecordsAt(b, i, n)) == Prepended(done + [g], RecordsAt(b, i + RECORD_HEADER + 4 * k, n - 1))
  {
    var rest := RecordsAt(b, i + RECORD_HEADER + 4 * k, n - 1);
    if rest.Parsed? {
      assert done + ([g] + rest.records) == done + [g] + rest.records;
    }
  }

  // ---------------------------------------------------------------- round trip

  /** Every count fits its 16-bit field. */
  ghost predicate CountsFit(rs: seq<GroupRecord>) {
    |rs| < TWO16 && forall i :: 0 <= i < |rs| ==> |rs[i].sources| < TWO16
  }

  lemma AddressAtWritten(b: Str, i: nat, a: IPAddress)
    requires At(b, i, AddressBytes(a))
    ensures AddressAt(b, i) == a
  {
    var e := AddressBytes(a);
    assert b[i + 0] == e[0] && b[i + 1] == e[1] && b[i + 2] == e[2] && b[i + 3] == e[3];
  }

  lemma {:induction false} SourcesAtWritten(b: Str, i: nat, ss: seq<IPAddress>)
    requires At(b, i, SourceBytes(ss))
    ensures SourcesAt(b, i, |ss|) == ss
    decreases |ss|
  {
    if ss != [] {
      AtSplit(b, i, AddressBytes(ss[0]), SourceBytes(ss[1..]));
      AddressAtWritten(b, i, ss[0]);
      SourcesAtWritten(b, i + 4, ss[1..]);
      assert ss == [ss[0]] + ss[1..];
    }
  }

  /** One record is read back as it was written, and the reader ends where the writer did. */
  lemma RecordAtWritten(b: Str, i: nat, r: GroupRecord)
    requires At(b, i, RecordBytes(r)) && |r.sources| < TWO16
    ensures i + RecordSize(r) <= |b| && b[i] == r.rtype && Ntohs(b[i + 2], b[i + 3]) == |r.sources|
    ensures AddressAt(b, i + 4) == r.group && SourcesAt(b, i + RECORD_HEADER, |r.sources|) == r.sources
  {
    var head: Str := [r.rtype, 0] + Htons(|r.sources|);
    var rest := AddressBytes(r.group) + SourceBytes(r.sources);
    assert RecordBytes(r) == head + rest;
    AtSplit(b, i, head, rest);
    AtSplit(b, i + 4, AddressBytes(r.group), SourceBytes(r.sources));
    HeadAtWritten(b, i, r.rtype, |r.sources|);
    AddressAtWritten(b, i + 4, r.group);
    SourcesAtWritten(b, i + RECORD_HEADER, r.sources);
  }

  lemma HeadAtWritten(b: Str, i: nat, rtype: Byte, n: nat)
    requires At(b, i, [rtype, 0] + Htons(n)) && n < TWO16
    ensures i + 4 <= |b| && b[i] == rtype && Ntohs(b[i + 2], b[i + 3]) == n
  {
    var head: Str := [rtype, 0] + Htons(n);
    assert b[i + 0] == head[0] && b[i + 2] == head[2] && b[i + 3] == head[3];
    NtohsHtons(n);
    SmallCount(n);
  }

  lemma {:induction false} RecordsAtWritten(b: Str, i: nat, rs: seq<GroupRecord>)
    requires At(b, i, RecordsBytes(rs)) && forall k :: 0 <= k < |rs| ==> |rs[k].sources| < TWO16
    ensures RecordsAt(b, i, |rs|) == Parsed(rs)
    decreases |rs|
  {
    if rs != [] {
      AtSplit(b, i, RecordBytes(rs[0]), RecordsBytes(rs[1..]));
      RecordAtWritten(b, i, rs[0]);
      RecordsAtWritten(b, i + RecordSize(rs[0]), rs[1..]);
      assert rs == [rs[0]] + rs[1..];
    }
  }

  /** What the parser delivers always has counts that fit. */
  lemma {:induction false} ParsedCountsFit(b: Str, i: nat, n: nat)
    requires RecordsAt(b, i, n).Parsed?
    ensures var rs := RecordsAt(b, i, n).records;
            |rs| == n && forall k :: 0 <= k < |rs| ==> |rs[k].sources| < TWO16
    decreases n
  {
    if n > 0 {
      ParsedCountsFit(b, i + RECORD_HEADER + 4 * Ntohs(b[i + 2], b[i + 3]), n - 1);
    }
  }

  lemma HeaderCount(rs: seq<GroupRecord>)
    ensures var u := Unsummed(rs);
            Ntohs(u[6], u[7]) == |rs| % TWO16 && At(u, REPORT_HEADER, RecordsBytes(rs))
  {
    var h, rest := Htons(|rs|), RecordsBytes(rs);
    HeaderThen(h, rest);
    NtohsHtons(|rs|);
  }

  lemma HeaderThen(h: Str, rest: Str)
    requires |h| == 2
    ensures var u := [REPORT, 0, 0, 0, 0, 0] + h + rest; u[6] == h[0] && u[7] == h[1] && At(u, REPORT_HEADER, rest)
  {}

  lemma StoreAndZero(u: Str, c: Str)
    requires |u| >= 4 && |c| == 2 && u[2] == 0 == u[3]
    ensures var b := u[2 := c[0]][3 := c[1]];
            b[2 := 0][3 := 0] == u && b[2] == c[0] && b[3] == c[1]
  {}

  /** A generated report always passes its own checksum test. */
  lemma GeneratedAccepted(rs: seq<GroupRecord>, big: bool)
    ensures Decode(ReportBytes(rs, big), big) == RecordsAt(Unsummed(rs), REPORT_HEADER, |rs| % TWO16)
  {
    HeaderCount(rs);
    StoreAndZero(Unsummed(rs), WordBytes(Cksum(Unsummed(rs), big), big));
  }

  /**
   The parser undoes the generator: types, addresses and sources come back in
   order, if and only if every count fits in 16 bits.
   */
  lemma ReportRoundTrip(rs: seq<GroupRecord>, big: bool)
    ensures Decode(ReportBytes(rs, big), big) == Parsed(rs) <==> CountsFit(rs)
  {
    GeneratedAccepted(rs, big);
    RecordsRoundTrip(rs);
  }

  lemma RecordsRoundTrip(rs: seq<GroupRecord>)
    ensures RecordsAt(Unsummed(rs), REPORT_HEADER, |rs| % TWO16) == Parsed(rs) <==> CountsFit(rs)
  {
    if CountsFit(rs) {
      FittingRoundTrip(rs);
    } else {
      ParsedFits(rs, Unsummed(rs), |rs| % TWO16);
    }
  }

  lemma SmallCount(n: nat)
    requires n < TWO16
    ensures n % TWO16 == n
  {}

  lemma FittingRoundTrip(rs: seq<GroupRecord>)
    requires CountsFit(rs)
    ensures RecordsAt(Unsummed(rs), REPORT_HEADER, |rs| % TWO16) == Parsed(rs)
  {
    HeaderCount(rs);
    SmallCount(|rs|);
    RecordsAtWritten(Unsummed(rs), REPORT_HEADER, rs);
  }

  lemma ParsedFits(rs: seq<GroupRecord>, b: Str, n: nat)
    requires n < TWO16
    ensures RecordsAt(b, REPORT_HEADER, n) == Parsed(rs) ==> CountsFit(rs)
  {
    if RecordsAt(b, REPORT_HEADER, n).Parsed? {
      ParsedCountsFit(b, REPORT_HEADER, n);
    }
  }
}
