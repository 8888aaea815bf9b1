/**
 Where the report parser (elements/ProcessReport.cc) goes wrong: it never
 looks at the packet length, and it takes each record to end with its
 sources although section 4.2.4 of RFC 3376 puts auxiliary data there.
 */
module ReportBounds {
  import opened Bytes
  import opened Checksum
  import opened Reports

  // ---------------------------------------------------------------- the length

  /** Where the parser takes the record at `i` to end. */
  function End(b: Str, i: nat): (j: nat)
    requires i + RECORD_HEADER <= |b|
  {
    i + RECORD_HEADER + 4 * Ntohs(b[i + 2], b[i + 3])
  }

  /** The bytes a packet needs for `n` records from offset `i`, going by the counts in it. */
  function Needed(b: Str, i: nat, n: nat): (length: nat)
    ensures i <= length
    decreases n
  {
    if n == 0 then i
    else if i + RECORD_HEADER > |b| then i + RECORD_HEADER
    else Needed(b, End(b, i), n - 1)
  }

  /** The records are read past the end exactly if the packet is shorter than they need. */
  lemma {:induction false} RecordsOverrunIff(b: Str, i: nat, n: nat)
    requires i <= |b|
    ensures RecordsAt(b, i, n) == Overrun <==> Needed(b, i, n) > |b|
    decreases n
  {
    if n > 0 && i + RECORD_HEADER <= |b| {
      var next := End(b, i);
      if next <= |b| {
        RecordsOverrunIff(b, next, n - 1);
      }
    }
  }

  /** The checksum verifies and the type is that of a report. */
  predicate Accepted(b: Str, big: bool)
    requires |b| >= REPORT_HEADER
  {
    Cksum(b[2 := 0][3 := 0], big) == Word(b[2], b[3], big) && b[0] == REPORT
  }

  lemma {:induction false} NeededSame(b: Str, z: Str, i: nat, n: nat)
    requires |b| == |z| && i >= 4 && forall k :: 4 <= k < |b| ==> b[k] == z[k]
    ensures Needed(b, i, n) == Needed(z, i, n)
    decreases n
  {
    if n > 0 && i + RECORD_HEADER <= |b| {
      NeededSame(b, z, End(b, i), n - 1);
    }
  }

  /** Exactly the packets too short for their header, or accepted and too short for their counts, are overrun. */
  lemma OverrunIff(b: Str, big: bool)
    ensures Decode(b, big) == Overrun <==>
              |b| < REPORT_HEADER || (Accepted(b, big) && Needed(b, REPORT_HEADER, Ntohs(b[6], b[7])) > |b|)
  {
    if |b| >= REPORT_HEADER {
      var z := b[2 := 0][3 := 0];
      assert forall k :: 4 <= k < |b| ==> b[k] == z[k];
      NeededSame(b, z, REPORT_HEADER, Ntohs(b[6], b[7]));
      RecordsOverrunIff(z, REPORT_HEADER, Ntohs(b[6], b[7]));
    }
  }

  /** A bare header that announces one record, with the right checksum on a machine of either byte order. */
  const BARE: Str := [REPORT, 0, 0xDD, 0xFE, 0, 0, 0, 1]

  lemma BareSum(big: bool)
    ensures Cksum(BARE[2 := 0][3 := 0], big) == Word(0xDD, 0xFE, big)
  {
    BareWords(big);
    SmallSum(WordSum(BARE[2 := 0][3 := 0], big));
  }

  lemma SmallSum(s: nat)
    requires s <= ONES
    ensures FoldTwice(s % TWO32) == ONES - s
  {}

  lemma BareWords(big: bool)
    ensures WordSum(BARE[2 := 0][3 := 0], big) == Word(REPORT, 0, big) + Word(0, 1, big)
  {
    assert BARE[2 := 0][3 := 0] == [REPORT, 0] + [0, 0] + [0, 0] + [0, 1];
    WordSumAppend([REPORT, 0] + [0, 0] + [0, 0], [0, 1], big);
    WordSumAppend([REPORT, 0] + [0, 0], [0, 0], big);
    WordSumAppend([REPORT, 0], [0, 0], big);
    OneWord(REPORT, 0, big);
    OneWord(0, 0, big);
    OneWord(0, 1, big);
  }

  lemma OneWord(b0: Byte, b1: Byte, big: bool)
    ensures WordSum([b0, b1], big) == Word(b0, b1, big)
  {
    assert [b0, b1][2..] == [];
  }

  lemma BareOverruns(big: bool)
    ensures Decode(BARE, big) == Overrun
  {
    BareSum(big);
    assert Accepted(BARE, big);
    assert Needed(BARE, REPORT_HEADER, 1) == 16;
    OverrunIff(BARE, big);
  }

  // ---------------------------------------------------------------- auxiliary data

  /** Where the parser starts reading each of `n` records, the first at offset `i`, as far as the packet goes. */
  function StartsAt(b: Str, i: nat, n: nat): (o: seq<nat>)
    ensures n > 0 ==> o != [] && o[0] == i
    decreases n
  {
    if n == 0 then []
    else if i + RECORD_HEADER > |b| then [i]
    else [i] + StartsAt(b, End(b, i), n - 1)
  }

  /** Where the RFC ends the record at `i`: after the sources come as many words as the auxiliary length says. */
  function RfcEnd(b: Str, i: nat): (j: nat)
    requires i + RECORD_HEADER <= |b|
  {
    var words: int := b[i + 1];
    End(b, i) + 4 * words
  }

  /** Where the RFC puts them. */
  function RfcStartsAt(b: Str, i: nat, n: nat): (o: seq<nat>)
    ensures n > 0 ==> o != [] && o[0] == i
    decreases n
  {
    if n == 0 then []
    else if i + RECORD_HEADER > |b| then [i]
    else [i] + RfcStartsAt(b, RfcEnd(b, i), n - 1)
  }

  /** Every auxiliary length but the last record's is zero, as far as the packet goes. */
  predicate AuxFree(b: Str, i: nat, n: nat)
    decreases n
  {
    n <= 1 || i + RECORD_HEADER > |b| || (b[i + 1] == 0 && AuxFree(b, End(b, i), n - 1))
  }

  /** The parser starts every record where the RFC puts it exactly if only the last may have auxiliary data. */
  lemma {:induction false} StartsRightIff(b: Str, i: nat, n: nat)
    ensures StartsAt(b, i, n) == RfcStartsAt(b, i, n) <==> AuxFree(b, i, n)
    decreases n
  {
    if n > 1 && i + RECORD_HEADER <= |b| {
      StartsRightIff(b, End(b, i), n - 1);
      ConsSame(i, StartsAt(b, End(b, i), n - 1), RfcStartsAt(b, RfcEnd(b, i), n - 1));
    }
  }

  lemma ConsSame(i: nat, o: seq<nat>, r: seq<nat>)
    requires o != [] && r != []
    ensures [i] + o == [i] + r <==> o == r
    ensures o[0] != r[0] ==> o != r
  {
    assert ([i] + o)[1..] == o && ([i] + r)[1..] == r;
  }

  /** The records as the RFC has them. */
  function RfcRecordsAt(b: Str, i: nat, n: nat): (r: Outcome)
    decreases n
  {
    if n == 0 then Parsed([])
    else if i + RECORD_HEADER > |b| then Overrun
    else
      var k := Ntohs(b[i + 2], b[i + 3]);
      var next := RfcEnd(b, i);
      if next > |b| then Overrun
      else
        var r := GroupRecord(b[i], AddressAt(b, i + 4), SourcesAt(b, i + RECORD_HEADER, k));
        match RfcRecordsAt(b, next, n - 1)
        case Parsed(rs) => Parsed([r] + rs)
        case _ => Overrun
  }

  /** Then it reads what the RFC says, whenever that stays inside the packet. */
  lemma {:induction false} ReadsRight(b: Str, i: nat, n: nat)
    requires AuxFree(b, i, n) && RfcRecordsAt(b, i, n).Parsed?
    ensures RecordsAt(b, i, n) == RfcRecordsAt(b, i, n)
    decreases n
  {
    if n > 1 {
      ReadsRight(b, End(b, i), n - 1);
    }
  }

  /** The outcome for a packet under the RFC's layout. */
  function RfcDecode(b: Str, big: bool): Outcome {
    if |b| < REPORT_HEADER then Overrun
    else if !Accepted(b, big) then Rejected
    else RfcRecordsAt(b, REPORT_HEADER, Ntohs(b[6], b[7]))
  }

  /** Only the last record of the packet may have auxiliary data. */
  predicate AuxFreePacket(b: Str) {
    |b| >= REPORT_HEADER ==> AuxFree(b, REPORT_HEADER, Ntohs(b[6], b[7]))
  }

  /** Every packet the RFC's layout fits, with auxiliary data in the last record at most, is decoded as the RFC says. */
  lemma DecodesRight(b: Str, big: bool)
    requires AuxFreePacket(b) && RfcDecode(b, big).Parsed?
    ensures Decode(b, big) == RfcDecode(b, big)
  {
    var n := Ntohs(b[6], b[7]);
    ReadsRight(b, REPORT_HEADER, n);
    RecordsSame(b, b[2 := 0][3 := 0], REPORT_HEADER, n);
  }

  /** The checksum field is no part of the records. */
  lemma {:induction false} RecordsSame(b: Str, z: Str, i: nat, n: nat)
    requires |b| == |z| && i >= 4 && forall k :: 4 <= k < |b| ==> b[k] == z[k]
    ensures RecordsAt(b, i, n) == RecordsAt(z, i, n)
    decreases n
  {
    if n > 0 && i + RECORD_HEADER <= |b| && End(b, i) <= |b| {
      SourcesSame(b, z, i + RECORD_HEADER, Ntohs(b[i + 2], b[i + 3]));
      RecordsSame(b, z, End(b, i), n - 1);
    }
  }

  lemma {:induction false} SourcesSame(b: Str, z: Str, i: nat, n: nat)
    requires |b| == |z| && i >= 4 && i + 4 * n <= |b| && forall k :: 4 <= k < |b| ==> b[k] == z[k]
    ensures SourcesAt(b, i, n) == SourcesAt(z, i, n)
    decreases n
  {
    if n > 0 {
      SourcesSame(b, z, i + 4, n - 1);
    }
  }

  /** Two records, the first with one word of auxiliary data. */
  const AUXILIARY: Str :=
    [REPORT, 0, 0, 0, 0, 0, 0, 2] + [TO_IN, 1, 0, 0, 239, 0, 0, 1] + [TO_EX, 0, 0, 0] + [TO_EX, 0, 0, 0, 239, 0, 0, 2]

  /** The packet with its checksum stored. */
  function AuxiliaryPacket(big: bool): (b: Str)
    ensures |b| == |AUXILIARY|
  {
    var c := WordBytes(Cksum(AUXILIARY, big), big);
    AUXILIARY[2 := c[0]][3 := c[1]]
  }

  /** The parser takes the auxiliary data for the second record: the group it reports is 4.0.0.0. */
  lemma AuxiliaryMisread(big: bool)
    ensures Decode(AuxiliaryPacket(big), big) ==
              Parsed([GroupRecord(TO_IN, IPAddress(239, 0, 0, 1), []), GroupRecord(TO_EX, IPAddress(4, 0, 0, 0), [])])
    ensures RfcDecode(AuxiliaryPacket(big), big) ==
              Parsed([GroupRecord(TO_IN, IPAddress(239, 0, 0, 1), []), GroupRecord(TO_EX, IPAddress(239, 0, 0, 2), [])])
  {
    var b := AuxiliaryPacket(big);
    StoreAndZero(AUXILIARY, WordBytes(Cksum(AUXILIARY, big), big));
    assert Accepted(b, big) && Ntohs(b[6], b[7]) == 2;
    RecordsSame(AUXILIARY, b, REPORT_HEADER, 2);
    ReadAuxiliary(b, REPORT_HEADER, Ntohs(b[6], b[7]));
  }

  lemma ReadAuxiliary(b: Str, i: nat, n: nat)
    requires i == 8 && n == 2 && |b| == |AUXILIARY| && forall k :: 4 <= k < |b| ==> b[k] == AUXILIARY[k]
    ensures RecordsAt(b, i, n) ==
              Parsed([GroupRecord(TO_IN, IPAddress(239, 0, 0, 1), []), GroupRecord(TO_EX, IPAddress(4, 0, 0, 0), [])])
    ensures RfcRecordsAt(b, i, n) ==
              Parsed([GroupRecord(TO_IN, IPAddress(239, 0, 0, 1), []), GroupRecord(TO_EX, IPAddress(239, 0, 0, 2), [])])
  {
    AuxiliaryBytes(b);
    BareRecord(b, 16);
    BareRecord(b, 20);
    RecordBefore(b, 8);
  }

  lemma AuxiliaryBytes(b: Str)
    requires |b| == |AUXILIARY| && forall k :: 4 <= k < |b| ==> b[k] == AUXILIARY[k]
    ensures |b| == 28
    ensures b[8] == TO_IN && b[9] == 1 && b[10] == 0 == b[11] && AddressAt(b, 12) == IPAddress(239, 0, 0, 1)
    ensures b[16] == TO_EX && b[17] == 0 == b[18] == b[19] && AddressAt(b, 20) == IPAddress(4, 0, 0, 0)
    ensures b[20] == TO_EX && b[21] == 0 == b[22] == b[23] && AddressAt(b, 24) == IPAddress(239, 0, 0, 2)
  {}

  /** A record without sources and with one word of auxiliary data, before another. */
  lemma RecordBefore(b: Str, i: nat)
    requires i + RECORD_HEADER + 4 <= |b| && b[i + 1] == 1 && b[i + 2] == 0 == b[i + 3]
    requires RecordsAt(b, i + RECORD_HEADER, 1).Parsed? && RfcRecordsAt(b, i + RECORD_HEADER + 4, 1).Parsed?
    ensures var r := GroupRecord(b[i], AddressAt(b, i + 4), []);
            && RecordsAt(b, i, 2) == Parsed([r] + RecordsAt(b, i + RECORD_HEADER, 1).records)
            && RfcRecordsAt(b, i, 2) == Parsed([r] + RfcRecordsAt(b, i + RECORD_HEADER + 4, 1).records)
  {
    assert SourcesAt(b, i + RECORD_HEADER, 0) == [];
  }

  /** A single record without sources or auxiliary data. */
  lemma BareRecord(b: Str, i: nat)
    requires i + RECORD_HEADER <= |b| && b[i + 1] == 0 == b[i + 2] == b[i + 3]
    ensures RecordsAt(b, i, 1) == RfcRecordsAt(b, i, 1) == Parsed([GroupRecord(b[i], AddressAt(b, i + 4), [])])
  {
    assert SourcesAt(b, i + RECORD_HEADER, 0) == [];
    assert RecordsAt(b, i + RECORD_HEADER, 0) == RfcRecordsAt(b, i + RECORD_HEADER, 0) == Parsed([]);
  }

  /** What the generator writes has no auxiliary data, so every parser of the RFC reads the same. */
  lemma {:induction false} WrittenReadsRight(b: Str, i: nat, rs: seq<GroupRecord>)
    requires At(b, i, RecordsBytes(rs)) && forall k :: 0 <= k < |rs| ==> |rs[k].sources| < TWO16
    ensures RfcRecordsAt(b, i, |rs|) == Parsed(rs)
    decreases |rs|
  {
    if rs != [] {
      AtSplit(b, i, RecordBytes(rs[0]), RecordsBytes(rs[1..]));
      WrittenReadsRight(b, i + RecordSize(rs[0]), rs[1..]);
      WrittenStep(b, i, rs[0], |rs|);
      assert [rs[0]] + rs[1..] == rs;
    }
  }

  lemma WrittenStep(b: Str, i: nat, r: GroupRecord, n: nat)
    requires At(b, i, RecordBytes(r)) && |r.sources| < TWO16 && n > 0
    requires RfcRecordsAt(b, i + RecordSize(r), n - 1).Parsed?
    ensures RfcRecordsAt(b, i, n) == Parsed([r] + RfcRecordsAt(b, i + RecordSize(r), n - 1).records)
  {
    RecordAtWritten(b, i, r);
    assert b[i + 1] == RecordBytes(r)[1] == 0;
  }

  /** A generated report with counts that fit reads back under the RFC's layout as the records it was made of. */
  lemma GeneratedReadsRight(rs: seq<GroupRecord>, big: bool)
    requires CountsFit(rs)
    ensures RfcDecode(ReportBytes(rs, big), big) == Parsed(rs)
  {
    var u, b := Unsummed(rs), ReportBytes(rs, big);
    HeaderCount(rs);
    SmallCount(|rs|);
    StoreAndZero(u, WordBytes(Cksum(u, big), big));
    AtStored(u, b, REPORT_HEADER, RecordsBytes(rs));
    WrittenReadsRight(b, REPORT_HEADER, rs);
  }

  lemma AtStored(u: Str, b: Str, i: nat, e: Str)
    requires |u| == |b| && i >= 4 && At(u, i, e) && forall k :: 4 <= k < |u| ==> u[k] == b[k]
    ensures At(b, i, e)
  {}
}
