/**
 `IGMPClientDB` (elements/IGMPClientDB.cc): one client's filter mode per
 multicast group, kept as a vector of records that lookups scan.
 */
module ClientDB {
  import opened Bytes
  import opened Reports

  datatype Mode = INCLUDE | EXCLUDE

  datatype Record = Record(group: IPAddress, sources: seq<IPAddress>, mode: Mode)

  /** At most one record per group. */
  ghost predicate OnePerGroup(records: seq<Record>) {
    forall i, j :: 0 <= i < j < |records| ==> records[i].group != records[j].group
  }

  /** The group-to-mode map the database stands for. */
  ghost function ModesOf(records: seq<Record>): (m: map<IPAddress, Mode>) {
    if records == [] then map[]
    else
      var n := |records| - 1;
      ModesOf(records[..n])[records[n].group := records[n].mode]
  }

  /** A group is in the map exactly if some record has it. */
  lemma {:induction false} ModesMember(records: seq<Record>, g: IPAddress)
    ensures g in ModesOf(records) <==> exists i :: 0 <= i < |records| && records[i].group == g
  {
    if records != [] {
      var n := |records| - 1;
      ModesMember(records[..n], g);
      if i :| 0 <= i < n && records[..n][i].group == g {
        assert records[i].group == g;
      }
      if i :| 0 <= i < |records| && records[i].group == g {
        assert i < n ==> records[..n][i].group == g;
      }
    }
  }

  lemma {:induction false} ModesAt(records: seq<Record>, i: int)
    requires OnePerGroup(records) && 0 <= i < |records|
    ensures records[i].group in ModesOf(records) && ModesOf(records)[records[i].group] == records[i].mode
  {
    var n := |records| - 1;
    if i < n {
      ModesAt(records[..n], i);
      assert records[..n][i] == records[i];
    }
  }

  lemma AppendedModes(records: seq<Record>, r: Record)
    requires OnePerGroup(records)
    ensures OnePerGroup(records + [r]) <==> r.group !in ModesOf(records)
    ensures ModesOf(records + [r]) == ModesOf(records)[r.group := r.mode]
  {
    var s := records + [r];
    assert s[..|records|] == records;
    ModesMember(records, r.group);
    if i :| 0 <= i < |records| && records[i].group == r.group {
      assert s[i].group == s[|records|].group;
    }
  }

  lemma {:induction false} UpdatedModes(records: seq<Record>, i: int, mode: Mode)
    requires OnePerGroup(records) && 0 <= i < |records|
    ensures OnePerGroup(records[i := records[i].(mode := mode)])
    ensures ModesOf(records[i := records[i].(mode := mode)]) == ModesOf(records)[records[i].group := mode]
  {
    var s := records[i := records[i].(mode := mode)];
    var n := |records| - 1;
    if i == n {
      assert s[..n] == records[..n];
    } else {
      UpdatedModes(records[..n], i, mode);
      assert s[..n] == records[..n][i := records[..n][i].(mode := mode)];
    }
  }

  class IGMPClientDB {
    var records: seq<Record>

    constructor ()
      ensures records == []
    {
      records := [];
    }

    ghost predicate Valid()
      reads this
    {
      OnePerGroup(records)
    }

    ghost function Modes(): (m: map<IPAddress, Mode>)
      reads this
    {
      ModesOf(records)
    }

    /** `getRecord`, as a position. */
    method GetRecord(g: IPAddress) returns (i: int)
      requires Valid()
      ensures -1 <= i < |records|
      ensures i >= 0 <==> g in Modes()
      ensures i >= 0 ==> records[i].group == g && records[i].mode == Modes()[g]
    {
      ModesMember(records, g);
      i := 0;
      while i < |records|
        invariant 0 <= i <= |records|
        invariant forall k :: 0 <= k < i ==> records[k].group != g
      {
        if records[i].group == g {
          ModesAt(records, i);
          return;
        }
        i := i + 1;
      }
      i := -1;
    }

    /** `recordExists` */
    method RecordExists(g: IPAddress) returns (b: bool)
      requires Valid()
      ensures b <==> g in Modes()
    {
      var i := GetRecord(g);
      b := i >= 0;
    }

    /** `addRecord`; the caller has checked that the group is new. */
    method AddRecord(g: IPAddress, sources: seq<IPAddress>, mode: Mode)
      requires Valid()
      modifies this
      ensures records == old(records) + [Record(g, sources, mode)]
      ensures Valid() <==> g !in old(Modes())
      ensures Modes() == old(Modes())[g := mode]
    {
      AppendedModes(records, Record(g, sources, mode));
      records := records + [Record(g, sources, mode)];
    }

    /** `setMode`: -1 for an unknown group. */
    method SetMode(g: IPAddress, mode: Mode) returns (code: int)
      requires Valid()
      modifies this
      ensures Valid()
      ensures code == if g in old(Modes()) then 0 else -1
      ensures Modes() == if g in old(Modes()) then old(Modes())[g := mode] else old(Modes())
      ensures |records| == |old(records)|
      ensures forall i :: 0 <= i < |records| ==> records[i].sources == old(records)[i].sources
    {
      var i := GetRecord(g);
      if i < 0 {
        return -1;
      }
      UpdatedModes(records, i, mode);
      records := records[i := records[i].(mode := mode)];
      code := 0;
    }

    /** `getMode`, for a group that has a record. */
    method GetMode(g: IPAddress) returns (mode: Mode)
      requires Valid() && g in Modes()
      ensures mode == Modes()[g]
    {
      var i := GetRecord(g);
      mode := records[i].mode;
    }

    /** `acceptFromSource` */
    method AcceptFromSource(g: IPAddress, source: IPAddress) returns (b: bool)
      requires Valid()
      ensures g !in Modes() ==> !b
      ensures forall i :: 0 <= i < |records| && records[i].group == g ==>
                (b <==> (records[i].mode == EXCLUDE <==> source !in records[i].sources))
    {
      ModesMember(records, g);
      var i := GetRecord(g);
      if i < 0 {
        return false;
      }
      var sources := records[i].sources;
      var inSourceList := false;
      for k := 0 to |sources|
        invariant inSourceList <==> source in sources[..k]
      {
        if sources[k] == source {
          inSourceList := true;
          break;
        }
      }
      b := if records[i].mode == INCLUDE then inSourceList else !inSourceList;
    }

    /** `getMulticastFiltermodeTable` */
    method GetMulticastFiltermodeTable() returns (table: map<IPAddress, Mode>)
      ensures table == Modes()
    {
      table := map[];
      for i := 0 to |records|
        invariant table == ModesOf(records[..i])
      {
        assert records[..i + 1][..i] == records[..i];
        table := table[records[i].group := records[i].mode];
      }
      assert records[..|records|] == records;
    }
  }
}
