/**
 `IGMPRouter` and `IGMPRouterDB` (elements/IGMPRouter.cc,
 elements/IGMPRouterDB.cc): the router folds reports into one database per
 client, schedules group queries, and decides forwarding from the databases.
 */
module Router {
  import opened Bytes
  import opened Collections
  import opened Reports
  import opened ClientDB

  /** The robustness variable the element is built with. */
  const ROBUSTNESS_VARIABLE := 2

  /** Per client, the mode of each group it has reported. */
  type View = map<IPAddress, map<IPAddress, Mode>>

  // ---------------------------------------------------------------- what reports mean

  function Noted(v: View, client: IPAddress, g: IPAddress, mode: Mode): View {
    v[client := (if client in v then v[client] else map[])[g := mode]]
  }

  /** The effect of one record: only TO_IN and TO_EX have any. */
  function Heard(v: View, client: IPAddress, r: GroupRecord): View {
    if r.rtype == TO_IN then Noted(v, client, r.group, INCLUDE)
    else if r.rtype == TO_EX then Noted(v, client, r.group, EXCLUDE)
    else v
  }

  /** A record as it arrives, with the client that sent it. */
  datatype Arrival = Arrival(client: IPAddress, record: GroupRecord)

  function HeardAll(v: View, h: seq<Arrival>): View {
    if h == [] then v
    else var n := |h| - 1; Heard(HeardAll(v, h[..n]), h[n].client, h[n].record)
  }

  /** The arrivals of one report. */
  function Arrivals(client: IPAddress, rs: seq<GroupRecord>): (h: seq<Arrival>)
    ensures |h| == |rs|
  {
    seq(|rs|, i requires 0 <= i < |rs| => Arrival(client, rs[i]))
  }

  /** The last mode a client told for a group, if it told any. */
  datatype Last = Never | Told(mode: Mode)

  ghost predicate Tells(a: Arrival, client: IPAddress, g: IPAddress) {
    a.client == client && a.record.group == g && (a.record.rtype == TO_IN || a.record.rtype == TO_EX)
  }

  ghost function LastTold(h: seq<Arrival>, client: IPAddress, g: IPAddress): Last {
    if h == [] then Never
    else
      var n := |h| - 1;
      if Tells(h[n], client, g) then Told(if h[n].record.rtype == TO_IN then INCLUDE else EXCLUDE)
      else LastTold(h[..n], client, g)
  }

  ghost function Entry(v: View, client: IPAddress, g: IPAddress): Last {
    if client in v && g in v[client] then Told(v[client][g]) else Never
  }

  /** After any arrivals, the router's entry is the last TO_IN or TO_EX that arrived. */
  lemma {:induction false} EntryIsLast(h: seq<Arrival>, client: IPAddress, g: IPAddress)
    ensures Entry(HeardAll(map[], h), client, g) == LastTold(h, client, g)
  {
    if h != [] {
      EntryIsLast(h[..|h| - 1], client, g);
    }
  }

  predicate MatchesPrefix(a: IPAddress, net: IPAddress, mask: IPAddress) {
    && MatchesByte(a.b0, net.b0, mask.b0) && MatchesByte(a.b1, net.b1, mask.b1)
    && MatchesByte(a.b2, net.b2, mask.b2) && MatchesByte(a.b3, net.b3, mask.b3)
  }

  /** The bytes agree where the mask has ones. */
  predicate MatchesByte(a: Byte, net: Byte, mask: Byte) {
    ((a as bv8) ^ (net as bv8)) & (mask as bv8) == 0
  }

  /** Some client in the subnet has the group in EXCLUDE mode. */
  ghost predicate Wanted(v: View, g: IPAddress, net: IPAddress, mask: IPAddress) {
    exists c :: c in v && MatchesPrefix(c, net, mask) && Entry(v, c, g) == Told(EXCLUDE)
  }

  /** Forwarding depends exactly on whether some matching client's last TO_IN or TO_EX for the group was TO_EX. */
  lemma ForwardingRule(h: seq<Arrival>, g: IPAddress, net: IPAddress, mask: IPAddress)
    ensures Wanted(HeardAll(map[], h), g, net, mask) <==>
              exists c :: MatchesPrefix(c, net, mask) && LastTold(h, c, g) == Told(EXCLUDE)
  {
    var v := HeardAll(map[], h);
    forall c ensures Entry(v, c, g) == LastTold(h, c, g) {
      EntryIsLast(h, c, g);
    }
  }

  lemma {:induction false} HeardAllConcat(v: View, h: seq<Arrival>, k: seq<Arrival>)
    ensures HeardAll(v, h + k) == HeardAll(HeardAll(v, h), k)
    decreases |k|
  {
    if k == [] {
      assert h + k == h;
    } else {
      var n := |k| - 1;
      assert (h + k)[..|h + k| - 1] == h + k[..n];
      HeardAllConcat(v, h, k[..n]);
    }
  }

  // ---------------------------------------------------------------- the databases

  ghost predicate NoSources(records: seq<Record>) {
    forall i :: 0 <= i < |records| ==> records[i].sources == []
  }

  class IGMPRouterDB {
    var dbs: map<IPAddress, IGMPClientDB>

    constructor ()
      ensures Valid() && State() == map[] && dbs == map[]
    {
      dbs := map[];
    }

    /** Every client has a database of its own, and no record has sources. */
    ghost predicate Valid()
      reads this, dbs.Values
    {
      && (forall c :: c in dbs ==> dbs[c].Valid() && NoSources(dbs[c].records))
      && (forall c, d :: c in dbs && d in dbs && c != d ==> dbs[c] != dbs[d])
    }

    ghost function State(): (v: View)
      reads this, dbs.Values
    {
      map c | c in dbs :: dbs[c].Modes()
    }

    /** `addDb`: -1 if the client is known. */
    method AddDb(client: IPAddress) returns (code: int)
      requires Valid()
      modifies this
      ensures Valid()
      ensures code == if client in old(dbs) then -1 else 0
      ensures client in old(dbs) ==> dbs == old(dbs)
      ensures client !in old(dbs) ==>
                && client in dbs && fresh(dbs[client]) && dbs[client].records == []
                && dbs == old(dbs)[client := dbs[client]]
      ensures State() == if client in old(State()) then old(State()) else old(State())[client := map[]]
    {
      if client in dbs {
        return -1;
      }
      var newDb := new IGMPClientDB();
      dbs := dbs[client := newDb];
      code := 0;
    }

    /** The part `toEX` and `toIN` share: find or create the client's record and set its mode. */
    method Note(client: IPAddress, g: IPAddress, mode: Mode)
      requires Valid()
      modifies this, dbs.Values
      ensures Valid() && fresh(dbs.Values - old(dbs.Values))
      ensures State() == Noted(old(State()), client, g, mode)
    {
      FindOrAdd(client, g, mode);
      Update(client, g, mode);
    }

    /** Afterwards the client has a database, and the view is as good as before. */
    method FindOrAdd(client: IPAddress, ghost g: IPAddress, ghost mode: Mode)
      requires Valid()
      modifies this
      ensures Valid() && client in dbs && fresh(dbs.Values - old(dbs.Values))
      ensures client in old(dbs) ==> dbs[client] == old(dbs[client])
      ensures client !in old(dbs) ==> fresh(dbs[client])
      ensures Noted(State(), client, g, mode) == Noted(old(State()), client, g, mode)
    {
      if client !in dbs {
        var code := AddDb(client);
      }
    }

    /** The same for a client that has a database. */
    method Update(client: IPAddress, g: IPAddress, mode: Mode)
      requires Valid() && client in dbs
      modifies dbs[client]
      ensures Valid() && dbs == old(dbs)
      ensures State() == Noted(old(State()), client, g, mode)
    {
      ghost var v := State();
      Tell(dbs[client], g, mode);
      forall c | c in dbs && c != client ensures dbs[c].records == old(dbs[c].records) {
        assert dbs[c] != dbs[client];
      }
      forall c | c in dbs ensures State()[c] == v[client := v[client][g := mode]][c] {
        assert c == client || dbs[c].records == old(dbs[c].records);
      }
    }

    /** `acceptFromSource`: the clients that want the packet. */
    method AcceptFromSource(g: IPAddress, source: IPAddress) returns (accepted: set<IPAddress>)
      requires Valid()
      ensures accepted == set c | c in dbs && Entry(State(), c, g) == Told(EXCLUDE)
    {
      accepted := {};
      var todo := dbs.Keys;
      while todo != {}
        invariant todo <= dbs.Keys
        invariant accepted == set c | c in dbs && c !in todo && Entry(State(), c, g) == Told(EXCLUDE)
        decreases todo
      {
        var c :| c in todo;
        var b := Accepts(dbs[c], g, source);
        if b {
          accepted := accepted + {c};
        }
        todo := todo - {c};
      }
    }

    /** `acceptFromSourceAsClient`: whether some client in the subnet wants the packet. */
    method AcceptFromSourceAsClient(g: IPAddress, source: IPAddress, net: IPAddress, mask: IPAddress) returns (b: bool)
      requires Valid()
      ensures b <==> Wanted(State(), g, net, mask)
    {
      var todo := dbs.Keys;
      while todo != {}
        invariant todo <= dbs.Keys
        invariant forall c :: c in dbs && c !in todo && MatchesPrefix(c, net, mask) ==>
                    Entry(State(), c, g) != Told(EXCLUDE)
        decreases todo
      {
        var c :| c in todo;
        if MatchesPrefix(c, net, mask) {
          var accepts := Accepts(dbs[c], g, source);
          if accepts {
            return true;
          }
        }
        todo := todo - {c};
      }
      return false;
    }
  }

  /** Make sure a client's database has a record for the group, and set its mode. */
  method Tell(cdb: IGMPClientDB, g: IPAddress, mode: Mode)
    requires cdb.Valid() && NoSources(cdb.records)
    modifies cdb
    ensures cdb.Valid() && NoSources(cdb.records)
    ensures cdb.Modes() == old(cdb.Modes())[g := mode]
  {
    EnsureRecord(cdb, g);
    var code := cdb.SetMode(g, mode);
  }

  /** A record for the group, in INCLUDE if it is new. */
  method EnsureRecord(cdb: IGMPClientDB, g: IPAddress)
    requires cdb.Valid() && NoSources(cdb.records)
    modifies cdb
    ensures cdb.Valid() && NoSources(cdb.records)
    ensures cdb.Modes() == if g in old(cdb.Modes()) then old(cdb.Modes()) else old(cdb.Modes())[g := INCLUDE]
  {
    var known := cdb.RecordExists(g);
    if !known {
      cdb.AddRecord(g, [], INCLUDE);
    }
  }

  /** With no sources on record, a client accepts a group's packets exactly in EXCLUDE mode. */
  method Accepts(db: IGMPClientDB, g: IPAddress, source: IPAddress) returns (b: bool)
    requires db.Valid() && NoSources(db.records)
    ensures b <==> g in db.Modes() && db.Modes()[g] == EXCLUDE
  {
    b := db.AcceptFromSource(g, source);
    var i := db.GetRecord(g);
  }

  /** The records a packet brings, from the client in its IP header. */
  function Brought(p: Str, big: bool): (h: seq<Arrival>)
    requires IP_HEADER <= |p|
  {
    match Decode(p[IP_HEADER..], big)
    case Parsed(records) => Arrivals(AddressAt(p, 12), records)
    case _ => []
  }

  /** The records of a packet; none if it does not parse. */
  function Decoded(outcome: Outcome): (records: seq<GroupRecord>) {
    if outcome.Parsed? then outcome.records else []
  }

  lemma BroughtByRecords(p: Str, big: bool)
    requires IP_HEADER <= |p|
    ensures Arrivals(AddressAt(p, 12), Decoded(Decode(p[IP_HEADER..], big))) == Brought(p, big)
  {}

  /** The sender and the records of a packet. */
  method ReadPacket(p: array<Byte>, big: bool) returns (outcome: Outcome, client: IPAddress, records: seq<GroupRecord>)
    requires IP_HEADER <= p.Length
    modifies p
    ensures outcome == Decode(old(p[IP_HEADER..]), big)
    ensures records == Decoded(outcome) && Arrivals(client, records) == old(Brought(p[..], big))
  {
    client := AddressAt(p[..], 12);
    BroughtByRecords(p[..], big);
    assert p[..][IP_HEADER..] == p[IP_HEADER..];
    var pr := new ProcessReport();
    outcome := pr.Process(p, big);
    records := pr.records;
  }

  function Copies(g: IPAddress, n: nat): (r: seq<IPAddress>)
    ensures |r| == n
  {
    if n == 0 then [] else Copies(g, n - 1) + [g]
  }

  lemma {:induction false} CopiesCount(g: IPAddress, n: nat, x: IPAddress)
    ensures multiset(Copies(g, n))[x] == if x == g then n else 0
  {
    if n > 0 {
      CopiesCount(g, n - 1, x);
    }
  }

  /** No group is listed twice, and the timers are `rv` for each listed group. */
  ghost predicate Timed(groups: seq<IPAddress>, timers: seq<IPAddress>, rv: nat) {
    && Distinct(groups)
    && |timers| == rv * |groups|
    && (forall g :: multiset(timers)[g] == if g in groups then rv else 0)
  }

  lemma TimedMore(groups: seq<IPAddress>, timers: seq<IPAddress>, rv: nat, g: IPAddress)
    requires Timed(groups, timers, rv) && g !in groups
    ensures Timed(groups + [g], timers + Copies(g, rv), rv)
  {
    forall x
      ensures multiset(timers + Copies(g, rv))[x] == if x in groups + [g] then rv else 0
    {
      CopiesCount(g, rv, x);
    }
    assert rv * (|groups| + 1) == rv * |groups| + rv;
  }

  class IGMPRouter {
    const rv: nat
    const db: IGMPRouterDB
    var groupQuerysScheduled: seq<IPAddress>
    var queryTimers: seq<IPAddress>

    ghost predicate Valid()
      reads this, db, db.dbs.Values
    {
      db.Valid() && QueriesValid()
    }

    ghost predicate QueriesValid()
      reads this
    {
      Timed(groupQuerysScheduled, queryTimers, rv)
    }

    constructor (db: IGMPRouterDB)
      requires db.Valid()
      ensures Valid() && this.db == db && groupQuerysScheduled == [] && rv == ROBUSTNESS_VARIABLE
    {
      this.db, this.rv := db, ROBUSTNESS_VARIABLE;
      groupQuerysScheduled, queryTimers := [], [];
    }

    /** `sendGroupQuery`: `rv` timers, the first time a group is asked about and never again. */
    method SendGroupQuery(g: IPAddress)
      requires QueriesValid()
      modifies `groupQuerysScheduled, `queryTimers
      ensures QueriesValid()
      ensures groupQuerysScheduled == Asked(old(groupQuerysScheduled), g)
    {
      for i := 0 to |groupQuerysScheduled|
        invariant g !in groupQuerysScheduled[..i]
      {
        if groupQuerysScheduled[i] == g {
          return;
        }
      }
      assert groupQuerysScheduled[..|groupQuerysScheduled|] == groupQuerysScheduled;
      TimedMore(groupQuerysScheduled, queryTimers, rv, g);
      ghost var before := queryTimers;
      for i := 0 to rv
        invariant groupQuerysScheduled == old(groupQuerysScheduled)
        invariant queryTimers == before + Copies(g, i)
      {
        queryTimers := queryTimers + [g];
      }
      groupQuerysScheduled := groupQuerysScheduled + [g];
    }

    method Note(client: IPAddress, g: IPAddress, mode: Mode)
      requires Valid()
      modifies db, db.dbs.Values
      ensures Valid() && fresh(db.dbs.Values - old(db.dbs.Values))
      ensures db.State() == Noted(old(db.State()), client, g, mode)
    {
      db.Note(client, g, mode);
    }

    /** The databases have no part in a query. */
    method AskAbout(g: IPAddress)
      requires Valid()
      modifies `groupQuerysScheduled, `queryTimers
      ensures Valid() && db.dbs == old(db.dbs) && db.State() == old(db.State())
      ensures groupQuerysScheduled == Asked(old(groupQuerysScheduled), g)
    {
      SendGroupQuery(g);
    }

    method ToEX(client: IPAddress, g: IPAddress)
      requires Valid()
      modifies db, db.dbs.Values
      ensures Valid() && fresh(db.dbs.Values - old(db.dbs.Values))
      ensures db.State() == Noted(old(db.State()), client, g, EXCLUDE)
    {
      Note(client, g, EXCLUDE);
    }

    method ToIN(client: IPAddress, g: IPAddress)
      requires Valid()
      modifies this, db, db.dbs.Values
      ensures Valid() && fresh(db.dbs.Values - old(db.dbs.Values))
      ensures db.State() == Noted(old(db.State()), client, g, INCLUDE)
      ensures groupQuerysScheduled == Asked(old(groupQuerysScheduled), g)
    {
      Note(client, g, INCLUDE);
      AskAbout(g);
    }

    /** One record of `processReport`. */
    method ProcessRecord(client: IPAddress, r: GroupRecord)
      requires Valid()
      modifies this, db, db.dbs.Values
      ensures Valid() && fresh(db.dbs.Values - old(db.dbs.Values))
      ensures db.State() == Heard(old(db.State()), client, r)
      ensures groupQuerysScheduled ==
                if r.rtype == TO_IN then Asked(old(groupQuerysScheduled), r.group) else old(groupQuerysScheduled)
    {
      if r.rtype == TO_IN {
        ToIN(client, r.group);
      } else if r.rtype == TO_EX {
        ToEX(client, r.group);
      }
    }

    /** The record loop of `processReport`. */
    method ProcessRecords(client: IPAddress, records: seq<GroupRecord>)
      requires Valid()
      modifies this, db, db.dbs.Values
      ensures Valid() && fresh(db.dbs.Values - old(db.dbs.Values))
      ensures db.State() == HeardAll(old(db.State()), Arrivals(client, records))
      ensures groupQuerysScheduled == AskedAll(old(groupQuerysScheduled), records)
    {
      for i := 0 to |records|
        invariant Valid() && fresh(db.dbs.Values - old(db.dbs.Values))
        invariant db.State() == HeardAll(old(db.State()), Arrivals(client, records[..i]))
        invariant groupQuerysScheduled == AskedAll(old(groupQuerysScheduled), records[..i])
      {
        OneMore(old(db.State()), old(groupQuerysScheduled), client, records, i);
        ProcessRecord(client, records[i]);
      }
      assert records[..|records|] == records;
    }

    /** Reading a packet leaves the databases alone. */
    method Read(p: array<Byte>, big: bool) returns (outcome: Outcome, client: IPAddress, records: seq<GroupRecord>)
      requires Valid() && IP_HEADER <= p.Length
      modifies p
      ensures Valid() && db.dbs == old(db.dbs) && db.State() == old(db.State())
      ensures outcome == Decode(old(p[IP_HEADER..]), big)
      ensures records == Decoded(outcome) && Arrivals(client, records) == old(Brought(p[..], big))
    {
      outcome, client, records := ReadPacket(p, big);
    }

    /** `processReport`, on a packet with its IP header; a packet that does not parse changes nothing. */
    method ProcessReportPacket(p: array<Byte>, big: bool) returns (outcome: Outcome)
      requires Valid() && IP_HEADER <= p.Length
      modifies this, db, db.dbs.Values, p
      ensures Valid() && fresh(db.dbs.Values - old(db.dbs.Values))
      ensures outcome == Decode(old(p[IP_HEADER..]), big)
      ensures db.State() == HeardAll(old(db.State()), old(Brought(p[..], big)))
      ensures groupQuerysScheduled == AskedAll(old(groupQuerysScheduled), Decoded(outcome))
    {
      var client, records;
      outcome, client, records := Read(p, big);
      ProcessRecords(client, records);
    }
  }

  /** The groups asked about, once each, in order of first asking. */
  function Asked(groups: seq<IPAddress>, g: IPAddress): seq<IPAddress> {
    if g in groups then groups else groups + [g]
  }

  function AskedAll(groups: seq<IPAddress>, records: seq<GroupRecord>): seq<IPAddress> {
    if records == [] then groups
    else
      var n := |records| - 1;
      var before := AskedAll(groups, records[..n]);
      if records[n].rtype == TO_IN then Asked(before, records[n].group) else before
  }

  /** A group is asked about exactly if it was before or some TO_IN record names it. */
  lemma {:induction false} AskedExactly(groups: seq<IPAddress>, records: seq<GroupRecord>, g: IPAddress)
    ensures g in AskedAll(groups, records) <==>
              g in groups || exists i :: 0 <= i < |records| && records[i].rtype == TO_IN && records[i].group == g
  {
    if records != [] {
      var n := |records| - 1;
      AskedExactly(groups, records[..n], g);
      if i :| 0 <= i < n && records[..n][i].rtype == TO_IN && records[..n][i].group == g {
        assert records[i].rtype == TO_IN && records[i].group == g;
      }
      if i :| 0 <= i < |records| && records[i].rtype == TO_IN && records[i].group == g {
        assert i < n ==> records[..n][i].rtype == TO_IN && records[..n][i].group == g;
      }
    }
  }

  lemma OneMore(v: View, groups: seq<IPAddress>, client: IPAddress, records: seq<GroupRecord>, i: nat)
    requires i < |records|
    ensures HeardAll(v, Arrivals(client, records[..i + 1])) ==
              Heard(HeardAll(v, Arrivals(client, records[..i])), client, records[i])
    ensures AskedAll(groups, records[..i + 1]) ==
              var before := AskedAll(groups, records[..i]);
              if records[i].rtype == TO_IN then Asked(before, records[i].group) else before
  {
    var h := Arrivals(client, records[..i + 1]);
    assert h[..i] == Arrivals(client, records[..i]) && records[..i + 1][..i] == records[..i];
  }

  // ---------------------------------------------------------------- any number of packets

  /** The records of a list of packets, in order. */
  function History(packets: seq<Str>, big: bool): (h: seq<Arrival>)
    requires forall i :: 0 <= i < |packets| ==> IP_HEADER <= |packets[i]|
  {
    if packets == [] then []
    else var n := |packets| - 1; History(packets[..n], big) + Brought(packets[n], big)
  }

  /** A router that is handed any packets, in any order, forwards by the last TO_IN or TO_EX of each client. */
  method ForwardAfter(packets: seq<Str>, big: bool, g: IPAddress, source: IPAddress, net: IPAddress,
                      mask: IPAddress) returns (b: bool)
    requires forall i :: 0 <= i < |packets| ==> IP_HEADER <= |packets[i]|
    ensures b <==> exists c :: MatchesPrefix(c, net, mask) && LastTold(History(packets, big), c, g) == Told(EXCLUDE)
  {
    var db := new IGMPRouterDB();
    var router := new IGMPRouter(db);
    for i := 0 to |packets|
      invariant fresh(router) && router.db == db && fresh(db) && fresh(db.dbs.Values) && router.Valid()
      invariant db.State() == HeardAll(map[], History(packets[..i], big))
    {
      TakeIn(router, packets[i], big);
      HistoryStep(packets, big, i);
    }
    assert packets[..|packets|] == packets;
    b := db.AcceptFromSourceAsClient(g, source, net, mask);
    ForwardingRule(History(packets, big), g, net, mask);
  }

  method Buffer(packet: Str) returns (p: array<Byte>)
    requires IP_HEADER <= |packet|
    ensures fresh(p) && p[..] == packet
  {
    p := new Byte[|packet|](i requires 0 <= i < |packet| => packet[i]);
    assert p[..] == packet;
  }

  /** One packet arrives in a buffer of its own. */
  method TakeIn(router: IGMPRouter, packet: Str, big: bool)
    requires router.Valid() && IP_HEADER <= |packet|
    modifies router, router.db, router.db.dbs.Values
    ensures router.Valid() && fresh(router.db.dbs.Values - old(router.db.dbs.Values))
    ensures router.db.State() == HeardAll(old(router.db.State()), Brought(packet, big))
  {
    var p := Buffer(packet);
    var outcome := router.ProcessReportPacket(p, big);
  }

  lemma HistoryStep(packets: seq<Str>, big: bool, i: nat)
    requires i < |packets| && forall k :: 0 <= k < |packets| ==> IP_HEADER <= |packets[k]|
    ensures HeardAll(map[], History(packets[..i + 1], big)) ==
              HeardAll(HeardAll(map[], History(packets[..i], big)), Brought(packets[i], big))
  {
    assert packets[..i + 1][..i] == packets[..i];
    HeardAllConcat(map[], History(packets[..i], big), Brought(packets[i], big));
  }
}
