/**
 `IGMPClient` (elements/IGMPClient.cc): the host side.  Handlers change a
 group's filter mode and schedule a state-change report; every report is sent
 `rv` times, where `rv` is the robustness variable; queries schedule a
 current-state report.  Delays are not modelled: any pending timer may fire.
 */
module Client {
  import opened Bytes
  import opened Reports
  import opened ClientDB

  /** The robustness variable the element is built with. */
  const ROBUSTNESS_VARIABLE := 2

  /** A report with copies still to send. */
  datatype Timer = Timer(report: seq<GroupRecord>, left: nat)

  /** The host as a value; `scheduled` counts the reports scheduled so far. */
  datatype Host = Host(modes: map<IPAddress, Mode>, timers: seq<Timer>, sent: seq<seq<GroupRecord>>, scheduled: nat)

  const IDLE := Host(map[], [], [], 0)

  function Scheduled(h: Host, rv: nat, report: seq<GroupRecord>): Host {
    h.(timers := h.timers + [Timer(report, rv)], scheduled := h.scheduled + 1)
  }

  /** A recorded group's mode replaced. */
  function WithMode(h: Host, g: IPAddress, mode: Mode): Host {
    if g in h.modes then h.(modes := h.modes[g := mode]) else h
  }

  function ToEx(g: IPAddress): seq<GroupRecord> {
    [GroupRecord(TO_EX, g, [])]
  }

  function ToIn(g: IPAddress): seq<GroupRecord> {
    [GroupRecord(TO_IN, g, [])]
  }

  /** The `exclude_sources` handler. */
  function Excluded(h: Host, rv: nat, g: IPAddress): Host {
    if g in h.modes && h.modes[g] == EXCLUDE then h
    else Scheduled(h.(modes := h.modes[g := EXCLUDE]), rv, ToEx(g))
  }

  /** The `include_sources` handler. */
  function Included(h: Host, rv: nat, g: IPAddress): Host {
    if g in h.modes && h.modes[g] == INCLUDE then h
    else Scheduled(h.(modes := h.modes[g := INCLUDE]), rv, ToIn(g))
  }

  /** A timer fires: one copy goes out. */
  function Fired(h: Host, k: nat): Host
    requires k < |h.timers|
  {
    var t := h.timers[k];
    var rest := if t.left > 1 then h.timers[k := t.(left := t.left - 1)] else h.timers[..k] + h.timers[k + 1..];
    h.(timers := rest, sent := h.sent + [t.report])
  }

  // ---------------------------------------------------------------- counting copies

  /** Copies still to be sent. */
  function Pending(timers: seq<Timer>): nat {
    if timers == [] then 0 else timers[0].left + Pending(timers[1..])
  }

  ghost predicate Live(timers: seq<Timer>) {
    forall k :: 0 <= k < |timers| ==> timers[k].left >= 1
  }

  /** Copies sent and copies pending add up to `rv` per scheduled report. */
  ghost predicate Balanced(h: Host, rv: nat) {
    Live(h.timers) && |h.sent| + Pending(h.timers) == rv * h.scheduled
  }

  lemma {:induction false} PendingAppend(s: seq<Timer>, t: seq<Timer>)
    ensures Pending(s + t) == Pending(s) + Pending(t)
  {
    if s == [] {
      assert s + t == t;
    } else {
      assert (s + t)[1..] == s[1..] + t;
      PendingAppend(s[1..], t);
    }
  }

  /** A firing sends exactly one of the pending copies. */
  lemma FiringSendsOne(h: Host, k: nat)
    requires k < |h.timers| && Live(h.timers)
    ensures Live(Fired(h, k).timers) && Pending(Fired(h, k).timers) == Pending(h.timers) - 1
    ensures Fired(h, k).sent == h.sent + [h.timers[k].report]
  {
    var s, t, u := h.timers[..k], h.timers[k], h.timers[k + 1..];
    assert h.timers == s + [t] + u;
    PendingAppend(s + [t], u);
    PendingAppend(s, [t]);
    if t.left > 1 {
      var t' := t.(left := t.left - 1);
      assert h.timers[k := t'] == s + [t'] + u;
      PendingAppend(s + [t'], u);
      PendingAppend(s, [t']);
    } else {
      PendingAppend(s, u);
    }
  }

  lemma SchedulingBalanced(h: Host, rv: nat, report: seq<GroupRecord>)
    requires Balanced(h, rv) && rv >= 1
    ensures Balanced(Scheduled(h, rv, report), rv)
  {
    PendingAppend(h.timers, [Timer(report, rv)]);
    assert rv * (h.scheduled + 1) == rv * h.scheduled + rv;
  }

  datatype Event = Exclude(g: IPAddress) | Include(g: IPAddress) | Respond(report: seq<GroupRecord>) | Fire(k: nat)

  /** What can happen to a host. */
  ghost predicate Enabled(h: Host, e: Event) {
    match e
    case Respond(report) => IsResponse(h.modes, report)
    case Fire(k) => k < |h.timers|
    case _ => true
  }

  ghost function After(h: Host, rv: nat, e: Event): Host
    requires Enabled(h, e)
  {
    match e
    case Exclude(g) => Excluded(h, rv, g)
    case Include(g) => Included(h, rv, g)
    case Respond(report) => Scheduled(h, rv, report)
    case Fire(k) => Fired(h, k)
  }

  /** A run of the host. */
  ghost predicate Run(rv: nat, events: seq<Event>, states: seq<Host>) {
    && |states| == |events| + 1 && states[0] == IDLE
    && forall i :: 0 <= i < |events| ==>
         Enabled(states[i], events[i]) && states[i + 1] == After(states[i], rv, events[i])
  }

  /** In every state of every run, copies sent plus copies pending is `rv` times the reports scheduled. */
  lemma {:induction false} CopiesConserved(rv: nat, events: seq<Event>, states: seq<Host>, n: nat)
    requires Run(rv, events, states) && rv >= 1 && n <= |events|
    ensures Balanced(states[n], rv)
  {
    if n > 0 {
      CopiesConserved(rv, events, states, n - 1);
      var h, e := states[n - 1], events[n - 1];
      assert states[n - 1 + 1] == After(h, rv, e);
      match e {
        case Exclude(g) =>
          SchedulingBalanced(h.(modes := h.modes[g := EXCLUDE]), rv, ToEx(g));
        case Include(g) =>
          SchedulingBalanced(h.(modes := h.modes[g := INCLUDE]), rv, ToIn(g));
        case Respond(report) =>
          SchedulingBalanced(h, rv, report);
        case Fire(k) =>
          FiringSendsOne(h, k);
      }
    }
  }

  /** Nothing is pending exactly when no timer is left. */
  lemma DrainedIffNoTimers(timers: seq<Timer>)
    requires Live(timers)
    ensures Pending(timers) == 0 <==> timers == []
  {
    if timers != [] {
      assert timers[0].left >= 1;
    }
  }

  // ---------------------------------------------------------------- query responses

  function StateRecord(g: IPAddress, mode: Mode): GroupRecord {
    GroupRecord(if mode == INCLUDE then IS_INCLUDE else IS_EXCLUDE, g, [])
  }

  /** A current-state report: one record per group, in any order. */
  ghost predicate IsResponse(modes: map<IPAddress, Mode>, report: seq<GroupRecord>) {
    && (forall i :: 0 <= i < |report| ==>
          report[i].group in modes && report[i] == StateRecord(report[i].group, modes[report[i].group]))
    && (forall i, j :: 0 <= i < j < |report| ==> report[i].group != report[j].group)
    && (forall g :: g in modes ==> exists i :: 0 <= i < |report| && report[i].group == g)
    && |report| == |modes|
  }

  /** The modes a current-state report tells. */
  function ModesTold(report: seq<GroupRecord>): (m: map<IPAddress, Mode>) {
    if report == [] then map[]
    else
      var n := |report| - 1;
      ModesTold(report[..n])[report[n].group := if report[n].rtype == IS_INCLUDE then INCLUDE else EXCLUDE]
  }

  /** `isINCLUDEOrEXCLUDE`: walk the table in whatever order it yields its entries. */
  method IsIncludeOrExclude(table: map<IPAddress, Mode>) returns (report: seq<GroupRecord>)
    ensures IsResponse(table, report)
  {
    report := [];
    var todo := table.Keys;
    while todo != {}
      invariant todo <= table.Keys
      invariant |report| + |todo| == |table.Keys|
      invariant forall i :: 0 <= i < |report| ==>
                  && report[i].group in table && report[i].group !in todo
                  && report[i] == StateRecord(report[i].group, table[report[i].group])
      invariant forall i, j :: 0 <= i < j < |report| ==> report[i].group != report[j].group
      invariant forall g :: g in table && g !in todo ==> exists i :: 0 <= i < |report| && report[i].group == g
      decreases todo
    {
      var g :| g in todo;
      ghost var before := report;
      report := report + [StateRecord(g, table[g])];
      todo := todo - {g};
      forall x | x in table && x !in todo ensures exists i :: 0 <= i < |report| && report[i].group == x {
        if x == g {
          assert report[|before|].group == g;
        } else {
          var i :| 0 <= i < |before| && before[i].group == x;
          assert report[i].group == x;
        }
      }
    }
  }

  lemma {:induction false} ToldMember(report: seq<GroupRecord>, g: IPAddress)
    ensures g in ModesTold(report) <==> exists i :: 0 <= i < |report| && report[i].group == g
  {
    if report != [] {
      var n := |report| - 1;
      ToldMember(report[..n], g);
      if i :| 0 <= i < n && report[..n][i].group == g {
        assert report[i].group == g;
      }
      if i :| 0 <= i < |report| && report[i].group == g {
        assert i < n ==> report[..n][i].group == g;
      }
    }
  }

  lemma {:induction false} ToldAt(report: seq<GroupRecord>, i: int)
    requires 0 <= i < |report| && forall i, j :: 0 <= i < j < |report| ==> report[i].group != report[j].group
    ensures report[i].group in ModesTold(report)
    ensures ModesTold(report)[report[i].group] == if report[i].rtype == IS_INCLUDE then INCLUDE else EXCLUDE
  {
    var n := |report| - 1;
    if i < n {
      ToldAt(report[..n], i);
      assert report[..n][i] == report[i];
    }
  }

  lemma ResponseTells(modes: map<IPAddress, Mode>, report: seq<GroupRecord>)
    requires IsResponse(modes, report)
    ensures ModesTold(report) == modes
  {
    forall g ensures g in modes <==> g in ModesTold(report) {
      ToldMember(report, g);
    }
    forall g | g in modes ensures ModesTold(report)[g] == modes[g] {
      var i :| 0 <= i < |report| && report[i].group == g;
      ToldAt(report, i);
    }
  }

  /** A query response, sent over the wire and parsed, tells exactly the client's modes, if there are fewer
      than 65536 groups. */
  lemma ResponseDecodes(modes: map<IPAddress, Mode>, report: seq<GroupRecord>, big: bool)
    requires IsResponse(modes, report)
    ensures |modes| < 0x1_0000 <==> Decode(ReportBytes(report, big), big) == Parsed(report)
    ensures |modes| < 0x1_0000 ==> ModesTold(Decode(ReportBytes(report, big), big).records) == modes
  {
    ReportRoundTrip(report, big);
    ResponseTells(modes, report);
  }

  // ---------------------------------------------------------------- the element

  class IGMPClient {
    const rv: nat
    const db: IGMPClientDB
    var timers: seq<Timer>
    var sent: seq<seq<GroupRecord>>
    var scheduled: nat

    ghost predicate Valid()
      reads this, db
    {
      rv >= 1 && db.Valid()
    }

    /** The element's state as a value. */
    ghost function State(): (h: Host)
      reads this, db
    {
      Host(db.Modes(), timers, sent, scheduled)
    }

    constructor (db: IGMPClientDB)
      requires db.Valid()
      ensures Valid() && State() == IDLE.(modes := db.Modes()) && this.db == db && rv == ROBUSTNESS_VARIABLE
    {
      this.db, this.rv := db, ROBUSTNESS_VARIABLE;
      timers, sent, scheduled := [], [], 0;
    }

    method ScheduleReport(report: seq<GroupRecord>)
      requires Valid()
      modifies this
      ensures Valid() && State() == Scheduled(old(State()), rv, report)
    {
      timers := timers + [Timer(report, rv)];
      scheduled := scheduled + 1;
    }

    /** `includeWithExclude`: the mode of a group without a record is not set, the report is sent all the same. */
    method IncludeWithExclude(g: IPAddress)
      requires Valid()
      modifies this, db
      ensures Valid()
      ensures State() == Scheduled(WithMode(old(State()), g, EXCLUDE), rv, ToEx(g))
    {
      var code := db.SetMode(g, EXCLUDE);
      ScheduleReport(ToEx(g));
    }

    /** `excludeWithInclude` */
    method ExcludeWithInclude(g: IPAddress)
      requires Valid()
      modifies this, db
      ensures Valid()
      ensures State() == Scheduled(WithMode(old(State()), g, INCLUDE), rv, ToIn(g))
    {
      var code := db.SetMode(g, INCLUDE);
      ScheduleReport(ToIn(g));
    }

    /** `excludeSourcesHandler` */
    method ExcludeSourcesHandler(g: IPAddress)
      requires Valid()
      modifies this, db
      ensures Valid() && State() == Excluded(old(State()), rv, g)
    {
      var known := db.RecordExists(g);
      if !known {
        db.AddRecord(g, [], EXCLUDE);
        IncludeWithExclude(g);
        return;
      }
      var mode := db.GetMode(g);
      if mode == INCLUDE {
        IncludeWithExclude(g);
      }
    }

    /** `includeSourcesHandler` */
    method IncludeSourcesHandler(g: IPAddress)
      requires Valid()
      modifies this, db
      ensures Valid() && State() == Included(old(State()), rv, g)
    {
      var known := db.RecordExists(g);
      if !known {
        db.AddRecord(g, [], INCLUDE);
        ExcludeWithInclude(g);
        return;
      }
      var mode := db.GetMode(g);
      if mode == EXCLUDE {
        ExcludeWithInclude(g);
      }
    }

    /** `generalQuery` and `groupQuery`, which respond alike. */
    method RespondToQuery() returns (report: seq<GroupRecord>)
      requires Valid()
      modifies this
      ensures Valid() && IsResponse(old(db.Modes()), report) && State() == Scheduled(old(State()), rv, report)
    {
      var table := db.GetMulticastFiltermodeTable();
      report := IsIncludeOrExclude(table);
      ScheduleReport(report);
    }

    /** `handleSendReportTimer`, for the pending timer `k`. */
    method HandleSendReportTimer(k: nat)
      requires Valid() && k < |timers|
      modifies this
      ensures Valid() && State() == Fired(old(State()), k)
    {
      var t := timers[k];
      if t.left > 1 {
        timers := timers[k := t.(left := t.left - 1)];
      } else {
        timers := timers[..k] + timers[k + 1..];
      }
      sent := sent + [t.report];
    }
  }

  /** Firing timers until none is left takes exactly as many firings as there are copies pending. */
  method Drain(client: IGMPClient) returns (firings: nat)
    requires client.Valid() && Live(client.timers)
    modifies client
    ensures client.Valid() && client.timers == [] && client.db.Modes() == old(client.db.Modes())
    ensures firings == old(Pending(client.timers)) && |client.sent| == old(|client.sent|) + firings
  {
    firings := 0;
    while client.timers != []
      invariant client.Valid() && Live(client.timers)
      invariant firings + Pending(client.timers) == old(Pending(client.timers))
      invariant |client.sent| == old(|client.sent|) + firings
      decreases Pending(client.timers)
    {
      var k: nat :| k < |client.timers|;
      FiringSendsOne(client.State(), k);
      client.HandleSendReportTimer(k);
      firings := firings + 1;
    }
  }
}
