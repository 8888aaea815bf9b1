/**
 The join and leave protocol as a whole: hosts (IGMPClient), a network that
 may lose, duplicate and reorder reports, and the router (IGMPRouter).  One
 link per host; `reports` lists every report the host ever scheduled, and the
 copies travelling on the link are named by their position in that list.
 */
module Protocol {
  import opened Collections
  import opened Reports
  import opened ClientDB
  import opened Client
  import opened Router

  /**
   A host with its channel to the router.  `ids[k]` names the report of the
   host's pending timer `k`; `lost` and `delivered` count what became of the
   copies of each report, and `duplicated` the copies the network added.
   */
  datatype Link = Link(host: Host, ids: seq<nat>, reports: seq<seq<GroupRecord>>, channel: seq<nat>,
                       lost: seq<nat>, delivered: seq<nat>, duplicated: seq<nat>)

  const FRESH := Link(IDLE, [], [], [], [], [], [])

  /** A state-change report on group `g`. */
  predicate About(report: seq<GroupRecord>, g: IPAddress) {
    report == ToEx(g) || report == ToIn(g)
  }

  function ReportFor(g: IPAddress, mode: Mode): seq<GroupRecord> {
    if mode == EXCLUDE then ToEx(g) else ToIn(g)
  }

  // ---------------------------------------------------------------- steps

  /** A host event; scheduling a report gives it the next name. */
  ghost function HostStep(l: Link, rv: nat, e: Event): Link
    requires Enabled(l.host, e) && |l.ids| == |l.host.timers|
  {
    var h := After(l.host, rv, e);
    if e.Fire? then
      l.(host := h, channel := l.channel + [l.ids[e.k]],
         ids := if l.host.timers[e.k].left > 1 then l.ids else Without(l.ids, e.k))
    else if h.scheduled == l.host.scheduled then l.(host := h)
    else
      l.(host := h, ids := l.ids + [|l.reports|], reports := l.reports + [h.timers[|h.timers| - 1].report],
         lost := l.lost + [0], delivered := l.delivered + [0], duplicated := l.duplicated + [0])
  }

  function Delivered(l: Link, k: nat): Link
    requires k < |l.channel| && l.channel[k] < |l.delivered|
  {
    var id := l.channel[k];
    l.(channel := Without(l.channel, k), delivered := l.delivered[id := l.delivered[id] + 1])
  }

  function Lost(l: Link, k: nat): Link
    requires k < |l.channel| && l.channel[k] < |l.lost|
  {
    var id := l.channel[k];
    l.(channel := Without(l.channel, k), lost := l.lost[id := l.lost[id] + 1])
  }

  function Duplicated(l: Link, k: nat): Link
    requires k < |l.channel| && l.channel[k] < |l.duplicated|
  {
    var id := l.channel[k];
    l.(channel := l.channel + [id], duplicated := l.duplicated[id := l.duplicated[id] + 1])
  }

  datatype Step =
    | Happen(c: IPAddress, e: Event)
    | Deliver(c: IPAddress, k: nat)
    | Lose(c: IPAddress, k: nat)
    | Duplicate(c: IPAddress, k: nat)

  /** The hosts' links, the router's view, and which exclude_sources calls have been made. */
  datatype State = State(links: map<IPAddress, Link>, view: View, asked: set<(IPAddress, IPAddress)>)

  /** Sizes agree and names are names. */
  ghost predicate Shaped(l: Link) {
    && |l.ids| == |l.host.timers| && |l.lost| == |l.delivered| == |l.duplicated| == |l.reports|
    && (forall k :: 0 <= k < |l.ids| ==> l.ids[k] < |l.reports| && l.host.timers[k].report == l.reports[l.ids[k]])
    && (forall j, k :: 0 <= j < k < |l.ids| ==> l.ids[j] != l.ids[k])
    && (forall k :: 0 <= k < |l.channel| ==> l.channel[k] < |l.reports|)
  }

  ghost predicate Possible(s: State, step: Step) {
    && step.c in s.links
    && var l := s.links[step.c];
       && Shaped(l)
       && match step
          case Happen(_, e) => Enabled(l.host, e)
          case Deliver(_, k) => k < |l.channel|
          case Lose(_, k) => k < |l.channel|
          case Duplicate(_, k) => k < |l.channel|
  }

  /** What the step does. */
  ghost function Next(s: State, rv: nat, step: Step): State
    requires Possible(s, step)
  {
    var c := step.c;
    var l := s.links[c];
    match step
    case Happen(_, e) =>
      State(s.links[c := HostStep(l, rv, e)], s.view, if e.Exclude? then s.asked + {(c, e.g)} else s.asked)
    case Deliver(_, k) =>
      s.(links := s.links[c := Delivered(l, k)], view := HeardAll(s.view, Arrivals(c, l.reports[l.channel[k]])))
    case Lose(_, k) => s.(links := s.links[c := Lost(l, k)])
    case Duplicate(_, k) => s.(links := s.links[c := Duplicated(l, k)])
  }

  ghost predicate Initial(s: State) {
    s.view == map[] && s.asked == {} && forall c :: c in s.links ==> s.links[c] == FRESH
  }

  ghost predicate RunOf(rv: nat, steps: seq<Step>, states: seq<State>) {
    && |states| == |steps| + 1 && Initial(states[0])
    && forall i {:trigger steps[i]} :: 0 <= i < |steps| ==>
         Possible(states[i], steps[i]) && states[i + 1] == Next(states[i], rv, steps[i])
  }

  // ---------------------------------------------------------------- what hearing a report does

  lemma HeardOne(v: View, c: IPAddress, r: GroupRecord)
    ensures HeardAll(v, Arrivals(c, [r])) == Heard(v, c, r)
  {
    assert Arrivals(c, [r])[..0] == [];
  }

  lemma {:induction false} HeardNone(v: View, c: IPAddress, report: seq<GroupRecord>)
    requires forall i :: 0 <= i < |report| ==> report[i].rtype != TO_IN && report[i].rtype != TO_EX
    ensures HeardAll(v, Arrivals(c, report)) == v
  {
    if report != [] {
      var n := |report| - 1;
      assert Arrivals(c, report)[..n] == Arrivals(c, report[..n]);
      HeardNone(v, c, report[..n]);
    }
  }

  /** Every report a host sends is a state change on one group, or has no effect at all. */
  ghost predicate Typed(report: seq<GroupRecord>) {
    || (exists g :: About(report, g))
    || (forall i :: 0 <= i < |report| ==> report[i].rtype != TO_IN && report[i].rtype != TO_EX)
  }

  ghost predicate AllTyped(l: Link) {
    forall id :: 0 <= id < |l.reports| ==> Typed(l.reports[id])
  }

  /** The router's entry after hearing a host's report. */
  lemma HeardEntry(v: View, c: IPAddress, report: seq<GroupRecord>, c': IPAddress, g: IPAddress)
    requires Typed(report)
    ensures Entry(HeardAll(v, Arrivals(c, report)), c', g) ==
              if c' == c && About(report, g) then Told(if report == ToEx(g) then EXCLUDE else INCLUDE)
              else Entry(v, c', g)
  {
    if x :| About(report, x) {
      HeardOne(v, c, report[0]);
    } else {
      HeardNone(v, c, report);
    }
  }

  // ---------------------------------------------------------------- names stay names

  /** The report an event schedules; none for a firing or a handler call that changes nothing. */
  ghost function NewReport(h: Host, e: Event): seq<seq<GroupRecord>> {
    match e
    case Exclude(g) => if g in h.modes && h.modes[g] == EXCLUDE then [] else [ToEx(g)]
    case Include(g) => if g in h.modes && h.modes[g] == INCLUDE then [] else [ToIn(g)]
    case Respond(report) => [report]
    case Fire(_) => []
  }

  /** The link after an event that is not a firing. */
  lemma HostStepSchedules(l: Link, rv: nat, e: Event)
    requires Enabled(l.host, e) && |l.ids| == |l.host.timers| && !e.Fire?
    ensures var r := NewReport(l.host, e);
            var l' := HostStep(l, rv, e);
            && (r == [] ==> l' == l)
            && (r != [] ==>
                  && |r| == 1
                  && l' == Link(l'.host, l.ids + [|l.reports|], l.reports + r, l.channel,
                                l.lost + [0], l.delivered + [0], l.duplicated + [0])
                  && l'.host.timers == l.host.timers + [Timer(r[0], rv)]
                  && l'.host.modes == (match e case Exclude(g) => l.host.modes[g := EXCLUDE]
                                               case Include(g) => l.host.modes[g := INCLUDE]
                                               case _ => l.host.modes))
  {}

  lemma HostStepFires(l: Link, rv: nat, k: nat)
    requires k < |l.host.timers| && |l.ids| == |l.host.timers|
    ensures var l' := HostStep(l, rv, Fire(k));
            var t := l.host.timers[k];
            && l'.host.modes == l.host.modes && l'.reports == l.reports
            && l'.lost == l.lost && l'.delivered == l.delivered && l'.duplicated == l.duplicated
            && l'.channel == l.channel + [l.ids[k]]
            && (t.left > 1 ==> l'.ids == l.ids && l'.host.timers == l.host.timers[k := t.(left := t.left - 1)])
            && (t.left <= 1 ==> l'.ids == Without(l.ids, k) && l'.host.timers == Without(l.host.timers, k))
  {}

  lemma ShapedSchedules(l: Link, rv: nat, e: Event)
    requires Shaped(l) && Enabled(l.host, e) && !e.Fire?
    ensures Shaped(HostStep(l, rv, e))
  {
    HostStepSchedules(l, rv, e);
  }

  lemma ShapedFires(l: Link, rv: nat, k: nat)
    requires Shaped(l) && k < |l.host.timers|
    ensures Shaped(HostStep(l, rv, Fire(k)))
  {
    HostStepFires(l, rv, k);
  }

  lemma ShapedNetwork(l: Link, k: nat)
    requires Shaped(l) && k < |l.channel|
    ensures Shaped(Delivered(l, k)) && Shaped(Lost(l, k)) && Shaped(Duplicated(l, k))
  {}

  lemma NewReportTyped(h: Host, e: Event)
    requires Enabled(h, e)
    ensures forall i :: 0 <= i < |NewReport(h, e)| ==> Typed(NewReport(h, e)[i])
  {
    match e {
      case Exclude(g) => assert About(ToEx(g), g);
      case Include(g) => assert About(ToIn(g), g);
      case _ =>
    }
  }

  // ---------------------------------------------------------------- safety on any network

  /** A link's exclude reports were all asked for. */
  ghost predicate Asked1(l: Link, c: IPAddress, asked: set<(IPAddress, IPAddress)>) {
    && Shaped(l)
    && AllTyped(l)
    && (forall id, g :: 0 <= id < |l.reports| && l.reports[id] == ToEx(g) ==> (c, g) in asked)
  }

  ghost predicate Traceable(s: State) {
    && (forall c :: c in s.links ==> Asked1(s.links[c], c, s.asked))
    && (forall c, g :: Entry(s.view, c, g) == Told(EXCLUDE) ==> (c, g) in s.asked)
  }

  lemma Asked1Grows(l: Link, c: IPAddress, asked: set<(IPAddress, IPAddress)>, asked': set<(IPAddress, IPAddress)>)
    requires Asked1(l, c, asked) && asked <= asked'
    ensures Asked1(l, c, asked')
  {}

  lemma Asked1Happens(l: Link, c: IPAddress, rv: nat, e: Event, asked: set<(IPAddress, IPAddress)>)
    requires Asked1(l, c, asked) && Enabled(l.host, e)
    ensures Asked1(HostStep(l, rv, e), c, if e.Exclude? then asked + {(c, e.g)} else asked)
  {
    if e.Fire? {
      ShapedFires(l, rv, e.k);
      HostStepFires(l, rv, e.k);
    } else {
      ShapedSchedules(l, rv, e);
      HostStepSchedules(l, rv, e);
      NewReportTyped(l.host, e);
      var r := NewReport(l.host, e);
      if r != [] && e.Respond? {
        assert forall g :: ToEx(g)[0].rtype == TO_EX;
      }
    }
  }

  lemma TraceableNext(s: State, rv: nat, step: Step)
    requires Traceable(s) && Possible(s, step)
    ensures Traceable(Next(s, rv, step))
  {
    var c := step.c;
    var l, s' := s.links[c], Next(s, rv, step);
    forall d | d in s'.links ensures Asked1(s'.links[d], d, s'.asked) {
      if d != c {
        Asked1Grows(s.links[d], d, s.asked, s'.asked);
      } else if step.Happen? {
        Asked1Happens(l, c, rv, step.e, s.asked);
      } else {
        ShapedNetwork(l, step.k);
      }
    }
    if step.Deliver? {
      forall d, g | Entry(s'.view, d, g) == Told(EXCLUDE) ensures (d, g) in s'.asked {
        HeardEntry(s.view, c, l.reports[l.channel[step.k]], d, g);
      }
    }
  }

  /**
   Under any loss, duplication and reordering: the router holds a client's
   group in EXCLUDE mode only if that client called exclude_sources on it.
   */
  lemma {:induction false} ExcludeWasAsked(rv: nat, steps: seq<Step>, states: seq<State>, n: nat)
    requires RunOf(rv, steps, states) && n <= |steps|
    ensures Traceable(states[n])
  {
    if n > 0 {
      ExcludeWasAsked(rv, steps, states, n - 1);
      TraceableNext(states[n - 1], rv, steps[n - 1]);
      assert states[n - 1 + 1] == Next(states[n - 1], rv, steps[n - 1]);
    }
  }

  /** The calls on record are those the run made. */
  lemma {:induction false} AskedIsHistory(rv: nat, steps: seq<Step>, states: seq<State>, n: nat, c: IPAddress,
                                          g: IPAddress)
    requires RunOf(rv, steps, states) && n <= |steps|
    ensures (c, g) in states[n].asked <==> exists i :: 0 <= i < n && steps[i] == Happen(c, Exclude(g))
  {
    if n > 0 {
      AskedIsHistory(rv, steps, states, n - 1, c, g);
      assert states[n - 1 + 1] == Next(states[n - 1], rv, steps[n - 1]);
    }
  }

  // ---------------------------------------------------------------- every copy is accounted for

  /** Copies of report `id` that the host has still to send. */
  function LeftOf(timers: seq<Timer>, ids: seq<nat>, id: nat): nat
    requires |timers| == |ids|
  {
    if ids == [] then 0
    else
      var n := |ids| - 1;
      LeftOf(timers[..n], ids[..n], id) + if ids[n] == id then timers[n].left else 0
  }

  /** Every copy of every report, the network's own included, is pending, in flight, lost or delivered. */
  ghost predicate Conserved(l: Link, rv: nat)
    requires Shaped(l)
  {
    forall id :: 0 <= id < |l.reports| ==> Balanced(l, rv, id)
  }

  ghost predicate Balanced(l: Link, rv: nat, id: nat)
    requires Shaped(l) && id < |l.reports|
  {
    LeftOf(l.host.timers, l.ids, id) + multiset(l.channel)[id] + l.lost[id] + l.delivered[id] == rv + l.duplicated[id]
  }

  /** The copies add up, timers have copies to send, and reports are of the two kinds. */
  ghost predicate Accounted(l: Link, rv: nat) {
    && Shaped(l) && Conserved(l, rv) && AllTyped(l)
    && forall k :: 0 <= k < |l.host.timers| ==> l.host.timers[k].left >= 1
  }

  lemma {:induction false} LeftAbsent(timers: seq<Timer>, ids: seq<nat>, id: nat)
    requires |timers| == |ids| && id !in ids
    ensures LeftOf(timers, ids, id) == 0
  {
    if ids != [] {
      LeftAbsent(timers[..|ids| - 1], ids[..|ids| - 1], id);
    }
  }

  lemma LeftAppend(timers: seq<Timer>, ids: seq<nat>, t: Timer, x: nat, id: nat)
    requires |timers| == |ids|
    ensures LeftOf(timers + [t], ids + [x], id) == LeftOf(timers, ids, id) + if x == id then t.left else 0
  {
    assert (timers + [t])[..|ids|] == timers && (ids + [x])[..|ids|] == ids;
  }

  lemma {:induction false} LeftUpdate(timers: seq<Timer>, ids: seq<nat>, k: nat, t: Timer, id: nat)
    requires |timers| == |ids| && k < |ids|
    ensures LeftOf(timers[k := t], ids, id) + (if ids[k] == id then timers[k].left else 0) ==
              LeftOf(timers, ids, id) + if ids[k] == id then t.left else 0
  {
    var n := |ids| - 1;
    if k == n {
      assert timers[k := t][..n] == timers[..n];
    } else {
      assert timers[k := t][..n] == timers[..n][k := t];
      LeftUpdate(timers[..n], ids[..n], k, t, id);
    }
  }

  lemma {:induction false} LeftWithout(timers: seq<Timer>, ids: seq<nat>, k: nat, id: nat)
    requires |timers| == |ids| && k < |ids|
    ensures LeftOf(Without(timers, k), Without(ids, k), id) + (if ids[k] == id then timers[k].left else 0) ==
              LeftOf(timers, ids, id)
  {
    var n := |ids| - 1;
    if k == n {
      assert Without(timers, k) == timers[..n] && Without(ids, k) == ids[..n];
    } else {
      LeftWithout(timers[..n], ids[..n], k, id);
      LeftAppend(Without(timers[..n], k), Without(ids[..n], k), timers[n], ids[n], id);
      WithoutInner(timers, k);
      WithoutInner(ids, k);
    }
  }

  /** The link with one more report scheduled. */
  ghost predicate Grown(l: Link, l': Link, rv: nat, r: seq<GroupRecord>) {
    && l' == Link(l'.host, l.ids + [|l.reports|], l.reports + [r], l.channel, l.lost + [0], l.delivered + [0],
                  l.duplicated + [0])
    && l'.host.timers == l.host.timers + [Timer(r, rv)]
  }

  lemma ShapedGrows(l: Link, l': Link, rv: nat, r: seq<GroupRecord>)
    requires Shaped(l) && Grown(l, l', rv, r)
    ensures Shaped(l')
    ensures multiset(l.channel)[|l.reports|] == 0 && |l.reports| !in l.ids
  {}

  lemma AccountedGrows(l: Link, l': Link, rv: nat, r: seq<GroupRecord>)
    requires Accounted(l, rv) && Grown(l, l', rv, r) && Typed(r) && rv >= 1
    ensures Accounted(l', rv)
  {
    ShapedGrows(l, l', rv, r);
    var n := |l.reports|;
    LeftAbsent(l.host.timers, l.ids, n);
    forall id | 0 <= id < |l'.reports| ensures Balanced(l', rv, id) {
      LeftAppend(l.host.timers, l.ids, Timer(r, rv), n, id);
      assert id < n ==> Balanced(l, rv, id);
    }
  }

  /** One copy moves from pending to in flight. */
  lemma AccountedSends(l: Link, rv: nat, k: nat)
    requires Accounted(l, rv) && k < |l.host.timers|
    ensures Accounted(HostStep(l, rv, Fire(k)), rv)
  {
    HostStepFires(l, rv, k);
    ShapedFires(l, rv, k);
    var l' := HostStep(l, rv, Fire(k));
    forall id | 0 <= id < |l'.reports| ensures Balanced(l', rv, id) {
      SentBalanced(l, l', rv, k, id);
    }
    SentLeft(l, l', k);
  }

  lemma SentBalanced(l: Link, l': Link, rv: nat, k: nat, id: nat)
    requires Shaped(l) && Shaped(l') && id < |l.reports| && Balanced(l, rv, id) && k < |l.ids|
    requires l'.reports == l.reports && l'.lost == l.lost && l'.delivered == l.delivered &&
             l'.duplicated == l.duplicated
    requires l'.channel == l.channel + [l.ids[k]] && l.host.timers[k].left >= 1
    requires var t := l.host.timers[k];
             if t.left > 1 then l'.ids == l.ids && l'.host.timers == l.host.timers[k := t.(left := t.left - 1)]
             else l'.ids == Without(l.ids, k) && l'.host.timers == Without(l.host.timers, k)
    ensures Balanced(l', rv, id)
  {
    var t := l.host.timers[k];
    assert multiset(l'.channel) == multiset(l.channel) + multiset{l.ids[k]};
    if t.left > 1 {
      LeftUpdate(l.host.timers, l.ids, k, t.(left := t.left - 1), id);
    } else {
      LeftWithout(l.host.timers, l.ids, k, id);
    }
  }

  lemma SentLeft(l: Link, l': Link, k: nat)
    requires k < |l.host.timers| && forall j :: 0 <= j < |l.host.timers| ==> l.host.timers[j].left >= 1
    requires var t := l.host.timers[k];
             l'.host.timers ==
               if t.left > 1 then l.host.timers[k := t.(left := t.left - 1)] else Without(l.host.timers, k)
    ensures forall j :: 0 <= j < |l'.host.timers| ==> l'.host.timers[j].left >= 1
  {
    forall j | 0 <= j < |l'.host.timers| ensures l'.host.timers[j].left >= 1 {
      if l.host.timers[k].left <= 1 {
        var j0 := if j < k then j else j + 1;
        assert l'.host.timers[j] == l.host.timers[j0];
      }
    }
  }

  lemma WithoutCount(channel: seq<nat>, k: nat)
    requires k < |channel|
    ensures multiset(channel) == multiset(Without(channel, k)) + multiset{channel[k]}
    ensures forall j :: 0 <= j < |channel| - 1 ==>
              Without(channel, k)[j] == if j < k then channel[j] else channel[j + 1]
  {
    assert channel == channel[..k] + [channel[k]] + channel[k + 1..];
  }

  /** The network moves a copy to the delivered or lost ones, or adds one. */
  lemma AccountedNetwork(l: Link, rv: nat, k: nat)
    requires Accounted(l, rv) && k < |l.channel|
    ensures Accounted(Delivered(l, k), rv) && Accounted(Lost(l, k), rv) && Accounted(Duplicated(l, k), rv)
  {
    ShapedNetwork(l, k);
    forall id | 0 <= id < |l.reports|
      ensures Balanced(Delivered(l, k), rv, id) && Balanced(Lost(l, k), rv, id) && Balanced(Duplicated(l, k), rv, id)
    {
      assert Balanced(l, rv, id);
      NetworkBalanced(l, rv, k, id);
    }
  }

  lemma NetworkBalanced(l: Link, rv: nat, k: nat, id: nat)
    requires Shaped(l) && k < |l.channel| && id < |l.reports| && Balanced(l, rv, id)
    requires Shaped(Delivered(l, k)) && Shaped(Lost(l, k)) && Shaped(Duplicated(l, k))
    ensures Balanced(Delivered(l, k), rv, id) && Balanced(Lost(l, k), rv, id) && Balanced(Duplicated(l, k), rv, id)
  {
    WithoutCount(l.channel, k);
    assert multiset(l.channel + [l.channel[k]]) == multiset(l.channel) + multiset{l.channel[k]};
  }

  lemma AccountedHappens(l: Link, rv: nat, e: Event)
    requires Accounted(l, rv) && Enabled(l.host, e) && rv >= 1
    ensures Accounted(HostStep(l, rv, e), rv)
  {
    if e.Fire? {
      AccountedSends(l, rv, e.k);
    } else {
      HostStepSchedules(l, rv, e);
      var rs := NewReport(l.host, e);
      if rs != [] {
        NewReportTyped(l.host, e);
        assert rs == [rs[0]];
        AccountedGrows(l, HostStep(l, rv, e), rv, rs[0]);
      }
    }
  }

  lemma AccountedNext(s: State, rv: nat, step: Step, c: IPAddress)
    requires c in s.links && Accounted(s.links[c], rv) && rv >= 1 && Possible(s, step)
    ensures c in Next(s, rv, step).links && Accounted(Next(s, rv, step).links[c], rv)
  {
    if step.c == c {
      match step {
        case Happen(_, e) => AccountedHappens(s.links[c], rv, e);
        case Deliver(_, k) => AccountedNetwork(s.links[c], rv, k);
        case Lose(_, k) => AccountedNetwork(s.links[c], rv, k);
        case Duplicate(_, k) => AccountedNetwork(s.links[c], rv, k);
      }
    }
  }

  /**
   Under any loss, duplication and reordering: of every report ever scheduled,
   the copies still to send, in flight, lost and delivered are `rv` and those
   the network added.
   */
  lemma {:induction false} CopiesAccounted(rv: nat, steps: seq<Step>, states: seq<State>, n: nat, c: IPAddress)
    requires RunOf(rv, steps, states) && rv >= 1 && n <= |steps| && c in states[n].links
    ensures Accounted(states[n].links[c], rv)
  {
    if n > 0 {
      assert states[n - 1 + 1] == Next(states[n - 1], rv, steps[n - 1]);
      CopiesAccounted(rv, steps, states, n - 1, c);
      AccountedNext(states[n - 1], rv, steps[n - 1], c);
    }
  }

  // ---------------------------------------------------------------- what the router knows

  /** The router's entry for the group once the report is heard. */
  ghost function EntryAfter(entry: Last, report: seq<GroupRecord>, g: IPAddress): Last {
    if About(report, g) then Told(if report == ToEx(g) then EXCLUDE else INCLUDE) else entry
  }

  /** Report `id` is the newest on the group of which a copy has arrived. */
  ghost predicate IsNewest(l: Link, g: IPAddress, id: int)
    requires Shaped(l)
  {
    && 0 <= id < |l.reports| && About(l.reports[id], g) && l.delivered[id] > 0
    && forall j :: id < j < |l.reports| && About(l.reports[j], g) ==> l.delivered[j] == 0
  }

  /** The router's entry is what the newest report that arrived told. */
  ghost predicate RouterKnows(l: Link, entry: Last, g: IPAddress)
    requires Shaped(l)
  {
    && (forall id :: IsNewest(l, g, id) ==> entry == EntryAfter(Never, l.reports[id], g))
    && ((forall id :: 0 <= id < |l.reports| && About(l.reports[id], g) ==> l.delivered[id] == 0) ==> entry == Never)
  }

  /** Not a delivery of a copy about the host's group after a copy of a newer report. */
  ghost predicate Forward(s: State, step: Step, c: IPAddress, g: IPAddress)
    requires Possible(s, step)
  {
    step.Deliver? && step.c == c ==>
      var l := s.links[c];
      About(l.reports[l.channel[step.k]], g) ==>
        forall id :: l.channel[step.k] < id < |l.reports| && About(l.reports[id], g) ==> l.delivered[id] == 0
  }

  lemma {:induction false} HeardOther(v: View, c: IPAddress, report: seq<GroupRecord>, d: IPAddress, g: IPAddress)
    requires c != d
    ensures Entry(HeardAll(v, Arrivals(c, report)), d, g) == Entry(v, d, g)
  {
    if report != [] {
      var n := |report| - 1;
      assert Arrivals(c, report)[..n] == Arrivals(c, report[..n]);
      HeardOther(v, c, report[..n], d, g);
    }
  }

  /** The entry of one host and group after any step. */
  ghost function EntryNext(s: State, step: Step, c: IPAddress, g: IPAddress): Last
    requires Possible(s, step)
  {
    if step.Deliver? && step.c == c then
      EntryAfter(Entry(s.view, c, g), s.links[c].reports[s.links[c].channel[step.k]], g)
    else Entry(s.view, c, g)
  }

  lemma EntryStep(s: State, rv: nat, step: Step, c: IPAddress, g: IPAddress)
    requires Possible(s, step) && c in s.links && AllTyped(s.links[c])
    ensures Entry(Next(s, rv, step).view, c, g) == EntryNext(s, step, c, g)
  {
    if step.Deliver? {
      var l := s.links[step.c];
      var r := l.reports[l.channel[step.k]];
      if step.c == c {
        HeardEntry(s.view, c, r, c, g);
      } else {
        HeardOther(s.view, step.c, r, c, g);
      }
    }
  }

  /** Reports and deliveries on the group are the same in both. */
  ghost predicate SameNews(l: Link, l': Link, g: IPAddress)
    requires Shaped(l) && Shaped(l')
  {
    && |l.reports| <= |l'.reports|
    && (forall id :: 0 <= id < |l.reports| ==> l'.reports[id] == l.reports[id])
    && (forall id :: 0 <= id < |l.reports| && About(l.reports[id], g) ==> l'.delivered[id] == l.delivered[id])
    && (forall id :: |l.reports| <= id < |l'.reports| ==> l'.delivered[id] == 0)
  }

  lemma KnowsStill(l: Link, l': Link, entry: Last, g: IPAddress)
    requires Shaped(l) && Shaped(l') && SameNews(l, l', g) && RouterKnows(l, entry, g)
    ensures RouterKnows(l', entry, g)
  {
    forall id | IsNewest(l', g, id) ensures entry == EntryAfter(Never, l'.reports[id], g) {
      assert id < |l.reports|;
      forall j | id < j < |l.reports| && About(l.reports[j], g) ensures l.delivered[j] == 0 {
        assert l'.reports[j] == l.reports[j];
      }
      assert IsNewest(l, g, id);
    }
    if forall id :: 0 <= id < |l'.reports| && About(l'.reports[id], g) ==> l'.delivered[id] == 0 {
      forall id | 0 <= id < |l.reports| && About(l.reports[id], g) ensures l.delivered[id] == 0 {
        assert l'.reports[id] == l.reports[id];
      }
    }
  }

  lemma HappensSameNews(l: Link, rv: nat, e: Event, g: IPAddress)
    requires Shaped(l) && Enabled(l.host, e) && Shaped(HostStep(l, rv, e))
    ensures SameNews(l, HostStep(l, rv, e), g)
  {
    if e.Fire? {
      HostStepFires(l, rv, e.k);
    } else {
      HostStepSchedules(l, rv, e);
    }
  }

  lemma DeliveredKnows(l: Link, entry: Last, g: IPAddress, k: nat)
    requires Shaped(l) && RouterKnows(l, entry, g) && k < |l.channel| && Shaped(Delivered(l, k))
    requires About(l.reports[l.channel[k]], g) ==>
               forall id :: l.channel[k] < id < |l.reports| && About(l.reports[id], g) ==> l.delivered[id] == 0
    ensures RouterKnows(Delivered(l, k), EntryAfter(entry, l.reports[l.channel[k]], g), g)
  {
    var l', x := Delivered(l, k), l.channel[k];
    if About(l.reports[x], g) {
      assert l'.delivered[x] > 0;
      assert IsNewest(l', g, x);
      assert forall id :: IsNewest(l', g, id) ==> id == x;
    } else {
      KnowsStill(l, l', entry, g);
    }
  }

  lemma KnowsNext(s: State, rv: nat, step: Step, c: IPAddress, g: IPAddress)
    requires c in s.links && Accounted(s.links[c], rv) && RouterKnows(s.links[c], Entry(s.view, c, g), g)
    requires Possible(s, step) && Forward(s, step, c, g)
    requires c in Next(s, rv, step).links && Accounted(Next(s, rv, step).links[c], rv)
    ensures RouterKnows(Next(s, rv, step).links[c], Entry(Next(s, rv, step).view, c, g), g)
  {
    var l, l', entry := s.links[c], Next(s, rv, step).links[c], Entry(s.view, c, g);
    EntryStep(s, rv, step, c, g);
    if step.c == c {
      match step {
        case Happen(_, e) =>
          HappensSameNews(l, rv, e, g);
          KnowsStill(l, l', entry, g);
        case Deliver(_, k) => DeliveredKnows(l, entry, g, k);
        case Lose(_, k) => KnowsStill(l, l', entry, g);
        case Duplicate(_, k) => KnowsStill(l, l', entry, g);
      }
    }
  }

  ghost predicate ForwardRun(rv: nat, steps: seq<Step>, states: seq<State>, c: IPAddress, g: IPAddress) {
    && RunOf(rv, steps, states)
    && forall i {:trigger steps[i]} :: 0 <= i < |steps| ==> Forward(states[i], steps[i], c, g)
  }

  /**
   However careless hosts are and whatever is lost or duplicated: as long as
   no copy about one host's group arrives after a copy of a newer report on
   it, the router's entry is what the newest report that arrived told.
   */
  lemma {:induction false} NewestTold(rv: nat, steps: seq<Step>, states: seq<State>, n: nat, c: IPAddress, g: IPAddress)
    requires ForwardRun(rv, steps, states, c, g) && rv >= 1 && n <= |steps| && c in states[n].links
    ensures Accounted(states[n].links[c], rv) && RouterKnows(states[n].links[c], Entry(states[n].view, c, g), g)
  {
    CopiesAccounted(rv, steps, states, n, c);
    if n == 0 {
      InitialInv(states[0], rv, c, g);
    } else {
      var s, step := states[n - 1], steps[n - 1];
      assert Possible(s, step) && states[n - 1 + 1] == Next(s, rv, step) && Forward(s, step, c, g);
      NewestTold(rv, steps, states, n - 1, c, g);
      KnowsNext(s, rv, step, c, g);
    }
  }

  // ---------------------------------------------------------------- agreement

  /** Report `id` is the link's latest on group `g`. */
  ghost predicate IsLatest(reports: seq<seq<GroupRecord>>, g: IPAddress, id: int) {
    && 0 <= id < |reports| && About(reports[id], g)
    && forall j :: id < j < |reports| ==> !About(reports[j], g)
  }

  /** The host's mode for a group is the one its latest report tells; without a report it has none. */
  ghost predicate ModesMatch(l: Link, g: IPAddress) {
    && (forall id :: IsLatest(l.reports, g, id) ==> g in l.host.modes && l.reports[id] == ReportFor(g, l.host.modes[g]))
    && (g in l.host.modes ==> exists id :: 0 <= id < |l.reports| && About(l.reports[id], g))
  }

  /** Only the latest report on the group is still being sent. */
  ghost predicate SendsLatest(l: Link, g: IPAddress)
    requires Shaped(l)
  {
    forall k :: 0 <= k < |l.ids| && About(l.reports[l.ids[k]], g) ==> IsLatest(l.reports, g, l.ids[k])
  }

  /** No copy in flight about the group is of an older report than one that has arrived. */
  ghost predicate NoneOvertaken(l: Link, g: IPAddress)
    requires Shaped(l)
  {
    forall i :: 0 <= i < |l.channel| && About(l.reports[l.channel[i]], g) ==> NotOvertaken(l, g, l.channel[i])
  }

  ghost predicate NotOvertaken(l: Link, g: IPAddress, id: nat)
    requires Shaped(l)
  {
    forall j :: id < j < |l.reports| && About(l.reports[j], g) ==> l.delivered[j] == 0
  }

  ghost predicate LinkInv(l: Link, rv: nat, entry: Last, g: IPAddress) {
    Accounted(l, rv) && ModesMatch(l, g) && SendsLatest(l, g) && NoneOvertaken(l, g) && RouterKnows(l, entry, g)
  }

  /** Nothing about the group is pending or in flight. */
  ghost predicate Quiet(l: Link, g: IPAddress)
    requires Shaped(l)
  {
    && (forall k :: 0 <= k < |l.host.timers| ==> !About(l.host.timers[k].report, g))
    && (forall i :: 0 <= i < |l.channel| ==> !About(l.reports[l.channel[i]], g))
  }

  ghost function ModeOf(entry: Last): Mode {
    if entry == Never then INCLUDE else entry.mode
  }

  ghost function HostMode(l: Link, g: IPAddress): Mode {
    if g in l.host.modes then l.host.modes[g] else INCLUDE
  }

  lemma LatestExists(reports: seq<seq<GroupRecord>>, g: IPAddress, id: int) returns (latest: int)
    requires 0 <= id < |reports| && About(reports[id], g)
    ensures IsLatest(reports, g, latest)
    decreases |reports| - id
  {
    if j :| id < j < |reports| && About(reports[j], g) {
      latest := LatestExists(reports, g, j);
    } else {
      latest := id;
    }
  }

  /** Some copy of the latest report on the group, if there is one, has not been lost. */
  ghost predicate GotThrough(l: Link, rv: nat, g: IPAddress)
    requires Shaped(l)
  {
    forall id :: IsLatest(l.reports, g, id) ==> l.lost[id] < rv + l.duplicated[id]
  }

  /** On a quiet group, a report of which some copy was not lost has arrived. */
  lemma QuietArrived(l: Link, rv: nat, g: IPAddress, id: nat)
    requires Accounted(l, rv) && Quiet(l, g) && id < |l.reports| && About(l.reports[id], g)
    ensures l.lost[id] < rv + l.duplicated[id] <==> l.delivered[id] > 0
  {
    assert forall k :: 0 <= k < |l.ids| ==> l.host.timers[k].report == l.reports[l.ids[k]];
    assert id !in l.ids && id !in l.channel;
    LeftAbsent(l.host.timers, l.ids, id);
    assert multiset(l.channel)[id] == 0;
    assert Balanced(l, rv, id);
  }

  /** On a quiet group whose latest report got through, host and router agree. */
  lemma QuietAgrees(l: Link, rv: nat, entry: Last, g: IPAddress)
    requires Accounted(l, rv) && ModesMatch(l, g) && RouterKnows(l, entry, g)
    requires Quiet(l, g) && GotThrough(l, rv, g)
    ensures ModeOf(entry) == HostMode(l, g)
  {
    if id :| 0 <= id < |l.reports| && About(l.reports[id], g) {
      var latest := LatestExists(l.reports, g, id);
      QuietArrived(l, rv, g, latest);
      assert IsNewest(l, g, latest);
    }
  }

  lemma LatestAppended(reports: seq<seq<GroupRecord>>, r: seq<GroupRecord>, g: IPAddress, id: int)
    ensures IsLatest(reports + [r], g, id) <==> if About(r, g) then id == |reports| else IsLatest(reports, g, id)
  {
    var s := reports + [r];
    assert s[|reports|] == r;
    assert forall j :: 0 <= j < |reports| ==> s[j] == reports[j];
  }

  lemma ModesMatchGrows(l: Link, l': Link, rv: nat, r: seq<GroupRecord>, g: IPAddress)
    requires ModesMatch(l, g) && Grown(l, l', rv, r)
    requires if About(r, g) then g in l'.host.modes && r == ReportFor(g, l'.host.modes[g])
             else
               && (g in l'.host.modes <==> g in l.host.modes)
               && (g in l.host.modes ==> l'.host.modes[g] == l.host.modes[g])
    ensures ModesMatch(l', g)
  {
    forall id | IsLatest(l'.reports, g, id)
      ensures g in l'.host.modes && l'.reports[id] == ReportFor(g, l'.host.modes[g])
    {
      LatestAppended(l.reports, r, g, id);
    }
    if g in l'.host.modes {
      if About(r, g) {
        assert About(l'.reports[|l.reports|], g);
      } else {
        var id :| 0 <= id < |l.reports| && About(l.reports[id], g);
        assert About(l'.reports[id], g);
      }
    }
  }

  lemma SendsLatestGrows(l: Link, l': Link, rv: nat, r: seq<GroupRecord>, g: IPAddress)
    requires Shaped(l) && SendsLatest(l, g) && Grown(l, l', rv, r) && Shaped(l')
    requires About(r, g) ==> forall k :: 0 <= k < |l.host.timers| ==> !About(l.host.timers[k].report, g)
    ensures SendsLatest(l', g)
  {
    forall k | 0 <= k < |l'.ids| && About(l'.reports[l'.ids[k]], g) ensures IsLatest(l'.reports, g, l'.ids[k]) {
      LatestAppended(l.reports, r, g, l'.ids[k]);
      if k < |l.ids| {
        assert l'.ids[k] == l.ids[k] && l'.reports[l.ids[k]] == l.reports[l.ids[k]];
        assert l.host.timers[k].report == l.reports[l.ids[k]];
      }
    }
  }

  lemma NoneOvertakenGrows(l: Link, l': Link, rv: nat, r: seq<GroupRecord>, g: IPAddress)
    requires Shaped(l) && NoneOvertaken(l, g) && Grown(l, l', rv, r) && Shaped(l')
    ensures NoneOvertaken(l', g)
  {
    forall i | 0 <= i < |l'.channel| && About(l'.reports[l'.channel[i]], g) ensures NotOvertaken(l', g, l'.channel[i]) {
      assert l'.reports[l.channel[i]] == l.reports[l.channel[i]];
      assert NotOvertaken(l, g, l.channel[i]);
    }
  }

  lemma AboutOne(r: seq<GroupRecord>, g: IPAddress, g': IPAddress)
    requires About(r, g) && About(r, g')
    ensures g == g'
  {
    assert r[0].group == g;
  }

  /** A scheduled state-change report tells the mode the handler sets; other groups keep theirs. */
  lemma ScheduledModes(h: Host, e: Event, g: IPAddress, modes: map<IPAddress, Mode>)
    requires Enabled(h, e) && !e.Fire? && NewReport(h, e) != []
    requires modes == match e
                      case Exclude(g) => h.modes[g := EXCLUDE]
                      case Include(g) => h.modes[g := INCLUDE]
                      case _ => h.modes
    ensures var r := NewReport(h, e)[0];
            if About(r, g) then g in modes && r == ReportFor(g, modes[g])
            else (g in modes <==> g in h.modes) && (g in h.modes ==> modes[g] == h.modes[g])
  {
    var r := NewReport(h, e)[0];
    match e {
      case Exclude(g') =>
        assert About(r, g');
        if About(r, g) {
          AboutOne(r, g, g');
        }
      case Include(g') =>
        assert About(r, g');
        if About(r, g) {
          AboutOne(r, g, g');
        }
      case Respond(report) =>
        assert ToEx(g)[0].rtype == TO_EX && ToIn(g)[0].rtype == TO_IN;
        assert report == r;
    }
  }

  /** The event schedules a report on the group while one is still being sent. */
  ghost predicate Hasty(h: Host, e: Event, g: IPAddress) {
    && NewReport(h, e) != [] && About(NewReport(h, e)[0], g)
    && exists k :: 0 <= k < |h.timers| && About(h.timers[k].report, g)
  }

  lemma ScheduleKeeps(l: Link, rv: nat, g: IPAddress, e: Event)
    requires Shaped(l) && ModesMatch(l, g) && SendsLatest(l, g) && NoneOvertaken(l, g)
    requires Enabled(l.host, e) && !e.Fire? && !Hasty(l.host, e, g) && Shaped(HostStep(l, rv, e))
    ensures var l' := HostStep(l, rv, e); ModesMatch(l', g) && SendsLatest(l', g) && NoneOvertaken(l', g)
  {
    HostStepSchedules(l, rv, e);
    var rs, l' := NewReport(l.host, e), HostStep(l, rv, e);
    if rs != [] {
      var r := rs[0];
      assert rs == [r];
      ScheduledModes(l.host, e, g, l'.host.modes);
      ModesMatchGrows(l, l', rv, r, g);
      SendsLatestGrows(l, l', rv, r, g);
      NoneOvertakenGrows(l, l', rv, r, g);
    }
  }

  lemma FireKeeps(l: Link, rv: nat, g: IPAddress, k: nat)
    requires Shaped(l) && ModesMatch(l, g) && SendsLatest(l, g) && NoneOvertaken(l, g)
    requires k < |l.host.timers| && Shaped(HostStep(l, rv, Fire(k)))
    ensures var l' := HostStep(l, rv, Fire(k)); ModesMatch(l', g) && SendsLatest(l', g) && NoneOvertaken(l', g)
  {
    HostStepFires(l, rv, k);
    FiredIds(l, HostStep(l, rv, Fire(k)), k, g);
    FiredChannel(l, HostStep(l, rv, Fire(k)), k, g);
  }

  lemma FiredIds(l: Link, l': Link, k: nat, g: IPAddress)
    requires Shaped(l) && SendsLatest(l, g) && k < |l.ids|
    requires Shaped(l') && l'.reports == l.reports && (l'.ids == l.ids || l'.ids == Without(l.ids, k))
    ensures SendsLatest(l', g)
  {
    forall j | 0 <= j < |l'.ids| && About(l'.reports[l'.ids[j]], g) ensures IsLatest(l'.reports, g, l'.ids[j]) {
      var j0 := if l'.ids == l.ids || j < k then j else j + 1;
      assert l'.ids[j] == l.ids[j0];
    }
  }

  lemma FiredChannel(l: Link, l': Link, k: nat, g: IPAddress)
    requires Shaped(l) && SendsLatest(l, g) && NoneOvertaken(l, g) && k < |l.ids|
    requires Shaped(l') && l'.reports == l.reports && l'.delivered == l.delivered &&
             l'.channel == l.channel + [l.ids[k]]
    ensures NoneOvertaken(l', g)
  {
    forall i | 0 <= i < |l'.channel| && About(l'.reports[l'.channel[i]], g) ensures NotOvertaken(l', g, l'.channel[i]) {
      if i < |l.channel| {
        assert l'.channel[i] == l.channel[i] && NotOvertaken(l, g, l.channel[i]);
      } else {
        assert IsLatest(l.reports, g, l.ids[k]);
      }
    }
  }

  /** Taking a copy off the channel, or adding one of it, puts nothing older there. */
  lemma ChannelKeeps(l: Link, l': Link, g: IPAddress)
    requires Shaped(l) && Shaped(l') && NoneOvertaken(l, g) && l'.reports == l.reports && l'.delivered == l.delivered
    requires forall i :: 0 <= i < |l'.channel| ==> l'.channel[i] in l.channel
    ensures NoneOvertaken(l', g)
  {
    forall i | 0 <= i < |l'.channel| && About(l'.reports[l'.channel[i]], g) ensures NotOvertaken(l', g, l'.channel[i]) {
      var j :| 0 <= j < |l.channel| && l.channel[j] == l'.channel[i];
      assert NotOvertaken(l, g, l.channel[j]);
    }
  }

  /** Copy `k` is of the oldest report on the group that is in flight. */
  ghost predicate Oldest(l: Link, g: IPAddress, k: nat)
    requires Shaped(l) && k < |l.channel|
  {
    forall i :: 0 <= i < |l.channel| && About(l.reports[l.channel[i]], g) ==> l.channel[k] <= l.channel[i]
  }

  lemma DeliverKeeps(l: Link, g: IPAddress, k: nat)
    requires Shaped(l) && NoneOvertaken(l, g) && k < |l.channel| && Shaped(Delivered(l, k))
    requires About(l.reports[l.channel[k]], g) ==> Oldest(l, g, k)
    ensures NoneOvertaken(Delivered(l, k), g)
  {
    var l', x := Delivered(l, k), l.channel[k];
    WithoutCount(l.channel, k);
    forall i | 0 <= i < |l'.channel| && About(l'.reports[l'.channel[i]], g) ensures NotOvertaken(l', g, l'.channel[i]) {
      var i0 := if i < k then i else i + 1;
      assert l'.channel[i] == l.channel[i0] && NotOvertaken(l, g, l.channel[i0]);
    }
  }

  /** In such runs host and router agree exactly if the newest report that arrived told the host's mode. */
  lemma AgreesIff(rv: nat, steps: seq<Step>, states: seq<State>, n: nat, c: IPAddress, g: IPAddress, id: int)
    requires ForwardRun(rv, steps, states, c, g) && rv >= 1 && n <= |steps| && c in states[n].links
    requires Shaped(states[n].links[c]) && IsNewest(states[n].links[c], g, id)
    ensures var l := states[n].links[c];
            ModeOf(Entry(states[n].view, c, g)) == HostMode(l, g) <==> l.reports[id] == ReportFor(g, HostMode(l, g))
  {
    NewestTold(rv, steps, states, n, c, g);
    assert ToEx(g)[0].rtype != ToIn(g)[0].rtype;
  }

  // ---------------------------------------------------------------- agreement in every run careful about one group

  /**
   What agreement on one host's group needs of that host and its link: the
   host schedules a report on the group only when none is still being sent,
   and of the copies about the group in flight one of the oldest report
   arrives first.  Nothing is asked of losses and duplicates, of other groups
   or of other hosts.
   */
  ghost predicate Careful(s: State, step: Step, c: IPAddress, g: IPAddress)
    requires Possible(s, step)
  {
    step.c == c ==>
      var l := s.links[c];
      match step
      case Happen(_, e) => !Hasty(l.host, e, g)
      case Deliver(_, k) => About(l.reports[l.channel[k]], g) ==> Oldest(l, g, k)
      case _ => true
  }

  ghost predicate Invariant(s: State, rv: nat, c: IPAddress, g: IPAddress) {
    c in s.links && LinkInv(s.links[c], rv, Entry(s.view, c, g), g)
  }

  lemma InitialInv(s: State, rv: nat, c: IPAddress, g: IPAddress)
    requires Initial(s) && c in s.links
    ensures Invariant(s, rv, c, g)
  {
    assert s.links[c] == FRESH && Entry(s.view, c, g) == Never;
    FreshInv(s.links[c], rv, g);
  }

  ghost predicate Unused(l: Link, g: IPAddress) {
    && l.ids == [] && l.reports == [] && l.channel == [] && l.lost == [] && l.delivered == [] && l.duplicated == []
    && l.host.timers == [] && g !in l.host.modes
  }

  lemma FreshInv(l: Link, rv: nat, g: IPAddress)
    requires Unused(l, g)
    ensures LinkInv(l, rv, Never, g)
  {}

  /** Delivering the oldest first, no copy arrives after a copy of a newer report. */
  lemma CarefulForward(s: State, rv: nat, step: Step, c: IPAddress, g: IPAddress)
    requires Invariant(s, rv, c, g) && Possible(s, step) && Careful(s, step, c, g)
    ensures Forward(s, step, c, g)
  {
    if step.Deliver? && step.c == c && About(s.links[c].reports[s.links[c].channel[step.k]], g) {
      assert NotOvertaken(s.links[c], g, s.links[c].channel[step.k]);
    }
  }

  lemma InvariantNext(s: State, rv: nat, step: Step, c: IPAddress, g: IPAddress)
    requires Invariant(s, rv, c, g) && rv >= 1 && Possible(s, step) && Careful(s, step, c, g)
    ensures Invariant(Next(s, rv, step), rv, c, g)
  {
    CarefulForward(s, rv, step, c, g);
    AccountedNext(s, rv, step, c);
    KnowsNext(s, rv, step, c, g);
    if step.c == c {
      LinkKeeps(s.links[c], Next(s, rv, step).links[c], rv, step, g);
    }
  }

  lemma LinkKeeps(l: Link, l': Link, rv: nat, step: Step, g: IPAddress)
    requires Shaped(l) && ModesMatch(l, g) && SendsLatest(l, g) && NoneOvertaken(l, g) && Shaped(l')
    requires match step
             case Happen(_, e) => Enabled(l.host, e) && !Hasty(l.host, e, g) && l' == HostStep(l, rv, e)
             case Deliver(_, k) =>
               k < |l.channel| && (About(l.reports[l.channel[k]], g) ==> Oldest(l, g, k)) && l' == Delivered(l, k)
             case Lose(_, k) => k < |l.channel| && l' == Lost(l, k)
             case Duplicate(_, k) => k < |l.channel| && l' == Duplicated(l, k)
    ensures ModesMatch(l', g) && SendsLatest(l', g) && NoneOvertaken(l', g)
  {
    match step {
      case Happen(_, e) =>
        if e.Fire? {
          FireKeeps(l, rv, g, e.k);
        } else {
          ScheduleKeeps(l, rv, g, e);
        }
      case Deliver(_, k) => DeliverKeeps(l, g, k);
      case Lose(_, k) =>
        WithoutCount(l.channel, k);
        ChannelKeeps(l, l', g);
      case Duplicate(_, k) => ChannelKeeps(l, l', g);
    }
  }

  ghost predicate CarefulRun(rv: nat, steps: seq<Step>, states: seq<State>, c: IPAddress, g: IPAddress) {
    && RunOf(rv, steps, states)
    && forall i {:trigger steps[i]} :: 0 <= i < |steps| ==> Careful(states[i], steps[i], c, g)
  }

  lemma {:induction false} InvariantAlways(rv: nat, steps: seq<Step>, states: seq<State>, n: nat, c: IPAddress,
                                           g: IPAddress)
    requires CarefulRun(rv, steps, states, c, g) && rv >= 1 && n <= |steps| && c in states[n].links
    ensures Invariant(states[n], rv, c, g)
  {
    if n == 0 {
      InitialInv(states[0], rv, c, g);
    } else {
      var s, step := states[n - 1], steps[n - 1];
      assert Possible(s, step) && states[n - 1 + 1] == Next(s, rv, step) && Careful(s, step, c, g);
      InvariantAlways(rv, steps, states, n - 1, c, g);
      InvariantNext(s, rv, step, c, g);
    }
  }

  /**
   In every run that is careful about one host's group: whenever nothing about
   the group is pending or in flight on the host's link, and not all copies of
   the latest report on it were lost, the router's mode for it equals the
   host's; no entry counts as INCLUDE on either side.
   */
  lemma Agreement(rv: nat, steps: seq<Step>, states: seq<State>, n: nat, c: IPAddress, g: IPAddress)
    requires CarefulRun(rv, steps, states, c, g) && rv >= 1 && n <= |steps| && c in states[n].links
    ensures Shaped(states[n].links[c])
    ensures Quiet(states[n].links[c], g) && GotThrough(states[n].links[c], rv, g) ==>
              ModeOf(Entry(states[n].view, c, g)) == HostMode(states[n].links[c], g)
  {
    InvariantAlways(rv, steps, states, n, c, g);
    var l := states[n].links[c];
    if Quiet(l, g) && GotThrough(l, rv, g) {
      QuietAgrees(l, rv, Entry(states[n].view, c, g), g);
    }
  }

  /** Hosts neither come nor go. */
  lemma {:induction false} SameHosts(rv: nat, steps: seq<Step>, states: seq<State>, n: nat)
    requires RunOf(rv, steps, states) && n <= |steps|
    ensures states[n].links.Keys == states[0].links.Keys
  {
    if n > 0 {
      SameHosts(rv, steps, states, n - 1);
      assert states[n - 1 + 1] == Next(states[n - 1], rv, steps[n - 1]);
    }
  }

  /** Only hosts have EXCLUDE entries. */
  lemma EntryHasHost(rv: nat, steps: seq<Step>, states: seq<State>, n: nat, c: IPAddress, g: IPAddress)
    requires RunOf(rv, steps, states) && n <= |steps| && Entry(states[n].view, c, g) == Told(EXCLUDE)
    ensures c in states[n].links
  {
    ExcludeWasAsked(rv, steps, states, n);
    AskedIsHistory(rv, steps, states, n, c, g);
    var i :| 0 <= i < n && steps[i] == Happen(c, Exclude(g));
    SameHosts(rv, steps, states, i);
    SameHosts(rv, steps, states, n);
  }

  /** Every host's link is quiet on the group, and its latest report on it got through. */
  ghost predicate AllQuiet(s: State, rv: nat, g: IPAddress) {
    forall c :: c in s.links ==> Shaped(s.links[c]) && Quiet(s.links[c], g) && GotThrough(s.links[c], rv, g)
  }

  /**
   In every run in which all hosts are careful about one group: whenever
   nothing about the group is pending or in flight anywhere and every host's
   latest report on it got through, the group's packets go to a subnet exactly
   if a host in it has the group in EXCLUDE.
   */
  lemma ForwardingAgrees(rv: nat, steps: seq<Step>, states: seq<State>, n: nat, g: IPAddress, net: IPAddress,
                         mask: IPAddress)
    requires rv >= 1 && RunOf(rv, steps, states) && n <= |steps| && AllQuiet(states[n], rv, g)
    requires forall c :: c in states[n].links ==> CarefulRun(rv, steps, states, c, g)
    ensures Wanted(states[n].view, g, net, mask) <==>
              exists c :: c in states[n].links && MatchesPrefix(c, net, mask) &&
                HostMode(states[n].links[c], g) == EXCLUDE
  {
    var s := states[n];
    forall c | c in s.links ensures ModeOf(Entry(s.view, c, g)) == HostMode(s.links[c], g) {
      Agreement(rv, steps, states, n, c, g);
    }
    forall c | Entry(s.view, c, g) == Told(EXCLUDE) ensures c in s.links {
      EntryHasHost(rv, steps, states, n, c, g);
    }
  }
}
