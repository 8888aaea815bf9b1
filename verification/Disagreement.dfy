/**
 Where host and router disagree (elements/IGMPClient.cc,
 elements/IGMPRouter.cc).  On a link with nothing pending about a group, a
 disagreement lasts until the host changes the group's mode; a mode changed
 too soon and a report lost altogether both lead there.
 */
module Disagreement {
  import opened Collections
  import opened Reports
  import opened ClientDB
  import opened Client
  import opened Router
  import opened Protocol

  ghost predicate Goes(s: State, rv: nat, step: Step, s': State) {
    Possible(s, step) && s' == Next(s, rv, step)
  }

  /** The steps lead from one state to the other, through the states listed. */
  ghost predicate Leads(rv: nat, s: State, steps: seq<Step>, through: seq<State>, s': State) {
    && |through| == |steps| + 1 && through[0] == s && through[|steps|] == s'
    && forall i {:trigger GoesAt(rv, steps, through, i)} :: 0 <= i < |steps| ==> GoesAt(rv, steps, through, i)
  }

  ghost predicate GoesAt(rv: nat, steps: seq<Step>, through: seq<State>, i: int)
    requires 0 <= i < |steps| && |through| == |steps| + 1
  {
    Goes(through[i], rv, steps[i], through[i + 1])
  }

  lemma LeadsOn(rv: nat, s: State, steps: seq<Step>, through: seq<State>, s': State, more: seq<Step>,
                through': seq<State>, s'': State)
    requires Leads(rv, s, steps, through, s') && Leads(rv, s', more, through', s'')
    ensures Leads(rv, s, steps + more, through + through'[1..], s'')
  {
    var all, states := steps + more, through + through'[1..];
    var n := |steps|;
    JoinedAt(through, through', |more|);
    forall i | 0 <= i < |all|
      ensures GoesAt(rv, all, states, i)
    {
      if i < n {
        assert GoesAt(rv, steps, through, i);
        GoesBefore(rv, steps, through, more, through', i);
      } else {
        assert GoesAt(rv, more, through', i - n);
        GoesAfter(rv, steps, through, more, through', i - n);
      }
    }
  }

  lemma GoesBefore(rv: nat, steps: seq<Step>, through: seq<State>, more: seq<Step>, through': seq<State>, i: nat)
    requires |through| == |steps| + 1 && |through'| == |more| + 1
    requires i < |steps| && GoesAt(rv, steps, through, i)
    ensures GoesAt(rv, steps + more, through + through'[1..], i)
  {
    GoesSame(rv, steps, through, i, steps + more, through + through'[1..], i);
  }

  lemma GoesAfter(rv: nat, steps: seq<Step>, through: seq<State>, more: seq<Step>, through': seq<State>, i: nat)
    requires |through| == |steps| + 1 && |through'| == |more| + 1 && through[|steps|] == through'[0]
    requires i < |more| && GoesAt(rv, more, through', i)
    ensures GoesAt(rv, steps + more, through + through'[1..], |steps| + i)
  {
    JoinedAt(through, through', i);
    JoinedAt(through, through', i + 1);
    GoesSame(rv, more, through', i, steps + more, through + through'[1..], |steps| + i);
  }

  lemma GoesSame(rv: nat, steps: seq<Step>, through: seq<State>, i: nat, steps': seq<Step>, through': seq<State>,
                 j: nat)
    requires |through| == |steps| + 1 && |through'| == |steps'| + 1 && i < |steps| && j < |steps'|
    requires steps'[j] == steps[i] && through'[j] == through[i] && through'[j + 1] == through[i + 1]
    requires GoesAt(rv, steps, through, i)
    ensures GoesAt(rv, steps', through', j)
  {}

  /** Only firings and in-order deliveries: the best network there is. */
  ghost predicate Gentle(steps: seq<Step>) {
    forall i :: 0 <= i < |steps| ==> (steps[i].Happen? && steps[i].e.Fire?) || (steps[i].Deliver? && steps[i].k == 0)
  }

  lemma GentleOn(steps: seq<Step>, more: seq<Step>)
    requires Gentle(steps) && Gentle(more)
    ensures Gentle(steps + more)
  {}

  lemma LeadsOne(rv: nat, s: State, step: Step, t: State)
    requires Goes(s, rv, step, t)
    ensures Leads(rv, s, [step], [s, t], t)
  {
    forall i | 0 <= i < |[step]|
      ensures GoesAt(rv, [step], [s, t], i)
    {
      assert i == 0;
    }
  }

  /** One step before others. */
  lemma LeadsCons(rv: nat, s: State, step: Step, t: State, rest: seq<Step>, through: seq<State>, s': State)
    requires Goes(s, rv, step, t) && Leads(rv, t, rest, through, s')
    ensures Leads(rv, s, [step] + rest, [s] + through, s')
    ensures Gentle([step]) && Gentle(rest) ==> Gentle([step] + rest)
  {
    LeadsOne(rv, s, step, t);
    LeadsOn(rv, s, [step], [s, t], t, rest, through, s');
    BeforeAll(s, t, through);
    GentleCons(step, rest);
  }

  lemma BeforeAll(s: State, t: State, through: seq<State>)
    requires through != [] && through[0] == t
    ensures [s, t] + through[1..] == [s] + through
  {}

  lemma GentleCons(step: Step, rest: seq<Step>)
    ensures Gentle([step]) && Gentle(rest) ==> Gentle([step] + rest)
  {
    if Gentle([step]) && Gentle(rest) {
      GentleOn([step], rest);
    }
  }

  /** A timer fires until it has no copies left. */
  lemma {:induction false} FireOut(s: State, rv: nat, c: IPAddress, k: nat)
    returns (steps: seq<Step>, through: seq<State>, s': State)
    requires c in s.links && Shaped(s.links[c]) && k < |s.links[c].host.timers|
    ensures Leads(rv, s, steps, through, s') && Gentle(steps)
    ensures FiredOut(s, c, k, s')
    decreases s.links[c].host.timers[k].left
  {
    var step := Happen(c, Fire(k));
    var t := FireOne(s, rv, c, k);
    if s.links[c].host.timers[k].left > 1 {
      var rest, states;
      rest, states, s' := FireOut(t, rv, c, k);
      LeadsCons(rv, s, step, t, rest, states, s');
      steps, through := [step] + rest, [s] + states;
      assert Without(t.links[c].host.timers, k) == Without(s.links[c].host.timers, k);
    } else {
      s' := t;
      assert Leads(rv, t, [], [t], t);
      LeadsCons(rv, s, step, t, [], [t], t);
      steps, through := [step] + [], [s] + [t];
    }
  }

  ghost predicate FiredOut(s: State, c: IPAddress, k: nat, s': State)
    requires c in s.links && Shaped(s.links[c]) && k < |s.links[c].host.timers|
  {
    && c in s'.links && s'.view == s.view && Shaped(s'.links[c])
    && var l, l' := s.links[c], s'.links[c];
       && l'.host.modes == l.host.modes && l'.reports == l.reports
       && l'.ids == Without(l.ids, k) && l'.host.timers == Without(l.host.timers, k)
       && l'.channel != [] && l'.channel[|l'.channel| - 1] == l.ids[k]
  }

  /** One firing. */
  lemma FireOne(s: State, rv: nat, c: IPAddress, k: nat) returns (t: State)
    requires c in s.links && Shaped(s.links[c]) && k < |s.links[c].host.timers|
    ensures Goes(s, rv, Happen(c, Fire(k)), t) && Gentle([Happen(c, Fire(k))])
    ensures c in t.links && t.view == s.view && Shaped(t.links[c])
    ensures var l, l' := s.links[c], t.links[c];
            && l'.host.modes == l.host.modes && l'.reports == l.reports
            && l'.channel != [] && l'.channel[|l'.channel| - 1] == l.ids[k]
            && if l.host.timers[k].left > 1 then
                 && l'.ids == l.ids
                 && l'.host.timers == l.host.timers[k := l.host.timers[k].(left := l.host.timers[k].left - 1)]
               else l'.ids == Without(l.ids, k) && l'.host.timers == Without(l.host.timers, k)
  {
    var l := s.links[c];
    HostStepFires(l, rv, k);
    ShapedFires(l, rv, k);
    t := Next(s, rv, Happen(c, Fire(k)));
  }

  /** One in-order delivery. */
  lemma DeliverOne(s: State, rv: nat, c: IPAddress, g: IPAddress) returns (t: State)
    requires c in s.links && Shaped(s.links[c]) && s.links[c].channel != [] && AllTyped(s.links[c])
    ensures Goes(s, rv, Deliver(c, 0), t) && Gentle([Deliver(c, 0)])
    ensures c in t.links && Shaped(t.links[c])
    ensures var l, l' := s.links[c], t.links[c];
            && l'.host == l.host && l'.reports == l.reports && l'.channel == l.channel[1..]
            && Entry(t.view, c, g) == EntryAfter(Entry(s.view, c, g), l.reports[l.channel[0]], g)
  {
    var l := s.links[c];
    ShapedNetwork(l, 0);
    HeardEntry(s.view, c, l.reports[l.channel[0]], c, g);
    assert Without(l.channel, 0) == l.channel[1..];
    t := Next(s, rv, Deliver(c, 0));
  }

  /** After everything in flight has arrived, the router knows what the last report told. */
  ghost predicate DeliveredOut(s: State, c: IPAddress, g: IPAddress, s': State)
    requires c in s.links && Shaped(s.links[c])
  {
    var l := s.links[c];
    && c in s'.links && Shaped(s'.links[c]) && s'.links[c].host == l.host && s'.links[c].channel == []
    && s'.links[c].reports == l.reports
    && if l.channel == [] then Entry(s'.view, c, g) == Entry(s.view, c, g) else
         var r := l.reports[l.channel[|l.channel| - 1]];
         About(r, g) ==> Entry(s'.view, c, g) == EntryAfter(Never, r, g)
  }

  lemma {:induction false} DeliverOut(s: State, rv: nat, c: IPAddress, g: IPAddress)
    returns (steps: seq<Step>, through: seq<State>, s': State)
    requires c in s.links && Shaped(s.links[c]) && AllTyped(s.links[c])
    ensures Leads(rv, s, steps, through, s') && Gentle(steps)
    ensures DeliveredOut(s, c, g, s')
    decreases |s.links[c].channel|
  {
    if s.links[c].channel == [] {
      steps, through, s' := [], [s], s;
    } else {
      var t := DeliverOne(s, rv, c, g);
      var rest, states;
      rest, states, s' := DeliverOut(t, rv, c, g);
      LeadsCons(rv, s, Deliver(c, 0), t, rest, states, s');
      steps, through := [Deliver(c, 0)] + rest, [s] + states;
      DeliveredBoth(s, c, g, t, s');
    }
  }

  lemma DeliveredBoth(s: State, c: IPAddress, g: IPAddress, t: State, s': State)
    requires c in s.links && Shaped(s.links[c]) && s.links[c].channel != []
    requires c in t.links && Shaped(t.links[c]) && DeliveredOut(t, c, g, s')
    requires var l, l' := s.links[c], t.links[c];
             && l'.host == l.host && l'.reports == l.reports && l'.channel == l.channel[1..]
             && Entry(t.view, c, g) == EntryAfter(Entry(s.view, c, g), l.reports[l.channel[0]], g)
    ensures DeliveredOut(s, c, g, s')
  {}

  /** Only one timer is sending a group's reports. */
  lemma OneTimer(l: Link, rv: nat, entry: Last, g: IPAddress, k: nat, j: nat)
    requires LinkInv(l, rv, entry, g) && k < |l.ids| && j < |l.ids| && k != j
    requires About(l.host.timers[k].report, g)
    ensures !About(l.host.timers[j].report, g)
  {
    assert l.host.timers[k].report == l.reports[l.ids[k]] && l.host.timers[j].report == l.reports[l.ids[j]];
    assert IsLatest(l.reports, g, l.ids[k]);
    assert l.ids[j] != l.ids[k];
  }

  /** The report being sent tells the mode the host is in, and a handler call that schedules one changes it. */
  lemma CallFlips(l: Link, rv: nat, entry: Last, g: IPAddress, k: nat, e: Event)
    requires LinkInv(l, rv, entry, g) && k < |l.ids| && About(l.host.timers[k].report, g)
    requires (e == Exclude(g) || e == Include(g)) && NewReport(l.host, e) != []
    ensures g in l.host.modes && l.reports[l.ids[k]] == ReportFor(g, l.host.modes[g])
    ensures l.host.modes[g] == if e.Exclude? then INCLUDE else EXCLUDE
  {
    assert l.host.timers[k].report == l.reports[l.ids[k]];
    assert IsLatest(l.reports, g, l.ids[k]);
  }

  // ---------------------------------------------------------------- what stays

  /** Nothing about the group is pending or in flight, and the link is an ordinary one. */
  ghost predicate Settled(s: State, c: IPAddress, g: IPAddress) {
    c in s.links && Shaped(s.links[c]) && AllTyped(s.links[c]) && Quiet(s.links[c], g)
  }

  /** The host itself changes the group's mode. */
  ghost predicate Changes(s: State, step: Step, c: IPAddress, g: IPAddress) {
    && step.Happen? && step.c == c && c in s.links
    && (step.e == Exclude(g) || step.e == Include(g)) && NewReport(s.links[c].host, step.e) != []
  }

  /** Still settled, with the same mode at the host and the same entry at the router. */
  ghost predicate StaysPut(s: State, s': State, c: IPAddress, g: IPAddress) {
    && c in s.links && Settled(s', c, g)
    && Entry(s'.view, c, g) == Entry(s.view, c, g) && HostMode(s'.links[c], g) == HostMode(s.links[c], g)
  }

  /** The report an event schedules is about the group only if the host changes its mode. */
  lemma OtherReport(h: Host, e: Event, g: IPAddress)
    requires Enabled(h, e) && NewReport(h, e) != [] && e != Exclude(g) && e != Include(g)
    ensures !About(NewReport(h, e)[0], g)
  {
    var r := NewReport(h, e)[0];
    assert ToEx(g)[0] == GroupRecord(TO_EX, g, []) && ToIn(g)[0] == GroupRecord(TO_IN, g, []);
    match e {
      case Exclude(g') => assert r[0].group == g';
      case Include(g') => assert r[0].group == g';
      case Respond(report) => assert report == r;
    }
  }

  lemma QuietHappens(l: Link, rv: nat, g: IPAddress, e: Event)
    requires Shaped(l) && AllTyped(l) && Quiet(l, g) && Enabled(l.host, e)
    requires (e == Exclude(g) || e == Include(g)) ==> NewReport(l.host, e) == []
    ensures var l' := HostStep(l, rv, e);
            Shaped(l') && AllTyped(l') && Quiet(l', g) && HostMode(l', g) == HostMode(l, g)
  {
    if e.Fire? {
      ShapedFires(l, rv, e.k);
      HostStepFires(l, rv, e.k);
      QuietFires(l, HostStep(l, rv, e), e.k, g);
    } else {
      ShapedSchedules(l, rv, e);
      HostStepSchedules(l, rv, e);
      NewReportTyped(l.host, e);
      if NewReport(l.host, e) != [] {
        OtherReport(l.host, e, g);
      }
    }
  }

  lemma QuietFires(l: Link, l': Link, k: nat, g: IPAddress)
    requires Shaped(l) && Quiet(l, g) && k < |l.ids| && Shaped(l')
    requires l'.reports == l.reports && l'.channel == l.channel + [l.ids[k]]
    requires var t := l.host.timers[k];
             || l'.host.timers == Without(l.host.timers, k)
             || (t.left > 1 && l'.host.timers == l.host.timers[k := t.(left := t.left - 1)])
    ensures Quiet(l', g)
  {
    assert l.host.timers[k].report == l.reports[l.ids[k]];
  }

  lemma QuietNetwork(l: Link, k: nat, g: IPAddress)
    requires Shaped(l) && Quiet(l, g) && k < |l.channel|
    ensures Shaped(Delivered(l, k)) && Shaped(Lost(l, k)) && Shaped(Duplicated(l, k))
    ensures Quiet(Delivered(l, k), g) && Quiet(Lost(l, k), g) && Quiet(Duplicated(l, k), g)
  {
    ShapedNetwork(l, k);
  }

  /**
   On a settled link nothing but the host's own change of mode matters: no
   query, firing, delivery, loss or duplicate, here or on another link.
   */
  lemma SettledStep(s: State, rv: nat, step: Step, c: IPAddress, g: IPAddress)
    requires Settled(s, c, g) && Possible(s, step) && !Changes(s, step, c, g)
    ensures StaysPut(s, Next(s, rv, step), c, g)
  {
    var l := s.links[c];
    if step.Deliver? && step.c != c {
      var from := s.links[step.c];
      HeardOther(s.view, step.c, from.reports[from.channel[step.k]], c, g);
    }
    if step.c == c {
      match step {
        case Happen(_, e) => QuietHappens(l, rv, g, e);
        case Deliver(_, k) =>
          QuietNetwork(l, k, g);
          HeardEntry(s.view, c, l.reports[l.channel[k]], c, g);
        case Lose(_, k) => QuietNetwork(l, k, g);
        case Duplicate(_, k) => QuietNetwork(l, k, g);
      }
    }
  }

  /** None of the steps is the host's own change of the group's mode. */
  ghost predicate LeavesAlone(steps: seq<Step>, through: seq<State>, c: IPAddress, g: IPAddress) {
    && |through| == |steps| + 1
    && forall i {:trigger steps[i]} :: 0 <= i < |steps| ==> !Changes(through[i], steps[i], c, g)
  }

  lemma {:induction false} SettledSteps(rv: nat, s: State, steps: seq<Step>, through: seq<State>, s': State,
                                        n: nat, c: IPAddress, g: IPAddress)
    requires Settled(s, c, g) && Leads(rv, s, steps, through, s') && LeavesAlone(steps, through, c, g) && n <= |steps|
    ensures StaysPut(s, through[n], c, g)
  {
    if n > 0 {
      SettledSteps(rv, s, steps, through, s', n - 1, c, g);
      var t, step, t' := through[n - 1], steps[n - 1], through[n];
      assert GoesAt(rv, steps, through, n - 1);
      OneMoreStep(s, t, rv, step, t', c, g);
    }
  }

  lemma OneMoreStep(s: State, t: State, rv: nat, step: Step, t': State, c: IPAddress, g: IPAddress)
    requires StaysPut(s, t, c, g) && Goes(t, rv, step, t') && !Changes(t, step, c, g)
    ensures StaysPut(s, t', c, g)
  {
    SettledStep(t, rv, step, c, g);
  }

  ghost predicate Disagree(s: State, c: IPAddress, g: IPAddress) {
    c in s.links && ModeOf(Entry(s.view, c, g)) != HostMode(s.links[c], g)
  }

  /** Host and router disagree, and go on disagreeing until the host changes the group's mode. */
  ghost predicate DisagreeForGood(s: State, rv: nat, c: IPAddress, g: IPAddress) {
    forall steps, through, s' ::
      Leads(rv, s, steps, through, s') && LeavesAlone(steps, through, c, g) ==> Disagree(s', c, g)
  }

  /** On a settled link, a disagreement lasts. */
  lemma SettledForGood(s: State, rv: nat, c: IPAddress, g: IPAddress)
    requires Settled(s, c, g)
    ensures DisagreeForGood(s, rv, c, g) <==> Disagree(s, c, g)
  {
    forall steps, through, s' | Leads(rv, s, steps, through, s') && LeavesAlone(steps, through, c, g)
      ensures Disagree(s', c, g) <==> Disagree(s, c, g)
    {
      SettledSteps(rv, s, steps, through, s', |steps|, c, g);
    }
    assert Leads(rv, s, [], [s], s) && LeavesAlone([], [s], c, g);
  }

  // ---------------------------------------------------------------- changing a mode too soon

  /**
   The serialisation assumption is needed: if a group's mode changes while a
   report on it is still being sent, there is a continuation with nothing
   lost and everything in order after which host and router disagree until
   the host changes the mode once more.
   */
  lemma RaceDisagrees(s: State, rv: nat, c: IPAddress, g: IPAddress, k: nat, e: Event)
    returns (steps: seq<Step>, through: seq<State>, s': State)
    requires Invariant(s, rv, c, g) && Shaped(s.links[c])
    requires k < |s.links[c].host.timers| && About(s.links[c].host.timers[k].report, g)
    requires (e == Exclude(g) || e == Include(g)) && NewReport(s.links[c].host, e) != []
    ensures Possible(s, Happen(c, e)) && Leads(rv, Next(s, rv, Happen(c, e)), steps, through, s') && Gentle(steps)
    ensures Settled(s', c, g) && DisagreeForGood(s', rv, c, g)
  {
    var l, entry := s.links[c], Entry(s.view, c, g);
    CallFlips(l, rv, entry, g, k, e);
    var s1 := RaceCall(s, rv, c, e);
    steps, through, s' := LateCopy(s1, rv, c, g, |l.host.timers|, k);
    OnlyTimer(l, rv, entry, g, k);
    LeftQuiet(l, g, k, s'.links[c].host.timers);
    SettledForGood(s', rv, c, g);
  }

  ghost predicate Silent(l: Link, g: IPAddress, j: int)
    requires 0 <= j < |l.host.timers|
  {
    !About(l.host.timers[j].report, g)
  }

  lemma OnlyTimer(l: Link, rv: nat, entry: Last, g: IPAddress, k: nat)
    requires LinkInv(l, rv, entry, g) && |l.ids| == |l.host.timers| && k < |l.ids| && About(l.host.timers[k].report, g)
    ensures forall j :: 0 <= j < |l.host.timers| && j != k ==> Silent(l, g, j)
  {
    forall j | 0 <= j < |l.host.timers| && j != k
      ensures Silent(l, g, j)
    {
      OneTimer(l, rv, entry, g, k, j);
    }
  }

  /** Without its one timer, nothing is being sent about the group. */
  lemma LeftQuiet(l: Link, g: IPAddress, k: nat, timers: seq<Timer>)
    requires k < |l.host.timers| && forall j :: 0 <= j < |l.host.timers| && j != k ==> Silent(l, g, j)
    requires timers == Without(l.host.timers, k)
    ensures forall j :: 0 <= j < |timers| ==> !About(timers[j].report, g)
  {
    forall j | 0 <= j < |timers|
      ensures !About(timers[j].report, g)
    {
      var j0 := if j < k then j else j + 1;
      assert timers[j] == l.host.timers[j0] && Silent(l, g, j0);
    }
  }

  /** The state right after the handler call. */
  lemma RaceCall(s: State, rv: nat, c: IPAddress, e: Event) returns (s1: State)
    requires c in s.links && Shaped(s.links[c]) && AllTyped(s.links[c])
    requires (e.Exclude? || e.Include?) && NewReport(s.links[c].host, e) != []
    ensures Goes(s, rv, Happen(c, e), s1) && c in s1.links
    ensures var l, l1 := s.links[c], s1.links[c];
            && Shaped(l1) && AllTyped(l1)
            && l1.host.modes == l.host.modes[e.g := if e.Exclude? then EXCLUDE else INCLUDE]
            && |l1.host.timers| == |l.host.timers| + 1 && |l1.ids| == |l.ids| + 1
            && l1.host.timers[..|l.host.timers|] == l.host.timers && l1.ids[..|l.ids|] == l.ids
            && |l1.reports| > |l.reports| && l1.reports[..|l.reports|] == l.reports
            && l1.channel == l.channel
            && l1.ids[|l.ids|] == |l.reports| && l1.lost[|l.reports|] == 0 && l1.host.timers[|l.host.timers|].left == rv
    ensures s1.view == s.view
  {
    var l := s.links[c];
    HostStepSchedules(l, rv, e);
    ShapedSchedules(l, rv, e);
    NewReportTyped(l.host, e);
    s1 := Next(s, rv, Happen(c, e));
    var l1 := s1.links[c];
    forall id | 0 <= id < |l1.reports| ensures Typed(l1.reports[id]) {
      if id < |l.reports| {
        assert l1.reports[id] == l.reports[id];
      }
    }
  }

  /** Send everything of the newest timer, then everything of timer `k`, then deliver: the router ends up
      with what `k` told. */
  lemma LateCopy(s: State, rv: nat, c: IPAddress, g: IPAddress, n: nat, k: nat)
    returns (steps: seq<Step>, through: seq<State>, s': State)
    requires c in s.links && Shaped(s.links[c]) && AllTyped(s.links[c]) && k < n == |s.links[c].host.timers| - 1
    requires About(s.links[c].reports[s.links[c].ids[k]], g)
    ensures Leads(rv, s, steps, through, s') && Gentle(steps)
    ensures c in s'.links && Shaped(s'.links[c]) && s'.links[c].host.modes == s.links[c].host.modes
    ensures AllTyped(s'.links[c])
    ensures s'.links[c].channel == [] && s'.links[c].host.timers == Without(s.links[c].host.timers[..n], k)
    ensures Entry(s'.view, c, g) == EntryAfter(Never, s.links[c].reports[s.links[c].ids[k]], g)
  {
    var l := s.links[c];
    var steps2, through2, s2 := FireOut(s, rv, c, n);
    assert Without(l.host.timers, n) == l.host.timers[..n] && Without(l.ids, n) == l.ids[..n];
    var steps3, through3, s3 := FireOut(s2, rv, c, k);
    var steps4, through4;
    steps4, through4, s' := DeliverOut(s3, rv, c, g);
    steps, through := LeadsThrice(rv, s, steps2, through2, s2, steps3, through3, s3, steps4, through4, s');
  }

  lemma LeadsThrice(rv: nat, s: State, steps2: seq<Step>, through2: seq<State>, s2: State, steps3: seq<Step>,
                    through3: seq<State>, s3: State, steps4: seq<Step>, through4: seq<State>, s': State)
    returns (steps: seq<Step>, through: seq<State>)
    requires Leads(rv, s, steps2, through2, s2) && Gentle(steps2)
    requires Leads(rv, s2, steps3, through3, s3) && Gentle(steps3)
    requires Leads(rv, s3, steps4, through4, s') && Gentle(steps4)
    ensures Leads(rv, s, steps, through, s') && Gentle(steps)
  {
    LeadsOn(rv, s, steps2, through2, s2, steps3, through3, s3);
    LeadsOn(rv, s, steps2 + steps3, through2 + through3[1..], s3, steps4, through4, s');
    GentleOn(steps2, steps3);
    GentleOn(steps2 + steps3, steps4);
    steps, through := steps2 + steps3 + steps4, through2 + through3[1..] + through4[1..];
  }

  // ---------------------------------------------------------------- losing a report altogether

  /** One copy is sent and lost. */
  lemma FireAndLose(s: State, rv: nat, c: IPAddress, k: nat) returns (mid: State, t: State)
    requires c in s.links && Shaped(s.links[c]) && k < |s.links[c].host.timers|
    ensures Goes(s, rv, Happen(c, Fire(k)), mid) && Goes(mid, rv, Lose(c, |s.links[c].channel|), t)
    ensures c in t.links && t.view == s.view && Shaped(t.links[c])
    ensures var l, l' := s.links[c], t.links[c];
            && l'.host.modes == l.host.modes && l'.reports == l.reports && l'.channel == l.channel
            && if l.host.timers[k].left > 1 then
                 l'.host.timers == l.host.timers[k := l.host.timers[k].(left := l.host.timers[k].left - 1)]
               else l'.host.timers == Without(l.host.timers, k)
    ensures var l, l' := s.links[c], t.links[c];
            l'.lost == l.lost[l.ids[k] := l.lost[l.ids[k]] + 1] && (l.host.timers[k].left > 1 ==> l'.ids == l.ids)
  {
    var l := s.links[c];
    mid := FireOne(s, rv, c, k);
    var n := |l.channel|;
    HostStepFires(l, rv, k);
    assert mid.links[c].channel == l.channel + [l.ids[k]];
    ShapedNetwork(mid.links[c], n);
    t := Next(mid, rv, Lose(c, n));
    assert Without(mid.links[c].channel, n) == l.channel;
  }

  /** Every copy of a timer's report is sent and lost. */
  lemma {:induction false} LoseOut(s: State, rv: nat, c: IPAddress, k: nat)
    returns (steps: seq<Step>, through: seq<State>, s': State)
    requires c in s.links && Shaped(s.links[c]) && k < |s.links[c].host.timers|
    ensures Leads(rv, s, steps, through, s') && LostOut(s, c, k, s')
    decreases s.links[c].host.timers[k].left
  {
    var mid, t := FireAndLose(s, rv, c, k);
    var rest, states;
    if s.links[c].host.timers[k].left > 1 {
      rest, states, s' := LoseOut(t, rv, c, k);
      assert Without(t.links[c].host.timers, k) == Without(s.links[c].host.timers, k);
    } else {
      rest, states, s' := [], [t], t;
      assert Leads(rv, t, rest, states, t);
    }
    LeadsCons(rv, mid, Lose(c, |s.links[c].channel|), t, rest, states, s');
    LeadsCons(rv, s, Happen(c, Fire(k)), mid, [Lose(c, |s.links[c].channel|)] + rest, [mid] + states, s');
    steps, through := [Happen(c, Fire(k))] + ([Lose(c, |s.links[c].channel|)] + rest), [s] + ([mid] + states);
  }

  ghost predicate LostOut(s: State, c: IPAddress, k: nat, s': State)
    requires c in s.links && Shaped(s.links[c]) && k < |s.links[c].host.timers|
  {
    && c in s'.links && s'.view == s.view && Shaped(s'.links[c])
    && var l, l' := s.links[c], s'.links[c];
       && l'.host.modes == l.host.modes && l'.reports == l.reports && l'.channel == l.channel
       && l'.host.timers == Without(l.host.timers, k)
       && (l.host.timers[k].left >= 1 ==> l'.lost[l.ids[k]] == l.lost[l.ids[k]] + l.host.timers[k].left)
  }

  /**
   If all `rv` copies of a report on a changed mode are lost, host and router
   disagree, and no answer to a later query makes up for it: only the host's
   next change of the group's mode can.
   */
  lemma LossDisagrees(s: State, rv: nat, c: IPAddress, g: IPAddress, e: Event)
    returns (steps: seq<Step>, through: seq<State>, s': State)
    requires Settled(s, c, g) && !Disagree(s, c, g)
    requires e == (if HostMode(s.links[c], g) == EXCLUDE then Include(g) else Exclude(g))
    ensures Possible(s, Happen(c, e)) && Leads(rv, Next(s, rv, Happen(c, e)), steps, through, s')
    ensures Settled(s', c, g) && DisagreeForGood(s', rv, c, g)
    ensures var id, lost := |s.links[c].reports|, s'.links[c].lost; rv >= 1 ==> id < |lost| && lost[id] == rv
  {
    var l := s.links[c];
    var s1 := RaceCall(s, rv, c, e);
    var n := |l.host.timers|;
    steps, through, s' := LoseOut(s1, rv, c, n);
    assert Without(s1.links[c].host.timers, n) == l.host.timers;
    SilentAgain(l, s1.links[c], s'.links[c], g);
    SettledForGood(s', rv, c, g);
  }

  /** With the new report gone, the link is as quiet as it was. */
  lemma SilentAgain(l: Link, l1: Link, l': Link, g: IPAddress)
    requires Shaped(l) && Quiet(l, g) && Shaped(l') && AllTyped(l1)
    requires |l1.reports| > |l.reports| && l1.reports[..|l.reports|] == l.reports && l1.channel == l.channel
    requires l'.host.timers == l.host.timers && l'.reports == l1.reports && l'.channel == l1.channel
    ensures Quiet(l', g) && AllTyped(l')
  {
    forall i | 0 <= i < |l'.channel| ensures !About(l'.reports[l'.channel[i]], g) {
      assert l'.reports[l.channel[i]] == l1.reports[..|l.reports|][l.channel[i]];
    }
  }

  // ---------------------------------------------------------------- an old copy arriving last

  ghost predicate OnlyDeliveries(steps: seq<Step>) {
    forall i :: 0 <= i < |steps| ==> steps[i].Deliver?
  }

  /** One delivery, in order or not. */
  lemma DeliverAny(s: State, rv: nat, c: IPAddress, g: IPAddress, k: nat) returns (t: State)
    requires c in s.links && Shaped(s.links[c]) && AllTyped(s.links[c]) && k < |s.links[c].channel|
    ensures Goes(s, rv, Deliver(c, k), t) && c in t.links && Shaped(t.links[c])
    ensures var l, l' := s.links[c], t.links[c];
            && l'.host == l.host && l'.reports == l.reports && l'.channel == Without(l.channel, k)
            && Entry(t.view, c, g) == EntryAfter(Entry(s.view, c, g), l.reports[l.channel[k]], g)
  {
    var l := s.links[c];
    ShapedNetwork(l, k);
    HeardEntry(s.view, c, l.reports[l.channel[k]], c, g);
    t := Next(s, rv, Deliver(c, k));
  }

  /** Everything in flight has arrived, copy `i` last. */
  ghost predicate ArrivedLast(s: State, c: IPAddress, g: IPAddress, i: nat, s': State)
    requires c in s.links && Shaped(s.links[c]) && i < |s.links[c].channel|
  {
    var l := s.links[c];
    && c in s'.links && Shaped(s'.links[c]) && s'.links[c].host == l.host && s'.links[c].channel == []
    && s'.links[c].reports == l.reports
    && (About(l.reports[l.channel[i]], g) ==> Entry(s'.view, c, g) == EntryAfter(Never, l.reports[l.channel[i]], g))
  }

  lemma {:induction false} DeliverLast(s: State, rv: nat, c: IPAddress, g: IPAddress, i: nat)
    returns (steps: seq<Step>, through: seq<State>, s': State)
    requires c in s.links && Shaped(s.links[c]) && AllTyped(s.links[c]) && i < |s.links[c].channel|
    ensures Leads(rv, s, steps, through, s') && OnlyDeliveries(steps) && ArrivedLast(s, c, g, i, s')
    decreases |s.links[c].channel|
  {
    var l := s.links[c];
    if |l.channel| == 1 {
      s' := DeliverAny(s, rv, c, g, 0);
      LeadsOne(rv, s, Deliver(c, 0), s');
      steps, through := [Deliver(c, 0)], [s, s'];
    } else {
      var j, i' := if i == 0 then 1 else 0, if i == 0 then 0 else i - 1;
      var t := DeliverAny(s, rv, c, g, j);
      assert t.links[c].channel[i'] == l.channel[i];
      var rest, states;
      rest, states, s' := DeliverLast(t, rv, c, g, i');
      LeadsCons(rv, s, Deliver(c, j), t, rest, states, s');
      steps, through := [Deliver(c, j)] + rest, [s] + states;
    }
  }

  /**
   The order of arrival matters too: if a copy about the group that tells
   another mode than the host's is in flight and no more are to be sent, there
   is an order in which everything in flight arrives after which host and
   router disagree until the host changes the mode.
   */
  lemma OvertakenDisagrees(s: State, rv: nat, c: IPAddress, g: IPAddress, i: nat)
    returns (steps: seq<Step>, through: seq<State>, s': State)
    requires c in s.links && Shaped(s.links[c]) && AllTyped(s.links[c]) && i < |s.links[c].channel|
    requires forall k :: 0 <= k < |s.links[c].host.timers| ==> !About(s.links[c].host.timers[k].report, g)
    requires var r := s.links[c].reports[s.links[c].channel[i]];
             About(r, g) && r != ReportFor(g, HostMode(s.links[c], g))
    ensures Leads(rv, s, steps, through, s') && OnlyDeliveries(steps)
    ensures Settled(s', c, g) && DisagreeForGood(s', rv, c, g)
  {
    steps, through, s' := DeliverLast(s, rv, c, g, i);
    assert ToEx(g)[0].rtype != ToIn(g)[0].rtype;
    SettledForGood(s', rv, c, g);
  }
}
