/**
 Delivering a report in the protocol is handing its bytes to the router's
 `processReport` (elements/reportigmp.cc, elements/IGMPRouter.cc).
 */
module Delivery {
  import opened Bytes
  import opened Checksum
  import opened Reports
  import opened Client
  import opened Router
  import opened Protocol

  ghost predicate SourceFree(report: seq<GroupRecord>) {
    forall i :: 0 <= i < |report| ==> report[i].sources == []
  }

  ghost predicate AllSourceFree(l: Link) {
    forall id :: 0 <= id < |l.reports| ==> SourceFree(l.reports[id])
  }

  lemma HostStepSourceFree(l: Link, rv: nat, e: Event)
    requires AllSourceFree(l) && Enabled(l.host, e) && |l.ids| == |l.host.timers|
    ensures AllSourceFree(HostStep(l, rv, e))
  {
    if e.Fire? {
      HostStepFires(l, rv, e.k);
    } else {
      HostStepSchedules(l, rv, e);
      assert forall i :: 0 <= i < |NewReport(l.host, e)| ==> SourceFree(NewReport(l.host, e)[i]);
    }
  }

  ghost predicate HostsSourceFree(s: State) {
    forall c :: c in s.links ==> AllSourceFree(s.links[c])
  }

  lemma StepSourceFree(s: State, rv: nat, step: Step)
    requires HostsSourceFree(s) && Possible(s, step)
    ensures HostsSourceFree(Next(s, rv, step))
  {
    var s' := Next(s, rv, step);
    forall c | c in s'.links ensures AllSourceFree(s'.links[c]) {
      assert AllSourceFree(s.links[c]);
      if step.c == c && step.Happen? {
        HostStepSourceFree(s.links[c], rv, step.e);
      }
    }
  }

  /** No host ever sends a source. */
  lemma {:induction false} ReportsSourceFree(rv: nat, steps: seq<Step>, states: seq<State>, n: nat)
    requires RunOf(rv, steps, states) && n <= |steps|
    ensures HostsSourceFree(states[n])
  {
    if n > 0 {
      ReportsSourceFree(rv, steps, states, n - 1);
      StepSourceFree(states[n - 1], rv, steps[n - 1]);
      assert states[n - 1 + 1] == Next(states[n - 1], rv, steps[n - 1]);
    }
  }

  /** In every run, a report on any link decodes from its own bytes exactly if it has fewer than 65536 records. */
  lemma ReportDecodes(rv: nat, steps: seq<Step>, states: seq<State>, n: nat, c: IPAddress, id: nat, big: bool)
    requires RunOf(rv, steps, states) && n <= |steps| && c in states[n].links && id < |states[n].links[c].reports|
    ensures var r := states[n].links[c].reports[id]; Decode(ReportBytes(r, big), big) == Parsed(r) <==> |r| < TWO16
  {
    ReportsSourceFree(rv, steps, states, n);
    var r := states[n].links[c].reports[id];
    assert AllSourceFree(states[n].links[c]) && SourceFree(r);
    ReportRoundTrip(r, big);
  }

  /** A report without sources decodes to its first records, as many as its count in 16 bits says. */
  lemma DecodesPrefix(r: seq<GroupRecord>, big: bool)
    requires SourceFree(r)
    ensures Decode(ReportBytes(r, big), big) == Parsed(r[..|r| % TWO16])
  {
    GeneratedAccepted(r, big);
    HeaderCount(r);
    CountAtMost(|r|);
    PrefixWritten(Unsummed(r), r, |r| % TWO16);
  }

  lemma CountAtMost(n: nat)
    ensures n % TWO16 <= n
  {}

  lemma PrefixWritten(b: Str, r: seq<GroupRecord>, n: nat)
    requires SourceFree(r) && At(b, REPORT_HEADER, RecordsBytes(r)) && n <= |r|
    ensures RecordsAt(b, REPORT_HEADER, n) == Parsed(r[..n])
  {
    assert r == r[..n] + r[n..];
    RecordsBytesConcat(r[..n], r[n..]);
    AtSplit(b, REPORT_HEADER, RecordsBytes(r[..n]), RecordsBytes(r[n..]));
    RecordsAtWritten(b, REPORT_HEADER, r[..n]);
  }

  /** What the router hears of a report: all of it, or of an overlong query answer a part that has no effect either. */
  lemma HeardFromBytes(v: View, c: IPAddress, r: seq<GroupRecord>, big: bool)
    requires CountsFit(r) || (SourceFree(r) && Typed(r))
    ensures var d := Decode(ReportBytes(r, big), big);
            d.Parsed? && HeardAll(v, Arrivals(c, d.records)) == HeardAll(v, Arrivals(c, r))
  {
    if CountsFit(r) {
      ReportRoundTrip(r, big);
    } else {
      assert forall g :: About(r, g) ==> |r| == 1;
      DecodesPrefix(r, big);
      HeardNone(v, c, r);
      HeardNone(v, c, r[..|r| % TWO16]);
    }
  }

  /** Every report of a run is of the kind `Arrive` asks for. */
  lemma ReportsFit(rv: nat, steps: seq<Step>, states: seq<State>, n: nat, c: IPAddress, id: nat)
    requires RunOf(rv, steps, states) && n <= |steps| && c in states[n].links && id < |states[n].links[c].reports|
    ensures SourceFree(states[n].links[c].reports[id]) && Typed(states[n].links[c].reports[id])
  {
    ReportsSourceFree(rv, steps, states, n);
    assert AllSourceFree(states[n].links[c]);
    ExcludeWasAsked(rv, steps, states, n);
    assert Asked1(states[n].links[c], c, states[n].asked);
  }

  /** Delivering a report changes the view as its bytes change the router's databases. */
  method Arrive(router: IGMPRouter, p: array<Byte>, big: bool, ghost s: State, ghost rv: nat,
                ghost c: IPAddress, ghost k: nat)
    requires router.Valid() && Possible(s, Deliver(c, k)) && router.db.State() == s.view
    requires var l := s.links[c]; var r := l.reports[l.channel[k]];
             && (CountsFit(r) || (SourceFree(r) && Typed(r)))
             && |p[..]| >= IP_HEADER && p[IP_HEADER..] == ReportBytes(r, big) && AddressAt(p[..], 12) == c
    modifies router, router.db, router.db.dbs.Values, p
    ensures router.Valid() && router.db.State() == Next(s, rv, Deliver(c, k)).view
  {
    ghost var l := s.links[c];
    HeardFromBytes(s.view, c, l.reports[l.channel[k]], big);
    assert p[..][IP_HEADER..] == p[IP_HEADER..];
    var outcome := router.ProcessReportPacket(p, big);
  }
}
