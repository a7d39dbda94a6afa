/**
 Request ids over whole runs: every id the SDK makes up is written at most once,
 so a reply carrying it can belong to one line only.
 */
module TransportIds {
  import opened Wrappers
  import opened Versions
  import opened Compat
  import opened Transport
  import opened TransportRuns

  /** The id made up for method `m` with sequence number `k`. */
  function IdOf(m: Method, token: string, k: nat): (id: string) {
    RequestId(m, Net(0, k, token))
  }

  ghost predicate HasNumber(id: string, token: string, lo: nat, hi: nat) {
    exists m: Method, k: nat :: lo <= k < hi && id == IdOf(m, token, k)
  }

  /** Ids numbered in disjoint intervals differ. */
  lemma NumbersDiffer(a: string, b: string, token: string, lo: nat, mid: nat, hi: nat)
    requires HasNumber(a, token, lo, mid) && HasNumber(b, token, mid, hi)
    ensures a != b
  {
    var m: Method, k: nat :| lo <= k < mid && a == IdOf(m, token, k);
    var n: Method, l: nat :| mid <= l < hi && b == IdOf(n, token, l);
    RequestIdsDistinct(m, n, Net(0, k, token), Net(0, l, token));
  }

  /** Each line carries an id of `given` or a number of the interval, and no other id is written twice. */
  ghost predicate Numbered(events: seq<Event>, given: set<string>, token: string, lo: nat, hi: nat) {
    && (forall e | e in events && e.Wrote? :: e.request.id in given || HasNumber(e.request.id, token, lo, hi))
    && (forall i, j | 0 <= i < j < |events| && events[i].Wrote? && events[j].Wrote? ::
          events[i].request.id == events[j].request.id ==> events[i].request.id in given)
  }

  lemma NumberedConcat(a: seq<Event>, b: seq<Event>, given: set<string>, token: string, lo: nat, mid: nat, hi: nat)
    requires lo <= mid <= hi
    requires Numbered(a, given, token, lo, mid) && Numbered(b, given, token, mid, hi)
    ensures Numbered(a + b, given, token, lo, hi)
  {
    var all := a + b;
    forall i, j | 0 <= i < j < |all| && all[i].Wrote? && all[j].Wrote? && all[i].request.id == all[j].request.id
      ensures all[i].request.id in given
    {
      if i < |a| <= j && all[i].request.id !in given {
        assert all[i] in a && all[j] in b;
        NumbersDiffer(all[i].request.id, all[j].request.id, token, lo, mid, hi);
      }
    }
    forall e | e in all && e.Wrote?
      ensures e.request.id in given || HasNumber(e.request.id, token, lo, hi)
    {
      assert e in a || e in b;
    }
  }

  lemma NumberedMore(events: seq<Event>, given: set<string>, more: set<string>, token: string, lo: nat, hi: nat)
    requires given <= more && Numbered(events, given, token, lo, hi)
    ensures Numbered(events, more, token, lo, hi)
  {
  }

  // --------------------------------------------------------------- one call

  /** What one exchange writes: at most its own request, first. */
  lemma ExchangeLine(c: Conn, remote: bool, selected: Option<Version>, request: Request,
                     purpose: Purpose, arrival: Arrival)
    ensures var events := Exchange(c, remote, selected, request, purpose, arrival).events;
            && |events| <= 2
            && forall i | 0 <= i < |events| && events[i].Wrote? ::
                 i == 0 && events[i].request == request && events[i].purpose == purpose
  {
    hide Decode;
  }

  /** A probe line takes the next number; the caller's line keeps its id; at most one of each is written. */
  ghost predicate ProbeAndOwn(events: seq<Event>, id: string, token: string, lo: nat, hi: nat) {
    && (forall i | 0 <= i < |events| && events[i].Wrote? ::
          if events[i].purpose.Own? then events[i].request.id == id
          else HasNumber(events[i].request.id, token, lo, hi))
    && (forall i, j | 0 <= i < j < |events| && events[i].Wrote? && events[j].Wrote? ::
          events[i].purpose != events[j].purpose)
  }

  lemma NegotiationLines(client: Client, net: Net, request: Request, probe: Arrival)
    ensures var n := Negotiation(client, net, request, probe);
            && |n.events| <= 2
            && n.net.token == net.token && n.net.nextId >= net.nextId
            && (n.request.Ok? ==> n.request.value.id == request.id)
            && forall i | 0 <= i < |n.events| && n.events[i].Wrote? ::
                 && i == 0 && n.events[i].purpose.Probe?
                 && HasNumber(n.events[i].request.id, net.token, net.nextId, n.net.nextId)
  {
    hide Exchange, VersionIndependent, RequestId, DowngradeParams;
    var range := Narrow(request.range, WINDOW);
    if client.selected.None? && !VersionIndependent(request.verb, request.params) && range.Some? {
      var asked := HealthProbe(range.value, client, net);
      ExchangeLine(client.conn, client.remote, None, asked, Probe, probe);
      ProbeHasTheNextNumber(range.value, client, net);
    }
  }

  lemma ProbeHasTheNextNumber(range: Range, client: Client, net: Net)
    ensures HasNumber(HealthProbe(range, client, net).id, net.token, net.nextId, net.nextId + 1)
  {
    assert HealthProbe(range, client, net).id == IdOf(DaemonHealth, net.token, net.nextId);
  }

  lemma AskLines(client: Client, net: Net, request: Request, luck: Luck)
    ensures var r := Ask(client, net, request, luck);
            && r.net.token == net.token && r.net.nextId >= net.nextId
            && ProbeAndOwn(r.events, request.id, net.token, net.nextId, r.net.nextId)
  {
    hide Exchange, Negotiation, HasNumber;
    var (renewed, net', failed) := Replaced(client, net, luck.dial);
    if failed.None? {
      var marked := WithOrigin(request, renewed.origin);
      NegotiationLines(renewed, net', marked, luck.probe);
      var n := Negotiation(renewed, net', marked, luck.probe);
      if n.request.Ok? {
        ExchangeLine(n.client.conn, n.client.remote, n.client.selected, n.request.value, Own, luck.reply);
      }
    }
  }

  /** A request under the caller's own id. */
  lemma AskNumbered(client: Client, net: Net, request: Request, luck: Luck, given: set<string>)
    requires request.id in given
    ensures var r := Ask(client, net, request, luck);
            && r.net.token == net.token && r.net.nextId >= net.nextId
            && Numbered(r.events, given, net.token, net.nextId, r.net.nextId)
  {
    hide Ask, HasNumber;
    AskLines(client, net, request, luck);
    var r := Ask(client, net, request, luck);
    forall e | e in r.events && e.Wrote?
      ensures e.request.id in given || HasNumber(e.request.id, net.token, net.nextId, r.net.nextId)
    {
      var i :| 0 <= i < |r.events| && r.events[i] == e;
    }
  }

  /** A request under a made-up id: that id and the probe's are both new. */
  lemma DirectNumbered(client: Client, net: Net, verb: Method, params: Value, luck: Luck, given: set<string>)
    ensures var r := CallDirect(client, net, verb, params, luck);
            && r.net.token == net.token && r.net.nextId >= net.nextId
            && Numbered(r.events, given, net.token, net.nextId, r.net.nextId)
  {
    hide Ask, RequestId;
    var id := RequestId(verb, net);
    var next := net.(nextId := net.nextId + 1);
    AskLines(client, next, Request(id, verb, params, WINDOW, None), luck);
    var r := CallDirect(client, net, verb, params, luck);
    OwnAndProbeAreNumbered(r.events, verb, net, r.net.nextId, given);
  }

  lemma OwnAndProbeAreNumbered(events: seq<Event>, verb: Method, net: Net, hi: nat, given: set<string>)
    requires hi > net.nextId
    requires ProbeAndOwn(events, RequestId(verb, net), net.token, net.nextId + 1, hi)
    ensures Numbered(events, given, net.token, net.nextId, hi)
  {
    hide RequestId;
    var id := RequestId(verb, net);
    assert HasNumber(id, net.token, net.nextId, net.nextId + 1) by {
      OwnHasTheNextNumber(verb, net);
    }
    forall e | e in events && e.Wrote?
      ensures HasNumber(e.request.id, net.token, net.nextId, hi)
    {
      var i :| 0 <= i < |events| && events[i] == e;
    }
    forall i, j | 0 <= i < j < |events| && events[i].Wrote? && events[j].Wrote?
      ensures events[i].request.id != events[j].request.id
    {
      if events[i].purpose.Own? {
        NumbersDiffer(events[i].request.id, events[j].request.id, net.token, net.nextId, net.nextId + 1, hi);
      } else {
        NumbersDiffer(events[j].request.id, events[i].request.id, net.token, net.nextId, net.nextId + 1, hi);
      }
    }
  }

  lemma OwnHasTheNextNumber(verb: Method, net: Net)
    ensures HasNumber(RequestId(verb, net), net.token, net.nextId, net.nextId + 1)
  {
    assert RequestId(verb, net) == IdOf(verb, net.token, net.nextId);
  }

  // ------------------------------------------------------------------- runs

  /** The ids the callers chose themselves. */
  function GivenIds(calls: seq<Call>): (ids: set<string>) {
    set call | call in calls && call.RequestCall? :: call.request.id
  }

  lemma PerformNumbered(w: World, call: Call, given: set<string>)
    requires call.RequestCall? ==> call.request.id in given
    ensures var r := Perform(w, call);
            && r.net.token == w.net.token && r.net.nextId >= w.net.nextId
            && Numbered(r.events, given, w.net.token, w.net.nextId, r.net.nextId)
  {
    hide Numbered, Ask, CallDirect, Wire;
    match call
    case RequestCall(request, luck) => AskNumbered(w.client, w.net, request, luck, given);
    case DedicatedCall(verb, params, dial, luck) =>
      NothingIsNumbered(given, w.net);
      var (own, net') := Dedicated(w.client, w.net);
      DirectNumbered(own, net', verb, params, luck, given);
    case SessionNewCall(p, dial, inspect, create) =>
      NothingIsNumbered(given, w.net);
      var params := Wire(Extended(p));
      var (own, net') := Dedicated(w.client, w.net);
      DirectNumbered(own, net', SessionNew, params, create, given);
      DirectNumbered(own, net', HostInspect, SKIP_PROBES, inspect, given);
      var i := CallDirect(own, net', HostInspect, SKIP_PROBES, inspect);
      DirectNumbered(i.client, i.net, SessionNew, params, create, given);
      var c := CallDirect(i.client, i.net, SessionNew, params, create);
      NumberedConcat(i.events, c.events, given, w.net.token, w.net.nextId, i.net.nextId, c.net.nextId);
  }

  lemma NothingIsNumbered(given: set<string>, net: Net)
    ensures Numbered([], given, net.token, net.nextId, net.nextId)
  {
  }

  lemma {:induction false} RunNumbered(w: World, calls: seq<Call>)
    requires w.trace == []
    ensures var r := Run(w, calls);
            && r.net.token == w.net.token && r.net.nextId >= w.net.nextId
            && Numbered(r.trace, GivenIds(calls), w.net.token, w.net.nextId, r.net.nextId)
    decreases |calls|
  {
    hide Numbered, Perform;
    if calls == [] {
      NothingIsNumbered(GivenIds(calls), w.net);
    } else {
      var before, last := calls[..|calls| - 1], calls[|calls| - 1];
      RunNumbered(w, before);
      var mid := Run(w, before);
      assert last in calls && GivenIds(before) <= GivenIds(calls);
      NumberedMore(mid.trace, GivenIds(before), GivenIds(calls), w.net.token, w.net.nextId, mid.net.nextId);
      PerformNumbered(mid, last, GivenIds(calls));
      var r := Perform(mid, last);
      NumberedConcat(mid.trace, r.events, GivenIds(calls), w.net.token, w.net.nextId, mid.net.nextId, r.net.nextId);
    }
  }

  /** In every run, two lines share an id only when a caller chose that id: no id the SDK makes up is written twice. */
  lemma MadeUpIdsAreWrittenOnce(origin: Option<Origin>, remote: bool, token: string, calls: seq<Call>, i: nat, j: nat)
    requires i < j < |TraceOf(origin, remote, token, calls)|
    requires TraceOf(origin, remote, token, calls)[i].Wrote? && TraceOf(origin, remote, token, calls)[j].Wrote?
    requires TraceOf(origin, remote, token, calls)[i].request.id == TraceOf(origin, remote, token, calls)[j].request.id
    ensures TraceOf(origin, remote, token, calls)[i].request.id in GivenIds(calls)
  {
    hide Run, HasNumber;
    RunNumbered(Start(origin, remote, token), calls);
  }
}
