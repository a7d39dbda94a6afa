/**
 Where a connection's version comes from, over every run: from its own first
 answer, or, for a dedicated connection, from one the client still trusts.
 */
module TransportVersions {
  import opened Wrappers
  import opened Versions
  import opened Compat
  import opened Transport
  import opened TransportRuns

  /** An event of `trace` shows version `v` on a connection nothing has retired. */
  ghost predicate IsKnown(trace: seq<Event>, v: Version) {
    exists k | 0 <= k < |trace| ::
      && Settles(trace[k]) == Some(v)
      && forall l | 0 <= l < |trace| && trace[l].conn == trace[k].conn :: !Poisons(trace[l])
  }

  /** The first line on a connection is written without a version, or with one known from a live connection. */
  ghost predicate StartsOpen(trace: seq<Event>, i: nat)
    requires i < |trace|
  {
    trace[i].Wrote? && trace[i].frozen.Some? && (forall k | 0 <= k < i :: trace[k].conn != trace[i].conn) ==>
      IsKnown(trace[..i], trace[i].frozen.value)
  }

  ghost predicate AllStartOpen(trace: seq<Event>) {
    forall i | 0 <= i < |trace| :: StartsOpen(trace, i)
  }

  /** What the client remembers was shown on its connection. */
  ghost predicate IsGrounded(trace: seq<Event>, client: Client) {
    client.selected.Some? ==> exists e | e in trace :: e.conn == client.conn.id && Settles(e) == client.selected
  }

  /** More events on one connection, the first under `frozen`. */
  lemma MoreStartsOpen(trace: seq<Event>, more: seq<Event>, c: nat, frozen: Option<Version>)
    requires AllStartOpen(trace) && On(more, c)
    requires more != [] ==> more[0].Wrote? && more[0].frozen == frozen
    requires frozen.Some? ==> IsKnown(trace, frozen.value) || exists e | e in trace :: e.conn == c
    ensures AllStartOpen(trace + more)
  {
    hide IsKnown;
    var all := trace + more;
    forall i | 0 <= i < |all|
      ensures StartsOpen(all, i)
    {
      if i < |trace| {
        assert all[..i] == trace[..i];
        assert forall k | 0 <= k < i :: all[k] == trace[k];
        assert StartsOpen(trace, i);
      } else {
        assert all[i] in more && all[i].conn == c;
        if i == |trace| {
          assert all[..i] == trace;
          if e :| e in trace && e.conn == c {
            var k :| 0 <= k < |trace| && trace[k] == e;
            assert all[k].conn == c;
          }
        } else {
          assert all[|trace|] in more && all[|trace|].conn == c;
        }
      }
    }
  }

  // ------------------------------------------------------------------ calls

  /** The events of one exchange, and where a version it ends with was shown. */
  ghost predicate Begins(events: seq<Event>, c: nat, selected: Option<Version>, after: Option<Version>) {
    && On(events, c)
    && (events != [] ==> events[0].Wrote? && events[0].frozen == selected)
    && (after == selected || exists e | e in events :: Settles(e) == after)
  }

  lemma ExchangeBegins(c: Conn, remote: bool, selected: Option<Version>, request: Request,
                       purpose: Purpose, arrival: Arrival)
    ensures var x := Exchange(c, remote, selected, request, purpose, arrival);
            Begins(x.events, c.id, selected, x.selected) && x.conn.id == c.id
  {
    hide Decode;
    var x := Exchange(c, remote, selected, request, purpose, arrival);
    if !c.poisoned && x.selected != selected {
      assert x.events[1] in x.events;
    }
  }

  lemma NegotiationBegins(client: Client, net: Net, request: Request, probe: Arrival)
    ensures var n := Negotiation(client, net, request, probe);
            && Begins(n.events, client.conn.id, client.selected, n.client.selected)
            && n.client.conn.id == client.conn.id
            && (n.events == [] && n.request.Ok? ==> n.client.selected == client.selected)
  {
    hide Exchange, VersionIndependent, Pin, RequestId, Begins;
    OpenBegins(client);
    var range := Narrow(request.range, WINDOW);
    if client.selected.None? && !VersionIndependent(request.verb, request.params) && range.Some? {
      ExchangeBegins(client.conn, client.remote, None, HealthProbe(range.value, client, net), Probe, probe);
      QuietExchange(client.conn, client.remote, HealthProbe(range.value, client, net), probe);
    }
  }

  lemma OpenBegins(client: Client)
    ensures Begins([], client.conn.id, client.selected, client.selected)
  {
  }

  /** An exchange without events fails. */
  lemma QuietExchange(c: Conn, remote: bool, request: Request, probe: Arrival)
    ensures var x := Exchange(c, remote, None, request, Probe, probe); x.events == [] ==> x.result.Err?
  {
    hide Decode;
  }

  lemma BeginsConcat(a: seq<Event>, b: seq<Event>, c: nat, s: Option<Version>, m: Option<Version>, t: Option<Version>)
    requires Begins(a, c, s, m) && Begins(b, c, m, t) && (a == [] ==> s == m)
    ensures Begins(a + b, c, s, t)
  {
    if t != s {
      if t == m {
        var e :| e in a && Settles(e) == m;
        assert e in a + b;
      } else {
        var e :| e in b && Settles(e) == t;
        assert e in a + b;
      }
    }
  }

  /** How a call begins on its connection, and where a version it ends with was shown. */
  lemma TransactStarts(client: Client, net: Net, request: Request, probe: Arrival, reply: Arrival, r: Called)
    requires !client.conn.poisoned && r == Transact(client, net, request, probe, reply)
    ensures Begins(r.events, client.conn.id, client.selected, r.client.selected)
    ensures r.client.conn.id == client.conn.id
  {
    hide Exchange, Negotiation, Begins;
    var marked := WithOrigin(request, client.origin);
    NegotiationBegins(client, net, marked, probe);
    var n := Negotiation(client, net, marked, probe);
    if n.request.Ok? {
      ExchangeBegins(n.client.conn, n.client.remote, n.client.selected, n.request.value, Own, reply);
      var x := Exchange(n.client.conn, n.client.remote, n.client.selected, n.request.value, Own, reply);
      BeginsConcat(n.events, x.events, client.conn.id, client.selected, n.client.selected, x.selected);
    }
  }

  /** A request keeps both properties. */
  lemma AskStartsOpen(trace: seq<Event>, client: Client, net: Net, request: Request, luck: Luck)
    requires AllStartOpen(trace) && IsGrounded(trace, client)
    ensures var r := Ask(client, net, request, luck);
            AllStartOpen(trace + r.events) && IsGrounded(trace + r.events, r.client)
  {
    hide Transact, AllStartOpen;
    var (renewed, net', failed) := Replaced(client, net, luck.dial);
    var r := Ask(client, net, request, luck);
    if failed.Some? {
      assert trace + [] == trace;
    } else {
      TransactStarts(renewed, net', request, luck.probe, luck.reply, r);
      MoreStartsOpen(trace, r.events, renewed.conn.id, renewed.selected);
      if r.client.selected.Some? {
        if r.client.selected == renewed.selected {
          var e :| e in trace && e.conn == client.conn.id && Settles(e) == client.selected;
          assert e in trace + r.events;
        } else {
          var e :| e in r.events && Settles(e) == r.client.selected;
          assert e in trace + r.events && e.conn == r.client.conn.id;
        }
      }
    }
  }

  lemma GroundedStays(trace: seq<Event>, more: seq<Event>, client: Client)
    requires IsGrounded(trace, client)
    ensures IsGrounded(trace + more, client)
  {
    if client.selected.Some? {
      var e :| e in trace && e.conn == client.conn.id && Settles(e) == client.selected;
      assert e in trace + more;
    }
  }

  /** The version a dedicated connection inherits is known from the caller's connection. */
  lemma InheritedIsKnown(trace: seq<Event>, client: Client, net: Net)
    requires Inv(trace, client, net) && IsGrounded(trace, client)
    ensures InheritedVersion(client).Some? ==> IsKnown(trace, InheritedVersion(client).value)
  {
    if InheritedVersion(client).Some? {
      var e :| e in trace && e.conn == client.conn.id && Settles(e) == client.selected;
      var k :| 0 <= k < |trace| && trace[k] == e;
      assert forall l | 0 <= l < |trace| :: trace[l] in trace;
    }
  }

  /** One call on a connection of its own. */
  lemma DirectStartsOpen(trace: seq<Event>, own: Client, net: Net, verb: Method, params: Value, luck: Luck)
    requires AllStartOpen(trace) && !own.conn.poisoned
    requires own.selected.Some? ==> IsKnown(trace, own.selected.value)
    ensures AllStartOpen(trace + CallDirect(own, net, verb, params, luck).events)
    ensures On(CallDirect(own, net, verb, params, luck).events, own.conn.id)
  {
    hide Transact, AllStartOpen, IsKnown, RequestId;
    var next := net.(nextId := net.nextId + 1);
    var r := CallDirect(own, net, verb, params, luck);
    TransactStarts(own, next, Request(RequestId(verb, net), verb, params, WINDOW, None), luck.probe, luck.reply, r);
    MoreStartsOpen(trace, r.events, own.conn.id, own.selected);
  }

  /** The inspection and the creation of one `session_new`. */
  lemma InspectThenCreateStartsOpen(trace: seq<Event>, own: Client, net: Net, params: Value,
                                    inspect: Luck, create: Luck)
    requires AllStartOpen(trace) && !own.conn.poisoned
    requires own.selected.Some? ==> IsKnown(trace, own.selected.value)
    ensures var i := CallDirect(own, net, HostInspect, SKIP_PROBES, inspect);
            && AllStartOpen(trace + i.events)
            && (i.result.Ok? ==>
                  AllStartOpen(trace + (i.events + CallDirect(i.client, i.net, SessionNew, params, create).events)))
  {
    hide AllStartOpen, IsKnown, CallDirect;
    DirectStartsOpen(trace, own, net, HostInspect, SKIP_PROBES, inspect);
    InspectionIsItsAnswer(own, net, inspect);
    var i := CallDirect(own, net, HostInspect, SKIP_PROBES, inspect);
    if i.result.Ok? {
      SecondCallStartsOpen(trace + i.events, i.client, i.net, params, create, i.events[0]);
      var c := CallDirect(i.client, i.net, SessionNew, params, create);
      assert trace + (i.events + c.events) == (trace + i.events) + c.events;
    }
  }

  lemma SecondCallStartsOpen(trace: seq<Event>, own: Client, net: Net, params: Value, create: Luck, e: Event)
    requires AllStartOpen(trace) && !own.conn.poisoned && e in trace && e.conn == own.conn.id
    ensures AllStartOpen(trace + CallDirect(own, net, SessionNew, params, create).events)
  {
    hide Transact, AllStartOpen, IsKnown, RequestId;
    var next := net.(nextId := net.nextId + 1);
    var r := CallDirect(own, net, SessionNew, params, create);
    TransactStarts(own, next, Request(RequestId(SessionNew, net), SessionNew, params, WINDOW, None),
                   create.probe, create.reply, r);
    MoreStartsOpen(trace, r.events, own.conn.id, own.selected);
  }

  // ------------------------------------------------------------------- runs

  lemma StepStartsOpen(w: World, call: Call)
    requires Good(w) && AllStartOpen(w.trace) && IsGrounded(w.trace, w.client)
    ensures AllStartOpen(Step(w, call).trace) && IsGrounded(Step(w, call).trace, Step(w, call).client)
  {
    hide AllStartOpen, IsGrounded, IsKnown, Ask, CallDirect, Wire, Inv;
    assert w.trace + [] == w.trace;
    InheritedIsKnown(w.trace, w.client, w.net);
    var (own, net') := Dedicated(w.client, w.net);
    match call
    case RequestCall(request, luck) => AskStartsOpen(w.trace, w.client, w.net, request, luck);
    case DedicatedCall(verb, params, dial, luck) =>
      DirectStartsOpen(w.trace, own, net', verb, params, luck);
      GroundedStays(w.trace, Perform(w, call).events, w.client);
    case SessionNewCall(p, dial, inspect, create) =>
      DirectStartsOpen(w.trace, own, net', SessionNew, Wire(Extended(p)), create);
      InspectThenCreateStartsOpen(w.trace, own, net', Wire(Extended(p)), inspect, create);
      GroundedStays(w.trace, Perform(w, call).events, w.client);
  }

  lemma {:induction false} RunStartsOpen(w: World, calls: seq<Call>)
    requires Good(w) && AllStartOpen(w.trace) && IsGrounded(w.trace, w.client)
    ensures AllStartOpen(Run(w, calls).trace) && IsGrounded(Run(w, calls).trace, Run(w, calls).client)
    decreases |calls|
  {
    if calls != [] {
      hide AllStartOpen, IsGrounded, Good, Step;
      var before := calls[..|calls| - 1];
      RunStartsOpen(w, before);
      RunKeeps(w, before);
      StepStartsOpen(Run(w, before), calls[|calls| - 1]);
    }
  }

  /**
   In every run the first line on a connection is written without a version, as on
   every connection dialled in place of a retired one, or with a version that a
   connection of the client not retired by then has shown.
   */
  lemma FirstLineIsOpenOrInherited(origin: Option<Origin>, remote: bool, token: string, calls: seq<Call>, i: nat)
    requires i < |TraceOf(origin, remote, token, calls)|
    ensures StartsOpen(TraceOf(origin, remote, token, calls), i)
  {
    hide Run, StartsOpen;
    RunStartsOpen(Start(origin, remote, token), calls);
  }
}
