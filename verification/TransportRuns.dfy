/**
 Every run of the SDK control connection: any sequence of calls, any answers,
 silences, misaddressed replies and failed redials, any daemon restarts.
 */
module TransportRuns {
  import opened Wrappers
  import opened Versions
  import opened Compat
  import opened CompatRoundTrip
  import opened Transport

  // ------------------------------------------------- properties of one trace

  /** The events that retire a connection: a deadline, or another request's reply. */
  predicate Poisons(e: Event) {
    e.TimedOut? || (e.Read? && e.response.id != e.request.id)
  }

  /** The version an event shows its connection to be fixed on. */
  function Settles(e: Event): (v: Option<Version>) {
    if e.Wrote? then e.frozen
    else if e.Read? && e.accepted then Some(e.response.version)
    else None
  }

  /** What may come after `e`: nothing on a retired connection, nothing of another version on a fixed one. */
  predicate Follows(e: Event, f: Event) {
    e.conn == f.conn ==>
      && !Poisons(e)
      && (Settles(e).Some? && f.Wrote? ==> f.frozen == Settles(e))
      && (Settles(e).Some? && Settles(f).Some? ==> Settles(f) == Settles(e))
  }

  /** The rule every written line obeys. */
  predicate WellWritten(e: Event, origin: Option<Origin>) {
    e.Wrote? ==>
      && (origin.Some? ==> e.request.origin == origin)
      && (e.purpose.Probe? ==> e.request.verb == DaemonHealth && e.frozen.None?)
      && (e.frozen.None? ==> VersionIndependent(e.request.verb, e.request.params))
      && (e.frozen.Some? ==>
            || e.request.range == Exact(e.frozen.value)
            || (e.frozen.value == CURRENT && RangeForwarding(e.request.verb) && e.request.range.Contains(CURRENT)))
  }

  /** The rule every accepted reply obeys. */
  predicate WellRead(e: Event) {
    e.Read? && e.accepted ==>
      && e.response.id == e.request.id
      && e.request.range.Contains(e.response.version)
  }

  function Weight(e: Event, c: nat): (w: int) {
    if e.conn != c then 0
    else if e.Wrote? then 1
    else if e.Read? || e.Skipped? then -1
    else 0
  }

  /** Lines written on `c` whose reply line has not been read. */
  function Owed(trace: seq<Event>, c: nat): (n: int) {
    if trace == [] then 0 else Owed(trace[..|trace| - 1], c) + Weight(trace[|trace| - 1], c)
  }

  /** No reply is outstanding on `c`, unless its stream was reported over. */
  predicate Clear(trace: seq<Event>, c: nat) {
    Owed(trace, c) == 0 || Ended(c) in trace
  }

  ghost predicate Safe(trace: seq<Event>, origin: Option<Origin>) {
    && (forall i, j | 0 <= i < j < |trace| :: Follows(trace[i], trace[j]))
    && (forall i | 0 <= i < |trace| :: WellWritten(trace[i], origin) && WellRead(trace[i]))
    && (forall i | 0 <= i < |trace| && trace[i].Wrote? :: Clear(trace[..i], trace[i].conn))
  }

  /** What a client remembers of its connection agrees with what happened on it. */
  ghost predicate Live(trace: seq<Event>, conn: Conn, selected: Option<Version>) {
    && (forall e | e in trace && e.conn == conn.id ::
          (Poisons(e) ==> conn.poisoned) && (Settles(e).Some? ==> Settles(e) == selected))
    && (!conn.poisoned ==> Clear(trace, conn.id))
  }

  predicate Below(trace: seq<Event>, bound: nat) {
    forall e | e in trace :: e.conn < bound
  }

  predicate On(trace: seq<Event>, c: nat) {
    forall e | e in trace :: e.conn == c
  }

  // ----------------------------------------------------------------- growing

  lemma OwedStep(trace: seq<Event>, e: Event, c: nat)
    ensures Owed(trace + [e], c) == Owed(trace, c) + Weight(e, c)
  {
    assert (trace + [e])[..|trace|] == trace;
  }

  lemma {:induction false} OwedElsewhere(trace: seq<Event>, more: seq<Event>, c: nat)
    requires forall e | e in more :: e.conn != c
    ensures Owed(trace + more, c) == Owed(trace, c)
  {
    if more == [] {
      assert trace + more == trace;
    } else {
      var n := |more| - 1;
      OwedElsewhere(trace, more[..n], c);
      assert more[n] in more;
      assert trace + more == (trace + more[..n]) + [more[n]];
      OwedStep(trace + more[..n], more[n], c);
    }
  }

  lemma Extend(trace: seq<Event>, e: Event, origin: Option<Origin>)
    requires Safe(trace, origin)
    requires forall x | x in trace :: Follows(x, e)
    requires WellWritten(e, origin) && WellRead(e)
    requires e.Wrote? ==> Clear(trace, e.conn)
    ensures Safe(trace + [e], origin)
  {
    var t := trace + [e];
    forall i | 0 <= i < |t| && t[i].Wrote?
      ensures Clear(t[..i], t[i].conn)
    {
      assert t[..i] == trace[..i];
      assert trace[..|trace|] == trace;
    }
  }

  /** A connection nobody has used yet is live for any client. */
  lemma FreshIsLive(trace: seq<Event>, bound: nat, selected: Option<Version>)
    requires Below(trace, bound)
    ensures Live(trace, Conn(bound, false), selected)
  {
    OwedElsewhere([], trace, bound);
    assert [] + trace == trace;
  }

  /** Events on other connections do not disturb a client. */
  lemma LiveElsewhere(trace: seq<Event>, more: seq<Event>, conn: Conn, selected: Option<Version>)
    requires Live(trace, conn, selected)
    requires forall e | e in more :: e.conn != conn.id
    ensures Live(trace + more, conn, selected)
  {
    OwedElsewhere(trace, more, conn.id);
  }

  // ------------------------------------------------------------ one exchange

  /** Between the write and the read of one exchange: exactly one reply is outstanding on `c`. */
  ghost predicate Waiting(trace: seq<Event>, c: nat, selected: Option<Version>) {
    && (forall e | e in trace && e.conn == c ::
          !Poisons(e) && (Settles(e).Some? ==> Settles(e) == selected))
    && (Owed(trace, c) == 1 || Ended(c) in trace)
  }

  lemma WriteKeeps(trace: seq<Event>, c: Conn, selected: Option<Version>, request: Request, purpose: Purpose,
                   origin: Option<Origin>)
    requires Safe(trace, origin) && Live(trace, c, selected) && !c.poisoned
    requires WellWritten(Wrote(c.id, request, purpose, selected), origin)
    ensures var half := trace + [Wrote(c.id, request, purpose, selected)];
            Safe(half, origin) && Waiting(half, c.id, selected)
  {
    var wrote := Wrote(c.id, request, purpose, selected);
    Extend(trace, wrote, origin);
    OwedStep(trace, wrote, c.id);
  }

  /** The second half of an exchange, whatever it is. */
  lemma AnswerKeeps(half: seq<Event>, c: Conn, selected: Option<Version>, e: Event, after: Option<Version>,
                    origin: Option<Origin>)
    requires Safe(half, origin) && Waiting(half, c.id, selected)
    requires e.conn == c.id && !e.Wrote? && WellRead(e)
    requires Settles(e).Some? ==> Settles(e) == after
    requires selected.Some? ==> after == selected
    requires Settles(e).None? ==> after == selected
    requires e.Read? || e.Skipped? || e.Ended? || c.poisoned
    requires Poisons(e) ==> c.poisoned
    ensures Safe(half + [e], origin) && Live(half + [e], c, after)
  {
    Extend(half, e, origin);
    OwedStep(half, e, c.id);
    if e.Ended? {
      assert (half + [e])[|half|] == Ended(c.id);
    }
  }

  /** One exchange keeps the trace safe and the client's memory true. */
  lemma ExchangeKeeps(trace: seq<Event>, c: Conn, remote: bool, selected: Option<Version>, request: Request,
                      purpose: Purpose, arrival: Arrival, origin: Option<Origin>)
    requires Safe(trace, origin) && Live(trace, c, selected)
    requires WellWritten(Wrote(c.id, request, purpose, selected), origin)
    ensures var x := Exchange(c, remote, selected, request, purpose, arrival);
            && Safe(trace + x.events, origin)
            && Live(trace + x.events, x.conn, x.selected)
            && On(x.events, c.id) && x.conn.id == c.id
  {
    hide Safe, Live, Waiting;
    var x := Exchange(c, remote, selected, request, purpose, arrival);
    if c.poisoned {
      assert trace + x.events == trace;
    } else {
      var half := trace + [x.events[0]];
      WriteKeeps(trace, c, selected, request, purpose, origin);
      AnswerKeeps(half, x.conn, selected, x.events[1], x.selected, origin);
      assert trace + x.events == half + [x.events[1]];
    }
  }

  // ------------------------------------------------------------ client calls

  /** A request pinned to `v` may be written on a connection fixed on `v`, and means what the caller asked. */
  lemma PinnedMayBeWritten(conn: nat, request: Request, v: Version, origin: Option<Origin>)
    requires origin.Some? ==> request.origin == origin
    requires request.range.Contains(v)
    ensures var p := Pin(request, v);
            p.Ok? ==>
              && WellWritten(Wrote(conn, p.value, Own, Some(v)), origin)
              && p.value.id == request.id && p.value.verb == request.verb
              && DowngradeParams(v, request.verb, request.params) == Ok(p.value.params)
  {
    hide VersionIndependent, TranslateRequest;
  }

  /** A negotiated request may be written under the version the client then has. */
  lemma NegotiatedMayBeWritten(client: Client, net: Net, request: Request, probe: Arrival)
    requires client.origin.Some? ==> request.origin == client.origin
    ensures var n := Negotiation(client, net, request, probe);
            n.request.Ok? ==>
              && WellWritten(Wrote(client.conn.id, n.request.value, Own, n.client.selected), client.origin)
              && n.request.value.id == request.id && n.request.value.verb == request.verb
              && DowngradeParams(if n.client.selected.Some? then n.client.selected.value else CURRENT,
                                 request.verb, request.params) == Ok(n.request.value.params)
  {
    hide Pin, VersionIndependent, Exchange, RequestId;
    var n := Negotiation(client, net, request, probe);
    if n.request.Ok? && n.client.selected.Some? {
      PinnedMayBeWritten(client.conn.id, request, n.client.selected.value, client.origin);
    }
  }

  lemma NegotiationKeeps(trace: seq<Event>, client: Client, net: Net, request: Request, probe: Arrival)
    requires Safe(trace, client.origin) && Live(trace, client.conn, client.selected)
    ensures var n := Negotiation(client, net, request, probe);
            && Safe(trace + n.events, client.origin)
            && Live(trace + n.events, n.client.conn, n.client.selected)
            && On(n.events, client.conn.id)
            && n.client.conn.id == client.conn.id && n.client.origin == client.origin
            && n.net.nextConn == net.nextConn
  {
    var n := Negotiation(client, net, request, probe);
    if n.events == [] {
      assert trace + n.events == trace;
    }
    var range := Narrow(request.range, WINDOW);
    if client.selected.None? && !VersionIndependent(request.verb, request.params) && range.Some? {
      var line := HealthProbe(range.value, client, net);
      ProbesAreVersionIndependent(line.params);
      ExchangeKeeps(trace, client.conn, client.remote, None, line, Probe, probe, client.origin);
    }
  }

  lemma TransactKeeps(trace: seq<Event>, client: Client, net: Net, request: Request, probe: Arrival, reply: Arrival)
    requires Safe(trace, client.origin) && Live(trace, client.conn, client.selected)
    ensures var r := Transact(client, net, request, probe, reply);
            && Safe(trace + r.events, client.origin)
            && Live(trace + r.events, r.client.conn, r.client.selected)
            && On(r.events, client.conn.id)
            && r.client.conn.id == client.conn.id && r.client.origin == client.origin
            && r.net.nextConn == net.nextConn
  {
    hide Safe, Live, Negotiation, Exchange;
    var marked := WithOrigin(request, client.origin);
    var n := Negotiation(client, net, marked, probe);
    NegotiationKeeps(trace, client, net, marked, probe);
    if n.request.Ok? {
      NegotiatedMayBeWritten(client, net, marked, probe);
      var x := Exchange(n.client.conn, n.client.remote, n.client.selected, n.request.value, Own, reply);
      ExchangeKeeps(trace + n.events, n.client.conn, n.client.remote, n.client.selected, n.request.value, Own,
                    reply, client.origin);
      assert trace + (n.events + x.events) == (trace + n.events) + x.events;
    }
  }

  /** What holds between calls: the trace is safe and the client's memory of its connection is true. */
  ghost predicate Inv(trace: seq<Event>, client: Client, net: Net) {
    && Safe(trace, client.origin)
    && Live(trace, client.conn, client.selected)
    && Below(trace, net.nextConn) && client.conn.id < net.nextConn
  }

  lemma AskKeeps(trace: seq<Event>, client: Client, net: Net, request: Request, luck: Luck)
    requires Inv(trace, client, net)
    ensures var r := Ask(client, net, request, luck);
            && Inv(trace + r.events, r.client, r.net)
            && r.client.origin == client.origin
            && r.net.nextConn >= net.nextConn
            && (forall e | e in r.events :: e.conn == client.conn.id || e.conn >= net.nextConn)
            && r.client.conn.id in {client.conn.id, net.nextConn}
  {
    var (renewed, net', failed) := Replaced(client, net, luck.dial);
    if client.conn.poisoned && luck.dial.None? {
      FreshIsLive(trace, net.nextConn, None);
    }
    if failed.Some? {
      assert trace + [] == trace;
    } else {
      TransactKeeps(trace, renewed, net', request, luck.probe, luck.reply);
    }
  }

  /** A call on a connection of its own leaves the caller's client as it was. */
  lemma DirectKeeps(trace: seq<Event>, client: Client, net: Net, verb: Method, params: Value, luck: Luck)
    requires Inv(trace, client, net)
    ensures var r := CallDirect(client, net, verb, params, luck);
            && Inv(trace + r.events, r.client, r.net)
            && r.client.origin == client.origin
            && r.net.nextConn >= net.nextConn
            && (forall e | e in r.events :: e.conn == client.conn.id || e.conn >= net.nextConn)
            && r.client.conn.id in {client.conn.id, net.nextConn}
  {
    var net' := net.(nextId := net.nextId + 1);
    AskKeeps(trace, client, net', Request(RequestId(verb, net), verb, params, WINDOW, None), luck);
  }

  lemma DedicatedKeeps(trace: seq<Event>, client: Client, net: Net)
    requires Inv(trace, client, net)
    ensures var (own, net') := Dedicated(client, net); Inv(trace, own, net') && own.conn.id == net.nextConn
  {
    FreshIsLive(trace, net.nextConn, InheritedVersion(client));
  }

  /** The caller's own connection is untouched by events on newer ones. */
  lemma CallerKeeps(trace: seq<Event>, more: seq<Event>, client: Client, net: Net, own: Client, net': Net)
    requires Inv(trace, client, net)
    requires Inv(trace + more, own, net') && own.origin == client.origin && net'.nextConn >= net.nextConn
    requires forall e | e in more :: e.conn >= net.nextConn
    ensures Inv(trace + more, client, net')
  {
    LiveElsewhere(trace, more, client.conn, client.selected);
  }

  // -------------------------------------------------------------------- runs

  /** One call of the SDK, with what the network does to it. */
  datatype Call =
    | RequestCall(request: Request, luck: Luck)
    | DedicatedCall(verb: Method, params: Value, dial: Option<ClientError>, luck: Luck)
    | SessionNewCall(creation: SessionNewParams, dial: Option<ClientError>, inspect: Luck, create: Luck)

  datatype World = World(client: Client, net: Net, trace: seq<Event>)

  function Perform(w: World, call: Call): (r: Called) {
    match call
    case RequestCall(request, luck) => Ask(w.client, w.net, request, luck)
    case DedicatedCall(verb, params, dial, luck) => CallDedicated(w.client, w.net, verb, params, dial, luck)
    case SessionNewCall(params, dial, inspect, create) =>
      CreateSession(w.client, w.net, params, dial, inspect, create)
  }

  function Step(w: World, call: Call): (w': World) {
    var r := Perform(w, call);
    World(r.client, r.net, w.trace + r.events)
  }

  /** The world after a sequence of calls. */
  function Run(w: World, calls: seq<Call>): (w': World) {
    if calls == [] then w else Step(Run(w, calls[..|calls| - 1]), calls[|calls| - 1])
  }

  /** A client just connected: nothing selected, nothing on the wire. */
  function Start(origin: Option<Origin>, remote: bool, token: string): (w: World) {
    World(Client(Conn(0, false), None, origin, remote), Net(1, 0, token), [])
  }

  ghost predicate Good(w: World) { Inv(w.trace, w.client, w.net) }

  lemma CallDedicatedKeeps(w: World, verb: Method, params: Value, dial: Option<ClientError>, luck: Luck)
    requires Good(w)
    ensures Good(Step(w, DedicatedCall(verb, params, dial, luck)))
    ensures Step(w, DedicatedCall(verb, params, dial, luck)).client == w.client
  {
    if dial.Some? {
      assert w.trace + [] == w.trace;
    } else {
      var (own, net') := Dedicated(w.client, w.net);
      DedicatedKeeps(w.trace, w.client, w.net);
      DirectKeeps(w.trace, own, net', verb, params, luck);
      var r := CallDirect(own, net', verb, params, luck);
      CallerKeeps(w.trace, r.events, w.client, w.net, r.client, r.net);
    }
  }

  /** The part of `session_new` that runs on the dedicated connection. */
  lemma InspectThenCreateKeeps(trace: seq<Event>, own: Client, net: Net, params: Value, inspect: Luck, create: Luck)
    requires Inv(trace, own, net)
    ensures var i := CallDirect(own, net, HostInspect, SKIP_PROBES, inspect);
            var c := CallDirect(i.client, i.net, SessionNew, params, create);
            && Inv(trace + i.events, i.client, i.net)
            && Inv(trace + (i.events + c.events), c.client, c.net)
            && i.client.origin == own.origin && c.client.origin == own.origin
            && c.net.nextConn >= i.net.nextConn >= net.nextConn
            && (forall e | e in i.events + c.events :: e.conn == own.conn.id || e.conn >= net.nextConn)
  {
    hide Inv, CallDirect;
    var i := CallDirect(own, net, HostInspect, SKIP_PROBES, inspect);
    var c := CallDirect(i.client, i.net, SessionNew, params, create);
    DirectKeeps(trace, own, net, HostInspect, SKIP_PROBES, inspect);
    DirectKeeps(trace + i.events, i.client, i.net, SessionNew, params, create);
    assert (trace + i.events) + c.events == trace + (i.events + c.events);
  }

  lemma CreateSessionKeeps(w: World, p: SessionNewParams, dial: Option<ClientError>, inspect: Luck, create: Luck)
    requires Good(w)
    ensures Good(Step(w, SessionNewCall(p, dial, inspect, create)))
    ensures Step(w, SessionNewCall(p, dial, inspect, create)).client == w.client
  {
    hide Inv, CallDirect, Wire;
    var params := Wire(Extended(p));
    if dial.Some? {
      assert w.trace + [] == w.trace;
    } else {
      var (own, net') := Dedicated(w.client, w.net);
      DedicatedKeeps(w.trace, w.client, w.net);
      if !NeedsCapabilities(Extended(p)) {
        var r := CallDirect(own, net', SessionNew, params, create);
        DirectKeeps(w.trace, own, net', SessionNew, params, create);
        CallerKeeps(w.trace, r.events, w.client, w.net, r.client, r.net);
      } else {
        var i := CallDirect(own, net', HostInspect, SKIP_PROBES, inspect);
        var c := CallDirect(i.client, i.net, SessionNew, params, create);
        InspectThenCreateKeeps(w.trace, own, net', params, inspect, create);
        CallerKeeps(w.trace, i.events, w.client, w.net, i.client, i.net);
        CallerKeeps(w.trace, i.events + c.events, w.client, w.net, c.client, c.net);
      }
    }
  }

  lemma StepKeeps(w: World, call: Call)
    requires Good(w)
    ensures Good(Step(w, call))
  {
    match call
    case RequestCall(request, luck) => AskKeeps(w.trace, w.client, w.net, request, luck);
    case DedicatedCall(verb, params, dial, luck) => CallDedicatedKeeps(w, verb, params, dial, luck);
    case SessionNewCall(params, dial, inspect, create) => CreateSessionKeeps(w, params, dial, inspect, create);
  }

  lemma {:induction false} RunKeeps(w: World, calls: seq<Call>)
    requires Good(w)
    ensures Good(Run(w, calls))
  {
    if calls != [] {
      RunKeeps(w, calls[..|calls| - 1]);
      StepKeeps(Run(w, calls[..|calls| - 1]), calls[|calls| - 1]);
    }
  }

  /** The events of every run from a fresh client. */
  function TraceOf(origin: Option<Origin>, remote: bool, token: string, calls: seq<Call>): (trace: seq<Event>) {
    Run(Start(origin, remote, token), calls).trace
  }

  lemma EveryRunIsSafe(origin: Option<Origin>, remote: bool, token: string, calls: seq<Call>)
    ensures Safe(TraceOf(origin, remote, token, calls), origin)
  {
    RunKeeps(Start(origin, remote, token), calls);
    OriginIsFixed(Start(origin, remote, token), calls);
  }

  lemma {:induction false} OriginIsFixed(w: World, calls: seq<Call>)
    ensures Run(w, calls).client.origin == w.client.origin
  {
    if calls != [] {
      OriginIsFixed(w, calls[..|calls| - 1]);
    }
  }

  /** After a deadline or another request's reply, a connection is never written or read again. */
  lemma RetiredConnectionIsNeverUsedAgain(origin: Option<Origin>, remote: bool, token: string, calls: seq<Call>,
                                          i: nat, j: nat)
    requires i < j < |TraceOf(origin, remote, token, calls)|
    requires Poisons(TraceOf(origin, remote, token, calls)[i])
    ensures TraceOf(origin, remote, token, calls)[j].conn != TraceOf(origin, remote, token, calls)[i].conn
  {
    EveryRunIsSafe(origin, remote, token, calls);
    assert Follows(TraceOf(origin, remote, token, calls)[i], TraceOf(origin, remote, token, calls)[j]);
  }

  /**
   A request is written only when the reply line of every earlier request on
   that connection has been read, unless the stream was reported over: no late
   reply can be waiting for it.
   */
  lemma NoReplyIsOutstandingAtAWrite(origin: Option<Origin>, remote: bool, token: string, calls: seq<Call>, i: nat)
    requires i < |TraceOf(origin, remote, token, calls)|
    requires TraceOf(origin, remote, token, calls)[i].Wrote?
    ensures var trace := TraceOf(origin, remote, token, calls); Clear(trace[..i], trace[i].conn)
  {
    EveryRunIsSafe(origin, remote, token, calls);
  }

  /** The rule of every line a run writes: its version range, its origin, and what may precede selection. */
  lemma EveryWrittenLineIsWellWritten(origin: Option<Origin>, remote: bool, token: string, calls: seq<Call>, i: nat)
    requires i < |TraceOf(origin, remote, token, calls)|
    ensures WellWritten(TraceOf(origin, remote, token, calls)[i], origin)
    ensures WellRead(TraceOf(origin, remote, token, calls)[i])
  {
    EveryRunIsSafe(origin, remote, token, calls);
  }

  /** Once a connection shows a version, every later line and accepted reply on it has that version. */
  lemma VersionIsFixedPerConnection(origin: Option<Origin>, remote: bool, token: string, calls: seq<Call>,
                                    i: nat, j: nat)
    requires i < j < |TraceOf(origin, remote, token, calls)|
    requires TraceOf(origin, remote, token, calls)[i].conn == TraceOf(origin, remote, token, calls)[j].conn
    requires Settles(TraceOf(origin, remote, token, calls)[i]).Some?
    ensures var trace := TraceOf(origin, remote, token, calls);
            && (trace[j].Wrote? ==> trace[j].frozen == Settles(trace[i]))
            && (trace[j].Read? && trace[j].accepted ==> Some(trace[j].response.version) == Settles(trace[i]))
  {
    EveryRunIsSafe(origin, remote, token, calls);
    assert Follows(TraceOf(origin, remote, token, calls)[i], TraceOf(origin, remote, token, calls)[j]);
  }

  /**
   A daemon that negotiates inside the request's range, whatever it serves and
   whenever it restarted, executes a pinned request under the very version its
   reply is decoded with, or refuses it.
   */
  lemma PinnedRequestRunsUnderItsReplyVersion(origin: Option<Origin>, remote: bool, token: string, calls: seq<Call>,
                                              i: nat, j: nat, served: Range)
    requires i < j < |TraceOf(origin, remote, token, calls)|
    requires TraceOf(origin, remote, token, calls)[i].conn == TraceOf(origin, remote, token, calls)[j].conn
    requires TraceOf(origin, remote, token, calls)[i].Wrote?
    requires TraceOf(origin, remote, token, calls)[i].frozen.Some?
    requires !RangeForwarding(TraceOf(origin, remote, token, calls)[i].request.verb)
    requires TraceOf(origin, remote, token, calls)[j].Read? && TraceOf(origin, remote, token, calls)[j].accepted
    ensures var trace := TraceOf(origin, remote, token, calls);
            Negotiate(trace[i].request.range, served) in {None, Some(trace[j].response.version)}
  {
    var trace := TraceOf(origin, remote, token, calls);
    EveryWrittenLineIsWellWritten(origin, remote, token, calls, i);
    VersionIsFixedPerConnection(origin, remote, token, calls, i, j);
    PinnedNegotiation(trace[i].frozen.value, served);
  }

  // --------------------------------------------------------- what a call gives

  /**
   A payload is returned only out of a response that carries the request's own
   id, answers the line written just before it, was accepted under the version
   the client then has selected, and is decoded with that version.
   */
  lemma OkIsTheOwnReply(client: Client, net: Net, request: Request, luck: Luck)
    requires Ask(client, net, request, luck).result.Ok?
    ensures var r := Ask(client, net, request, luck);
            var n := |r.events|;
            && n >= 2 && r.events[n - 1].Read? && r.events[n - 2].Wrote?
            && r.events[n - 1].accepted && r.events[n - 1].response.id == request.id
            && r.events[n - 1].conn == r.events[n - 2].conn == r.client.conn.id
            && r.events[n - 1].request == r.events[n - 2].request && r.events[n - 1].request.verb == request.verb
            && r.client.selected == Some(r.events[n - 1].response.version) && !r.client.conn.poisoned
            && WINDOW.Contains(r.events[n - 1].response.version)
            && Decode(request.verb, r.events[n - 1].response) == r.result
  {
    hide Negotiation, TranslateResult;
    var (renewed, net', failed) := Replaced(client, net, luck.dial);
    NegotiationShape(renewed, net', WithOrigin(request, renewed.origin), luck.probe);
    NegotiatedMayBeWritten(renewed, net', WithOrigin(request, renewed.origin), luck.probe);
  }

  /** The events that carry the caller's own line. */
  predicate IsOwnLine(e: Event) { e.Wrote? && e.purpose.Own? }

  /** An event of the health probe. */
  predicate IsProbing(e: Event) {
    (e.Wrote? ==> e.purpose.Probe? && e.request.verb == DaemonHealth) && (e.Read? ==> e.request.verb == DaemonHealth)
  }

  predicate Probing(events: seq<Event>) { forall e | e in events :: IsProbing(e) }

  lemma NegotiationShape(client: Client, net: Net, request: Request, probe: Arrival)
    ensures var n := Negotiation(client, net, request, probe);
            && |n.events| <= 2 && Probing(n.events) && On(n.events, client.conn.id)
            && n.client.conn.id == client.conn.id
            && (n.request.Ok? && !client.conn.poisoned ==> !n.client.conn.poisoned)
  {
    hide VersionIndependent, Pin, RequestId;
  }

  /** The events of a call: at most one probe exchange, then at most one exchange of the request itself. */
  lemma TransactShape(client: Client, net: Net, request: Request, probe: Arrival, reply: Arrival)
    requires !client.conn.poisoned
    ensures var r := Transact(client, net, request, probe, reply);
            var n := Negotiation(client, net, WithOrigin(request, client.origin), probe);
            && r.client.conn.id == client.conn.id && On(r.events, client.conn.id)
            && Probing(n.events) && |n.events| <= 2
            && if n.request.Err? then r.events == n.events && r.result.Err?
               else
                 && |r.events| == |n.events| + 2 && r.events[..|n.events|] == n.events
                 && r.events[|n.events|] == Wrote(client.conn.id, n.request.value, Own, n.client.selected)
                 && !r.events[|n.events| + 1].Wrote?
  {
    hide Negotiation, UpgradeResult;
    NegotiationShape(client, net, WithOrigin(request, client.origin), probe);
  }

  /**
   A call writes its own line at most once, under its own id and method, with
   parameters that mean the caller's parameters in the version then selected;
   before it at most one health probe is written, and nothing after it.
   */
  lemma OwnLineIsWrittenAtMostOnce(client: Client, net: Net, request: Request, luck: Luck)
    ensures var r := Ask(client, net, request, luck);
            && |r.events| <= 4
            && (forall i, j | 0 <= i < |r.events| && 0 <= j < |r.events| ::
                  IsOwnLine(r.events[i]) && IsOwnLine(r.events[j]) ==> i == j)
            && (forall i | 0 <= i < |r.events| && IsOwnLine(r.events[i]) ::
                  && r.events[i].request.id == request.id && r.events[i].request.verb == request.verb
                  && i == |r.events| - 2
                  && var v := if r.events[i].frozen.Some? then r.events[i].frozen.value else CURRENT;
                     DowngradeParams(v, request.verb, request.params) == Ok(r.events[i].request.params))
            && ((forall i | 0 <= i < |r.events| :: !IsOwnLine(r.events[i])) ==> r.result.Err?)
  {
    hide Transact, Negotiation, DowngradeParams, WellWritten;
    var (renewed, net', failed) := Replaced(client, net, luck.dial);
    if failed.None? {
      var marked := WithOrigin(request, renewed.origin);
      TransactShape(renewed, net', request, luck.probe, luck.reply);
      NegotiatedMayBeWritten(renewed, net', marked, luck.probe);
      var r := Ask(client, net, request, luck);
      var k := |r.events| - 2;
      var n := Negotiation(renewed, net', marked, luck.probe);
      assert forall i | 0 <= i < |n.events| :: n.events[i] in n.events && r.events[i] == n.events[i];
      assert n.request.Ok? ==> IsOwnLine(r.events[k]);
    }
  }

  /**
   A version learned by a probe lies in the request's own range and in the
   window. The out-of-range refusal therefore needs a connection frozen by an
   earlier call, and then nothing is written.
   */
  lemma OutOfRangeNeedsAFrozenConnection(client: Client, net: Net, request: Request, probe: Arrival)
    ensures var n := Negotiation(client, net, request, probe);
            client.selected.None? && n.client.selected.Some? ==>
              request.range.Contains(n.client.selected.value) && WINDOW.Contains(n.client.selected.value)
    ensures client.selected.Some? ==> Negotiation(client, net, request, probe).events == []
    ensures client.selected.Some? && !request.range.Contains(client.selected.value) ==>
              Negotiation(client, net, request, probe).request == Err(OutOfRange(request.range, client.selected.value))
    ensures var n := Negotiation(client, net, request, probe);
            client.selected.None? && n.events != [] ==>
              forall e | e in n.events && e.Read? && e.accepted :: request.range.Contains(e.response.version)
  {
    hide Pin, VersionIndependent, RequestId;
  }

  /** Whether an event is a capability answer that advertises request keys. */
  predicate AdvertisesKeys(e: Event) {
    && e.Read? && e.accepted && e.request.verb == HostInspect
    && e.response.body.Success? && Advertises(e.response.body.value, RequestIdSupported)
  }

  predicate CarriesKey(e: Event) {
    e.Wrote? && e.request.verb == SessionNew && FieldOf(e.request.params, ClientRequestId).Some?
  }

  /** Without a key the wire parameters hold none, in any version. */
  lemma UnkeyedParamsCarryNoKey(p: SessionNewParams, v: Version)
    requires p.clientRequestId.None?
    ensures var sent := DowngradeParams(v, SessionNew, Wire(p));
            sent.Ok? ==> FieldOf(sent.value, ClientRequestId).None?
  {
    hide Wire, Undefined;
  }

  /** A `session.new` call carries a key at most in its own line. */
  lemma KeyIsInTheOwnLine(client: Client, net: Net, p: SessionNewParams, luck: Luck)
    requires !client.conn.poisoned
    ensures var r := CallDirect(client, net, SessionNew, Wire(p), luck);
            && On(r.events, client.conn.id)
            && (forall j | 0 <= j < |r.events| && CarriesKey(r.events[j]) ::
                  j == |r.events| - 2 && p.clientRequestId.Some?)
  {
    hide Transact, Negotiation, Wire, DowngradeParams, RequestId;
    var request := Request(RequestId(SessionNew, net), SessionNew, Wire(p), WINDOW, None);
    var net' := net.(nextId := net.nextId + 1);
    TransactShape(client, net', request, luck.probe, luck.reply);
    OwnLineIsWrittenAtMostOnce(client, net', request, luck);
    var r := CallDirect(client, net, SessionNew, Wire(p), luck);
    var n := Negotiation(client, net', WithOrigin(request, client.origin), luck.probe);
    assert forall i | 0 <= i < |n.events| :: n.events[i] in n.events && r.events[i] == n.events[i];
    forall j | 0 <= j < |r.events| && CarriesKey(r.events[j])
      ensures j == |r.events| - 2 && p.clientRequestId.Some?
    {
      assert IsOwnLine(r.events[j]);
      if p.clientRequestId.None? {
        UnkeyedParamsCarryNoKey(p, if r.events[j].frozen.Some? then r.events[j].frozen.value else CURRENT);
      }
    }
  }

  /** A successful inspection ends in the answer it returns and leaves the connection usable. */
  lemma InspectionIsItsAnswer(client: Client, net: Net, luck: Luck)
    requires !client.conn.poisoned
    ensures var r := CallDirect(client, net, HostInspect, SKIP_PROBES, luck);
            && On(r.events, client.conn.id)
            && (forall e | e in r.events :: !CarriesKey(e))
            && (r.result.Ok? ==>
                  && |r.events| > 0 && !r.client.conn.poisoned && r.client.conn.id == client.conn.id
                  && var last := r.events[|r.events| - 1];
                     last.Read? && last.accepted && last.request.verb == HostInspect
                     && last.response.body == Success(r.result.value))
  {
    InspectionCarriesNoKey(client, net, luck);
    InspectionStaysOnItsConnection(client, net, luck);
    hide CallDirect, CarriesKey, Decode, On;
    var request := Request(RequestId(HostInspect, net), HostInspect, SKIP_PROBES, WINDOW, None);
    var net' := net.(nextId := net.nextId + 1);
    var r := Ask(client, net', request, luck);
    InspectionAsks(client, net, luck);
    if r.result.Ok? {
      hide Ask;
      OkIsTheOwnReply(client, net', request, luck);
      InspectionIsNotTranslated(r.events[|r.events| - 1].response);
    }
  }

  lemma InspectionAsks(client: Client, net: Net, luck: Luck)
    ensures CallDirect(client, net, HostInspect, SKIP_PROBES, luck) ==
            Ask(client, net.(nextId := net.nextId + 1),
                Request(RequestId(HostInspect, net), HostInspect, SKIP_PROBES, WINDOW, None), luck)
  {
    hide Ask, RequestId;
  }

  lemma InspectionStaysOnItsConnection(client: Client, net: Net, luck: Luck)
    requires !client.conn.poisoned
    ensures var r := CallDirect(client, net, HostInspect, SKIP_PROBES, luck);
            On(r.events, client.conn.id) && r.client.conn.id == client.conn.id
  {
    hide Transact, Negotiation, RequestId, On;
    NotReplaced(client, net, luck);
    var request := Request(RequestId(HostInspect, net), HostInspect, SKIP_PROBES, WINDOW, None);
    TransactShape(client, net.(nextId := net.nextId + 1), request, luck.probe, luck.reply);
  }

  /** A usable connection is asked as it is. */
  lemma NotReplaced(client: Client, net: Net, luck: Luck)
    requires !client.conn.poisoned
    ensures var next := net.(nextId := net.nextId + 1);
            Replaced(client, next, luck.dial) == (client, next, None)
  {
  }

  /** No version translates the answer of an inspection. */
  lemma InspectionIsNotTranslated(response: Response)
    ensures Decode(HostInspect, response).Ok? ==> response.body == Success(Decode(HostInspect, response).value)
  {
  }

  lemma InspectionCarriesNoKey(client: Client, net: Net, luck: Luck)
    requires !client.conn.poisoned
    ensures forall e | e in CallDirect(client, net, HostInspect, SKIP_PROBES, luck).events :: !CarriesKey(e)
  {
    hide Transact, Negotiation, RequestId, DowngradeParams, FieldOf;
    var request := Request(RequestId(HostInspect, net), HostInspect, SKIP_PROBES, WINDOW, None);
    var net' := net.(nextId := net.nextId + 1);
    TransactShape(client, net', request, luck.probe, luck.reply);
    OwnLineIsWrittenAtMostOnce(client, net', request, luck);
    var r := CallDirect(client, net, HostInspect, SKIP_PROBES, luck);
    var n := Negotiation(client, net', WithOrigin(request, client.origin), luck.probe);
    assert forall i | 0 <= i < |n.events| :: n.events[i] in n.events && r.events[i] == n.events[i];
  }

  /** A key leaves only in one line, on a connection whose daemon has just advertised that it honors keys. */
  lemma KeyIsSentOnlyAfterAnAdvertisement(client: Client, net: Net, p: SessionNewParams,
                                          dial: Option<ClientError>, inspect: Luck, create: Luck, j: nat)
    requires j < |CreateSession(client, net, p, dial, inspect, create).events|
    requires CarriesKey(CreateSession(client, net, p, dial, inspect, create).events[j])
    ensures var events := CreateSession(client, net, p, dial, inspect, create).events;
            && (exists i | 0 <= i < j :: AdvertisesKeys(events[i]) && events[i].conn == events[j].conn)
            && (forall k | 0 <= k < |events| && CarriesKey(events[k]) :: k == j)
  {
    hide CallDirect, Wire;
    var params := Extended(p);
    var (own, net') := Dedicated(client, net);
    var events := CreateSession(client, net, p, dial, inspect, create).events;
    KeyIsInTheOwnLine(own, net', params, create);
    InspectionIsItsAnswer(own, net', inspect);
    var i := CallDirect(own, net', HostInspect, SKIP_PROBES, inspect);
    if i.result.Ok? {
      KeyIsInTheOwnLine(i.client, i.net, params, create);
    }
    var n := |i.events|;
    assert forall k | 0 <= k < |events| && k < n :: events[k] == i.events[k] && i.events[k] in i.events;
    var c := CallDirect(i.client, i.net, SessionNew, Wire(params), create);
    assert events == i.events + c.events;
    assert events[n - 1] in i.events && events[j] == c.events[j - n] && c.events[j - n] in c.events;
    assert AdvertisesKeys(events[n - 1]);
  }

  // ------------------------------------------------------------ subscriptions

  /** Subscribing keeps every property of the trace, and the stream is fixed on the version its connection shows. */
  lemma SubscribingKeeps(w: World, request: Request, probe: Arrival, reply: Arrival)
    requires Good(w)
    ensures var s := SubscribeWith(w.client, w.net, request, probe, reply);
            && Safe(w.trace + s.events, w.client.origin)
            && (s.result.Ok? ==>
                  && s.result.value.conn == w.client.conn.id
                  && forall e | e in w.trace + s.events && e.conn == s.result.value.conn ::
                       !Poisons(e) && Settles(e) in {None, Some(s.result.value.selected)})
  {
    hide Safe, Transact;
    TransactKeeps(w.trace, w.client, w.net, request, probe, reply);
    SubscriptionIsLive(w.client, w.net, request, probe, reply);
  }

  lemma SubscriptionIsLive(client: Client, net: Net, request: Request, probe: Arrival, reply: Arrival)
    ensures var t := Transact(client, net, request, probe, reply);
            t.result.Ok? ==> !t.client.conn.poisoned && t.client.selected.Some?
  {
    hide Negotiation;
  }

  /** A decoded event is one stamped with the version of its stream, in its current shape. */
  lemma DecodedEventHasTheStreamVersion(s: Subscription, remote: bool, line: StreamLine, given: Delivered)
    ensures DecodeEvent(s, remote, line) == Ok(given) <==>
            && line.EventLine? && line.version == s.selected == given.version && line.name == given.name
            && UpgradeEvent(s.selected, line.name, line.payload) == Ok(given.payload)
    ensures line.EventLine? && line.version != s.selected ==>
              DecodeEvent(s, remote, line) == Err(Protocol(VersionMismatch))
  {
    hide UpgradeEvent;
  }

  /** An event sent to a stream of the previous version arrives as it was, but for what that version lacks. */
  lemma EventMeansTheSame(s: Subscription, remote: bool, name: EventName, payload: Value)
    requires DowngradeEvent(name, payload).Ok? && DowngradeEvent(name, payload).value.Some?
    requires s.selected == PREVIOUS
    ensures var line := EventLine(PREVIOUS, name, DowngradeEvent(name, payload).value.value);
            && DecodeEvent(s, remote, line) == Ok(Delivered(PREVIOUS, name, ForgetEvent(name, payload)))
            && AdaptLine(s, remote, line) == Ok(EventLine(CURRENT, name, ForgetEvent(name, payload)))
  {
    hide TranslateEvent, DowngradeEvent, ForgetEvent;
    EventRoundTrip(name, payload);
  }

  /** The line handed out for `line` is a current-shape event, translated from one of the stream's version. */
  predicate IsCurrentEvent(s: Subscription, line: StreamLine, given: StreamLine) {
    && given.EventLine? && given.version == CURRENT
    && line.EventLine? && line.version == s.selected && line.name == given.name
    && UpgradeEvent(s.selected, line.name, line.payload) == Ok(given.payload)
  }

  /** What `next_line` documents of every line it hands out. */
  ghost predicate LinesAreCurrentEvents(s: Subscription, remote: bool) {
    forall line: StreamLine | AdaptLine(s, remote, line).Ok? ::
      IsCurrentEvent(s, line, AdaptLine(s, remote, line).value)
  }

  /** `next_line` hands out only current-shape events exactly on a stream of an older version. */
  lemma LinesAreCurrentIffOlder(s: Subscription, remote: bool)
    ensures LinesAreCurrentEvents(s, remote) <==> s.selected != CURRENT
  {
    if s.selected == CURRENT {
      UncheckedLine(s, remote);
      assert !IsCurrentEvent(s, JunkLine(""), AdaptLine(s, remote, JunkLine("")).value);
    }
  }

  /** On the current version an event of another version, or any text, is handed out as it came. */
  lemma UncheckedLine(s: Subscription, remote: bool)
    requires s.selected == CURRENT
    ensures AdaptLine(s, remote, EventLine(PREVIOUS, AgentState, Null)) == Ok(EventLine(PREVIOUS, AgentState, Null))
    ensures AdaptLine(s, remote, JunkLine("")) == Ok(JunkLine(""))
    ensures DecodeEvent(s, remote, EventLine(PREVIOUS, AgentState, Null)).Err?
  {
  }
}
