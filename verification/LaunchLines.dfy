/**
 A launch on the wire: the attempts of `Launch.CreateSession`, each a whole
 `session.new` call of the SDK on connections of its own
 (crates/assistant/src/launch.rs:391-449, crates/client/src/transport.rs:840-876).
 */
module LaunchLines {
  import opened Wrappers
  import opened Versions
  import opened Compat
  import opened CompatRoundTrip
  import opened Transport
  import opened TransportRuns
  import opened TransportAnswers
  import opened Budgets
  import Launch

  /** The event writes a `session.new` request. */
  predicate IsCreation(e: Event) {
    e.Wrote? && e.request.verb == SessionNew
  }

  /** The parameters are those of the launch, in the shape of some version. */
  ghost predicate IsSentFor(p: SessionNewParams, params: Value) {
    exists v: Version :: DowngradeParams(v, SessionNew, Wire(Extended(p))) == Ok(params)
  }

  function Creations(events: seq<Event>): (n: nat) {
    if events == [] then 0
    else Creations(events[..|events| - 1]) + if IsCreation(events[|events| - 1]) then 1 else 0
  }

  lemma {:induction false} CreationsConcat(a: seq<Event>, b: seq<Event>)
    ensures Creations(a + b) == Creations(a) + Creations(b)
    decreases |b|
  {
    if b == [] {
      assert a + b == a;
    } else {
      var n := |b| - 1;
      CreationsConcat(a, b[..n]);
      assert (a + b)[..|a + b| - 1] == a + b[..n];
    }
  }

  predicate CreatesOnce(events: seq<Event>) {
    forall i, j | 0 <= i < |events| && 0 <= j < |events| :: IsCreation(events[i]) && IsCreation(events[j]) ==> i == j
  }

  /** Where no two positions hold a creation, at most one does. */
  lemma {:induction false} AtMostOneCreation(events: seq<Event>)
    requires CreatesOnce(events)
    ensures Creations(events) <= 1
    ensures (forall i | 0 <= i < |events| :: !IsCreation(events[i])) ==> Creations(events) == 0
    decreases |events|
  {
    if events != [] {
      AtMostOneCreation(events[..|events| - 1]);
    }
  }

  // ------------------------------------------------------------ one call

  /** A creation call writes its creation line at most once, second to last. */
  lemma DirectCreation(client: Client, net: Net, p: SessionNewParams, luck: Luck)
    requires !client.conn.poisoned
    ensures var events := CallDirect(client, net, SessionNew, Wire(Extended(p)), luck).events;
            forall j | 0 <= j < |events| && IsCreation(events[j]) ::
              j == |events| - 2 && IsSentFor(p, events[j].request.params)
  {
    hide Transact, Negotiation, Wire, DowngradeParams, RequestId;
    var params := Wire(Extended(p));
    var request := Request(RequestId(SessionNew, net), SessionNew, params, WINDOW, None);
    var net' := net.(nextId := net.nextId + 1);
    TransactShape(client, net', request, luck.probe, luck.reply);
    OwnLineIsWrittenAtMostOnce(client, net', request, luck);
    var r := CallDirect(client, net, SessionNew, params, luck);
    var n := Negotiation(client, net', WithOrigin(request, client.origin), luck.probe);
    assert forall i | 0 <= i < |n.events| :: n.events[i] in n.events && r.events[i] == n.events[i];
    forall j | 0 <= j < |r.events| && IsCreation(r.events[j])
      ensures j == |r.events| - 2 && IsSentFor(p, r.events[j].request.params)
    {
      assert IsOwnLine(r.events[j]);
    }
  }

  lemma InspectionCreatesNothing(client: Client, net: Net, luck: Luck)
    requires !client.conn.poisoned
    ensures forall e | e in CallDirect(client, net, HostInspect, SKIP_PROBES, luck).events :: !IsCreation(e)
  {
    hide Transact, Negotiation, RequestId, DowngradeParams;
    var request := Request(RequestId(HostInspect, net), HostInspect, SKIP_PROBES, WINDOW, None);
    var net' := net.(nextId := net.nextId + 1);
    TransactShape(client, net', request, luck.probe, luck.reply);
    OwnLineIsWrittenAtMostOnce(client, net', request, luck);
    var r := CallDirect(client, net, HostInspect, SKIP_PROBES, luck);
    var n := Negotiation(client, net', WithOrigin(request, client.origin), luck.probe);
    assert forall i | 0 <= i < |n.events| :: n.events[i] in n.events && r.events[i] == n.events[i];
  }

  /** One `session_new`: one creation line at most, with the caller's parameters. */
  lemma CallCreation(client: Client, net: Net, p: SessionNewParams, dial: Option<ClientError>,
                     inspect: Luck, create: Luck)
    ensures var events := CreateSession(client, net, p, dial, inspect, create).events;
            && CreatesOnce(events)
            && (forall j | 0 <= j < |events| && IsCreation(events[j]) :: IsSentFor(p, events[j].request.params))
  {
    hide CallDirect, Wire, IsSentFor;
    var (own, net') := Dedicated(client, net);
    DirectCreation(own, net', p, create);
    InspectionCreatesNothing(own, net', inspect);
    InspectionIsItsAnswer(own, net', inspect);
    var i := CallDirect(own, net', HostInspect, SKIP_PROBES, inspect);
    if i.result.Ok? {
      DirectCreation(i.client, i.net, p, create);
    }
    var events := CreateSession(client, net, p, dial, inspect, create).events;
    var n := |i.events|;
    assert forall k | 0 <= k < n :: i.events[k] in i.events;
  }

  /** With a key the parameters are sent as they are: the previous version has no shape for them. */
  lemma KeyedParamsAreSentWhole(p: SessionNewParams, params: Value)
    requires p.clientRequestId.Some? && IsSentFor(p, params)
    ensures params == Wire(Extended(p)) && FieldOf(params, ClientRequestId).Some?
  {
    var whole := Wire(Extended(p));
    var v: Version :| DowngradeParams(v, SessionNew, whole) == Ok(params);
    assert !IsNull(FieldOf(whole, ClientRequestId));
    assert HasSessionNewOption(whole);
    hide HasSessionNewOption, Wire;
  }

  // ---------------------------------------------------------- the launch

  /**
   What one attempt meets: a failed connection, or the call; how long it would
   take, how late its timer fires, and how many events happen before it is cut off.
   */
  datatype Trip = Trip(connect: Option<ClientError>, origin: Option<Origin>, remote: bool,
                       dial: Option<ClientError>, inspect: Luck, create: Luck,
                       took: Duration, lag: Duration, seen: nat)

  /** The whole attempt if nothing cuts it off. */
  function Whole(net: Net, p: SessionNewParams, trip: Trip): (r: Called) {
    var client := Client(Conn(net.nextConn, false), None, trip.origin, trip.remote);
    if trip.connect.Some? then Called(client, net, [], Err(trip.connect.value))
    else CreateSession(client, net.(nextConn := net.nextConn + 1), p, trip.dial, trip.inspect, trip.create)
  }

  function AckOf(p: SessionNewParams): (ack: Option<U32>)
    requires p.inputAckTimeoutMs.Some? ==> p.inputAckTimeoutMs.value <= U32_MAX
  {
    if p.inputAckTimeoutMs.Some? then Some(p.inputAckTimeoutMs.value) else None
  }

  function FateOf(r: Called, trip: Trip): (f: Launch.Fate<Value>) {
    Launch.Fate(if r.result.Ok? then Ok(r.result.value) else Err(Launch.ClientFailure(r.result.error)),
                trip.took, trip.lag)
  }

  /** The events of an attempt bounded by `limit`: all of them, or those before it was cut off. */
  function Happened(events: seq<Event>, trip: Trip, limit: Option<Duration>): (s: seq<Event>)
    ensures s <= events
  {
    if limit.None? || trip.took <= limit.value || trip.seen > |events| then events else events[..trip.seen]
  }

  /** What the creation lines of a launch obey. */
  ghost predicate ObeysTheRules(p: SessionNewParams, events: seq<Event>) {
    forall j | 0 <= j < |events| && IsCreation(events[j]) ::
      && IsSentFor(p, events[j].request.params)
      && (p.clientRequestId.Some? ==>
            && events[j].request.params == Wire(Extended(p))
            && exists i | 0 <= i < j :: AdvertisesKeys(events[i]) && events[i].conn == events[j].conn)
  }

  lemma AttemptObeys(net: Net, p: SessionNewParams, trip: Trip, limit: Option<Duration>)
    ensures var events := Happened(Whole(net, p, trip).events, trip, limit);
            ObeysTheRules(p, events) && Creations(events) <= 1
  {
    hide CreateSession, Wire, IsSentFor, AdvertisesKeys;
    var all := Whole(net, p, trip).events;
    var events := Happened(all, trip, limit);
    if trip.connect.None? {
      var client := Client(Conn(net.nextConn, false), None, trip.origin, trip.remote);
      var net' := net.(nextConn := net.nextConn + 1);
      CallCreation(client, net', p, trip.dial, trip.inspect, trip.create);
      forall j | 0 <= j < |events| && IsCreation(events[j]) && p.clientRequestId.Some?
        ensures events[j].request.params == Wire(Extended(p))
        ensures exists i | 0 <= i < j :: AdvertisesKeys(events[i]) && events[i].conn == events[j].conn
      {
        KeyedParamsAreSentWhole(p, all[j].request.params);
        KeyIsSentOnlyAfterAnAdvertisement(client, net', p, trip.dial, trip.inspect, trip.create, j);
        var i :| 0 <= i < j && AdvertisesKeys(all[i]) && all[i].conn == all[j].conn;
        assert AdvertisesKeys(events[i]) && events[i].conn == events[j].conn;
      }
    }
    AtMostOneCreation(events);
  }

  lemma BothObey(p: SessionNewParams, a: seq<Event>, b: seq<Event>)
    requires ObeysTheRules(p, a) && ObeysTheRules(p, b)
    ensures ObeysTheRules(p, a + b)
  {
    hide Wire, IsSentFor, AdvertisesKeys;
    var all := a + b;
    forall j | 0 <= j < |all| && IsCreation(all[j]) && p.clientRequestId.Some?
      ensures exists i | 0 <= i < j :: AdvertisesKeys(all[i]) && all[i].conn == all[j].conn
    {
      if j < |a| {
        var i :| 0 <= i < j && AdvertisesKeys(a[i]) && a[i].conn == a[j].conn;
        assert AdvertisesKeys(all[i]) && all[i].conn == all[j].conn;
      } else {
        var i :| 0 <= i < j - |a| && AdvertisesKeys(b[i]) && b[i].conn == b[j - |a|].conn;
        assert AdvertisesKeys(all[|a| + i]) && all[|a| + i].conn == all[j].conn;
      }
    }
  }

  // ------------------------------------------------------------ the retry

  /** The capability answer was read and accepted, and is not an object. */
  predicate CapabilitiesAreUnreadable(events: seq<Event>) {
    events != [] &&
    var last := events[|events| - 1];
    && last.Read? && last.accepted && last.request.verb == HostInspect
    && last.response.body.Success? && !last.response.body.value.Object?
  }

  /** A failed dial says nothing of the daemon, unless this process is out of descriptors or something was decided. */
  predicate DialStaysUnknown(e: ClientError) {
    !(e.FileDescriptorsExhausted? || e.Protocol? || e.DaemonProtocolTooOld? || e.VersionTranslation?)
  }

  /**
   Told from the wire, an attempt ends without it being known what the daemon did: it
   could not connect, its last line was not answered under its own id, or the
   capabilities could not be read.
   */
  predicate StaysUnknown(trip: Trip, events: seq<Event>) {
    if trip.connect.Some? then DialStaysUnknown(trip.connect.value)
    else if trip.dial.Some? then DialStaysUnknown(trip.dial.value)
    else !IsAnswered(events) || CapabilitiesAreUnreadable(events)
  }

  /** The error of an attempt is unknown to the launch exactly when the wire shows no decision. */
  lemma AttemptEnds(net: Net, p: SessionNewParams, trip: Trip, r: Called)
    requires r == Whole(net, p, trip)
    ensures StaysUnknown(trip, r.events) <==> IsUnknown(r)
  {
    hide CallDirect, Wire, CapabilitiesAreUnreadable, IsAnswered, NeedsCapabilities;
    if trip.connect.None? && trip.dial.None? {
      var client := Client(Conn(net.nextConn, false), None, trip.origin, trip.remote);
      var (own, net') := Dedicated(client, net.(nextConn := net.nextConn + 1));
      if NeedsCapabilities(Extended(p)) {
        CheckedEnds(own, net', p, trip);
      } else {
        DirectEnds(own, net', SessionNew, Wire(Extended(p)), trip.create);
        OpenCallWrites(own, net', SessionNew, Wire(Extended(p)), trip.create);
      }
    }
  }

  predicate IsUnknown(r: Called) {
    r.result.Err? && Launch.OutcomeUnknown(Launch.ClientFailure(r.result.error))
  }

  /** A creation behind a capability check, by the call that ended it. */
  lemma CheckedEnds(own: Client, net: Net, p: SessionNewParams, trip: Trip)
    requires !own.conn.poisoned && own.selected.None?
    ensures var i := CallDirect(own, net, HostInspect, SKIP_PROBES, trip.inspect);
            var c := CallDirect(i.client, i.net, SessionNew, Wire(Extended(p)), trip.create);
            && i.events != []
            && (i.result.Err? ==> (IsUnknown(i) <==> !IsAnswered(i.events) || CapabilitiesAreUnreadable(i.events)))
            && (i.result.Ok? ==> IsAnswered(i.events))
            && (i.result.Ok? ==> (CapabilitiesAreUnreadable(i.events) <==> !i.result.value.Object?))
            && (i.result.Ok? && i.result.value.Object? ==>
                  var all := i.events + c.events;
                  IsUnknown(c) <==> !IsAnswered(all) || CapabilitiesAreUnreadable(all))
  {
    hide CallDirect, Wire;
    DirectEnds(own, net, HostInspect, SKIP_PROBES, trip.inspect);
    OpenCallWrites(own, net, HostInspect, SKIP_PROBES, trip.inspect);
    InspectionIsItsAnswer(own, net, trip.inspect);
    var i := CallDirect(own, net, HostInspect, SKIP_PROBES, trip.inspect);
    if i.result.Ok? {
      DirectEnds(i.client, i.net, SessionNew, Wire(Extended(p)), trip.create);
      var c := CallDirect(i.client, i.net, SessionNew, Wire(Extended(p)), trip.create);
      if c.events == [] {
        assert i.events + c.events == i.events;
      } else {
        assert (i.events + c.events)[|i.events + c.events| - 1] == c.events[|c.events| - 1];
      }
    }
  }

  /** How a call ends, in the launch's terms. */
  lemma DirectEnds(client: Client, net: Net, verb: Method, params: Value, luck: Luck)
    requires !client.conn.poisoned
    ensures var r := CallDirect(client, net, verb, params, luck);
            && (r.result.Ok? ==> IsAnswered(r.events) && r.events[|r.events| - 1].request.verb == verb)
            && (r.events == [] ==> r.result.Err? && !Launch.OutcomeUnknown(Launch.ClientFailure(r.result.error)))
            && (r.events != [] && r.result.Err? ==>
                  (Launch.OutcomeUnknown(Launch.ClientFailure(r.result.error)) <==> !IsAnswered(r.events)))
            && (verb == SessionNew && r.events != [] ==> !CapabilitiesAreUnreadable(r.events))
            && (verb == HostInspect && r.result.Err? ==> !CapabilitiesAreUnreadable(r.events))
  {
    hide Ask, RequestId;
    var r := CallDirect(client, net, verb, params, luck);
    var request := Request(RequestId(verb, net), verb, params, WINDOW, None);
    var next := net.(nextId := net.nextId + 1);
    AskEnds(client, next, request, luck, r);
    AskVerbs(client, next, request, luck, r);
  }

  /** The last line a call reads answers its own verb or the health probe; an accepted inspection succeeds. */
  lemma AskVerbs(client: Client, net: Net, request: Request, luck: Luck, r: Called)
    requires !client.conn.poisoned && r == Ask(client, net, request, luck) && request.range == WINDOW
    ensures forall e | e in r.events && e.Read? :: e.request.verb in {request.verb, DaemonHealth}
    ensures request.verb == HostInspect && r.result.Err? ==> !CapabilitiesAreUnreadable(r.events)
  {
    hide Exchange, Negotiation, RequestId, DowngradeParams, UpgradeResult;
    var marked := WithOrigin(request, client.origin);
    NegotiationShape(client, net, marked, luck.probe);
    NegotiatedMayBeWritten(client, net, marked, luck.probe);
    NegotiatedRange(client, net, marked, luck.probe);
    var n := Negotiation(client, net, marked, luck.probe);
    assert n.events != [] ==> n.events[|n.events| - 1] in n.events;
    if n.request.Ok? {
      ExchangeEnds(n.client.conn, n.client.remote, n.client.selected, n.request.value, Own, luck.reply);
      if request.verb == HostInspect {
        AcceptedInspection(n.client.conn, n.client.remote, n.client.selected, n.request.value, luck.reply);
      }
    }
  }

  /** What is written allows no version the request does not. */
  lemma NegotiatedRange(client: Client, net: Net, request: Request, probe: Arrival)
    ensures var n := Negotiation(client, net, request, probe);
            n.request.Ok? ==> forall u: Version :: n.request.value.range.Contains(u) ==> request.range.Contains(u)
  {
    hide Exchange, VersionIndependent, DowngradeParams, RequestId;
  }

  lemma AcceptedInspection(c: Conn, remote: bool, selected: Option<Version>, request: Request, arrival: Arrival)
    requires !c.poisoned && request.verb == HostInspect
    requires forall u: Version :: request.range.Contains(u) ==> WINDOW.Contains(u)
    ensures var x := Exchange(c, remote, selected, request, Own, arrival);
            CapabilitiesAreUnreadable(x.events) ==> x.result.Ok?
  {
    var x := Exchange(c, remote, selected, request, Own, arrival);
    if CapabilitiesAreUnreadable(x.events) {
      var response := x.events[1].response;
      assert WINDOW.Contains(response.version);
      assert UpgradeResult(response.version, HostInspect, response.body.value).Ok?;
    }
  }

  /** A call on a connection without a version always writes something. */
  lemma OpenCallWrites(client: Client, net: Net, verb: Method, params: Value, luck: Luck)
    requires !client.conn.poisoned && client.selected.None?
    ensures CallDirect(client, net, verb, params, luck).events != []
  {
    hide RequestId, DowngradeParams, VersionIndependent, Decode;
  }

  /**
   One launch on the wire: without a key at most one creation line, with one at
   most two, both with the launch's own parameters and each after its own
   connection advertised that keys are honoured.
   */
  method LaunchOnTheWire(net: Net, p: SessionNewParams, explicit: Option<Duration>, first: Trip, second: Trip)
    returns (result: Result<Value, Launch.LaunchError>, events: seq<Event>,
             attempts: seq<Launch.Attempt<SessionNewParams>>)
    requires p.inputAckTimeoutMs.Some? ==> p.inputAckTimeoutMs.value <= U32_MAX
    ensures 1 <= |attempts| <= if p.clientRequestId.Some? then 2 else 1
    ensures var once := Whole(net, p, first);
            events == Happened(once.events, first, attempts[0].limit)
                      + if |attempts| == 1 then []
                        else Happened(Whole(once.net, p, second).events, second, attempts[1].limit)
    ensures Creations(events) <= |attempts|
    ensures ObeysTheRules(p, events)
    // A keyed launch retries exactly an attempt that was cut off or whose outcome stays unknown.
    ensures var deadline := SessionNewRequestDeadline(AckOf(p), explicit);
            p.clientRequestId.Some? && first.lag == 0 && deadline >= 2 ==>
              (|attempts| == 2 <==>
                 first.took > FirstShare(deadline) || StaysUnknown(first, Whole(net, p, first).events))
  {
    hide Whole, Happened, ObeysTheRules, Creations, SessionNewRequestDeadline, StaysUnknown, Launch.OutcomeUnknown;
    var ack := AckOf(p);
    var once := Whole(net, p, first);
    AttemptEnds(net, p, first, once);
    var again := Whole(once.net, p, second);
    var used, took;
    result, attempts, used, took :=
      Launch.CreateSession(p.clientRequestId, p, ack, explicit, FateOf(once, first), FateOf(again, second));
    events := Happened(once.events, first, attempts[0].limit);
    AttemptObeys(net, p, first, attempts[0].limit);
    if |attempts| == 2 {
      var more := Happened(again.events, second, attempts[1].limit);
      AttemptObeys(once.net, p, second, attempts[1].limit);
      CreationsConcat(events, more);
      BothObey(p, events, more);
      events := events + more;
    }
  }
}
