/**
 What `Client::session_new` writes and when (crates/client/src/transport.rs:840-876):
 a secret or a key leaves the process only after the daemon at the other end of the
 same connection has said that it understands it, and then it does.
 */
module TransportCreation {
  import opened Wrappers
  import opened Versions
  import opened Compat
  import opened CompatRoundTrip
  import opened Transport
  import opened TransportRuns
  import opened TransportAnswers
  import opened LaunchLines

  /** An accepted capability answer in which that flag is set. */
  predicate Shows(e: Event, flag: Key) {
    && e.Read? && e.accepted && e.request.verb == HostInspect && e.response.body.Success?
    && FieldOf(e.response.body.value, flag) == Some(Bool(true))
  }

  /** The flag was set in an answer read before event `j` on its connection. */
  predicate ShownBefore(events: seq<Event>, j: nat, flag: Key)
    requires j < |events|
  {
    exists i | 0 <= i < j :: Shows(events[i], flag) && events[i].conn == events[j].conn
  }

  /** A creation with a secret, or with a key, is written only after the flag it needs was read on its connection. */
  lemma CreationFollowsItsCapabilities(client: Client, net: Net, p: SessionNewParams, dial: Option<ClientError>,
                                       inspect: Luck, create: Luck, r: Called, j: nat)
    requires r == CreateSession(client, net, p, dial, inspect, create)
    requires j < |r.events| && IsCreation(r.events[j])
    ensures p.secretEnv != map[] ==> ShownBefore(r.events, j, SecretEnvSupported)
    ensures p.clientRequestId.Some? ==> ShownBefore(r.events, j, RequestIdSupported)
  {
    hide CallDirect, Wire;
    var params := Extended(p);
    if p.secretEnv != map[] || p.clientRequestId.Some? {
      var (own, net') := Dedicated(client, net);
      InspectionCreatesNothing(own, net', inspect);
      InspectionIsItsAnswer(own, net', inspect);
      var i := CallDirect(own, net', HostInspect, SKIP_PROBES, inspect);
      var n := |i.events|;
      assert forall k | 0 <= k < n :: i.events[k] in i.events && r.events[k] == i.events[k];
      KeyIsInTheOwnLine(i.client, i.net, params, create);
      var c := CallDirect(i.client, i.net, SessionNew, Wire(params), create);
      assert r.events[j] == c.events[j - n] && c.events[j - n] in c.events;
      assert r.events[n - 1] in i.events;
    }
  }

  /** The inspection of a creation, answered by a daemon of the current version. */
  lemma InspectionIsServed(client: Client, net: Net, luck: Luck, w: Value, i: Called)
    requires i == CallDirect(client, net, HostInspect, SKIP_PROBES, luck)
    requires !client.conn.poisoned && client.selected.None?
    requires luck.reply == Answer(Response(CURRENT, RequestId(HostInspect, net), Success(w)))
    ensures |i.events| == 2 && i.result == Ok(w) && i.client == client.(selected := Some(CURRENT))
    ensures i.net == net.(nextId := net.nextId + 1)
    ensures i.events[0].Wrote? && i.events[0].request.verb == HostInspect && i.events[0].request.params == SKIP_PROBES
  {
    hide Exchange, RequestId;
    ProbesAreVersionIndependent(SKIP_PROBES);
    var request := Request(RequestId(HostInspect, net), HostInspect, SKIP_PROBES, WINDOW, None);
    var line := WithOrigin(request, client.origin);
    ExchangeIsServed(client.conn, client.remote, None, line, Own, Response(CURRENT, request.id, Success(w)));
    ExchangeEnds(client.conn, client.remote, None, line, Own, luck.reply);
  }

  /** The capability answer a creation with a secret or a key asks for, from a daemon of the current version. */
  predicate IsInspected(client: Client, net: Net, p: SessionNewParams, inspect: Luck, w: Value) {
    && (client.conn.poisoned || client.selected.None?)
    && (p.secretEnv != map[] || p.clientRequestId.Some?)
    && inspect.reply == Answer(Response(CURRENT, RequestId(HostInspect, net), Success(w)))
    && w.Object?
  }

  predicate LacksSecrets(p: SessionNewParams, w: Value) {
    p.secretEnv != map[] && FieldOf(w, SecretEnvSupported) != Some(Bool(true))
  }

  predicate LacksKeys(p: SessionNewParams, w: Value) {
    p.clientRequestId.Some? && FieldOf(w, RequestIdSupported) != Some(Bool(true))
  }

  /** The client that answer leaves, and what it has to go on with. */
  lemma AfterInspection(client: Client, net: Net, p: SessionNewParams, inspect: Luck, create: Luck, w: Value,
                        own: Client, r: Called)
    requires r == CreateSession(client, net, p, None, inspect, create) && IsInspected(client, net, p, inspect, w)
    requires own == Client(Conn(net.nextConn, false), Some(CURRENT), client.origin, client.remote)
    ensures if LacksSecrets(p, w) then |r.events| == 2 && r.result == Err(Protocol(SecretEnvUnsupported))
            else if LacksKeys(p, w) then |r.events| == 2 && r.result == Err(Protocol(RequestIdUnsupported))
            else
              var later := net.(nextConn := net.nextConn + 1, nextId := net.nextId + 1);
              var c := CallDirect(own, later, SessionNew, Wire(Extended(p)), create);
              |r.events| == 2 + |c.events| && r.events[2..] == c.events && r.result == c.result
    ensures |r.events| >= 2 && r.events[0].Wrote? && r.events[0].request.verb == HostInspect
  {
    hide CallDirect, Wire;
    var (fresher, net') := Dedicated(client, net);
    var i := CallDirect(fresher, net', HostInspect, SKIP_PROBES, inspect);
    assert RequestId(HostInspect, net') == RequestId(HostInspect, net);
    hide RequestId;
    InspectionIsServed(fresher, net', inspect, w, i);
  }

  /** Without the flag for its secret, or for its key, a creation is refused by name and nothing more is written. */
  lemma UnsupportedCreationIsRefused(client: Client, net: Net, p: SessionNewParams, inspect: Luck, create: Luck,
                                     w: Value, r: Called)
    requires r == CreateSession(client, net, p, None, inspect, create) && IsInspected(client, net, p, inspect, w)
    requires LacksSecrets(p, w) || LacksKeys(p, w)
    ensures r.result == Err(Protocol(if LacksSecrets(p, w) then SecretEnvUnsupported else RequestIdUnsupported))
    ensures |r.events| == 2 && r.events[0].Wrote? && r.events[0].request.verb == HostInspect
  {
    hide CreateSession, CallDirect, Wire;
    AfterInspection(client, net, p, inspect, create, w,
                    Client(Conn(net.nextConn, false), Some(CURRENT), client.origin, client.remote), r);
  }

  /** With the flags it needs, the creation is written on the same connection, whole, and its answer returned. */
  lemma SupportedCreationIsServed(client: Client, net: Net, p: SessionNewParams, inspect: Luck, create: Luck,
                                  w: Value, body: Body, r: Called)
    requires r == CreateSession(client, net, p, None, inspect, create) && IsInspected(client, net, p, inspect, w)
    requires !LacksSecrets(p, w) && !LacksKeys(p, w) && body != Failure(VersionMismatch)
    requires create.reply ==
             Answer(Response(CURRENT, RequestId(SessionNew, net.(nextId := net.nextId + 1)), body))
    ensures |r.events| == 4 && r.result == Meaning(CURRENT, SessionNew, body)
    ensures && r.events[2].Wrote? && r.events[2].conn == net.nextConn && r.events[2].request.verb == SessionNew
            && r.events[2].request.params == Wire(Extended(p))
  {
    hide CreateSession, Wire, Meaning;
    var own := Client(Conn(net.nextConn, false), Some(CURRENT), client.origin, client.remote);
    AfterInspection(client, net, p, inspect, create, w, own, r);
    var later := net.(nextConn := net.nextConn + 1, nextId := net.nextId + 1);
    assert RequestId(SessionNew, later) == RequestId(SessionNew, net.(nextId := net.nextId + 1));
    hide RequestId, Ask;
    var request := Request(RequestId(SessionNew, later), SessionNew, Wire(Extended(p)), WINDOW, None);
    var later' := later.(nextId := later.nextId + 1);
    var c := Ask(own, later', request, create);
    FixedCallIsServed(own, later', request, create, CURRENT, body, c);
    AskEnds(own, later', request, create, c);
  }

  /** A creation with neither asks for no capabilities. */
  lemma PlainCreationNeverInspects(client: Client, net: Net, p: SessionNewParams, dial: Option<ClientError>,
                                   inspect: Luck, create: Luck, r: Called)
    requires r == CreateSession(client, net, p, dial, inspect, create)
    requires p.secretEnv == map[] && p.clientRequestId.None?
    ensures forall e | e in r.events && e.Wrote? :: e.request.verb == SessionNew || e.request.verb == DaemonHealth
  {
    hide Transact, Negotiation, Wire, DowngradeParams, RequestId;
    if dial.None? {
      var (own, net') := Dedicated(client, net);
      var request := Request(RequestId(SessionNew, net'), SessionNew, Wire(Extended(p)), WINDOW, None);
      var later := net'.(nextId := net'.nextId + 1);
      TransactShape(own, later, request, create.probe, create.reply);
      OwnLineIsWrittenAtMostOnce(own, later, request, create);
      var n := Negotiation(own, later, WithOrigin(request, own.origin), create.probe);
      assert forall k | 0 <= k < |n.events| :: n.events[k] in n.events && r.events[k] == n.events[k];
    }
  }
}
