/**
 The imperative client: `Conn` and `Client` of crates/client/src/transport.rs,
 whose methods update the poison mark, the selected version and the connection
 step by step. Every method computes the function of the same step in
 `Transport`, so the theorems of `TransportRuns` hold of it.
 */
module TransportClasses {
  import opened Wrappers
  import opened Versions
  import opened Compat
  import T = Transport

  /** The process-wide counters and everything that happened on the wire. */
  class Wire {
    var nextConn: nat
    var nextId: nat
    const token: string
    var trace: seq<T.Event>

    constructor (token: string)
      ensures Net() == T.Net(0, 0, token) && trace == []
    {
      nextConn, nextId, trace := 0, 0, [];
      this.token := token;
    }

    ghost function Net(): (n: T.Net)
      reads this
    {
      T.Net(nextConn, nextId, token)
    }

    /** A new incarnation number. */
    method NewConnection() returns (id: nat)
      modifies this`nextConn
      ensures id == old(nextConn) && nextConn == id + 1
    {
      id := nextConn;
      nextConn := nextConn + 1;
    }

    method NextRequestId(verb: Method) returns (id: string)
      modifies this`nextId
      ensures id == T.RequestId(verb, old(Net())) && nextId == old(nextId) + 1
    {
      id := T.RequestId(verb, T.Net(nextConn, nextId, token));
      nextId := nextId + 1;
    }
  }

  /** One connection. */
  class Conn {
    const id: nat
    const remote: bool
    var poisoned: bool

    constructor (id: nat, remote: bool)
      ensures this.id == id && this.remote == remote && !poisoned
    {
      this.id, this.remote, poisoned := id, remote, false;
    }

    ghost function View(): (c: T.Conn)
      reads this
    {
      T.Conn(id, poisoned)
    }

    /** Writes the line and reads one reply; `None` when the deadline passed first. */
    method Exchange(wire: Wire, request: T.Request, purpose: T.Purpose, arrival: T.Arrival, selected: Option<Version>)
      returns (result: Option<Result<Value, T.ClientError>>, after: Option<Version>)
      requires !poisoned
      modifies this, wire`trace
      ensures var x := T.Exchange(old(View()), remote, selected, request, purpose, arrival);
              && after == x.selected
              && (arrival.Silence? <==> result.None?)
              && (result.Some? ==>
                    result.value == x.result && View() == x.conn && wire.trace == old(wire.trace) + x.events)
              && (result.None? ==> View() == old(View()))
              && (result.None? ==> wire.trace == old(wire.trace) + [T.Wrote(id, request, purpose, selected)])
    {
      after := selected;
      wire.trace := wire.trace + [T.Wrote(id, request, purpose, selected)];
      match arrival {
        case WriteFails =>
          wire.trace := wire.trace + [T.Ended(id)];
          result := Some(Err(if remote then T.RemoteDaemonUnavailable else T.Io));
        case Silence =>
          result := None;
        case EndOfStream =>
          wire.trace := wire.trace + [T.Ended(id)];
          result := Some(Err(T.NoResponse(remote)));
        case BadFrame(overlong) =>
          wire.trace := wire.trace + [if overlong then T.Skipped(id) else T.Ended(id)];
          result := Some(Err(if remote then T.RemoteDaemonUnavailable else if overlong then T.Framing else T.Io));
        case Unparseable =>
          wire.trace := wire.trace + [T.Skipped(id)];
          result := Some(Err(if remote then T.RemoteDaemonUnavailable else T.Json));
        case Answer(response) =>
          wire.trace := wire.trace + [T.Read(id, request, response, T.IsAccepted(request, response, selected))];
          if response.id != request.id {
            poisoned := true;
            result := Some(Err(T.NoResponse(remote)));
          } else if response.body == T.Failure(T.VersionMismatch) {
            result := Some(Err(T.Protocol(T.VersionMismatch)));
          } else if !T.VersionAccepted(request.range, response.version, selected) {
            result := Some(Err(T.Protocol(T.VersionMismatch)));
          } else {
            after := Some(response.version);
            result := Some(T.Decode(request.verb, response));
          }
      }
    }

    /** `Conn::request`: bounded by the deadline, refused once the connection is poisoned. */
    method Request(wire: Wire, request: T.Request, purpose: T.Purpose, arrival: T.Arrival, selected: Option<Version>)
      returns (result: Result<Value, T.ClientError>, after: Option<Version>)
      modifies this, wire`trace
      ensures var x := T.Exchange(old(View()), remote, selected, request, purpose, arrival);
              && View() == x.conn && after == x.selected && result == x.result
              && wire.trace == old(wire.trace) + x.events
    {
      if poisoned {
        return Err(T.Framing), selected;
      }
      var exchanged;
      exchanged, after := Exchange(wire, request, purpose, arrival, selected);
      if exchanged.Some? {
        result := exchanged.value;
      } else {
        poisoned := true;
        wire.trace := wire.trace + [T.TimedOut(id)];
        result := Err(T.RequestTimeout);
      }
    }
  }

  /** The connected SDK client. */
  class Client {
    var inner: Conn
    var selectedVersion: Option<Version>
    const origin: Option<T.Origin>
    const remote: bool

    ghost predicate Valid()
      reads this, inner
    {
      inner.remote == remote
    }

    ghost function View(): (c: T.Client)
      reads this, inner
    {
      T.Client(inner.View(), selectedVersion, origin, remote)
    }

    /** A client on a connection just opened. */
    constructor (id: nat, selected: Option<Version>, origin: Option<T.Origin>, remote: bool)
      ensures Valid() && fresh(inner)
      ensures View() == T.Client(T.Conn(id, false), selected, origin, remote)
    {
      inner := new Conn(id, remote);
      selectedVersion, this.origin, this.remote := selected, origin, remote;
    }

    /** `connect_dedicated`: a client of its own, or the dial error. */
    method ConnectDedicated(wire: Wire, dial: Option<T.ClientError>) returns (r: Result<Client, T.ClientError>)
      requires Valid()
      modifies wire`nextConn
      ensures dial.Some? ==> r == Err(dial.value) && wire.nextConn == old(wire.nextConn)
      ensures dial.None? ==>
                && r.Ok? && fresh(r.value) && fresh(r.value.inner) && r.value.Valid()
                && (r.value.View(), wire.Net()) == T.Dedicated(View(), old(wire.Net()))
    {
      if dial.Some? {
        return Err(dial.value);
      }
      var inherited := if inner.poisoned then None else selectedVersion;
      var id := wire.NewConnection();
      var own := new Client(id, inherited, origin, remote);
      r := Ok(own);
    }

    /** `replace_poisoned_connection`: nothing learned on the old connection is kept. */
    method ReplacePoisonedConnection(wire: Wire, dial: Option<T.ClientError>) returns (failed: Option<T.ClientError>)
      requires Valid()
      modifies this, wire`nextConn
      ensures Valid() && (inner == old(inner) || fresh(inner))
      ensures (View(), wire.Net(), failed) == T.Replaced(old(View()), old(wire.Net()), dial)
    {
      if !inner.poisoned {
        return None;
      }
      var renewed := ConnectDedicated(wire, dial);
      if renewed.Err? {
        return Some(renewed.error);
      }
      inner := renewed.value.inner;
      selectedVersion := None;
      failed := None;
    }

    /** `send`: one already translated request. */
    method Send(wire: Wire, request: T.Request, purpose: T.Purpose, arrival: T.Arrival)
      returns (result: Result<Value, T.ClientError>)
      requires Valid()
      modifies this`selectedVersion, inner, wire`trace
      ensures Valid() && inner == old(inner)
      ensures var x := T.Exchange(old(View()).conn, remote, old(selectedVersion), request, purpose, arrival);
              && View() == old(View()).(conn := x.conn, selected := x.selected)
              && result == x.result && wire.trace == old(wire.trace) + x.events
    {
      var after;
      result, after := inner.Request(wire, request, purpose, arrival, selectedVersion);
      selectedVersion := after;
    }

    /** `negotiated_request`: probe first when the request's meaning depends on the version. */
    method NegotiatedRequest(wire: Wire, request: T.Request, probe: T.Arrival)
      returns (r: Result<T.Request, T.ClientError>)
      requires Valid()
      modifies this`selectedVersion, inner, wire
      ensures Valid() && inner == old(inner)
      ensures var n := T.Negotiation(old(View()), old(wire.Net()), request, probe);
              && View() == n.client && wire.Net() == n.net && r == n.request
              && wire.trace == old(wire.trace) + n.events
    {
      var version;
      match selectedVersion {
        case Some(v) => version := v;
        case None =>
          if VersionIndependent(request.verb, request.params) {
            return Ok(request);
          }
          var range := Narrow(request.range, WINDOW);
          if range.None? {
            return Err(T.Protocol(T.VersionMismatch));
          }
          var learned := ProbeVersion(wire, range.value, probe);
          if learned.Err? {
            return Err(learned.error);
          }
          version := learned.value;
      }
      if !request.range.Contains(version) {
        return Err(T.OutOfRange(request.range, version));
      }
      r := T.Pin(request, version);
    }

    /** `probe_version`: a `daemon.health` exchange that selects the version. */
    method ProbeVersion(wire: Wire, range: Range, probe: T.Arrival) returns (r: Result<Version, T.ClientError>)
      requires Valid() && selectedVersion.None?
      modifies this`selectedVersion, inner, wire
      ensures Valid() && inner == old(inner)
      ensures wire.Net() == old(wire.Net()).(nextId := old(wire.nextId) + 1)
      ensures var line := T.HealthProbe(range, old(View()), old(wire.Net()));
              var x := T.Exchange(old(View()).conn, remote, None, line, T.Probe, probe);
              && View() == old(View()).(conn := x.conn, selected := x.selected)
              && wire.trace == old(wire.trace) + x.events
              && r == (if x.result.Err? then Err(x.result.error)
                       else if x.selected.None? then Err(T.Framing) else Ok(x.selected.value))
    {
      var id := wire.NextRequestId(DaemonHealth);
      var line := T.WithOrigin(T.Request(id, DaemonHealth, Null, range, None), origin);
      var answer := Send(wire, line, T.Probe, probe);
      if answer.Err? {
        return Err(answer.error);
      }
      r := if selectedVersion.Some? then Ok(selectedVersion.value) else Err(T.Framing);
    }

    /** Negotiate, then send on the connection the client has. */
    method Transact(wire: Wire, request: T.Request, probe: T.Arrival, reply: T.Arrival)
      returns (result: Result<Value, T.ClientError>)
      requires Valid()
      modifies this`selectedVersion, inner, wire
      ensures Valid() && inner == old(inner)
      ensures var r := T.Transact(old(View()), old(wire.Net()), request, probe, reply);
              && View() == r.client && wire.Net() == r.net && result == r.result
              && wire.trace == old(wire.trace) + r.events
    {
      hide T.Negotiation, T.Exchange;
      var negotiated := NegotiatedRequest(wire, T.WithOrigin(request, origin), probe);
      if negotiated.Err? {
        return Err(negotiated.error);
      }
      result := Send(wire, negotiated.value, T.Own, reply);
    }

    /** `request`. */
    method Request(wire: Wire, request: T.Request, luck: T.Luck) returns (result: Result<Value, T.ClientError>)
      requires Valid()
      modifies this, inner, wire
      ensures Valid() && (inner == old(inner) || fresh(inner))
      ensures var r := T.Ask(old(View()), old(wire.Net()), request, luck);
              && View() == r.client && wire.Net() == r.net && result == r.result
              && wire.trace == old(wire.trace) + r.events
    {
      hide T.Transact;
      var failed := ReplacePoisonedConnection(wire, luck.dial);
      if failed.Some? {
        return Err(failed.value);
      }
      result := Transact(wire, request, luck.probe, luck.reply);
    }

    /** `call_direct`. */
    method CallDirect(wire: Wire, verb: Method, params: Value, luck: T.Luck)
      returns (result: Result<Value, T.ClientError>)
      requires Valid()
      modifies this, inner, wire
      ensures Valid() && (inner == old(inner) || fresh(inner))
      ensures var r := T.CallDirect(old(View()), old(wire.Net()), verb, params, luck);
              && View() == r.client && wire.Net() == r.net && result == r.result
              && wire.trace == old(wire.trace) + r.events
    {
      hide T.Ask;
      var id := wire.NextRequestId(verb);
      result := Request(wire, T.Request(id, verb, params, WINDOW, None), luck);
    }

    /** `call_dedicated` and `call_lifecycle`: this client is not changed. */
    method CallDedicated(wire: Wire, verb: Method, params: Value, dial: Option<T.ClientError>, luck: T.Luck)
      returns (result: Result<Value, T.ClientError>)
      requires Valid()
      modifies wire
      ensures var r := T.CallDedicated(View(), old(wire.Net()), verb, params, dial, luck);
              && wire.Net() == r.net && result == r.result && wire.trace == old(wire.trace) + r.events
    {
      hide T.CallDirect;
      var own := ConnectDedicated(wire, dial);
      if own.Err? {
        return Err(own.error);
      }
      result := own.value.CallDirect(wire, verb, params, luck);
    }

    /** `session_new`. */
    method SessionNew(wire: Wire, p: T.SessionNewParams, dial: Option<T.ClientError>, inspect: T.Luck, create: T.Luck)
      returns (result: Result<Value, T.ClientError>)
      requires Valid()
      modifies wire
      ensures var r := T.CreateSession(View(), old(wire.Net()), p, dial, inspect, create);
              && wire.Net() == r.net && result == r.result && wire.trace == old(wire.trace) + r.events
    {
      hide T.CallDirect, T.Wire;
      var params := if p.input.Some? then p.(extendedInputReadyWait := Some(true)) else p;
      var connected := ConnectDedicated(wire, dial);
      if connected.Err? {
        return Err(connected.error);
      }
      var own := connected.value;
      if params.secretEnv != map[] || params.clientRequestId.Some? {
        var capabilities := own.CallDirect(wire, HostInspect, T.SKIP_PROBES, inspect);
        if capabilities.Err? {
          return capabilities;
        }
        if !capabilities.value.Object? {
          return Err(T.Json);
        }
        if params.secretEnv != map[] && !T.Advertises(capabilities.value, SecretEnvSupported) {
          return Err(T.Protocol(T.SecretEnvUnsupported));
        }
        if params.clientRequestId.Some? && !T.Advertises(capabilities.value, RequestIdSupported) {
          return Err(T.Protocol(T.RequestIdUnsupported));
        }
      }
      result := own.CallDirect(wire, Method.SessionNew, T.Wire(params), create);
    }

    /** `subscribe`: consumes the client; a poisoned connection is not replaced. */
    method Subscribe(wire: Wire, request: T.Request, probe: T.Arrival, reply: T.Arrival)
      returns (result: Result<T.Subscription, T.ClientError>)
      requires Valid()
      modifies this, inner, wire
      ensures var s := T.SubscribeWith(old(View()), old(wire.Net()), request, probe, reply);
              && wire.Net() == s.net && result == s.result && wire.trace == old(wire.trace) + s.events
    {
      hide T.Transact;
      var answer := Transact(wire, request, probe, reply);
      if answer.Err? {
        return Err(answer.error);
      }
      result := if selectedVersion.Some? then Ok(T.Subscription(inner.id, selectedVersion.value)) else Err(T.Framing);
    }
  }
}
