/**
 The SDK control connection (crates/client/src/transport.rs).

 One exchange writes one request line and reads one reply line; what the
 network does meanwhile is an `Arrival`. Each operation of the client is a
 function from its state and the arrivals to its new state, the events on the
 wire and the call's result. `TransportClasses` holds the imperative client that
 computes these functions, `TransportRuns` the theorems about every run.
 */
module Transport {
  import opened Wrappers
  import opened Strings
  import opened Versions
  import opened Compat

  datatype Origin = Origin(sessionId: string, daemonId: string)

  datatype Request = Request(id: string, verb: Method, params: Value, range: Range, origin: Option<Origin>)

  datatype ErrorCode = VersionMismatch | RequestIdUnsupported | SecretEnvUnsupported | OtherCode(code: string)

  datatype Body = Success(value: Value) | Failure(code: ErrorCode)

  datatype Response = Response(version: Version, id: string, body: Body)

  datatype ClientError =
    | RequestTimeout
    | Framing
    | Io
    | Json
    | DaemonUnreachable
    | HostUnreachable
    | RemoteDaemonUnavailable
    | FileDescriptorsExhausted
    | Protocol(code: ErrorCode)
    | DaemonProtocolTooOld
    | VersionTranslation(source: CompatError)

  /** What the network does to one exchange. */
  datatype Arrival =
    | WriteFails                    // the line could not be handed to the stream
    | Silence                       // no answer before the response deadline
    | EndOfStream                   // the daemon closed the connection
    | BadFrame(overlong: bool)      // the codec failed on the reply
    | Unparseable                   // a line that is not a response
    | Answer(response: Response)

  datatype Purpose = Probe | Own

  /** What happened on a connection, in order. */
  datatype Event =
    // A request line was written; `frozen` is the version selected at that moment.
    | Wrote(conn: nat, request: Request, purpose: Purpose, frozen: Option<Version>)
    // A response was read as the answer to `request`; `accepted` tells whether
    // its id and version were the expected ones.
    | Read(conn: nat, request: Request, response: Response, accepted: bool)
    // A reply arrived that is not a response.
    | Skipped(conn: nat)
    // The stream failed or ended.
    | Ended(conn: nat)
    // The response deadline passed.
    | TimedOut(conn: nat)

  /** One connection: an incarnation number and the mark that retires it. */
  datatype Conn = Conn(id: nat, poisoned: bool)

  /** The client: its shared connection, what that connection selected, and fixed settings. */
  datatype Client = Client(conn: Conn, selected: Option<Version>, origin: Option<Origin>, remote: bool)

  /** Process-wide counters: the next connection and the next SDK request id. */
  datatype Net = Net(nextConn: nat, nextId: nat, token: string)

  // ------------------------------------------------------------ one exchange

  function NoResponse(remote: bool): (e: ClientError) {
    if remote then RemoteDaemonUnavailable else Framing
  }

  /** Whether a reply version is the one the connection may go on with. */
  predicate VersionAccepted(range: Range, received: Version, selected: Option<Version>) {
    range.Contains(received) && (selected.Some? ==> selected.value == received)
  }

  predicate IsAccepted(request: Request, response: Response, selected: Option<Version>) {
    && response.id == request.id
    && response.body != Failure(VersionMismatch)
    && VersionAccepted(request.range, response.version, selected)
  }

  datatype Exchanged = Exchanged(conn: Conn, selected: Option<Version>, events: seq<Event>,
                                 result: Result<Value, ClientError>)

  /** The payload of an accepted response, in the current shape. */
  function Decode(verb: Method, response: Response): (r: Result<Value, ClientError>) {
    match response.body
    case Failure(code) => Err(Protocol(code))
    case Success(value) =>
      match UpgradeResult(response.version, verb, value)
      case Ok(current) => Ok(current)
      case Err(error) => Err(VersionTranslation(error))
  }

  /** `Conn::request`: refuse on a poisoned connection, otherwise write once and read once. */
  function Exchange(c: Conn, remote: bool, selected: Option<Version>, request: Request,
                    purpose: Purpose, arrival: Arrival): (x: Exchanged)
  {
    var wrote := Wrote(c.id, request, purpose, selected);
    if c.poisoned then Exchanged(c, selected, [], Err(Framing))
    else
      match arrival
      case WriteFails =>
        Exchanged(c, selected, [wrote, Ended(c.id)], Err(if remote then RemoteDaemonUnavailable else Io))
      case Silence =>
        Exchanged(c.(poisoned := true), selected, [wrote, TimedOut(c.id)], Err(RequestTimeout))
      case EndOfStream =>
        Exchanged(c, selected, [wrote, Ended(c.id)], Err(NoResponse(remote)))
      case BadFrame(overlong) =>
        Exchanged(c, selected, [wrote, if overlong then Skipped(c.id) else Ended(c.id)],
                  Err(if remote then RemoteDaemonUnavailable else if overlong then Framing else Io))
      case Unparseable =>
        Exchanged(c, selected, [wrote, Skipped(c.id)], Err(if remote then RemoteDaemonUnavailable else Json))
      case Answer(response) =>
        var accepted := IsAccepted(request, response, selected);
        var read := Read(c.id, request, response, accepted);
        if response.id != request.id then
          Exchanged(c.(poisoned := true), selected, [wrote, read], Err(NoResponse(remote)))
        else if !accepted then
          Exchanged(c, selected, [wrote, read], Err(Protocol(VersionMismatch)))
        else
          Exchanged(c, Some(response.version), [wrote, read], Decode(request.verb, response))
  }

  // ---------------------------------------------------------- client requests

  function MethodName(m: Method): (name: string) {
    match m
    case DaemonHealth => "daemon.health"
    case HostInspect => "host.inspect"
    case HostDiscover => "host.discover"
    case Subscribe => "subscribe"
    case SessionNew => "session.new"
    case SessionFork => "session.fork"
    case SessionInspect => "session.inspect"
    case SessionList => "session.list"
    case SessionInput => "session.input"
    case SessionOutput => "session.output"
    case SessionWait => "session.wait"
    case SessionReportNativeId => "session.report_native_id"
    case SessionResume => "session.resume"
    case SessionResize => "session.resize"
    case SessionSetMetadata => "session.set_metadata"
    case SessionRename => "session.rename"
    case SessionScreen => "session.screen"
    case SessionRead => "session.read"
    case SessionRuntimeInventory => "session.runtime_inventory"
    case Introduced(name) => name
    case Other(name) => name
  }

  /** `sdk-<method>-<run token>-<sequence number>`. */
  function RequestId(m: Method, net: Net): (id: string) {
    "sdk-" + MethodName(m) + "-" + net.token + "-" + Decimal(net.nextId)
  }

  /** Ids of one process never repeat, whatever the methods are called. */
  lemma RequestIdsDistinct(m: Method, n: Method, net: Net, later: Net)
    requires net.nextId != later.nextId
    ensures RequestId(m, net) != RequestId(n, later)
  {
    var a, b := "sdk-" + MethodName(m) + "-" + net.token, "sdk-" + MethodName(n) + "-" + later.token;
    assert RequestId(m, net) == a + ['-'] + Decimal(net.nextId);
    assert RequestId(n, later) == b + ['-'] + Decimal(later.nextId);
    SplitLastUnique(a, Decimal(net.nextId), '-');
    SplitLastUnique(b, Decimal(later.nextId), '-');
    if Decimal(net.nextId) == Decimal(later.nextId) {
      DecimalInjective(net.nextId, later.nextId);
    }
  }

  function WithOrigin(request: Request, origin: Option<Origin>): (r: Request) {
    if origin.Some? then request.(origin := origin) else request
  }

  /** What the network does to one `Client::request`: the redial, the probe and the request itself. */
  datatype Luck = Luck(dial: Option<ClientError>, probe: Arrival, reply: Arrival)

  datatype Negotiated = Negotiated(client: Client, net: Net, events: seq<Event>,
                                   request: Result<Request, ClientError>)

  /** The request as the selected version spells and pins it. */
  function Pin(request: Request, v: Version): (r: Result<Request, ClientError>) {
    var pinned := if v == CURRENT && RangeForwarding(request.verb) then request
                  else request.(range := Exact(v));
    match DowngradeParams(v, request.verb, request.params)
    case Ok(params) =>
      Ok(if v == CURRENT then pinned else pinned.(params := params, range := Exact(v)))
    case Err(MethodNotDefined(_)) => Err(DaemonProtocolTooOld)
    case Err(error) => Err(VersionTranslation(error))
  }

  /** The refusal of a request whose range excludes the connection's version. */
  function OutOfRange(allowed: Range, v: Version): (e: ClientError) {
    if v < allowed.minimum then DaemonProtocolTooOld else Protocol(VersionMismatch)
  }

  /** `Client::probe_version`'s request. */
  function HealthProbe(range: Range, client: Client, net: Net): (r: Request) {
    WithOrigin(Request(RequestId(DaemonHealth, net), DaemonHealth, Null, range, None), client.origin)
  }

  /** `Client::negotiated_request`. */
  function Negotiation(client: Client, net: Net, request: Request, probe: Arrival): (n: Negotiated) {
    if client.selected.Some? then
      var v := client.selected.value;
      Negotiated(client, net, [],
                 if request.range.Contains(v) then Pin(request, v) else Err(OutOfRange(request.range, v)))
    else if VersionIndependent(request.verb, request.params) then
      Negotiated(client, net, [], Ok(request))
    else
      match Narrow(request.range, WINDOW)
      case None => Negotiated(client, net, [], Err(Protocol(VersionMismatch)))
      case Some(range) =>
        var x := Exchange(client.conn, client.remote, None, HealthProbe(range, client, net), Probe, probe);
        var after := client.(conn := x.conn, selected := x.selected);
        var net' := net.(nextId := net.nextId + 1);
        Negotiated(after, net', x.events,
                   if x.result.Err? then Err(x.result.error)
                   else if x.selected.None? then Err(Framing)
                   else if request.range.Contains(x.selected.value) then Pin(request, x.selected.value)
                   else Err(OutOfRange(request.range, x.selected.value)))
  }

  datatype Called = Called(client: Client, net: Net, events: seq<Event>, result: Result<Value, ClientError>)

  /** `Client::replace_poisoned_connection`: the client to go on with, or the dial error. */
  function Replaced(client: Client, net: Net, dial: Option<ClientError>): (r: (Client, Net, Option<ClientError>)) {
    if !client.conn.poisoned then (client, net, None)
    else if dial.Some? then (client, net, dial)
    else (client.(conn := Conn(net.nextConn, false), selected := None), net.(nextConn := net.nextConn + 1), None)
  }

  /** Negotiate, then send on the connection the client has. */
  function Transact(client: Client, net: Net, request: Request, probe: Arrival, reply: Arrival): (r: Called) {
    var n := Negotiation(client, net, WithOrigin(request, client.origin), probe);
    if n.request.Err? then Called(n.client, n.net, n.events, Err(n.request.error))
    else
      var x := Exchange(n.client.conn, n.client.remote, n.client.selected, n.request.value, Own, reply);
      Called(n.client.(conn := x.conn, selected := x.selected), n.net, n.events + x.events, x.result)
  }

  /** `Client::request`. */
  function Ask(client: Client, net: Net, request: Request, luck: Luck): (r: Called) {
    var (renewed, net', failed) := Replaced(client, net, luck.dial);
    if failed.Some? then Called(renewed, net', [], Err(failed.value))
    else Transact(renewed, net', request, luck.probe, luck.reply)
  }

  // ----------------------------------------------------- dedicated connections

  /** The version a dedicated connection starts with. */
  function InheritedVersion(client: Client): (v: Option<Version>) {
    if client.conn.poisoned then None else client.selected
  }

  /** `Client::connect_dedicated`: a client of its own on a fresh connection. */
  function Dedicated(client: Client, net: Net): (r: (Client, Net)) {
    (client.(conn := Conn(net.nextConn, false), selected := InheritedVersion(client)),
     net.(nextConn := net.nextConn + 1))
  }

  /** `Client::call_direct`: a request of the whole window under a fresh id. */
  function CallDirect(client: Client, net: Net, verb: Method, params: Value, luck: Luck): (r: Called) {
    Ask(client, net.(nextId := net.nextId + 1),
        Request(RequestId(verb, net), verb, params, WINDOW, None), luck)
  }

  /** `call_dedicated` and `call_lifecycle`: one request on a connection of its own; the caller's client is kept. */
  function CallDedicated(client: Client, net: Net, verb: Method, params: Value,
                         dial: Option<ClientError>, luck: Luck): (r: Called)
  {
    if dial.Some? then Called(client, net, [], Err(dial.value))
    else
      var (own, net') := Dedicated(client, net);
      CallDirect(own, net', verb, params, luck).(client := client)
  }

  /** The parameters of `session.new` that decide how it is sent. */
  datatype SessionNewParams = SessionNewParams(
    clientRequestId: Option<string>,
    secretEnv: map<string, string>,
    input: Option<string>,
    extendedInputReadyWait: Option<bool>,
    inputAckTimeoutMs: Option<nat>,
    rest: map<string, Value>
  )

  function Wire(p: SessionNewParams): (v: Value)
    ensures v.Object? && (ClientRequestId in v.fields <==> p.clientRequestId.Some?)
    ensures p.clientRequestId.Some? ==> v.fields[ClientRequestId] == Text(p.clientRequestId.value)
    ensures SecretEnv in v.fields <==> p.secretEnv != map[]
  {
    var base: map<Key, Value> := map name | name in p.rest :: Named(name) := p.rest[name];
    var keyed := if p.clientRequestId.Some? then base[ClientRequestId := Text(p.clientRequestId.value)] else base;
    var secret := if p.secretEnv == map[] then keyed
                  else
                    var texts := map name | name in p.secretEnv :: Named(name) := Text(p.secretEnv[name]);
                    keyed[SecretEnv := Object(texts)];
    var acked := if p.inputAckTimeoutMs.None? then secret
                 else secret[InputAckTimeoutMs := Number(p.inputAckTimeoutMs.value)];
    var input := if p.input.Some? then acked[Named("input") := Text(p.input.value)] else acked;
    Object(if p.extendedInputReadyWait.Some?
           then input[Named("extended_input_ready_wait") := Bool(p.extendedInputReadyWait.value)] else input)
  }

  function Extended(p: SessionNewParams): (r: SessionNewParams) {
    if p.input.Some? then p.(extendedInputReadyWait := Some(true)) else p
  }

  predicate NeedsCapabilities(p: SessionNewParams) {
    p.secretEnv != map[] || p.clientRequestId.Some?
  }

  /** An absent flag decodes as false. */
  predicate Advertises(capabilities: Value, flag: Key) {
    FieldOf(capabilities, flag) == Some(Bool(true))
  }

  const SKIP_PROBES: Value := Object(map[SkipRuntimeProbes := Bool(true)])

  /**
   `Client::session_new`: on a connection of its own, check the capability flags
   a key or a secret needs, and only then send the request.
   */
  function CreateSession(client: Client, net: Net, p: SessionNewParams,
                         dial: Option<ClientError>, inspect: Luck, create: Luck): (r: Called)
  {
    var params := Extended(p);
    if dial.Some? then Called(client, net, [], Err(dial.value))
    else
      var (own, net') := Dedicated(client, net);
      if !NeedsCapabilities(params) then
        CallDirect(own, net', SessionNew, Wire(params), create).(client := client)
      else
        var i := CallDirect(own, net', HostInspect, SKIP_PROBES, inspect);
        if i.result.Err? then i.(client := client)
        else if !i.result.value.Object? then Called(client, i.net, i.events, Err(Json))
        else if params.secretEnv != map[] && !Advertises(i.result.value, SecretEnvSupported) then
          Called(client, i.net, i.events, Err(Protocol(SecretEnvUnsupported)))
        else if params.clientRequestId.Some? && !Advertises(i.result.value, RequestIdSupported) then
          Called(client, i.net, i.events, Err(Protocol(RequestIdUnsupported)))
        else
          var c := CallDirect(i.client, i.net, SessionNew, Wire(params), create);
          Called(client, c.net, i.events + c.events, c.result)
  }

  // ------------------------------------------------------------ subscriptions

  /** A connection turned into an event stream, fixed on one version. */
  datatype Subscription = Subscription(conn: nat, selected: Version)

  datatype Subscribed = Subscribed(net: Net, events: seq<Event>, result: Result<Subscription, ClientError>)

  /** `Client::subscribe`: the client is consumed and a poisoned connection is not replaced. */
  function SubscribeWith(client: Client, net: Net, request: Request, probe: Arrival, reply: Arrival): (r: Subscribed) {
    var t := Transact(client, net, request, probe, reply);
    Subscribed(t.net, t.events,
               if t.result.Ok? && t.client.selected.Some?
               then Ok(Subscription(t.client.conn.id, t.client.selected.value))
               else Err(if t.result.Err? then t.result.error else Framing))
  }

  /** One line of an event stream: an event of some version, or anything else. */
  datatype StreamLine = EventLine(version: Version, name: EventName, payload: Value) | JunkLine(text: string)

  /** An event as a subscriber gets it: the version it came in and its current-shape payload. */
  datatype Delivered = Delivered(version: Version, name: EventName, payload: Value)

  /** `Conn::decode_event`. */
  function DecodeEvent(s: Subscription, remote: bool, line: StreamLine): (r: Result<Delivered, ClientError>) {
    match line
    case JunkLine(_) => Err(if remote then RemoteDaemonUnavailable else Json)
    case EventLine(version, name, payload) =>
      if version != s.selected then Err(Protocol(VersionMismatch))
      else
        match UpgradeEvent(version, name, payload)
        case Ok(current) => Ok(Delivered(version, name, current))
        case Err(error) => Err(VersionTranslation(error))
  }

  /** `Conn::next_adapted_line`: on the current version the raw line is handed through unread. */
  function AdaptLine(s: Subscription, remote: bool, line: StreamLine): (r: Result<StreamLine, ClientError>) {
    if s.selected == CURRENT then Ok(line)
    else
      var e :- DecodeEvent(s, remote, line);
      Ok(EventLine(CURRENT, e.name, e.payload))
  }
}
