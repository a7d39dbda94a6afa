/**
 What a call returns, told from the lines on the wire: when it succeeds, with
 which value, and how each other ending shows.
 */
module TransportAnswers {
  import opened Wrappers
  import opened Versions
  import opened Compat
  import opened CompatRoundTrip
  import opened Transport
  import opened TransportRuns

  /** The last line written was answered under its own id. */
  predicate IsAnswered(events: seq<Event>) {
    events != [] && events[|events| - 1].Read? &&
    events[|events| - 1].response.id == events[|events| - 1].request.id
  }

  /** The caller's own line was answered, and the answer accepted. */
  predicate IsOwnAnswer(events: seq<Event>) {
    |events| >= 2 && IsOwnLine(events[|events| - 2]) && events[|events| - 1].Read? && events[|events| - 1].accepted
  }

  function ReplyOf(events: seq<Event>): (response: Response)
    requires IsOwnAnswer(events)
  {
    events[|events| - 1].response
  }

  function LineOf(events: seq<Event>): (request: Request)
    requires IsOwnAnswer(events)
  {
    events[|events| - 2].request
  }

  /** An error that says what the daemon or the client itself decided. */
  predicate IsDecision(e: ClientError) {
    e.Protocol? || e.DaemonProtocolTooOld? || e.VersionTranslation? || e.FileDescriptorsExhausted?
  }

  /** What a payload of a version means today. */
  function Meaning(v: Version, verb: Method, body: Body): (r: Result<Value, ClientError>)
    ensures r.Err? ==> IsDecision(r.error)
  {
    match body
    case Failure(code) => Err(Protocol(code))
    case Success(value) =>
      var current := UpgradeResult(v, verb, value);
      if current.Ok? then Ok(current.value) else Err(VersionTranslation(current.error))
  }

  /** How one exchange ends, by what was read last. */
  lemma ExchangeEnds(c: Conn, remote: bool, selected: Option<Version>, request: Request,
                     purpose: Purpose, arrival: Arrival)
    requires !c.poisoned
    ensures var x := Exchange(c, remote, selected, request, purpose, arrival);
            && |x.events| == 2 && x.events[0] == Wrote(c.id, request, purpose, selected)
            && (x.events[1].Read? ==> x.events[1].request == request)
            && (x.events[1].Read? && x.events[1].accepted ==>
                  && IsAnswered(x.events) && x.selected == Some(x.events[1].response.version)
                  && x.result == Meaning(x.events[1].response.version, request.verb, x.events[1].response.body))
            && (!(x.events[1].Read? && x.events[1].accepted) ==>
                  && x.selected == selected && x.result.Err?
                  && (IsDecision(x.result.error) <==> IsAnswered(x.events))
                  && (IsAnswered(x.events) ==> x.result.error == Protocol(VersionMismatch))
                  && (x.events[1].TimedOut? ==> x.result.error == RequestTimeout))
  {
    hide UpgradeResult;
  }

  /** How a whole call ends. */
  lemma AskEnds(client: Client, net: Net, request: Request, luck: Luck, r: Called)
    requires !client.conn.poisoned && r == Ask(client, net, request, luck)
    ensures IsOwnAnswer(r.events) ==>
              r.result == Meaning(ReplyOf(r.events).version, request.verb, ReplyOf(r.events).body)
    ensures !IsOwnAnswer(r.events) ==> r.result.Err?
    ensures r.events == [] ==> r.result.Err? && IsDecision(r.result.error)
    ensures r.events != [] && r.result.Err? ==> (IsDecision(r.result.error) <==> IsAnswered(r.events))
    ensures r.result.Ok? ==> IsAnswered(r.events) && r.events[|r.events| - 1].request.verb == request.verb
  {
    hide Exchange, VersionIndependent, DowngradeParams, Meaning, UpgradeResult, RequestId;
    var marked := WithOrigin(request, client.origin);
    NegotiatedMayBeWritten(client, net, marked, luck.probe);
    NegotiationEnds(client, net, marked, luck.probe);
    var n := Negotiation(client, net, marked, luck.probe);
    hide Negotiation;
    if n.request.Err? {
      NoOwnAnswer(n.events);
    } else {
      ExchangeEnds(n.client.conn, n.client.remote, n.client.selected, n.request.value, Own, luck.reply);
      var x := Exchange(n.client.conn, n.client.remote, n.client.selected, n.request.value, Own, luck.reply);
      LastTwoDecide(n.events, x.events);
    }
  }

  lemma NoOwnAnswer(events: seq<Event>)
    requires forall e | e in events :: !IsOwnLine(e)
    ensures !IsOwnAnswer(events)
  {
    if |events| >= 2 {
      assert events[|events| - 2] in events;
    }
  }

  /** How a run of lines ends is told by its last two. */
  lemma LastTwoDecide(before: seq<Event>, last: seq<Event>)
    requires |last| == 2
    ensures var all := before + last;
            && all[|all| - 1] == last[1]
            && IsAnswered(all) == IsAnswered(last) && IsOwnAnswer(all) == IsOwnAnswer(last)
            && (IsOwnAnswer(all) ==> ReplyOf(all) == ReplyOf(last))
  {
    var all := before + last;
    assert all[|all| - 2] == last[0];
  }

  /** How the negotiation before it ends. */
  lemma NegotiationEnds(client: Client, net: Net, request: Request, probe: Arrival)
    requires !client.conn.poisoned
    ensures var n := Negotiation(client, net, request, probe);
            && (forall e | e in n.events :: !IsOwnLine(e))
            && (n.request.Ok? ==> !n.client.conn.poisoned)
            && (n.request.Err? && n.events == [] ==> IsDecision(n.request.error))
            && (n.request.Err? && n.events != [] ==> (IsDecision(n.request.error) <==> IsAnswered(n.events)))
  {
    hide Exchange, VersionIndependent, DowngradeParams, UpgradeResult, RequestId;
    var range := Narrow(request.range, WINDOW);
    if client.selected.None? && !VersionIndependent(request.verb, request.params) && range.Some? {
      var asked := HealthProbe(range.value, client, net);
      ExchangeEnds(client.conn, client.remote, None, asked, Probe, probe);
      NegotiationShape(client, net, request, probe);
    }
  }

  /**
   A call returns a value exactly when its own line was answered with a success,
   accepted, and the value is what that payload means in the current shape; a
   failure the daemon reports, and a payload that has no current shape, are errors.
   */
  lemma ResultIsExact(client: Client, net: Net, request: Request, luck: Luck, r: Called, x: Value)
    requires r == Ask(client, net, request, luck)
    ensures r.result == Ok(x) <==>
              && IsOwnAnswer(r.events) && ReplyOf(r.events).body.Success?
              && UpgradeResult(ReplyOf(r.events).version, request.verb, ReplyOf(r.events).body.value) == Ok(x)
    ensures IsOwnAnswer(r.events) && ReplyOf(r.events).body.Failure? ==>
              r.result == Err(Protocol(ReplyOf(r.events).body.code))
    ensures IsOwnAnswer(r.events) && ReplyOf(r.events).body.Success? ==>
              var current := UpgradeResult(ReplyOf(r.events).version, request.verb, ReplyOf(r.events).body.value);
              current.Err? ==> r.result == Err(VersionTranslation(current.error))
  {
    hide Transact, UpgradeResult;
    var (renewed, net', failed) := Replaced(client, net, luck.dial);
    if failed.None? {
      AskEnds(renewed, net', request, luck.(dial := None), r);
    }
  }

  /** The caller's line as it stands on the wire is its parameters in the version of the answer. */
  lemma OwnLineIsInTheAnswersVersion(client: Client, net: Net, request: Request, luck: Luck, r: Called)
    requires r == Ask(client, net, request, luck)
    requires IsOwnAnswer(r.events) && WINDOW.Contains(ReplyOf(r.events).version)
    ensures DowngradeParams(ReplyOf(r.events).version, request.verb, request.params) == Ok(LineOf(r.events).params)
  {
    hide Negotiation, UpgradeResult, DowngradeParams, VersionIndependent, Exchange, RequestId;
    var (renewed, net', failed) := Replaced(client, net, luck.dial);
    var marked := WithOrigin(request, renewed.origin);
    NegotiationEnds(renewed, net', marked, luck.probe);
    NegotiatedMayBeWritten(renewed, net', marked, luck.probe);
    var n := Negotiation(renewed, net', marked, luck.probe);
    assert forall k | 0 <= k < |n.events| :: n.events[k] in n.events;
    if n.request.Ok? {
      ExchangeEnds(n.client.conn, n.client.remote, n.client.selected, n.request.value, Own, luck.reply);
      AcceptedUnder(n.client.conn, n.client.remote, n.client.selected, n.request.value, luck.reply);
      if n.client.selected.None? {
        SentAsItIs(renewed, net', marked, luck.probe, ReplyOf(r.events).version);
      }
    }
  }

  lemma AcceptedUnder(c: Conn, remote: bool, selected: Option<Version>, request: Request, arrival: Arrival)
    requires !c.poisoned
    ensures var x := Exchange(c, remote, selected, request, Own, arrival);
            |x.events| == 2 && (x.events[1].Read? && x.events[1].accepted && selected.Some? ==>
                                  x.events[1].response.version == selected.value)
  {
    hide Decode;
  }

  /** A request written before a version is selected is the same in every version of the window. */
  lemma SentAsItIs(client: Client, net: Net, request: Request, probe: Arrival, v: Version)
    requires !client.conn.poisoned && WINDOW.Contains(v)
    requires var n := Negotiation(client, net, request, probe); n.request.Ok? && n.client.selected.None?
    ensures DowngradeParams(v, request.verb, request.params) == Ok(request.params)
    ensures Negotiation(client, net, request, probe).request.value.params == request.params
  {
    hide Exchange, TranslateRequest, RequestId;
  }

  /**
   One whole call with a daemon of either version that runs the request as it
   understands it and answers in its own shape: the daemon sees the caller's
   parameters, and the caller gets the daemon's result, each up to what the older
   version lacks.
   */
  lemma CallMeansTheSame(client: Client, net: Net, request: Request, luck: Luck, r: Called, result: Value)
    requires r == Ask(client, net, request, luck)
    requires IsOwnAnswer(r.events) && WINDOW.Contains(ReplyOf(r.events).version)
    requires DowngradeResult(ReplyOf(r.events).version, request.verb, result).Ok?
    requires ReplyOf(r.events).body == Success(DowngradeResult(ReplyOf(r.events).version, request.verb, result).value)
    ensures var v := ReplyOf(r.events).version;
            && UpgradeParams(v, request.verb, LineOf(r.events).params) ==
               Ok(if v == CURRENT then request.params else ForgetRequest(request.verb, request.params))
            && r.result == Ok(if v == CURRENT then result else ForgetResult(request.verb, result))
  {
    hide Ask, UpgradeResult, DowngradeParams, DowngradeResult, UpgradeParams, ForgetResult, ForgetRequest;
    var v := ReplyOf(r.events).version;
    OwnLineIsInTheAnswersVersion(client, net, request, luck, r);
    CallPreservesMeaning(v, request.verb, request.params, result);
    ResultIsExact(client, net, request, luck, r, if v == CURRENT then result else ForgetResult(request.verb, result));
  }

  /** A call retires its connection exactly when a deadline passed or a reply was not its own. */
  lemma RetiredIff(client: Client, net: Net, request: Request, luck: Luck, r: Called)
    requires !client.conn.poisoned && r == Ask(client, net, request, luck)
    ensures r.client.conn == Conn(client.conn.id, r.events != [] && Poisons(r.events[|r.events| - 1]))
  {
    hide Exchange, VersionIndependent, DowngradeParams, RequestId;
    var marked := WithOrigin(request, client.origin);
    NegotiationRetires(client, net, marked, luck.probe);
    var n := Negotiation(client, net, marked, luck.probe);
    hide Negotiation;
    if n.request.Ok? {
      ExchangeRetires(n.client.conn, n.client.remote, n.client.selected, n.request.value, Own, luck.reply);
    }
  }

  lemma ExchangeRetires(c: Conn, remote: bool, selected: Option<Version>, request: Request,
                        purpose: Purpose, arrival: Arrival)
    requires !c.poisoned
    ensures var x := Exchange(c, remote, selected, request, purpose, arrival);
            && |x.events| == 2 && x.conn == Conn(c.id, Poisons(x.events[1]))
            && (x.result.Ok? ==> !x.conn.poisoned)
  {
    hide Decode;
  }

  lemma NegotiationRetires(client: Client, net: Net, request: Request, probe: Arrival)
    requires !client.conn.poisoned
    ensures var n := Negotiation(client, net, request, probe);
            && n.client.conn == Conn(client.conn.id, n.events != [] && Poisons(n.events[|n.events| - 1]))
            && (n.request.Ok? ==> !n.client.conn.poisoned)
  {
    hide Exchange, VersionIndependent, DowngradeParams, RequestId;
    var range := Narrow(request.range, WINDOW);
    if client.selected.None? && !VersionIndependent(request.verb, request.params) && range.Some? {
      ExchangeRetires(client.conn, client.remote, None, HealthProbe(range.value, client, net), Probe, probe);
    }
  }

  /** A subscription stands exactly when its own line was answered with a success, on the answer's version. */
  lemma SubscribedIff(client: Client, net: Net, request: Request, probe: Arrival, reply: Arrival, s: Subscribed)
    requires !client.conn.poisoned && s == SubscribeWith(client, net, request, probe, reply)
    ensures s.result.Ok? <==>
            IsOwnAnswer(s.events) &&
            Meaning(ReplyOf(s.events).version, request.verb, ReplyOf(s.events).body).Ok?
    ensures s.result.Ok? ==> s.result.value == Subscription(client.conn.id, ReplyOf(s.events).version)
  {
    hide Exchange, VersionIndependent, DowngradeParams, Meaning, UpgradeResult, RequestId;
    var marked := WithOrigin(request, client.origin);
    NegotiatedMayBeWritten(client, net, marked, probe);
    NegotiationEnds(client, net, marked, probe);
    NegotiationRetires(client, net, marked, probe);
    var n := Negotiation(client, net, marked, probe);
    hide Negotiation;
    if n.request.Err? {
      NoOwnAnswer(n.events);
    } else {
      ExchangeEnds(n.client.conn, n.client.remote, n.client.selected, n.request.value, Own, reply);
      ExchangeRetires(n.client.conn, n.client.remote, n.client.selected, n.request.value, Own, reply);
      var x := Exchange(n.client.conn, n.client.remote, n.client.selected, n.request.value, Own, reply);
      LastTwoDecide(n.events, x.events);
    }
  }

  // ------------------------------------------------------------- when it does

  /** The line a call writes under version `v`. */
  function PinnedLine(request: Request, origin: Option<Origin>, v: Version): (r: Request)
    requires DowngradeParams(v, request.verb, request.params).Ok?
  {
    Request(request.id, request.verb, DowngradeParams(v, request.verb, request.params).value,
            if v == CURRENT && request.verb == HostDiscover then request.range else Span(v, v),
            if origin.Some? then origin else request.origin)
  }

  /** An exchange that is answered under its id, in its range, by the selected version. */
  lemma ExchangeIsServed(c: Conn, remote: bool, selected: Option<Version>, request: Request,
                         purpose: Purpose, response: Response)
    requires !c.poisoned && response.id == request.id && response.body != Failure(VersionMismatch)
    requires request.range.Contains(response.version) && selected in {None, Some(response.version)}
    ensures var x := Exchange(c, remote, selected, request, purpose, Answer(response));
            && x.events == [Wrote(c.id, request, purpose, selected), Read(c.id, request, response, true)]
            && x.conn == c && x.selected == Some(response.version)
  {
    hide Decode;
  }

  /** On a connection fixed on `v`, a request that allows `v` and has a shape there is written and its answer taken. */
  lemma FixedCallIsServed(client: Client, net: Net, request: Request, luck: Luck, v: Version, body: Body, r: Called)
    requires r == Ask(client, net, request, luck)
    requires !client.conn.poisoned && client.selected == Some(v) && request.range.Contains(v)
    requires DowngradeParams(v, request.verb, request.params).Ok?
    requires luck.reply == Answer(Response(v, request.id, body)) && body != Failure(VersionMismatch)
    ensures var line := PinnedLine(request, client.origin, v);
            r.events == [Wrote(client.conn.id, line, Own, Some(v)),
                         Read(client.conn.id, line, Response(v, request.id, body), true)]
  {
    hide Exchange, TranslateRequest;
    var marked := WithOrigin(request, client.origin);
    var pinned := Pin(marked, v).value;
    assert pinned == PinnedLine(request, client.origin, v);
    ExchangeIsServed(client.conn, client.remote, Some(v), pinned, Own, Response(v, request.id, body));
  }

  /** A fixed version the request excludes, or one it has no shape in, refuses it before anything is written. */
  lemma FixedCallIsRefused(client: Client, net: Net, request: Request, luck: Luck, v: Version, r: Called)
    requires r == Ask(client, net, request, luck)
    requires !client.conn.poisoned && client.selected == Some(v)
    requires !request.range.Contains(v) || DowngradeParams(v, request.verb, request.params).Err?
    ensures r.events == [] && r.client == client && r.result.Err?
    ensures !request.range.Contains(v) ==>
              r.result.error == if v < request.range.minimum then DaemonProtocolTooOld else Protocol(VersionMismatch)
    ensures request.range.Contains(v) ==>
              var cause := DowngradeParams(v, request.verb, request.params).error;
              r.result.error == if cause.MethodNotDefined? then DaemonProtocolTooOld else VersionTranslation(cause)
  {
    hide Exchange, TranslateRequest;
  }

  /** On a connection without a version, a request that is the same in each is written as it is. */
  lemma IndependentCallIsServed(client: Client, net: Net, request: Request, luck: Luck, v: Version, body: Body,
                                r: Called)
    requires r == Ask(client, net, request, luck)
    requires !client.conn.poisoned && client.selected == None && request.range.Contains(v)
    requires VersionIndependent(request.verb, request.params)
    requires luck.reply == Answer(Response(v, request.id, body)) && body != Failure(VersionMismatch)
    ensures var line := WithOrigin(request, client.origin);
            r.events == [Wrote(client.conn.id, line, Own, None),
                         Read(client.conn.id, line, Response(v, request.id, body), true)]
  {
    hide Exchange, VersionIndependent;
    ExchangeIsServed(client.conn, client.remote, None, WithOrigin(request, client.origin), Own,
                     Response(v, request.id, body));
  }

  /** Any other request first learns the version from a health probe over what it and the window allow. */
  lemma ProbedCallIsServed(client: Client, net: Net, request: Request, luck: Luck, v: Version, w: Value, body: Body,
                           r: Called)
    requires r == Ask(client, net, request, luck)
    requires !client.conn.poisoned && client.selected == None && !VersionIndependent(request.verb, request.params)
    requires request.range.Contains(v) && WINDOW.Contains(v) && DowngradeParams(v, request.verb, request.params).Ok?
    requires luck.probe == Answer(Response(v, RequestId(DaemonHealth, net), Success(w)))
    requires luck.reply == Answer(Response(v, request.id, body)) && body != Failure(VersionMismatch)
    ensures |r.events| == 4
    ensures && r.events[0].Wrote? && r.events[0].request.verb == DaemonHealth && r.events[0].frozen == None
            && forall u: Version ::
                 r.events[0].request.range.Contains(u) <==> request.range.Contains(u) && WINDOW.Contains(u)
    ensures var line := PinnedLine(request, client.origin, v);
            r.events[2..] == [Wrote(client.conn.id, line, Own, Some(v)),
                              Read(client.conn.id, line, Response(v, request.id, body), true)]
  {
    hide Exchange, TranslateRequest, VersionIndependent, RequestId;
    var marked := WithOrigin(request, client.origin);
    ProbeSettles(client, net, marked, v, w, luck.probe);
    var pinned := Pin(marked, v).value;
    assert pinned == PinnedLine(request, client.origin, v);
    ExchangeIsServed(client.conn, client.remote, Some(v), pinned, Own, Response(v, request.id, body));
    hide Negotiation, Pin;
  }

  /** The answered probe fixes the connection on its version. */
  lemma ProbeSettles(client: Client, net: Net, request: Request, v: Version, w: Value, probe: Arrival)
    requires !client.conn.poisoned && client.selected == None && !VersionIndependent(request.verb, request.params)
    requires request.range.Contains(v) && WINDOW.Contains(v)
    requires probe == Answer(Response(v, RequestId(DaemonHealth, net), Success(w)))
    ensures var n := Negotiation(client, net, request, probe);
            && n.client == client.(selected := Some(v)) && n.request == Pin(request, v)
            && |n.events| == 2
            && n.events[0].Wrote? && n.events[0].request.verb == DaemonHealth && n.events[0].frozen == None
            && forall u: Version ::
                 n.events[0].request.range.Contains(u) <==> request.range.Contains(u) && WINDOW.Contains(u)
  {
    hide Exchange, VersionIndependent, RequestId, Pin;
    var range := Narrow(request.range, WINDOW).value;
    var asked := HealthProbe(range, client, net);
    ExchangeIsServed(client.conn, client.remote, None, asked, Probe, Response(v, asked.id, Success(w)));
    ExchangeEnds(client.conn, client.remote, None, asked, Probe, probe);
  }

  /** After a retired connection a call starts over on a new one, which no version is known of; or it cannot dial. */
  lemma RedialStartsOver(client: Client, net: Net, request: Request, luck: Luck)
    requires client.conn.poisoned
    ensures luck.dial.None? ==>
              Ask(client, net, request, luck) ==
              Ask(Client(Conn(net.nextConn, false), None, client.origin, client.remote),
                  Net(net.nextConn + 1, net.nextId, net.token), request, luck)
    ensures luck.dial.Some? ==> Ask(client, net, request, luck) == Called(client, net, [], Err(luck.dial.value))
  {
    hide Transact;
  }
}
