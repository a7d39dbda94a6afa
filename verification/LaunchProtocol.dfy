/**
 One launch against a lossy network and daemons old and new: any interleaving of
 lost, delayed and answered messages. A daemon that honours keys follows the
 contract the client code states for them (crates/assistant/src/launch.rs:380-390):
 a repeated key is answered with the session the first request created, with "in
 progress" while it is being created, or creates the session when the first never
 arrived; the same key with other parameters is a conflict. The daemons that honour
 keys share one key store, as one host has one daemon at a time, restarted or
 replaced by another build. A daemon that does not honour keys drops the key, so
 that every request it receives creates a session of its own, and so does every
 request without a key.
 */
module LaunchProtocol {
  import opened Wrappers

  /** An answer to one `session.new`. */
  datatype Answer =
    | Session(id: nat)         // created now or replayed
    | InProgress
    | Conflict
    | RolledBack               // the creation failed and the key is free again

  /** One request line: sent with these contents, then in flight until it is delivered or lost. */
  datatype Line = Unsent | InFlight(keyed: bool, params: string) | Settled

  datatype Outcome = Launched(id: nat) | TypedError | Unknown

  /** Where the client is: connecting an attempt, waiting for its answer, or done. */
  datatype Phase =
    | Preparing(attempt: nat)
    | Waiting(attempt: nat)
    | Finished(outcome: Outcome)

  /** What is stored for the launch's key: nothing, a creation for one attempt, or the session. */
  datatype Record =
    | Free
    | Creating(attempt: nat, params: string)
    | Holds(id: nat, params: string)

  datatype State = State(
    keyed: bool,
    params: string,            // the launch's parameters
    phase: Phase,
    lines: seq<Line>,          // the requests of attempts 0 and 1
    answers: seq<Option<Answer>>,
    honours: seq<bool>,        // whether the daemon at the end of the attempt's connection honours keys
    record: Record,
    plain: seq<bool>,          // whether the attempt's request is at a creation no key stands for
    created: seq<nat>          // every session that exists for the launch or its key
  )

  /**
   A launch about to start. `earlier` is the session a previous launch with the
   same key left behind, and the parameters it was created with.
   */
  function Init(keyed: bool, params: string, honours: (bool, bool), earlier: Option<(nat, string)>): (s: State) {
    State(keyed, params, Preparing(0), [Unsent, Unsent], [None, None], [honours.0, honours.1],
          if earlier.Some? then Holds(earlier.value.0, earlier.value.1) else Free, [false, false],
          if earlier.Some? then [earlier.value.0] else [])
  }

  /** What can happen next. A step that is not enabled changes nothing. */
  datatype Step =
    | Connected                      // the current attempt has its connection
    | Inspected(supported: bool)     // the capability answer on that connection
    | FailsTyped                     // the current attempt ends in a typed error before or after sending
    | FailsUnknown(timeLeft: bool)   // the current attempt ends without an answer
    | Delivered(attempt: nat)
    | Lost(attempt: nat)
    | Completes(id: nat)             // the creation stored for the key is finished
    | RollsBack
    | CompletesPlain(attempt: nat, id: nat)
    | RollsBackPlain(attempt: nat)
    | Answered                       // the current attempt reads its answer
    | AnswerLost(attempt: nat)

  /** The client sends the request of attempt `n`. */
  function Send(s: State, n: nat): (r: State)
    requires n < |s.lines|
  {
    s.(phase := Waiting(n), lines := s.lines[n := InFlight(s.keyed, s.params)])
  }

  /** The daemon handles the delivered request of attempt `n`; only one that honours keys looks at the record. */
  function Handle(s: State, n: nat, keyed: bool, params: string): (r: State)
    requires Shaped(s) && n < 2
  {
    var settled := s.(lines := s.lines[n := Settled]);
    if !keyed || !s.honours[n] then settled.(plain := s.plain[n := true])
    else if s.record.Free? then settled.(record := Creating(n, params))
    else if s.record.params != params then settled.(answers := s.answers[n := Some(Conflict)])
    else if s.record.Creating? then settled.(answers := s.answers[n := Some(InProgress)])
    else settled.(answers := s.answers[n := Some(Session(s.record.id))])
  }

  predicate Shaped(s: State) {
    |s.lines| == 2 && |s.answers| == 2 && |s.honours| == 2 && |s.plain| == 2
  }

  /** The client's moves: an unkeyed request at once, a keyed one only after the connection advertised support. */
  function ClientMoves(s: State, step: Step): (r: State)
    requires Shaped(s)
    ensures Shaped(r)
  {
    match step
    case Connected =>
      if s.phase.Preparing? && s.phase.attempt < 2 && !s.keyed then Send(s, s.phase.attempt) else s
    case Inspected(supported) =>
      // A daemon never advertises support it lacks.
      if !s.phase.Preparing? || s.phase.attempt >= 2 || !s.keyed || (supported && !s.honours[s.phase.attempt]) then s
      else if supported then Send(s, s.phase.attempt)
      else s.(phase := Finished(TypedError))
    case FailsTyped =>
      if s.phase.Finished? then s else s.(phase := Finished(TypedError))
    case FailsUnknown(timeLeft) =>
      if s.phase.Finished? then s
      else if s.keyed && s.phase.attempt == 0 && timeLeft then s.(phase := Preparing(1))
      else s.(phase := Finished(Unknown))
    case Answered =>
      if s.phase.Waiting? && s.phase.attempt < 2 && s.answers[s.phase.attempt].Some? then
        s.(phase := Finished(match s.answers[s.phase.attempt].value
                             case Session(id) => Launched(id)
                             case _ => TypedError))
      else s
    case _ => s
  }

  /** One step of the network, of a daemon, or of the client. */
  function Take(s: State, step: Step): (r: State)
    requires Shaped(s)
    ensures Shaped(r)
  {
    match step
    case Delivered(n) =>
      if n < 2 && s.lines[n].InFlight? then Handle(s, n, s.lines[n].keyed, s.lines[n].params) else s
    case Lost(n) =>
      if n < 2 && s.lines[n].InFlight? then s.(lines := s.lines[n := Settled]) else s
    case Completes(id) =>
      if s.record.Creating? && s.record.attempt < 2 then
        s.(record := Holds(id, s.record.params), created := s.created + [id],
           answers := s.answers[s.record.attempt := Some(Session(id))])
      else s
    case RollsBack =>
      if s.record.Creating? && s.record.attempt < 2 then
        s.(record := Free, answers := s.answers[s.record.attempt := Some(RolledBack)])
      else s
    case CompletesPlain(n, id) =>
      if n < 2 && s.plain[n] then
        s.(plain := s.plain[n := false], created := s.created + [id], answers := s.answers[n := Some(Session(id))])
      else s
    case RollsBackPlain(n) =>
      if n < 2 && s.plain[n] then s.(plain := s.plain[n := false], answers := s.answers[n := Some(RolledBack)]) else s
    case AnswerLost(n) =>
      if n < 2 then s.(answers := s.answers[n := None]) else s
    case _ => ClientMoves(s, step)
  }

  function Run(s: State, steps: seq<Step>): (r: State)
    requires Shaped(s)
    ensures Shaped(r)
  {
    if steps == [] then s else Take(Run(s, steps[..|steps| - 1]), steps[|steps| - 1])
  }

  // -------------------------------------------------------------- invariant

  /** What was sent: the launch's own contents, keyed requests only to daemons that honour keys. */
  predicate LineOk(s: State, n: nat)
    requires Shaped(s) && n < 2
  {
    && (s.lines[n].InFlight? ==> s.lines[n].keyed == s.keyed && s.lines[n].params == s.params)
    && (s.keyed && !s.lines[n].Unsent? ==> s.honours[n])
  }

  /** Attempts in order, the second only with a key. */
  predicate SentInOrder(s: State)
    requires Shaped(s)
  {
    && LineOk(s, 0) && LineOk(s, 1)
    && (s.phase.Preparing? ==> s.phase.attempt < 2 && s.lines[s.phase.attempt].Unsent?)
    && (s.phase.Waiting? ==> s.phase.attempt < 2 && !s.lines[s.phase.attempt].Unsent?)
    && (!s.phase.Finished? && s.phase.attempt == 0 ==> s.lines[1].Unsent?)
    && (!s.keyed ==> s.lines[1].Unsent? && (!s.phase.Finished? ==> s.phase.attempt == 0))
  }

  predicate AnswerOk(s: State, answer: Option<Answer>) {
    answer.Some? ==>
      && (answer.value.Conflict? ==> s.record.Holds? && s.record.params != s.params)
      && (answer.value.Session? ==> IsHeld(s, answer.value.id))
  }

  predicate IsHeld(s: State, id: nat) {
    s.record.Holds? && s.record.params == s.params && s.record.id == id
  }

  /** With a key, the record stands for every creation, and every answer names its session. */
  predicate KeyedOnce(s: State)
    requires Shaped(s)
  {
    && !s.plain[0] && !s.plain[1]
    && (s.record.Free? ==> s.created == [])
    && (s.record.Creating? ==> s.created == [] && s.record.attempt < 2 && s.record.params == s.params)
    && (s.record.Holds? ==> s.created == [s.record.id])
    && AnswerOk(s, s.answers[0]) && AnswerOk(s, s.answers[1])
    && (s.phase.Finished? && s.phase.outcome.Launched? ==> IsHeld(s, s.phase.outcome.id))
  }

  /** Without a key, the one request sent stands for every creation. */
  predicate PlainOnce(s: State)
    requires Shaped(s)
  {
    && s.record.Free? && !s.plain[1] && s.answers[1].None?
    && (!s.lines[0].Settled? ==> !s.plain[0])
    && (!s.lines[0].Settled? || s.plain[0] ==> s.created == [] && s.answers[0].None?)
    && |s.created| <= 1
    && (s.answers[0].Some? ==> s.answers[0].value != Conflict)
    && (s.answers[0].Some? && s.answers[0].value.Session? ==> s.created == [s.answers[0].value.id])
    && (s.phase.Finished? && s.phase.outcome.Launched? ==>
          s.created == [s.phase.outcome.id] && s.lines[0].Settled? && !s.plain[0])
  }

  /** What every reachable state satisfies. */
  predicate Inv(s: State) {
    Shaped(s) && SentInOrder(s) && if s.keyed then KeyedOnce(s) else PlainOnce(s)
  }

  lemma SentKeeps(s: State, step: Step)
    requires Shaped(s) && SentInOrder(s)
    ensures SentInOrder(Take(s, step))
  {
    if !IsNetworkOrDaemon(step) {
      hide SentInOrder;
      SentClient(s, step);
    } else {
      hide Handle;
      SettledOnly(s, step);
    }
  }

  predicate IsNetworkOrDaemon(step: Step) {
    !(step.Connected? || step.Inspected? || step.FailsTyped? || step.FailsUnknown? || step.Answered?)
  }

  lemma SentClient(s: State, step: Step)
    requires Shaped(s) && SentInOrder(s)
    ensures SentInOrder(ClientMoves(s, step))
  {
  }

  /** The network and the daemons settle lines and touch nothing else of the client. */
  lemma SettledOnly(s: State, step: Step)
    requires Shaped(s) && IsNetworkOrDaemon(step)
    ensures var r := Take(s, step);
            && r.keyed == s.keyed && r.params == s.params && r.phase == s.phase && r.honours == s.honours
            && forall n | 0 <= n < 2 :: r.lines[n] == s.lines[n] || (s.lines[n].InFlight? && r.lines[n] == Settled)
  {
  }

  lemma KeyedKeeps(s: State, step: Step)
    requires Inv(s) && s.keyed
    ensures KeyedOnce(Take(s, step))
  {
    assert LineOk(s, 0) && LineOk(s, 1);
    hide SentInOrder;
    match step {
      case Delivered(n) =>
        if n < 2 && s.lines[n].InFlight? {
          KeyedHandled(s, n);
        }
      case Lost(_) =>
      case Completes(_) =>
      case RollsBack =>
      case CompletesPlain(_, _) =>
      case RollsBackPlain(_) =>
      case AnswerLost(_) =>
      case _ => KeyedClient(s, step);
    }
  }

  /** A keyed request is delivered only where the record is looked at. */
  lemma KeyedHandled(s: State, n: nat)
    requires Shaped(s) && n < 2 && s.keyed && s.lines[n].InFlight? && LineOk(s, n) && KeyedOnce(s)
    ensures KeyedOnce(Handle(s, n, s.lines[n].keyed, s.lines[n].params))
  {
  }

  lemma KeyedClient(s: State, step: Step)
    requires Shaped(s) && s.keyed && KeyedOnce(s)
    ensures KeyedOnce(ClientMoves(s, step))
  {
  }

  lemma PlainKeeps(s: State, step: Step)
    requires Inv(s) && !s.keyed
    ensures PlainOnce(Take(s, step))
  {
    match step {
      case Delivered(_) =>
      case CompletesPlain(_, _) =>
      case _ =>
    }
  }

  lemma TakeKeeps(s: State, step: Step)
    requires Inv(s)
    ensures Inv(Take(s, step))
    ensures Take(s, step).keyed == s.keyed && Take(s, step).params == s.params && Take(s, step).honours == s.honours
  {
    hide SentInOrder, KeyedOnce, PlainOnce;
    SentKeeps(s, step);
    if s.keyed {
      KeyedKeeps(s, step);
    } else {
      PlainKeeps(s, step);
    }
  }

  lemma {:induction false} RunKeeps(s: State, steps: seq<Step>)
    requires Inv(s)
    ensures Inv(Run(s, steps))
    ensures var r := Run(s, steps); r.keyed == s.keyed && r.params == s.params && r.honours == s.honours
  {
    if steps != [] {
      hide Take, Inv;
      RunKeeps(s, steps[..|steps| - 1]);
      TakeKeeps(Run(s, steps[..|steps| - 1]), steps[|steps| - 1]);
    }
  }

  // -------------------------------------------------------------- properties

  /** A record that holds a session never changes again. */
  lemma {:induction false} SessionIsKept(s: State, steps: seq<Step>)
    requires Inv(s) && s.record.Holds?
    ensures Run(s, steps).record == s.record
  {
    if steps != [] {
      hide SentInOrder;
      SessionIsKept(s, steps[..|steps| - 1]);
      RunKeeps(s, steps[..|steps| - 1]);
    }
  }

  /** Without an earlier launch, what the record holds was created by this one. */
  lemma {:induction false} CreatedUnderOwnParams(s: State, steps: seq<Step>)
    requires Inv(s) && (s.record.Holds? ==> s.record.params == s.params)
    ensures var r := Run(s, steps); r.record.Holds? ==> r.record.params == s.params
  {
    if steps != [] {
      hide SentInOrder;
      CreatedUnderOwnParams(s, steps[..|steps| - 1]);
      RunKeeps(s, steps[..|steps| - 1]);
    }
  }

  /**
   Over every interleaving, whether or not the daemon each attempt reaches honours
   keys, and with one key store among those that do, a launch leaves at most one
   session, and a successful launch returns it. An unkeyed request is sent at most
   once, a keyed one only to a daemon that honours keys, each with the launch's own
   parameters. An earlier launch may have used the key: with other parameters
   nothing is created, with the same parameters a successful launch returns the
   earlier session.
   */
  lemma OneLaunchLeavesAtMostOneSession(keyed: bool, params: string, honours: (bool, bool),
                                        earlier: Option<(nat, string)>, steps: seq<Step>)
    requires earlier.Some? ==> keyed
    ensures var s := Run(Init(keyed, params, honours, earlier), steps);
            && |s.created| <= 1
            && (s.phase.Finished? && s.phase.outcome.Launched? ==> s.created == [s.phase.outcome.id])
            && (!keyed ==> s.lines[1].Unsent?)
            && (keyed ==> forall n | 0 <= n < 2 && !s.lines[n].Unsent? :: s.honours[n])
            && (forall n | 0 <= n < 2 && s.lines[n].InFlight? :: s.lines[n] == InFlight(keyed, params))
            && (earlier.Some? ==> s.created == [earlier.value.0])
            && (earlier.Some? && earlier.value.1 != params ==> !(s.phase.Finished? && s.phase.outcome.Launched?))
            && (earlier.None? || earlier.value.1 == params ==> forall n | 0 <= n < 2 :: s.answers[n] != Some(Conflict))
  {
    hide Run;
    var start := Init(keyed, params, honours, earlier);
    RunKeeps(start, steps);
    if earlier.Some? {
      SessionIsKept(start, steps);
    } else {
      CreatedUnderOwnParams(start, steps);
    }
  }

  /** A run, from its first step. */
  lemma {:induction false} RunNext(s: State, steps: seq<Step>)
    requires Shaped(s)
    ensures steps == [] ==> Run(s, steps) == s
    ensures steps != [] ==> Run(s, steps) == Run(Take(s, steps[0]), steps[1..])
    decreases |steps|
  {
    hide Take;
    if |steps| > 1 {
      var n := |steps| - 1;
      assert steps[..n][1..] == steps[1..][..n - 1];
      RunNext(s, steps[..n]);
    }
  }

  /** The rest of a launch whose first attempt goes unanswered, when nothing more is lost. */
  function Recovery(s: State, id: nat): (steps: seq<Step>) {
    match s.record
    case Free => [FailsUnknown(true), Inspected(true), Delivered(1), Completes(id), Answered]
    case Creating(_, _) => [Completes(id), FailsUnknown(true), Inspected(true), Delivered(1), Answered]
    case Holds(_, _) => [FailsUnknown(true), Inspected(true), Delivered(1), Answered]
  }

  /**
   A launch with a key can always recover: from every reachable state of its first
   attempt, whatever was lost or created so far, there is a way on, through a daemon
   that honours keys, to the one session the launch has.
   */
  lemma UnansweredLaunchRecovers(s: State, id: nat)
    requires Inv(s) && s.keyed && s.honours[1] && s.phase in {Preparing(0), Waiting(0)}
    requires s.record.Holds? ==> s.record.params == s.params
    ensures var launched := if s.record.Holds? then s.record.id else id;
            var r := Run(s, Recovery(s, id));
            r.phase == Finished(Launched(launched)) && r.created == [launched]
  {
    var steps := Recovery(s, id);
    RunsAlong(s, steps);
    assert s.lines[1].Unsent?;
    hide Take, Inv;
    match s.record {
      case Free =>
        Resends(s);
        Creates(Resent(s), id);
      case Creating(_, _) =>
        CompletesFirst(s, id);
        Resends(Take(s, Completes(id)));
        Replays(Resent(Take(s, Completes(id))));
      case Holds(_, _) =>
        Resends(s);
        Replays(Resent(s));
    }
  }

  /** The second attempt has sent its request. */
  function Resent(s: State): (r: State)
    requires Shaped(s)
  {
    s.(phase := Waiting(1), lines := s.lines[1 := InFlight(s.keyed, s.params)])
  }

  lemma Resends(s: State)
    requires Shaped(s) && s.keyed && s.honours[1] && s.phase in {Preparing(0), Waiting(0)}
    ensures Take(Take(s, FailsUnknown(true)), Inspected(true)) == Resent(s)
  {
  }

  lemma CompletesFirst(s: State, id: nat)
    requires Inv(s) && s.keyed && s.record.Creating?
    ensures var r := Take(s, Completes(id));
            && r == s.(record := Holds(id, s.params), created := [id], answers := r.answers) && Shaped(r)
  {
  }

  lemma Replays(s: State)
    requires Shaped(s) && s.keyed && s.honours[1] && s.phase == Waiting(1) && s.lines[1] == InFlight(true, s.params)
    requires s.record.Holds? && s.record.params == s.params
    ensures var r := Take(Take(s, Delivered(1)), Answered);
            r.phase == Finished(Launched(s.record.id)) && r.created == s.created
  {
  }

  lemma Creates(s: State, id: nat)
    requires Shaped(s) && s.keyed && s.honours[1] && s.phase == Waiting(1) && s.lines[1] == InFlight(true, s.params)
    requires s.record.Free? && s.created == []
    ensures var r := Take(Take(Take(s, Delivered(1)), Completes(id)), Answered);
            r.phase == Finished(Launched(id)) && r.created == [id]
  {
  }

  /** A run of four or five steps, step by step. */
  lemma RunsAlong(s: State, steps: seq<Step>)
    requires Shaped(s) && 4 <= |steps| <= 5
    ensures var four := Take(Take(Take(Take(s, steps[0]), steps[1]), steps[2]), steps[3]);
            Run(s, steps) == if |steps| == 4 then four else Take(four, steps[4])
  {
    hide Take, Run;
    var two := Take(Take(s, steps[0]), steps[1]);
    var four := Take(Take(two, steps[2]), steps[3]);
    RunTwo(s, steps);
    RunTwo(two, steps[2..]);
    assert steps[2..][2..] == steps[4..];
    RunNext(four, steps[4..]);
    if |steps| == 5 {
      RunNext(Take(four, steps[4]), []);
    }
  }

  lemma RunTwo(s: State, steps: seq<Step>)
    requires Shaped(s) && |steps| >= 2
    ensures Run(s, steps) == Run(Take(Take(s, steps[0]), steps[1]), steps[2..])
  {
    hide Take, Run;
    RunNext(s, steps);
    RunNext(Take(s, steps[0]), steps[1..]);
    assert steps[1..][1..] == steps[2..];
  }

  /** With nothing lost, one attempt is enough, with a key or without. */
  lemma AnsweredLaunchSucceeds(keyed: bool, params: string, honours: (bool, bool), id: nat)
    requires keyed ==> honours.0
    ensures var s := Init(keyed, params, honours, None);
            var steps := if keyed then [Inspected(true), Delivered(0), Completes(id), Answered]
                         else [Connected, Delivered(0), CompletesPlain(0, id), Answered];
            Run(s, steps).phase == Finished(Launched(id)) && Run(s, steps).created == [id]
  {
    var s := Init(keyed, params, honours, None);
    var steps := if keyed then [Inspected(true), Delivered(0), Completes(id), Answered]
                 else [Connected, Delivered(0), CompletesPlain(0, id), Answered];
    RunsAlong(s, steps);
  }

  /**
   The daemons do not give this by themselves: were a keyed request sent a second
   time to a daemon that does not honour keys, or an unkeyed one sent twice, two
   sessions could exist.
   */
  lemma UncheckedRetryCreatesTwo(keyed: bool, params: string, honours: bool)
    requires !keyed || !honours
    ensures var s := Init(keyed, params, (honours, honours), None)
                       .(lines := [InFlight(keyed, params), InFlight(keyed, params)]);
            Run(s, [Delivered(0), CompletesPlain(0, 1), Delivered(1), CompletesPlain(1, 2)]).created == [1, 2]
  {
    var s := Init(keyed, params, (honours, honours), None)
               .(lines := [InFlight(keyed, params), InFlight(keyed, params)]);
    var steps := [Delivered(0), CompletesPlain(0, 1), Delivered(1), CompletesPlain(1, 2)];
    RunsAlong(s, steps);
  }

  /** The launch is in its second attempt, or has sent that attempt's request. */
  predicate IsRetrying(s: State)
    requires Shaped(s)
  {
    !s.lines[1].Unsent? || (!s.phase.Finished? && s.phase.attempt == 1)
  }

  /** A step of `steps` at which the first attempt ended without an answer, nothing of the second being sent. */
  ghost predicate EndsUnanswered(start: State, steps: seq<Step>, k: nat)
    requires Shaped(start) && k < |steps|
  {
    var s := Run(start, steps[..k]);
    steps[k] == FailsUnknown(true) && s.keyed && s.lines[1].Unsent? && s.phase in {Preparing(0), Waiting(0)}
  }

  /** A step at which the connection of the second attempt advertised support it has. */
  ghost predicate Advertised(start: State, steps: seq<Step>, k: nat)
    requires Shaped(start) && k < |steps|
  {
    var s := Run(start, steps[..k]);
    steps[k] == Inspected(true) && s.phase == Preparing(1) && s.honours[1]
  }

  lemma RetryStep(s: State, step: Step)
    requires Inv(s)
    ensures !IsRetrying(s) && IsRetrying(Take(s, step)) ==>
              step == FailsUnknown(true) && s.keyed && s.phase in {Preparing(0), Waiting(0)}
    ensures s.lines[1].Unsent? && !Take(s, step).lines[1].Unsent? ==>
              step == Inspected(true) && s.phase == Preparing(1) && s.honours[1] && IsRetrying(s)
  {
  }

  /** What the last step adds to a run. */
  lemma LastStep(start: State, steps: seq<Step>)
    requires Inv(start) && steps != []
    ensures var n := |steps| - 1;
            var before, after := Run(start, steps[..n]), Run(start, steps);
            && (!IsRetrying(before) && IsRetrying(after) ==> start.keyed && EndsUnanswered(start, steps, n))
            && (before.lines[1].Unsent? && !after.lines[1].Unsent? ==> Advertised(start, steps, n))
  {
    assert Shaped(start);
    hide Take, Inv;
    var n := |steps| - 1;
    RunKeeps(start, steps[..n]);
    RetryStep(Run(start, steps[..n]), steps[n]);
  }

  /** A longer run has the same earlier steps. */
  lemma EarlierStep(start: State, steps: seq<Step>, n: nat, k: nat)
    requires Shaped(start) && k < n <= |steps|
    ensures EndsUnanswered(start, steps[..n], k) ==> EndsUnanswered(start, steps, k)
    ensures Advertised(start, steps[..n], k) ==> Advertised(start, steps, k)
  {
    hide Run;
    assert steps[..n][..k] == steps[..k];
  }

  /**
   In every run a second attempt follows a first one that ended without an
   answer, in a launch with a key; and its request follows the advertisement of
   its own connection.
   */
  lemma {:induction false} RetryFollowsAnUnansweredAttempt(start: State, steps: seq<Step>)
    requires Inv(start) && !IsRetrying(start)
    ensures IsRetrying(Run(start, steps)) ==>
              start.keyed && exists k | 0 <= k < |steps| :: EndsUnanswered(start, steps, k)
    ensures !Run(start, steps).lines[1].Unsent? ==> exists k | 0 <= k < |steps| :: Advertised(start, steps, k)
    decreases |steps|
  {
    if steps != [] {
      hide Run, Inv, EndsUnanswered, Advertised;
      var n := |steps| - 1;
      RetryFollowsAnUnansweredAttempt(start, steps[..n]);
      LastStep(start, steps);
      forall k: nat | k < n
        ensures EndsUnanswered(start, steps[..n], k) ==> EndsUnanswered(start, steps, k)
        ensures Advertised(start, steps[..n], k) ==> Advertised(start, steps, k)
      {
        EarlierStep(start, steps, n, k);
      }
    }
  }
}
