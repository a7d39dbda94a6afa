/**
 Keyed session creation (crates/assistant/src/launch.rs): the idempotency key, and
 the attempts of one launch within its time budget.
 */
module Launch {
  import opened Wrappers
  import opened Strings
  import opened Budgets
  import T = Transport

  // ----------------------------------------------------------------- the key

  predicate IsKeyChar(c: char) {
    IsAsciiAlphanumeric(c) || c in {'.', '_', ':', '-'}
  }

  /** 1 to 128 characters of the key alphabet. */
  predicate IsValidClientRequestId(id: string) {
    1 <= |id| <= 128 && forall c | c in id :: IsKeyChar(c)
  }

  function HexDigit(d: nat): (c: char)
    requires d < 16
    ensures '0' <= c <= '9' || 'a' <= c <= 'f'
  {
    if d < 10 then '0' + d as char else 'a' + (d - 10) as char
  }

  function HexByte(b: Byte): (s: string)
    ensures |s| == 2
  {
    [HexDigit(b / 16), HexDigit(b % 16)]
  }

  function Hex(bytes: seq<Byte>): (s: string)
    ensures |s| == 2 * |bytes|
    ensures forall c | c in s :: IsKeyChar(c)
  {
    if bytes == [] then [] else Hex(bytes[..|bytes| - 1]) + HexByte(bytes[|bytes| - 1])
  }

  lemma HexByteInjective(a: Byte, b: Byte)
    requires HexByte(a) == HexByte(b)
    ensures a == b
  {
    assert HexByte(a)[0] == HexByte(b)[0] && HexByte(a)[1] == HexByte(b)[1];
    assert a / 16 == b / 16 && a % 16 == b % 16;
  }

  /** Two generated keys are equal only when all their random bits are. */
  lemma {:induction false} HexInjective(a: seq<Byte>, b: seq<Byte>)
    requires |a| == |b| && Hex(a) == Hex(b)
    ensures a == b
  {
    if a != [] {
      var n := |a| - 1;
      assert Hex(a[..n]) == Hex(a)[..2 * n] && Hex(b[..n]) == Hex(b)[..2 * n];
      assert HexByte(a[n]) == Hex(a)[2 * n..] && HexByte(b[n]) == Hex(b)[2 * n..];
      HexInjective(a[..n], b[..n]);
      HexByteInjective(a[n], b[n]);
      assert a == a[..n] + [a[n]] && b == b[..n] + [b[n]];
    }
  }

  /** Each byte is two lower-case hexadecimal digits, the high half first. */
  lemma {:induction false} HexAt(bytes: seq<Byte>, i: nat)
    requires i < |bytes|
    ensures Hex(bytes)[2 * i] == "0123456789abcdef"[bytes[i] / 16]
    ensures Hex(bytes)[2 * i + 1] == "0123456789abcdef"[bytes[i] % 16]
    decreases |bytes|
  {
    var n := |bytes| - 1;
    if i < n {
      HexAt(bytes[..n], i);
    } else {
      DigitIs(bytes[i] / 16);
      DigitIs(bytes[i] % 16);
    }
  }

  lemma DigitIs(d: nat)
    requires d < 16
    ensures HexDigit(d) == "0123456789abcdef"[d]
  {
  }

  /** The keys a launch may use, by character code: digits, letters, and the four of ".:_-". */
  lemma KeyIff(id: string)
    ensures IsValidClientRequestId(id) <==>
            && 1 <= |id| <= 128
            && forall i | 0 <= i < |id| ::
                 var n := id[i] as int;
                 48 <= n <= 57 || 65 <= n <= 90 || 97 <= n <= 122 || n == 46 || n == 58 || n == 95 || n == 45
  {
    assert forall i | 0 <= i < |id| :: id[i] in id;
  }

  /** `asst-` and the random bytes in lower-case hexadecimal. */
  method GeneratedRequestId(bytes: seq<Byte>) returns (id: string)
    requires |bytes| == 16
    ensures id == "asst-" + Hex(bytes)
    ensures IsValidClientRequestId(id) && |id| == 37
  {
    id := "asst-";
    var i := 0;
    while i < |bytes|
      invariant 0 <= i <= |bytes|
      invariant id == "asst-" + Hex(bytes[..i])
    {
      assert bytes[..i + 1][..i] == bytes[..i];
      id := id + HexByte(bytes[i]);
      i := i + 1;
    }
    assert bytes[..i] == bytes;
  }

  datatype KeyError = BadRequestId | KeyUnsupported | NoRandomness

  /** The key a launch sends, given the daemon's capability; `entropy` is the outcome of the random source. */
  method LaunchRequestId(supported: bool, requested: Option<string>, entropy: Option<seq<Byte>>)
    returns (key: Result<Option<string>, KeyError>)
    requires entropy.Some? ==> |entropy.value| == 16
    ensures key.Ok? ==> (key.value.Some? <==> supported)
    ensures key.Ok? && key.value.Some? ==> IsValidClientRequestId(key.value.value)
    ensures key.Ok? && requested.Some? ==> key.value == requested
    ensures key == Err(BadRequestId) <==> requested.Some? && !IsValidClientRequestId(requested.value)
    ensures key == Err(KeyUnsupported) <==> requested.Some? && IsValidClientRequestId(requested.value) && !supported
    ensures key == Err(NoRandomness) <==> requested.None? && supported && entropy.None?
    ensures key.Ok? && requested.None? && supported ==> key.value == Some("asst-" + Hex(entropy.value))
  {
    if requested.Some? {
      if !IsValidClientRequestId(requested.value) {
        return Err(BadRequestId);
      }
      if !supported {
        return Err(KeyUnsupported);
      }
      return Ok(requested);
    }
    if !supported {
      return Ok(None);
    }
    if entropy.None? {
      return Err(NoRandomness);
    }
    var id := GeneratedRequestId(entropy.value);
    key := Ok(Some(id));
  }

  // ------------------------------------------------------------ the attempts

  datatype LaunchError = ClientFailure(error: T.ClientError) | ProtocolFailure(code: string) | OtherFailure

  /** Whether it stays unknown that the daemon handled the request. */
  predicate OutcomeUnknown(e: LaunchError) {
    && e.ClientFailure?
    && (e.error.RequestTimeout? || e.error.Framing? || e.error.Io? || e.error.Json? ||
        e.error.DaemonUnreachable? || e.error.HostUnreachable? || e.error.RemoteDaemonUnavailable?)
  }

  /** What is known of an outcome is only what the daemon or the client itself said. */
  lemma OutcomeUnknownIff(e: T.ClientError)
    ensures OutcomeUnknown(ClientFailure(e)) <==>
            !(e.FileDescriptorsExhausted? || e.Protocol? || e.DaemonProtocolTooOld? || e.VersionTranslation?)
  {
  }

  /** How an attempt would end if nothing bounded it, and how late its timer fires. */
  datatype Fate<S> = Fate(result: Result<S, LaunchError>, took: Duration, lag: Duration)

  /** One attempt as sent: its parameters and its limit, `None` for an unbounded one. */
  datatype Attempt<P> = Attempt(params: P, limit: Option<Duration>)

  function AddDuration(a: Duration, b: Duration): (r: Duration) {
    if a + b > MAX_DURATION then MAX_DURATION else a + b
  }

  /** The outcome of an attempt that is given up at `limit`. */
  function CutOff<S>(fate: Fate<S>, limit: Duration): (r: Result<S, LaunchError>) {
    if fate.took <= limit then fate.result else Err(ClientFailure(T.RequestTimeout))
  }

  /** An attempt cut off at `limit`: its outcome and the time it took. */
  method BoundedAttempt<S>(fate: Fate<S>, limit: Duration) returns (result: Result<S, LaunchError>, took: Duration)
    ensures fate.took <= limit ==> result == fate.result && took == fate.took
    ensures fate.took > limit ==> result == Err(ClientFailure(T.RequestTimeout)) && took >= limit
    ensures fate.lag == 0 ==> took <= limit
  {
    if fate.took <= limit {
      return fate.result, fate.took;
    }
    return Err(ClientFailure(T.RequestTimeout)), AddDuration(limit, fate.lag);
  }

  /**
   One launch: `session.new` once without a key, at most twice with one.
   `attempts` records what was sent, `used` the time until the last send and
   `took` the time of the last attempt.
   */
  method CreateSession<S, P>(key: Option<string>, params: P, ack: Option<U32>, explicit: Option<Duration>,
                             first: Fate<S>, second: Fate<S>)
    returns (result: Result<S, LaunchError>, attempts: seq<Attempt<P>>, used: Duration, took: Duration)
    ensures key.None? ==> attempts == [Attempt(params, None)] && result == first.result
    ensures 1 <= |attempts| <= 2
    ensures forall a | a in attempts :: a.params == params
    ensures key.Some? ==> attempts[0].limit == Some(FirstShare(SessionNewRequestDeadline(ack, explicit)))
    // The retry: only after an outcome that stayed unknown, within what is left of the one budget.
    ensures |attempts| == 2 ==>
              && key.Some?
              && (first.took > attempts[0].limit.value || (first.result.Err? && OutcomeUnknown(first.result.error)))
              && attempts[1].limit.Some? && attempts[1].limit.value > 0
              && used + attempts[1].limit.value == SessionNewRequestDeadline(ack, explicit)
              && (first.lag == 0 ==> attempts[1].limit.value >= Reserve(SessionNewRequestDeadline(ack, explicit)))
    // A known outcome is final.
    ensures key.Some? && first.took <= attempts[0].limit.value &&
            (first.result.Ok? || !OutcomeUnknown(first.result.error)) ==>
              |attempts| == 1 && result == first.result
    // An attempt that ran out of its share is retried.
    ensures && key.Some? && first.lag == 0 && SessionNewRequestDeadline(ack, explicit) >= 2
            && first.took > attempts[0].limit.value
            ==> |attempts| == 2
    // The whole launch ends within the one budget.
    ensures key.Some? && first.lag == 0 && second.lag == 0 ==> used + took <= SessionNewRequestDeadline(ack, explicit)
    // An outcome that stayed unknown is retried whenever the budget has time left.
    ensures var firstEnd := CutOff(first, FirstShare(SessionNewRequestDeadline(ack, explicit)));
            && key.Some? && first.lag == 0 && SessionNewRequestDeadline(ack, explicit) >= 2
            && firstEnd.Err? && OutcomeUnknown(firstEnd.error)
            ==> |attempts| == 2
    ensures key.Some? && |attempts| == 1 ==> result == CutOff(first, attempts[0].limit.value)
    ensures |attempts| == 2 ==> result == CutOff(second, attempts[1].limit.value)
  {
    used := 0;
    if key.None? {
      return first.result, [Attempt(params, None)], 0, first.took;
    }
    var deadline := SessionNewRequestDeadline(ack, explicit);
    var limit := FirstShare(deadline);
    attempts := [Attempt(params, Some(limit))];
    var outcome, elapsed := BoundedAttempt(first, limit);
    BudgetSplit(deadline, elapsed);
    if outcome.Ok? || !OutcomeUnknown(outcome.error) {
      return outcome, attempts, 0, elapsed;
    }
    var remaining := RetryShare(deadline, elapsed);
    if remaining == 0 {
      return outcome, attempts, 0, elapsed;
    }
    used := elapsed;
    attempts := attempts + [Attempt(params, Some(remaining))];
    result, took := BoundedAttempt(second, remaining);
  }
}
