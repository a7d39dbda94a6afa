/**
 The bounded process runner (crates/daemon/src/bounded_run.rs): the supervising
 loop over a child's life, and the run around it. Times are milliseconds on the
 caller's clock. The model is the Unix one: an exit is observed without reaping.
 */
module Supervisor {
  import opened Wrappers
  import opened Strings
  import opened Pipes

  const MAX_STDOUT_CAP_BYTES: nat := 128 * 1024
  const STDERR_TAIL_BYTES: nat := 4 * 1024
  const POLL_INTERVAL: nat := 10

  datatype RunLimits = RunLimits(timeout: nat, stdoutCap: nat)

  /** A larger caller cap is lowered to the maximum. */
  function NewLimits(timeout: nat, stdoutCap: nat): (l: RunLimits)
    ensures l.stdoutCap <= stdoutCap && l.stdoutCap <= MAX_STDOUT_CAP_BYTES
    ensures l.stdoutCap == stdoutCap || l.stdoutCap == MAX_STDOUT_CAP_BYTES
    ensures l.timeout == timeout
  {
    RunLimits(timeout, if stdoutCap < MAX_STDOUT_CAP_BYTES then stdoutCap else MAX_STDOUT_CAP_BYTES)
  }

  /** What this process knows of the child: its pid is reserved until it is reaped. */
  datatype Life = Unreaped | Reaped | NotWaitable

  /** The answer of one non-reaping exit check. */
  datatype Check = Running | HasExited | Gone | CheckFails

  /** What one poll meets: the cancel flag, the exit check, the clock, and whether a wait would fail. */
  datatype Poll = Poll(cancelled: bool, check: Check, now: int, waitFails: bool)

  datatype Ended = Exited(status: int) | TimedOut | Overflowed | Cancelled | Unavailable

  /** Every sleep lets at least one poll interval pass. */
  ghost predicate Advances(polls: nat -> Poll) {
    forall i: nat, j: nat | i <= j :: polls(j).now >= polls(i).now + (j - i) * POLL_INTERVAL
  }

  lemma ClockMoves(polls: nat -> Poll, n: nat)
    requires Advances(polls)
    ensures polls(n + 1).now >= polls(n).now + POLL_INTERVAL
  {
    var gap := (n + 1 - n) * POLL_INTERVAL;
    assert polls(n + 1).now >= polls(n).now + gap;
  }

  class Child {
    var life: Life
    const status: int          // how the child exits, as the kernel keeps it
    var signalled: seq<Life>   // what was known each time the group was killed

    constructor (status: int)
      ensures life == Unreaped && this.status == status && signalled == []
    {
      life, this.status, signalled := Unreaped, status, [];
    }

    method TerminateGroup()
      modifies this`signalled
      ensures signalled == old(signalled) + [life]
    {
      signalled := signalled + [life];
    }

    /** `wait`: reaps the child and yields its status, unless it fails. */
    method Wait(fails: bool) returns (r: Option<int>)
      modifies this`life
      ensures fails ==> r == None && life == old(life)
      ensures !fails ==> r == Some(status) && life == Reaped
    {
      if fails {
        return None;
      }
      life := Reaped;
      r := Some(status);
    }

    /** `terminate`: kills the group, then reaps the child. */
    method Terminate(waitFails: bool)
      modifies this
      ensures signalled == old(signalled) + [old(life)]
      ensures life == if waitFails then old(life) else Reaped
    {
      TerminateGroup();
      var _ := Wait(waitFails);
    }
  }

  /** A poll that neither ends the run nor finds the child changed. */
  predicate Undecided(p: Poll, drain: Drain, deadline: int) {
    !p.cancelled && drain.Within? && p.check.Running? && p.now < deadline
  }

  /** None of the first `n` polls decided. */
  ghost predicate QuietUntil(polls: nat -> Poll, limit: nat, nonblocking: bool, input: seq<ReadOutcome>,
                             deadline: int, n: nat)
  {
    forall k: nat | k < n :: Undecided(polls(k), DrainTimes(First, limit, nonblocking, input, k + 1).outcome, deadline)
  }

  lemma QuietStep(polls: nat -> Poll, limit: nat, nonblocking: bool, input: seq<ReadOutcome>, deadline: int, n: nat)
    ensures QuietUntil(polls, limit, nonblocking, input, deadline, 0)
    ensures QuietUntil(polls, limit, nonblocking, input, deadline, n)
            && Undecided(polls(n), DrainTimes(First, limit, nonblocking, input, n + 1).outcome, deadline) ==>
            QuietUntil(polls, limit, nonblocking, input, deadline, n + 1)
  {
  }

  /** How a deciding poll ends the run: cancel, overflow, exit, deadline, in this order. */
  function Decision(p: Poll, drain: Drain, status: int): (e: Ended) {
    if p.cancelled then Cancelled
    else if drain.Overflow? then Overflowed
    else
      match p.check
      case HasExited => if p.waitFails then Unavailable else Exited(status)
      case Running => TimedOut
      case _ => Unavailable
  }

  /** The exit check of one poll: `None` to go on polling. */
  method CheckChild(child: Child, poll: Poll, deadline: int) returns (ended: Option<Ended>)
    requires child.life == Unreaped && child.signalled == []
    modifies child
    ensures ended.None? <==> poll.check.Running? && poll.now < deadline
    ensures ended.None? ==> child.life == Unreaped && child.signalled == []
    ensures ended.Some? ==>
              ended.value == Decision(Poll(false, poll.check, poll.now, poll.waitFails), Within, child.status)
    ensures child.life == NotWaitable <==> poll.check.Gone?
    ensures ended.Some? && !poll.check.Gone? ==> child.signalled == [Unreaped]
    ensures poll.check.Gone? ==> child.signalled == []
    ensures ended.Some? && !poll.check.Gone? && !poll.waitFails ==> child.life == Reaped
  {
    ended := None;
    match poll.check {
      case HasExited =>
        // Not reaped yet, so the pid still holds the group id.
        child.TerminateGroup();
        var status := child.Wait(poll.waitFails);
        ended := Some(if status.Some? then Exited(status.value) else Unavailable);
      case Running =>
        if poll.now >= deadline {
          child.Terminate(poll.waitFails);
          ended := Some(TimedOut);
        }
      case Gone =>
        // The pid may already belong to another process: no signal.
        child.life := NotWaitable;
        ended := Some(Unavailable);
      case CheckFails =>
        child.Terminate(poll.waitFails);
        ended := Some(Unavailable);
    }
  }

  lemma TailNeverOverflows(limit: nat, nonblocking: bool, input: seq<ReadOutcome>, n: nat)
    ensures DrainTimes(Last, limit, nonblocking, input, n).outcome.Within?
  {
    AnySplitKeepsTheSame(Last, limit, nonblocking, input, n);
  }

  /**
   `supervise`. Returns how the run ended and the index of the poll that decided.

   The loop ends on a clock that advances: every earlier poll was undecided.
   The group is killed at most once, and only while the child is unreaped; it
   is killed unless the child was found not waitable, and the child is reaped
   unless a wait failed.
   */
  method Supervise(child: Child, stdout: DrainedPipe, stderr: DrainedPipe?, deadline: int, polls: nat -> Poll,
                   ghost input: seq<ReadOutcome>, ghost errors: seq<ReadOutcome>)
    returns (ended: Ended, n: nat)
    requires child.life == Unreaped && child.signalled == []
    requires stdout.retain == First && stdout.DrainedTimes(input, 0)
    requires stderr != null ==> stderr != stdout && stderr.retain == Last && stderr.DrainedTimes(errors, 0)
    requires Advances(polls)
    modifies child, stdout, stderr
    // What decided: the first poll that is not undecided, by the priority of `Decision`.
    ensures stdout.DrainedTimes(input, if polls(n).cancelled then n else n + 1)
    ensures var drain := DrainTimes(First, stdout.limit, stdout.nonblocking, input, n + 1).outcome;
            !Undecided(polls(n), drain, deadline) && ended == Decision(polls(n), drain, child.status)
    ensures QuietUntil(polls, stdout.limit, stdout.nonblocking, input, deadline, n)
    ensures stderr != null ==>
              stderr.DrainedTimes(errors, if ended.Cancelled? || ended.Overflowed? then n else n + 1)
    // What the child is left as.
    ensures child.signalled == [] || child.signalled == [Unreaped]
    ensures child.signalled == [] <==> child.life == NotWaitable
    ensures child.life == NotWaitable ==> ended.Unavailable? && polls(n).check.Gone?
    ensures child.life == NotWaitable || polls(n).waitFails || child.life == Reaped
    ensures ended.Exited? ==> child.life == Reaped && ended.status == child.status
  {
    hide DrainTimes, QuietUntil, Advances, DrainedPipe.DrainedTimes, DrainOnce;
    n := 0;
    DrainAgain(First, stdout.limit, stdout.nonblocking, input, 0);
    QuietStep(polls, stdout.limit, stdout.nonblocking, input, deadline, 0);
    while true
      invariant child.life == Unreaped && child.signalled == []
      invariant stdout.DrainedTimes(input, n)
      invariant DrainTimes(First, stdout.limit, stdout.nonblocking, input, n).outcome.Within?
      invariant QuietUntil(polls, stdout.limit, stdout.nonblocking, input, deadline, n)
      invariant stderr != null ==> stderr.DrainedTimes(errors, n)
      decreases deadline - polls(n).now
    {
      var poll := polls(n);
      if poll.cancelled {
        child.Terminate(poll.waitFails);
        return Cancelled, n;
      }
      var drain := stdout.DrainNext(input, n);
      if drain == Overflow {
        child.Terminate(poll.waitFails);
        return Overflowed, n;
      }
      if stderr != null {
        TailNeverOverflows(stderr.limit, stderr.nonblocking, errors, n);
        var _ := stderr.DrainNext(errors, n);
      }
      var decided := CheckChild(child, poll, deadline);
      if decided.Some? {
        return decided.value, n;
      }
      QuietStep(polls, stdout.limit, stdout.nonblocking, input, deadline, n);
      ClockMoves(polls, n);
      n := n + 1;
    }
  }

  /** The number of undecided polls is bounded by the timeout in poll intervals, rounded up. */
  lemma PollsAreBounded(polls: nat -> Poll, limit: nat, nonblocking: bool, input: seq<ReadOutcome>, start: int,
                        timeout: nat, n: nat)
    requires Advances(polls) && polls(0).now >= start
    requires QuietUntil(polls, limit, nonblocking, input, start + timeout, n)
    ensures n <= (timeout + POLL_INTERVAL - 1) / POLL_INTERVAL
  {
    if n > 0 {
      assert Undecided(polls(n - 1), DrainTimes(First, limit, nonblocking, input, n).outcome, start + timeout);
      assert polls(n - 1).now >= polls(0).now + (n - 1) * POLL_INTERVAL;
    }
  }

  /**
   The priority of a deciding poll, read back from the outcome: a timeout means
   the child was seen running after the deadline with nothing more urgent, an
   exit means it was seen exited before any cancel or overflow.
   */
  lemma OutcomeTellsThePoll(p: Poll, drain: Drain, deadline: int, status: int)
    requires !Undecided(p, drain, deadline)
    ensures Decision(p, drain, status).Cancelled? <==> p.cancelled
    ensures Decision(p, drain, status).Overflowed? <==> !p.cancelled && drain.Overflow?
    ensures Decision(p, drain, status).Exited? <==>
              !p.cancelled && drain.Within? && p.check.HasExited? && !p.waitFails
    ensures Decision(p, drain, status).TimedOut? <==>
              !p.cancelled && drain.Within? && p.check.Running? && p.now >= deadline
    ensures p.check.HasExited? ==> !Decision(p, drain, status).TimedOut?
  {
  }

  // --------------------------------------------------------------- the run

  datatype RunOutcome =
    | RunExited(status: int, stdout: seq<Byte>, stderrTail: seq<Byte>)
    | RunTimedOut
    | RunOverflow
    | RunCancelled
    | RunUnavailable

  /** How the preparation of a run goes: each step may fail, and each pipe delivers its reads. */
  datatype Setup = Setup(
    sandbox: bool,
    stdin: bool,
    spawned: bool,
    stdout: Option<seq<ReadOutcome>>,
    logStderr: bool,
    stderr: Option<seq<ReadOutcome>>,
    nonblocking: bool
  )

  predicate IsPrepared(setup: Setup) {
    setup.sandbox && setup.stdin && setup.spawned && setup.stdout.Some? && (setup.logStderr ==> setup.stderr.Some?)
  }

  function DrainAt(limits: RunLimits, setup: Setup, n: nat): (d: Drain)
    requires IsPrepared(setup)
  {
    DrainTimes(First, limits.stdoutCap, setup.nonblocking, setup.stdout.value, n + 1).outcome
  }

  /** Poll `n` is the one that ends the run. */
  ghost predicate Decides(limits: RunLimits, setup: Setup, start: int, polls: nat -> Poll, n: nat)
    requires IsPrepared(setup)
  {
    && QuietUntil(polls, limits.stdoutCap, setup.nonblocking, setup.stdout.value, start + limits.timeout, n)
    && !Undecided(polls(n), DrainAt(limits, setup, n), start + limits.timeout)
  }

  /**
   Which poll ends the run: the first one at which the run is cancelled, stdout is
   past the cap, the child no longer runs, or the deadline is reached.
   */
  lemma DecidesIff(limits: RunLimits, setup: Setup, start: int, polls: nat -> Poll, n: nat)
    requires IsPrepared(setup)
    ensures Decides(limits, setup, start, polls, n) <==>
            && (polls(n).cancelled || DrainAt(limits, setup, n).Overflow? || !polls(n).check.Running?
                || polls(n).now >= start + limits.timeout)
            && forall k: nat | k < n ::
                 && !polls(k).cancelled && DrainAt(limits, setup, k).Within? && polls(k).check.Running?
                 && polls(k).now < start + limits.timeout
  {
    hide DrainTimes;
    if forall k: nat | k < n ::
        && !polls(k).cancelled && DrainAt(limits, setup, k).Within? && polls(k).check.Running?
        && polls(k).now < start + limits.timeout
    {
      forall k: nat | k < n
        ensures Undecided(polls(k), DrainTimes(First, limits.stdoutCap, setup.nonblocking, setup.stdout.value,
                                               k + 1).outcome, start + limits.timeout)
      {
        assert DrainAt(limits, setup, k).Within?;
      }
    }
  }

  lemma DecidesOnce(limits: RunLimits, setup: Setup, start: int, polls: nat -> Poll, m: nat, n: nat)
    requires IsPrepared(setup) && Decides(limits, setup, start, polls, m) && Decides(limits, setup, start, polls, n)
    ensures m == n
  {
    hide DrainTimes, Undecided;
  }

  /** The stdout of a run whose child was seen exited at poll `n`; `None` past the cap or on a read error. */
  function StdoutAt(limits: RunLimits, setup: Setup, n: nat): (r: Option<seq<Byte>>)
    requires IsPrepared(setup)
  {
    var d := DrainTimes(First, limits.stdoutCap, setup.nonblocking, setup.stdout.value, n + 1);
    Finish(limits.stdoutCap, setup.nonblocking, d.bytes, setup.stdout.value[d.used..])
  }

  function TailAt(setup: Setup, n: nat): (r: seq<Byte>)
    requires IsPrepared(setup)
  {
    if !setup.logStderr then []
    else
      var d := DrainTimes(Last, STDERR_TAIL_BYTES, setup.nonblocking, setup.stderr.value, n + 1);
      DrainOnce(Last, STDERR_TAIL_BYTES, setup.nonblocking, d.bytes, setup.stderr.value[d.used..]).bytes
  }

  /** How a run that poll `n` decides ends. */
  function OutcomeAt(limits: RunLimits, setup: Setup, status: int, polls: nat -> Poll, n: nat): (o: RunOutcome)
    requires IsPrepared(setup)
  {
    match Decision(polls(n), DrainAt(limits, setup, n), status)
    case Exited(s) =>
      var all := StdoutAt(limits, setup, n);
      if all.Some? then RunExited(s, all.value, TailAt(setup, n)) else RunOverflow
    case TimedOut => RunTimedOut
    case Overflowed => RunOverflow
    case Cancelled => RunCancelled
    case Unavailable => RunUnavailable
  }

  /** Each outcome, read back from the deciding poll, what stdout then held, and its finish. */
  lemma RunOutcomeIsExact(limits: RunLimits, setup: Setup, status: int, start: int, polls: nat -> Poll, n: nat)
    requires IsPrepared(setup) && Decides(limits, setup, start, polls, n)
    ensures var o, p, d := OutcomeAt(limits, setup, status, polls, n), polls(n), DrainAt(limits, setup, n);
            var exited := !p.cancelled && d.Within? && p.check.HasExited? && !p.waitFails;
            && (o.RunCancelled? <==> p.cancelled)
            && (o.RunTimedOut? <==>
                  !p.cancelled && d.Within? && p.check.Running? && p.now >= start + limits.timeout)
            && (o.RunExited? <==> exited && StdoutAt(limits, setup, n).Some?)
            && (o.RunOverflow? <==>
                  !p.cancelled && (d.Overflow? || (exited && StdoutAt(limits, setup, n).None?)))
            && (o.RunUnavailable? <==>
                  && !p.cancelled && d.Within?
                  && (p.check.Gone? || p.check.CheckFails? || (p.check.HasExited? && p.waitFails)))
  {
    hide DrainTimes, Finish, QuietUntil;
    OutcomeTellsThePoll(polls(n), DrainAt(limits, setup, n), start + limits.timeout, status);
  }

  /** All bytes of some prefix of the reads. */
  ghost predicate IsReadFrom(s: seq<Byte>, input: seq<ReadOutcome>) {
    exists k: nat :: k <= |input| && s == DataOf(input[..k])
  }

  /** The last bytes of some prefix of the reads. */
  ghost predicate IsTailOf(s: seq<Byte>, input: seq<ReadOutcome>) {
    exists k: nat :: k <= |input| && s == Tail(DataOf(input[..k]), STDERR_TAIL_BYTES)
  }

  /** A poll at which the child still ran after the deadline, no later than the bound on polls. */
  ghost predicate RanPastDeadline(polls: nat -> Poll, start: int, timeout: nat) {
    exists n: nat :: polls(n).check.Running? && polls(n).now >= start + timeout
                     && n <= (timeout + POLL_INTERVAL - 1) / POLL_INTERVAL
  }

  /** What finishing an exited run's stdout gives. */
  lemma FinishedStdout(limit: nat, nonblocking: bool, input: seq<ReadOutcome>, n: nat)
    requires DrainTimes(First, limit, nonblocking, input, n).outcome.Within?
    ensures var d := DrainTimes(First, limit, nonblocking, input, n);
            var all := Finish(limit, nonblocking, d.bytes, input[d.used..]);
            all.Some? ==> |all.value| <= limit && (nonblocking ==> IsReadFrom(all.value, input))
  {
    hide DrainTimes, ReadToEnd;
    if nonblocking {
      DrainsThenFinish(limit, input, n);
      assert input[..DrainTimes(First, limit, true, input, n + 1).used] <= input;
    }
  }

  /** What finishing the stderr tail gives. */
  lemma FinishedTail(nonblocking: bool, input: seq<ReadOutcome>, n: nat)
    ensures var d := DrainTimes(Last, STDERR_TAIL_BYTES, nonblocking, input, n);
            var tail := DrainOnce(Last, STDERR_TAIL_BYTES, nonblocking, d.bytes, input[d.used..]).bytes;
            |tail| <= STDERR_TAIL_BYTES && IsTailOf(tail, input)
  {
    hide DrainTimes;
    AnySplitKeepsTheSame(Last, STDERR_TAIL_BYTES, nonblocking, input, n);
    AnySplitKeepsTheSame(Last, STDERR_TAIL_BYTES, nonblocking, input, n + 1);
    DrainAgain(Last, STDERR_TAIL_BYTES, nonblocking, input, n);
  }

  /**
   What an outcome means: an exited run carries the child's own status, the bytes of
   a prefix of the reads of its stdout, at most the cap, and the tail of its stderr; a
   timed out one had its child running past the deadline, within the bound on polls.
   */
  ghost predicate IsHonest(limits: RunLimits, setup: Setup, status: int, start: int, polls: nat -> Poll,
                           outcome: RunOutcome)
  {
    && (outcome.RunExited? ==>
          && IsPrepared(setup)
          && outcome.status == status
          && |outcome.stdout| <= limits.stdoutCap
          && (setup.nonblocking ==> IsReadFrom(outcome.stdout, setup.stdout.value))
          && |outcome.stderrTail| <= STDERR_TAIL_BYTES
          && (if setup.logStderr then IsTailOf(outcome.stderrTail, setup.stderr.value) else outcome.stderrTail == []))
    && (outcome.RunTimedOut? ==> RanPastDeadline(polls, start, limits.timeout))
    && (outcome.RunCancelled? ==> exists n: nat :: polls(n).cancelled)
  }

  lemma OutcomeIsHonest(limits: RunLimits, setup: Setup, status: int, start: int, polls: nat -> Poll, n: nat)
    requires IsPrepared(setup) && Decides(limits, setup, start, polls, n)
    requires Advances(polls) && polls(0).now >= start
    ensures IsHonest(limits, setup, status, start, polls, OutcomeAt(limits, setup, status, polls, n))
  {
    hide DrainTimes, DrainOnce, Finish, DataOf, QuietUntil, Advances, IsReadFrom, IsTailOf;
    PollsAreBounded(polls, limits.stdoutCap, setup.nonblocking, setup.stdout.value, start, limits.timeout, n);
    if DrainAt(limits, setup, n).Within? {
      FinishedStdout(limits.stdoutCap, setup.nonblocking, setup.stdout.value, n + 1);
    }
    if setup.logStderr {
      FinishedTail(setup.nonblocking, setup.stderr.value, n + 1);
    }
  }

  /** The child is seen exited at poll `n`, with nothing more urgent, and can be waited for. */
  predicate ExitsAt(limits: RunLimits, setup: Setup, polls: nat -> Poll, n: nat)
    requires IsPrepared(setup)
  {
    && !polls(n).cancelled && DrainAt(limits, setup, n).Within?
    && polls(n).check.HasExited? && !polls(n).waitFails
  }

  /**
   An exited run returns all its output: when the stream ended and paused no more
   often than the run read it, everything it delivered, or an overflow past the cap;
   on a blocking pipe, everything up to the end.
   */
  lemma ExitedRunReturnsAllOutput(limits: RunLimits, setup: Setup, status: int, polls: nat -> Poll, n: nat)
    requires IsPrepared(setup) && ExitsAt(limits, setup, polls, n)
    ensures setup.nonblocking && Ends(setup.stdout.value) && Pauses(setup.stdout.value) <= n + 1 ==>
              var all := DataOf(setup.stdout.value);
              OutcomeAt(limits, setup, status, polls, n) ==
              if |all| <= limits.stdoutCap then RunExited(status, all, TailAt(setup, n)) else RunOverflow
    ensures !setup.nonblocking && Complete(setup.stdout.value) ==>
              var all := Content(setup.stdout.value);
              OutcomeAt(limits, setup, status, polls, n) ==
              if |all| <= limits.stdoutCap then RunExited(status, all, TailAt(setup, n)) else RunOverflow
  {
    hide DrainTimes, DrainFrom, Content, Complete, Ends, Pauses, TailAt;
    var input, cap := setup.stdout.value, limits.stdoutCap;
    if setup.nonblocking && Ends(input) && Pauses(input) <= n + 1 {
      DrainsThenFinish(cap, input, n + 1);
      DrainsReachTheEnd(First, cap, input, n + 2);
      AnySplitKeepsTheSame(First, cap, true, input, n + 2);
      assert input[..|input|] == input;
    }
    if !setup.nonblocking && Complete(input) {
      BlockingDrainsNothing(First, cap, input, n + 1);
      assert input[0..] == input;
      FinishesAgree(cap, input);
    }
  }

  lemma {:induction false} BlockingDrainsNothing(retain: Retain, limit: nat, input: seq<ReadOutcome>, n: nat)
    ensures DrainTimes(retain, limit, false, input, n) == Drained([], 0, Within)
    decreases n
  {
    if n > 0 {
      BlockingDrainsNothing(retain, limit, input, n - 1);
    }
  }

  /**
   The stderr tail is the last 4 KiB of everything delivered, when the stream ended
   within the rounds the run made; a blocking pipe has none.
   */
  lemma TailIsTheLastOutput(setup: Setup, n: nat)
    requires IsPrepared(setup) && setup.logStderr
    ensures setup.nonblocking && Ends(setup.stderr.value) && Rounds(Last, setup.stderr.value) <= n + 1 ==>
              var all := DataOf(setup.stderr.value);
              TailAt(setup, n) == if |all| <= 4096 then all else all[|all| - 4096..]
    ensures !setup.nonblocking ==> TailAt(setup, n) == []
  {
    hide DrainTimes, DrainFrom, Ends, Rounds;
    var input := setup.stderr.value;
    DrainAgain(Last, STDERR_TAIL_BYTES, setup.nonblocking, input, n + 1);
    TailNeverOverflows(STDERR_TAIL_BYTES, setup.nonblocking, input, n + 1);
    if setup.nonblocking && Ends(input) && Rounds(Last, input) <= n + 1 {
      DrainsReachTheEnd(Last, STDERR_TAIL_BYTES, input, n + 2);
    }
    if !setup.nonblocking {
      BlockingDrainsNothing(Last, STDERR_TAIL_BYTES, input, n + 1);
    }
  }

  /** `run`: the outcome is that of the one poll that decides; a run that cannot be prepared is unavailable. */
  method Run(limits: RunLimits, setup: Setup, status: int, start: int, polls: nat -> Poll)
    returns (outcome: RunOutcome)
    requires Advances(polls) && polls(0).now >= start
    ensures if IsPrepared(setup) then
              exists n: nat ::
                Decides(limits, setup, start, polls, n) && outcome == OutcomeAt(limits, setup, status, polls, n)
            else outcome.RunUnavailable?
    ensures IsHonest(limits, setup, status, start, polls, outcome)
    ensures forall timeout: nat, cap: nat | limits == NewLimits(timeout, cap) ::
              outcome.RunExited? ==> |outcome.stdout| <= cap && |outcome.stdout| <= MAX_STDOUT_CAP_BYTES
  {
    hide DrainTimes, Finish, DrainOnce, QuietUntil, IsReadFrom, IsTailOf, RanPastDeadline, Undecided, Advances;
    if !setup.sandbox || !setup.stdin || !setup.spawned {
      return RunUnavailable;
    }
    var child := new Child(status);
    if setup.stdout.None? {
      child.Terminate(polls(0).waitFails);
      return RunUnavailable;
    }
    var stdout := new DrainedPipe(setup.stdout.value, limits.stdoutCap, First, setup.nonblocking);
    var stderr: DrainedPipe? := null;
    if setup.logStderr {
      if setup.stderr.None? {
        child.Terminate(polls(0).waitFails);
        return RunUnavailable;
      }
      stderr := new DrainedPipe(setup.stderr.value, STDERR_TAIL_BYTES, Last, setup.nonblocking);
    }
    var deadline := start + limits.timeout;
    ghost var input := setup.stdout.value;
    ghost var errors := if setup.stderr.Some? then setup.stderr.value else [];
    DrainAgain(First, limits.stdoutCap, setup.nonblocking, input, 0);
    DrainAgain(Last, STDERR_TAIL_BYTES, setup.nonblocking, errors, 0);
    var ended, n := Supervise(child, stdout, stderr, deadline, polls, input, errors);
    assert Decides(limits, setup, start, polls, n);
    OutcomeIsHonest(limits, setup, status, start, polls, n);
    hide IsHonest;
    var tail := [];
    if stderr != null {
      tail := stderr.FinishTail();
    }
    match ended {
      case Exited(s) =>
        var all := stdout.FinishFirst();
        outcome := if all.Some? then RunExited(s, all.value, tail) else RunOverflow;
      case TimedOut => outcome := RunTimedOut;
      case Overflowed => outcome := RunOverflow;
      case Cancelled => outcome := RunCancelled;
      case Unavailable => outcome := RunUnavailable;
    }
    assert outcome == OutcomeAt(limits, setup, status, polls, n);
  }
}
