/**
 The bounded pipe reader of the process runner (crates/daemon/src/bounded_run.rs,
 `DrainedPipe`). What the operating system answers to the successive `read`
 calls is a sequence of outcomes; a sequence that is used up has nothing more to
 read for now.
 */
module Pipes {
  import opened Wrappers
  import opened Strings

  const READ_CHUNK_BYTES: nat := 8 * 1024
  const TAIL_DRAIN_BUDGET_BYTES: nat := 64 * 1024

  datatype ReadOutcome =
    | Data(bytes: seq<Byte>)
    | Eof
    | Interrupted
    | WouldBlock
    | Failed

  /** A read returns at least one byte and at most one chunk. */
  predicate IsRead(r: ReadOutcome) {
    r.Data? ==> 1 <= |r.bytes| <= READ_CHUNK_BYTES
  }

  predicate Reads(rs: seq<ReadOutcome>) {
    forall r | r in rs :: IsRead(r)
  }

  function Bytes(r: ReadOutcome): (s: seq<Byte>) {
    if r.Data? then r.bytes else []
  }

  /** All bytes of a sequence of reads. */
  function DataOf(rs: seq<ReadOutcome>): (s: seq<Byte>) {
    if rs == [] then [] else Bytes(rs[0]) + DataOf(rs[1..])
  }

  datatype Retain = First | Last

  /** The last `limit` bytes of `s`. */
  function Tail(s: seq<Byte>, limit: nat): (t: seq<Byte>)
    ensures |t| == if |s| <= limit then |s| else limit
    ensures t == s[|s| - |t|..]
  {
    if |s| <= limit then s else s[|s| - limit..]
  }

  /** What a pipe that has read `seen` holds. */
  function Kept(retain: Retain, limit: nat, seen: seq<Byte>): (bytes: seq<Byte>) {
    if retain.Last? then Tail(seen, limit) else seen
  }

  datatype Drain = Within | Overflow

  /** The bytes held after a drain, how many reads it made, and its verdict. */
  datatype Drained = Drained(bytes: seq<Byte>, used: nat, outcome: Drain)

  /** One `drain_available` on a non-blocking pipe that has already taken `taken` bytes in this call. */
  function DrainFrom(retain: Retain, limit: nat, bytes: seq<Byte>, input: seq<ReadOutcome>, taken: nat): (d: Drained)
    ensures d.used <= |input|
    decreases |input|
  {
    if input == [] then Drained(bytes, 0, Within)
    else
      match input[0]
      case Interrupted =>
        var d := DrainFrom(retain, limit, bytes, input[1..], taken);
        d.(used := d.used + 1)
      case Data(chunk) =>
        var kept := Kept(retain, limit, bytes + chunk);
        if retain.First? && |kept| > limit then Drained(kept, 1, Overflow)
        else if retain.Last? && taken + |chunk| >= TAIL_DRAIN_BUDGET_BYTES then Drained(kept, 1, Within)
        else
          var d := DrainFrom(retain, limit, kept, input[1..], taken + |chunk|);
          d.(used := d.used + 1)
      case _ => Drained(bytes, 1, Within)
  }

  function DrainOnce(retain: Retain, limit: nat, nonblocking: bool, bytes: seq<Byte>,
                     input: seq<ReadOutcome>): (d: Drained)
    ensures d.used <= |input|
  {
    if nonblocking then DrainFrom(retain, limit, bytes, input, 0) else Drained(bytes, 0, Within)
  }

  lemma DrainNothing(retain: Retain, limit: nat, bytes: seq<Byte>, taken: nat)
    ensures DrainFrom(retain, limit, bytes, [], taken) == Drained(bytes, 0, Within)
  {
  }

  /** One step of a drain, by what the read returned. */
  lemma DrainStep(retain: Retain, limit: nat, bytes: seq<Byte>, r: ReadOutcome, rest: seq<ReadOutcome>, taken: nat)
    ensures var d := DrainFrom(retain, limit, bytes, [r] + rest, taken);
            match r {
              case Interrupted => var n := DrainFrom(retain, limit, bytes, rest, taken); d == n.(used := n.used + 1)
              case Data(chunk) =>
                var kept := Kept(retain, limit, bytes + chunk);
                if retain.First? && |kept| > limit then d == Drained(kept, 1, Overflow)
                else if retain.Last? && taken + |chunk| >= TAIL_DRAIN_BUDGET_BYTES then d == Drained(kept, 1, Within)
                else var n := DrainFrom(retain, limit, kept, rest, taken + |chunk|); d == n.(used := n.used + 1)
              case _ => d == Drained(bytes, 1, Within)
            }
  {
    assert ([r] + rest)[1..] == rest;
  }

  // ----------------------------------------------------------- what is kept

  lemma {:induction false} DataOfConcat(a: seq<ReadOutcome>, b: seq<ReadOutcome>)
    ensures DataOf(a + b) == DataOf(a) + DataOf(b)
  {
    if a == [] {
      assert a + b == b;
    } else {
      assert (a + b)[1..] == a[1..] + b;
      DataOfConcat(a[1..], b);
    }
  }

  /** Dropping the front before or after more bytes arrive leaves the same tail. */
  lemma KeptAbsorbs(retain: Retain, seen: seq<Byte>, chunk: seq<Byte>, limit: nat)
    ensures Kept(retain, limit, Kept(retain, limit, seen) + chunk) == Kept(retain, limit, seen + chunk)
  {
    if retain.Last? {
      var t := Tail(seen, limit);
      assert seen + chunk == seen[..|seen| - |t|] + (t + chunk);
    }
  }

  /** One read more: the bytes of the consumed prefix grow by its bytes. */
  lemma UsedStep(input: seq<ReadOutcome>, used: nat)
    requires input != [] && used <= |input| - 1
    ensures DataOf(input[..used + 1]) == Bytes(input[0]) + DataOf(input[1..][..used])
  {
    assert input[..used + 1][1..] == input[1..][..used];
  }

  /**
   However the output is cut into reads, a drain takes a prefix of them and
   leaves exactly what a pipe that read all those bytes keeps. Only a
   first-bytes pipe that then holds more than its limit overflows.
   */
  lemma {:induction false} DrainKeeps(retain: Retain, limit: nat, seen: seq<Byte>, input: seq<ReadOutcome>, taken: nat)
    ensures var d := DrainFrom(retain, limit, Kept(retain, limit, seen), input, taken);
            && d.bytes == Kept(retain, limit, seen + DataOf(input[..d.used]))
            && (d.outcome.Overflow? ==> retain.First? && |d.bytes| > limit)
    decreases |input|
  {
    hide Kept, DrainFrom, DataOf;
    var bytes := Kept(retain, limit, seen);
    var d := DrainFrom(retain, limit, bytes, input, taken);
    if input == [] {
      DrainNothing(retain, limit, bytes, taken);
      NothingUsed(input);
      assert seen + [] == seen;
    } else {
      assert input == [input[0]] + input[1..];
      DrainStep(retain, limit, bytes, input[0], input[1..], taken);
      var step, more := Bytes(input[0]), DataOf(input[1..][..d.used - 1]);
      UsedStep(input, d.used - 1);
      NothingUsed(input[1..]);
      if input[0].Data? {
        KeptAbsorbs(retain, seen, step, limit);
        DrainKeeps(retain, limit, seen + step, input[1..], taken + |step|);
        assert seen + (step + more) == (seen + step) + more;
        assert d.used == 1 ==> (seen + step) + more == seen + step;
      } else if input[0].Interrupted? {
        DrainKeeps(retain, limit, seen, input[1..], taken);
        assert [] + more == more;
      } else {
        assert seen + (step + more) == seen;
      }
    }
  }

  /** A pipe within its limit stays within it unless the drain says otherwise. */
  lemma {:induction false} DrainStaysWithin(retain: Retain, limit: nat, bytes: seq<Byte>,
                                             input: seq<ReadOutcome>, taken: nat)
    requires |bytes| <= limit
    ensures var d := DrainFrom(retain, limit, bytes, input, taken);
            d.outcome.Within? ==> |d.bytes| <= limit
    decreases |input|
  {
    if input != [] && input[0].Interrupted? {
      DrainStaysWithin(retain, limit, bytes, input[1..], taken);
    } else if input != [] && input[0].Data? {
      var kept := Kept(retain, limit, bytes + input[0].bytes);
      if |kept| <= limit {
        DrainStaysWithin(retain, limit, kept, input[1..], taken + |input[0].bytes|);
      }
    }
  }

  lemma NothingUsed(input: seq<ReadOutcome>)
    ensures DataOf(input[..0]) == []
  {
  }

  /** The most bytes a drain may still take. */
  function Allowance(retain: Retain, limit: nat, held: nat, taken: nat): (n: int) {
    (if retain.Last? then TAIL_DRAIN_BUDGET_BYTES - 1 - taken else limit - held) + READ_CHUNK_BYTES
  }

  lemma ReadsOn(input: seq<ReadOutcome>)
    requires Reads(input) && input != []
    ensures IsRead(input[0]) && Reads(input[1..])
  {
    assert input[0] in input;
  }

  lemma KeptSize(retain: Retain, limit: nat, seen: seq<Byte>)
    ensures retain.First? ==> |Kept(retain, limit, seen)| == |seen|
    ensures retain.Last? ==> |Kept(retain, limit, seen)| <= limit
  {
  }

  /** One drain takes a bounded number of bytes, even from a writer that never pauses. */
  lemma {:induction false} DrainIsBounded(retain: Retain, limit: nat, bytes: seq<Byte>,
                                           input: seq<ReadOutcome>, taken: nat)
    requires Reads(input)
    requires |bytes| <= limit
    requires retain.Last? ==> taken < TAIL_DRAIN_BUDGET_BYTES
    ensures var d := DrainFrom(retain, limit, bytes, input, taken);
            |DataOf(input[..d.used])| <= Allowance(retain, limit, |bytes|, taken)
    decreases |input|
  {
    hide DrainFrom, DataOf, Kept, Reads;
    var d := DrainFrom(retain, limit, bytes, input, taken);
    if input == [] {
      DrainNothing(retain, limit, bytes, taken);
      NothingUsed(input);
    } else {
      assert input == [input[0]] + input[1..];
      DrainStep(retain, limit, bytes, input[0], input[1..], taken);
      ReadsOn(input);
      UsedStep(input, d.used - 1);
      NothingUsed(input[1..]);
      if input[0].Interrupted? {
        DrainIsBounded(retain, limit, bytes, input[1..], taken);
      } else if input[0].Data? {
        var chunk := input[0].bytes;
        KeptSize(retain, limit, bytes + chunk);
        var kept := Kept(retain, limit, bytes + chunk);
        if |kept| <= limit && (retain.Last? ==> taken + |chunk| < TAIL_DRAIN_BUDGET_BYTES) {
          DrainIsBounded(retain, limit, kept, input[1..], taken + |chunk|);
        }
      }
    }
  }

  /** The pipe after `n` drains in a row, stopping at the first overflow. */
  function DrainTimes(retain: Retain, limit: nat, nonblocking: bool, input: seq<ReadOutcome>, n: nat): (d: Drained)
    ensures d.used <= |input|
  {
    if n == 0 then Drained([], 0, Within)
    else
      var d := DrainTimes(retain, limit, nonblocking, input, n - 1);
      if d.outcome.Overflow? then d
      else
        var next := DrainOnce(retain, limit, nonblocking, d.bytes, input[d.used..]);
        next.(used := d.used + next.used)
  }

  lemma DrainAgain(retain: Retain, limit: nat, nonblocking: bool, input: seq<ReadOutcome>, n: nat)
    ensures DrainTimes(retain, limit, nonblocking, input, 0) == Drained([], 0, Within)
    ensures var d := DrainTimes(retain, limit, nonblocking, input, n);
            var next := DrainOnce(retain, limit, nonblocking, d.bytes, input[d.used..]);
            d.outcome.Within? ==>
              && DrainTimes(retain, limit, nonblocking, input, n + 1) == next.(used := d.used + next.used)
              && input[d.used..][next.used..] == input[d.used + next.used..]
  {
  }

  /**
   However the output is cut into reads and the reads into drain calls, a
   last-bytes pipe holds the last `limit` bytes read so far, and a first-bytes
   pipe holds every byte read, within the limit exactly until a drain overflows.
   */
  lemma {:induction false} AnySplitKeepsTheSame(retain: Retain, limit: nat, nonblocking: bool,
                                                 input: seq<ReadOutcome>, n: nat)
    ensures var d := DrainTimes(retain, limit, nonblocking, input, n);
            && d.bytes == Kept(retain, limit, DataOf(input[..d.used]))
            && (d.outcome.Within? <==> |d.bytes| <= limit)
            && (retain.Last? ==> d.outcome.Within?)
  {
    hide DrainOnce, Kept, DataOf;
    if n == 0 {
      NothingKept(retain, limit, input);
    } else {
      AnySplitKeepsTheSame(retain, limit, nonblocking, input, n - 1);
      var before := DrainTimes(retain, limit, nonblocking, input, n - 1);
      if before.outcome.Within? {
        OneMoreDrain(retain, limit, nonblocking, input, before.bytes, before.used);
      }
    }
  }

  lemma NothingKept(retain: Retain, limit: nat, input: seq<ReadOutcome>)
    ensures Kept(retain, limit, DataOf(input[..0])) == []
  {
    NothingUsed(input);
  }

  /** A further drain keeps what the bytes read so far and the bytes it reads leave. */
  lemma OneMoreDrain(retain: Retain, limit: nat, nonblocking: bool, input: seq<ReadOutcome>,
                     bytes: seq<Byte>, used: nat)
    requires used <= |input| && bytes == Kept(retain, limit, DataOf(input[..used])) && |bytes| <= limit
    ensures var next := DrainOnce(retain, limit, nonblocking, bytes, input[used..]);
            && next.bytes == Kept(retain, limit, DataOf(input[..used + next.used]))
            && (next.outcome.Within? <==> |next.bytes| <= limit)
            && (retain.Last? ==> next.outcome.Within?)
  {
    hide DrainFrom, Kept, DataOf;
    if nonblocking {
      var rest := input[used..];
      var next := DrainFrom(retain, limit, bytes, rest, 0);
      DrainKeeps(retain, limit, DataOf(input[..used]), rest, 0);
      DrainStaysWithin(retain, limit, bytes, rest, 0);
      assert input[..used + next.used] == input[..used] + rest[..next.used];
      DataOfConcat(input[..used], rest[..next.used]);
    }
  }

  // ------------------------------------------------------------------ finish

  /** `read_to_end` of at most `room` bytes on a blocking pipe; `None` on a read error. */
  function ReadToEnd(input: seq<ReadOutcome>, room: nat): (r: Option<seq<Byte>>)
    decreases |input|
  {
    if room == 0 then Some([])
    else if input == [] then None
    else
      match input[0]
      case Eof => Some([])
      case Interrupted => ReadToEnd(input[1..], room)
      case Data(chunk) =>
        if |chunk| >= room then Some(chunk[..room]) else After(chunk, ReadToEnd(input[1..], room - |chunk|))
      case _ => None
  }

  /** `read` bytes in hand before the rest of a read. */
  function After(read: seq<Byte>, rest: Option<seq<Byte>>): (r: Option<seq<Byte>>) {
    if rest.None? then None else Some(read + rest.value)
  }

  lemma AfterAfter(a: seq<Byte>, b: seq<Byte>, rest: Option<seq<Byte>>)
    ensures After(a, After(b, rest)) == After(a + b, rest)
    ensures After([], rest) == rest
  {
    if rest.Some? {
      assert a + (b + rest.value) == (a + b) + rest.value;
      assert [] + rest.value == rest.value;
    }
  }

  /** `DrainedPipe::finish`. */
  function Finish(limit: nat, nonblocking: bool, bytes: seq<Byte>, input: seq<ReadOutcome>): (r: Option<seq<Byte>>) {
    if nonblocking then
      var d := DrainFrom(First, limit, bytes, input, 0);
      if d.outcome.Within? then Some(d.bytes) else None
    else
      var all := ReadToEnd(input, limit + 1);
      if all.None? || |bytes + all.value| > limit then None else Some(bytes + all.value)
  }

  /** A stream that is read to its end without pausing or failing. */
  predicate Complete(input: seq<ReadOutcome>) {
    input != [] && (input[0].Eof? || ((input[0].Data? || input[0].Interrupted?) && Complete(input[1..])))
  }

  /** The bytes of a complete stream up to its end. */
  function Content(input: seq<ReadOutcome>): (s: seq<Byte>)
    requires Complete(input)
  {
    if input[0].Eof? then [] else Bytes(input[0]) + Content(input[1..])
  }

  lemma {:induction false} BlockingReadsAll(input: seq<ReadOutcome>, room: nat)
    requires Complete(input)
    ensures ReadToEnd(input, room) ==
            Some(if |Content(input)| <= room then Content(input) else Content(input)[..room])
    decreases |input|
  {
    if room > 0 && input[0].Interrupted? {
      BlockingReadsAll(input[1..], room);
      assert [] + Content(input[1..]) == Content(input[1..]);
    } else if room > 0 && input[0].Data? {
      var chunk, tail := input[0].bytes, Content(input[1..]);
      if |chunk| < room {
        BlockingReadsAll(input[1..], room - |chunk|);
        if |chunk + tail| > room {
          assert chunk + tail[..room - |chunk|] == (chunk + tail)[..room];
        }
      } else {
        assert chunk[..room] == (chunk + tail)[..room];
        assert |tail| == 0 ==> chunk + tail == chunk;
        assert |chunk + tail| <= room ==> chunk[..room] == chunk + tail;
      }
    }
  }

  lemma {:induction false} DrainReadsAll(limit: nat, bytes: seq<Byte>, input: seq<ReadOutcome>, taken: nat)
    requires Complete(input) && |bytes| <= limit
    ensures var d := DrainFrom(First, limit, bytes, input, taken);
            if |bytes + Content(input)| <= limit then d.outcome.Within? && d.bytes == bytes + Content(input)
            else d.outcome.Overflow?
    decreases |input|
  {
    if input[0].Eof? {
      assert bytes + [] == bytes;
    } else if input[0].Interrupted? {
      assert [] + Content(input[1..]) == Content(input[1..]);
      DrainReadsAll(limit, bytes, input[1..], taken);
    } else {
      var grown := bytes + input[0].bytes;
      if |grown| <= limit {
        DrainReadsAll(limit, grown, input[1..], taken + |input[0].bytes|);
        assert grown + Content(input[1..]) == bytes + Content(input);
      }
    }
  }

  /** The two ways to finish agree on a complete stream: all of it, or `None` when it exceeds the limit. */
  lemma FinishesAgree(limit: nat, input: seq<ReadOutcome>)
    requires Complete(input)
    ensures Finish(limit, true, [], input) == Finish(limit, false, [], input)
    ensures Finish(limit, false, [], input) == if |Content(input)| <= limit then Some(Content(input)) else None
  {
    hide DrainFrom, ReadToEnd, Content, Complete;
    DrainReadsAll(limit, [], input, 0);
    BlockingReadsAll(input, limit + 1);
    var all := Content(input);
    assert [] + all == all;
    assert |all| > limit ==> |[] + ReadToEnd(input, limit + 1).value| > limit;
  }

  /** Within `room` bytes and before the end of the stream, the reads stop at one that delivers nothing and is final. */
  predicate StopsShort(input: seq<ReadOutcome>, room: nat)
    decreases |input|
  {
    if input == [] then true
    else
      match input[0]
      case Eof => false
      case Interrupted => StopsShort(input[1..], room)
      case Data(chunk) => |chunk| <= room && StopsShort(input[1..], room - |chunk|)
      case _ => true
  }

  /** Without a read that stops short, both ways read the same bytes or both find too many. */
  lemma {:induction false} ReadsAgree(limit: nat, bytes: seq<Byte>, input: seq<ReadOutcome>, taken: nat)
    requires |bytes| <= limit && !StopsShort(input, limit - |bytes|)
    ensures var d, all := DrainFrom(First, limit, bytes, input, taken), ReadToEnd(input, limit - |bytes| + 1);
            && all.Some?
            && (d.outcome.Within? <==> |bytes + all.value| <= limit)
            && (d.outcome.Within? ==> d.bytes == bytes + all.value)
    decreases |input|
  {
    hide DrainFrom;
    var read, rest := input[0], input[1..];
    assert input == [read] + rest;
    DrainStep(First, limit, bytes, read, rest, taken);
    if read.Eof? {
      assert bytes + [] == bytes;
    } else if read.Interrupted? {
      ReadsAgree(limit, bytes, rest, taken);
    } else if |read.bytes| <= limit - |bytes| {
      var grown := bytes + read.bytes;
      ReadsAgree(limit, grown, rest, taken + |read.bytes|);
      var tail := ReadToEnd(rest, limit - |grown| + 1).value;
      assert grown + tail == bytes + (read.bytes + tail);
    }
  }

  /** With one, a drain keeps what came before it, and a read to the end fails. */
  lemma {:induction false} ReadsDisagree(limit: nat, bytes: seq<Byte>, input: seq<ReadOutcome>, taken: nat)
    requires |bytes| <= limit && StopsShort(input, limit - |bytes|)
    ensures DrainFrom(First, limit, bytes, input, taken).outcome.Within?
    ensures ReadToEnd(input, limit - |bytes| + 1).None?
    decreases |input|
  {
    if input != [] {
      hide DrainFrom;
      var read, rest := input[0], input[1..];
      assert input == [read] + rest;
      DrainStep(First, limit, bytes, read, rest, taken);
      if read.Interrupted? {
        ReadsDisagree(limit, bytes, rest, taken);
      } else if read.Data? {
        ReadsDisagree(limit, bytes + read.bytes, rest, taken + |read.bytes|);
      }
    }
  }

  /** The two ways to finish agree exactly on the streams whose reads do not stop short. */
  lemma FinishesAgreeIff(limit: nat, input: seq<ReadOutcome>)
    ensures Finish(limit, true, [], input) == Finish(limit, false, [], input) <==> !StopsShort(input, limit)
    ensures StopsShort(input, limit) ==> Finish(limit, true, [], input).Some? && Finish(limit, false, [], input).None?
  {
    hide DrainFrom, ReadToEnd, StopsShort;
    if StopsShort(input, limit) {
      ReadsDisagree(limit, [], input, 0);
    } else {
      ReadsAgree(limit, [], input, 0);
    }
  }

  /** After a failed read the non-blocking way still hands out what came before it. */
  lemma FailedReadIsHandedOut(b: Byte)
    ensures Finish(10, true, [], [Data([b]), Failed]) == Some([b])
    ensures Finish(10, false, [], [Data([b]), Failed]) == None
  {
    var input := [Data([b]), Failed];
    assert input == [Data([b])] + [Failed] && input[1..] == [Failed] && [Failed] == [Failed] + [];
    assert [] + [b] == [b];
    DrainStep(First, 10, [], Data([b]), [Failed], 0);
    DrainStep(First, 10, [b], Failed, [], 1);
    assert ReadToEnd([Failed], 10) == None;
  }

  /** Draining while the child runs and finishing afterwards yields every byte read, or `None` past the limit. */
  lemma DrainsThenFinish(limit: nat, input: seq<ReadOutcome>, n: nat)
    requires DrainTimes(First, limit, true, input, n).outcome.Within?
    ensures var d := DrainTimes(First, limit, true, input, n);
            var all := DataOf(input[..DrainTimes(First, limit, true, input, n + 1).used]);
            Finish(limit, true, d.bytes, input[d.used..]) == (if |all| <= limit then Some(all) else None)
  {
    hide DrainFrom, DataOf;
    AnySplitKeepsTheSame(First, limit, true, input, n + 1);
  }

  // ------------------------------------------------------- how far drains get

  /** A stream that pauses and delivers, and ends. */
  predicate Ends(input: seq<ReadOutcome>) {
    input != [] &&
    if |input| == 1 then input[0].Eof?
    else (input[0].Data? || input[0].Interrupted? || input[0].WouldBlock?) && Ends(input[1..])
  }

  function Pauses(input: seq<ReadOutcome>): (n: nat) {
    if input == [] then 0 else (if input[0].WouldBlock? then 1 else 0) + Pauses(input[1..])
  }

  /** The drains a stream needs before its last one: one for each pause and for each budget of a last-bytes pipe. */
  function Rounds(retain: Retain, input: seq<ReadOutcome>): (n: nat) {
    Pauses(input) + if retain.Last? then |DataOf(input)| / 65536 else 0
  }

  /** Where one drain of such a stream stops: past the limit, at the end, after a pause, or when its budget is used. */
  ghost predicate MakesProgress(retain: Retain, input: seq<ReadOutcome>, taken: nat, d: Drained) {
    || d.outcome.Overflow?
    || d.used == |input|
    || (&& d.used < |input| && Ends(input[d.used..])
        && var rest := input[d.used..];
           && |DataOf(rest)| <= |DataOf(input)|
           && (|| Pauses(rest) + 1 == Pauses(input)
               || (&& retain.Last? && Pauses(rest) <= Pauses(input)
                   && taken + |DataOf(input)| - |DataOf(rest)| >= 65536)))
  }

  lemma {:induction false} DrainAdvances(retain: Retain, limit: nat, bytes: seq<Byte>,
                                         input: seq<ReadOutcome>, taken: nat)
    requires Ends(input)
    ensures MakesProgress(retain, input, taken, DrainFrom(retain, limit, bytes, input, taken))
    decreases |input|
  {
    hide DrainFrom, Kept;
    var read, rest := input[0], input[1..];
    assert input == [read] + rest;
    DrainStep(retain, limit, bytes, read, rest, taken);
    var d := DrainFrom(retain, limit, bytes, input, taken);
    if read.Interrupted? {
      DrainAdvances(retain, limit, bytes, rest, taken);
      var n := DrainFrom(retain, limit, bytes, rest, taken);
      assert n.used <= |rest| && input[d.used..] == rest[n.used..];
    } else if read.Data? {
      var kept, more := Kept(retain, limit, bytes + read.bytes), taken + |read.bytes|;
      DrainAdvances(retain, limit, kept, rest, more);
      var n := DrainFrom(retain, limit, kept, rest, more);
      assert n.used <= |rest| && rest[n.used..] == input[n.used + 1..];
    }
  }

  /** After `m` drains a stream is past the limit, at its end, or `m` rounds nearer to it. */
  lemma {:induction false} DrainsAdvance(retain: Retain, limit: nat, input: seq<ReadOutcome>, m: nat)
    requires Ends(input)
    ensures var d := DrainTimes(retain, limit, true, input, m);
            || d.outcome.Overflow?
            || d.used == |input|
            || (d.used < |input| && Ends(input[d.used..])
                && Rounds(retain, input[d.used..]) + m <= Rounds(retain, input))
    decreases m
  {
    hide DrainFrom, Ends, DataOf, Pauses;
    if m == 0 {
      assert input[0..] == input;
      EndsIsNotEmpty(input);
    } else {
      DrainsAdvance(retain, limit, input, m - 1);
      var before := DrainTimes(retain, limit, true, input, m - 1);
      if before.outcome.Within? {
        var rest := input[before.used..];
        if before.used == |input| {
          DrainNothing(retain, limit, before.bytes, 0);
        } else {
          DrainAdvances(retain, limit, before.bytes, rest, 0);
          var d := DrainFrom(retain, limit, before.bytes, rest, 0);
          assert d.used <= |rest| && input[before.used + d.used..] == rest[d.used..];
          assert |DataOf(rest[d.used..])| + 65536 <= |DataOf(rest)| ==>
              |DataOf(rest[d.used..])| / 65536 + 1 <= |DataOf(rest)| / 65536;
        }
      }
    }
  }

  lemma EndsIsNotEmpty(input: seq<ReadOutcome>)
    requires Ends(input)
    ensures |input| > 0
  {
  }

  /** With as many drains as the stream has rounds and one more, nothing is left unread. */
  lemma DrainsReachTheEnd(retain: Retain, limit: nat, input: seq<ReadOutcome>, m: nat)
    requires Ends(input) && Rounds(retain, input) < m
    ensures var d, all := DrainTimes(retain, limit, true, input, m), DataOf(input);
            if retain.Last? then d.bytes == Tail(all, limit)
            else if |all| <= limit then d.outcome.Within? && d.bytes == all && d.used == |input|
            else d.outcome.Overflow?
  {
    hide DrainTimes, DataOf, Ends;
    DrainsAdvance(retain, limit, input, m);
    AnySplitKeepsTheSame(retain, limit, true, input, m);
    var d := DrainTimes(retain, limit, true, input, m);
    DataOfConcat(input[..d.used], input[d.used..]);
    assert input == input[..d.used] + input[d.used..];
    assert d.used == |input| ==> input[..d.used] == input;
  }

  // ----------------------------------------------------------- the pipe class

  /** A pipe end that holds at most a limited number of the bytes read from it. */
  class DrainedPipe {
    var pipe: seq<ReadOutcome>
    var bytes: seq<Byte>
    const limit: nat
    const retain: Retain
    const nonblocking: bool

    constructor (pipe: seq<ReadOutcome>, limit: nat, retain: Retain, nonblocking: bool)
      ensures this.pipe == pipe && bytes == [] && this.limit == limit
      ensures this.retain == retain && this.nonblocking == nonblocking
    {
      this.pipe, bytes, this.limit, this.retain, this.nonblocking := pipe, [], limit, retain, nonblocking;
    }

    /** Appends one chunk and drops the excess front of a last-bytes pipe. */
    method Append(chunk: seq<Byte>) returns (overflow: bool)
      modifies this`bytes
      ensures bytes == Kept(retain, limit, old(bytes) + chunk)
      ensures overflow <==> retain == First && |bytes| > limit
    {
      bytes := bytes + chunk;
      overflow := false;
      if |bytes| > limit {
        match retain {
          case First => overflow := true;
          case Last =>
            var excess := |bytes| - limit;
            bytes := bytes[excess..];
        }
      }
    }

    /** `drain_available`: reads until nothing more is there, the limit is passed or the budget is used. */
    method DrainAvailable() returns (outcome: Drain)
      modifies this
      ensures var d := DrainOnce(retain, limit, nonblocking, old(bytes), old(pipe));
              bytes == d.bytes && pipe == old(pipe)[d.used..] && outcome == d.outcome
    {
      hide DrainFrom, Kept;
      if !nonblocking {
        return Within;
      }
      ghost var goal := DrainFrom(retain, limit, bytes, pipe, 0);
      var taken: nat := 0;
      while pipe != []
        invariant |pipe| <= |old(pipe)| && pipe == old(pipe)[|old(pipe)| - |pipe|..]
        invariant var d := DrainFrom(retain, limit, bytes, pipe, taken);
                  goal == d.(used := d.used + |old(pipe)| - |pipe|)
        decreases |pipe|
      {
        var read, rest := pipe[0], pipe[1..];
        assert pipe == [read] + rest;
        DrainStep(retain, limit, bytes, read, rest, taken);
        pipe := rest;
        match read {
          case Data(chunk) =>
            taken := taken + |chunk|;
            var overflow := Append(chunk);
            if overflow {
              return Overflow;
            }
            if retain == Last && taken >= TAIL_DRAIN_BUDGET_BYTES {
              return Within;
            }
          case Interrupted =>
          case _ =>
            return Within;
        }
      }
      DrainNothing(retain, limit, bytes, taken);
      return Within;
    }

    /** The pipe has been drained `n` times since it was to deliver `input`. */
    ghost predicate DrainedTimes(input: seq<ReadOutcome>, n: nat)
      reads this
    {
      var d := DrainTimes(retain, limit, nonblocking, input, n);
      bytes == d.bytes && pipe == input[d.used..]
    }

    /** One drain more. */
    method DrainNext(ghost input: seq<ReadOutcome>, ghost n: nat) returns (outcome: Drain)
      requires DrainedTimes(input, n) && DrainTimes(retain, limit, nonblocking, input, n).outcome.Within?
      modifies this
      ensures DrainedTimes(input, n + 1)
      ensures outcome == DrainTimes(retain, limit, nonblocking, input, n + 1).outcome
    {
      hide DrainTimes, DrainOnce;
      DrainAgain(retain, limit, nonblocking, input, n);
      outcome := DrainAvailable();
    }

    /** `finish`: the complete output of an exited child, if it fits. */
    method FinishFirst() returns (all: Option<seq<Byte>>)
      requires retain == First
      modifies this
      ensures all == Finish(limit, nonblocking, old(bytes), old(pipe))
    {
      if nonblocking {
        var outcome := DrainAvailable();
        return if outcome == Within then Some(bytes) else None;
      }
      var room: nat := limit + 1;
      var read: seq<Byte> := [];
      AfterAfter([], [], ReadToEnd(pipe, room));
      while room > 0
        invariant ReadToEnd(old(pipe), limit + 1) == After(read, ReadToEnd(pipe, room))
        invariant bytes == old(bytes)
        decreases |pipe|
      {
        if pipe == [] {
          return None;
        }
        var next := pipe[0];
        pipe := pipe[1..];
        match next {
          case Eof =>
            room := 0;
            break;
          case Interrupted =>
          case Data(chunk) =>
            var part := if |chunk| >= room then chunk[..room] else chunk;
            AfterAfter(read, part, ReadToEnd(pipe, room - |part|));
            assert |chunk| >= room ==> part + [] == part;
            read := read + part;
            room := room - |part|;
          case _ =>
            return None;
        }
      }
      assert read + [] == read;
      assert ReadToEnd(old(pipe), limit + 1) == Some(read);
      bytes := bytes + read;
      all := if |bytes| <= limit then Some(bytes) else None;
    }

    /** `finish_tail`: one more drain, then what is held. */
    method FinishTail() returns (tail: seq<Byte>)
      requires retain == Last
      modifies this
      ensures tail == DrainOnce(Last, limit, nonblocking, old(bytes), old(pipe)).bytes
    {
      var _ := DrainAvailable();
      tail := bytes;
    }
  }
}
