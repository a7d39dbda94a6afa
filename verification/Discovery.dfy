/**
 The daemon's cache of discovery snapshots (crates/daemon/src/discovery.rs). The
 lock covers a whole call, so calls happen one after another; the clock readings
 and the answer a scan would give are inputs of a call.
 */
module Discovery {
  import opened Wrappers
  import opened Versions

  /** `DISCOVERY_CACHE_TTL`, in nanoseconds. */
  const CACHE_TTL: int := 30_000_000_000

  datatype Error = InvalidDiscoveryOptions | ScanFailed

  datatype Snapshot<R> = Snapshot(fetched: int, records: seq<R>)

  type Cache<R> = map<Range, Snapshot<R>>

  /** `now` is read when the cache is consulted and `after` once a scan has ended. */
  datatype Call<R> = Call(force: bool, asked: Range, now: int, scan: Result<seq<R>, Error>, after: int)

  datatype Outcome<R> = Outcome(cache: Cache<R>, answer: Result<seq<R>, Error>)

  /** The range a call is about. */
  function RangeOf<R>(window: Range, call: Call<R>): (r: Option<Range>) {
    Narrow(call.asked, window)
  }

  predicate IsHit<R>(window: Range, cache: Cache<R>, call: Call<R>)
    requires RangeOf(window, call).Some?
  {
    var range := RangeOf(window, call).value;
    !call.force && range in cache && call.now - cache[range].fetched < CACHE_TTL
  }

  function Step<R>(window: Range, cache: Cache<R>, call: Call<R>): (o: Outcome<R>) {
    match RangeOf(window, call)
    case None => Outcome(cache, Err(InvalidDiscoveryOptions))
    case Some(range) =>
      if IsHit(window, cache, call) then Outcome(cache, Ok(cache[range].records))
      else if call.scan.Err? then Outcome(cache, call.scan)
      else Outcome(cache[range := Snapshot(call.after, call.scan.value)], call.scan)
  }

  class DiscoveryCache<R> {
    var cache: Cache<R>

    constructor ()
      ensures cache == map[]
    {
      cache := map[];
    }

    method Records(force: bool, asked: Range, now: int, scan: Result<seq<R>, Error>, after: int)
      returns (r: Result<seq<R>, Error>)
      modifies this
      ensures Outcome(cache, r) == Step(WINDOW, old(cache), Call(force, asked, now, scan, after))
    {
      var narrowed := Narrow(asked, WINDOW);
      if narrowed.None? {
        return Err(InvalidDiscoveryOptions);
      }
      var range := narrowed.value;
      if !force {
        if range in cache {
          var entry := cache[range];
          if now - entry.fetched < CACHE_TTL {
            return Ok(entry.records);
          }
        }
      }
      if scan.Err? {
        return scan;
      }
      cache := cache[range := Snapshot(after, scan.value)];
      r := scan;
    }
  }

  // ------------------------------------------------------------------- runs

  /** The cache after a run that starts empty. */
  function After<R>(window: Range, calls: seq<Call<R>>): (c: Cache<R>) {
    if calls == [] then map[] else Step(window, After(window, calls[..|calls| - 1]), calls[|calls| - 1]).cache
  }

  function AnswerAt<R>(window: Range, calls: seq<Call<R>>, i: nat): (r: Result<seq<R>, Error>)
    requires i < |calls|
  {
    Step(window, After(window, calls[..i]), calls[i]).answer
  }

  /** A clock that does not go back, within a call and from call to call. */
  predicate IsTimed<R>(calls: seq<Call<R>>) {
    && (forall i | 0 <= i < |calls| :: calls[i].now <= calls[i].after)
    && (forall i, j | 0 <= i < j < |calls| :: calls[i].after <= calls[j].now)
  }

  /** Call `i` scanned for `range` and the scan succeeded. */
  predicate Refreshes<R>(window: Range, calls: seq<Call<R>>, i: nat, range: Range)
    requires i < |calls|
  {
    && RangeOf(window, calls[i]) == Some(range)
    && calls[i].scan.Ok?
    && !IsHit(window, After(window, calls[..i]), calls[i])
  }

  /** The last of the first `n` calls that refreshed `range`. */
  ghost predicate IsLatest<R>(window: Range, calls: seq<Call<R>>, n: nat, range: Range, j: nat)
    requires n <= |calls|
  {
    && j < n && Refreshes(window, calls, j, range)
    && (forall k | j < k < n :: !Refreshes(window, calls, k, range))
  }

  lemma StepAt<R>(window: Range, calls: seq<Call<R>>, n: nat)
    requires n < |calls|
    ensures After(window, calls[..n + 1]) == Step(window, After(window, calls[..n]), calls[n]).cache
  {
    assert calls[..n + 1][..n] == calls[..n];
  }

  /** What a run has cached for `range` is the snapshot of the latest refresh, if there was one. */
  ghost predicate HoldsLatest<R>(window: Range, calls: seq<Call<R>>, n: nat, range: Range)
    requires n <= |calls|
  {
    var cache := After(window, calls[..n]);
    if range in cache then
      exists j: nat ::
        IsLatest(window, calls, n, range, j) && cache[range] == Snapshot(calls[j].after, calls[j].scan.value)
    else
      forall j | 0 <= j < n :: !Refreshes(window, calls, j, range)
  }

  lemma {:induction false} CachedIsLatest<R>(window: Range, calls: seq<Call<R>>, n: nat, range: Range)
    requires n <= |calls|
    ensures HoldsLatest(window, calls, n, range)
    decreases n
  {
    if n == 0 {
      assert calls[..0] == [];
    } else {
      hide HoldsLatest, After;
      CachedIsLatest(window, calls, n - 1, range);
      LatestStep(window, calls, n - 1, range);
    }
  }

  lemma LatestStep<R>(window: Range, calls: seq<Call<R>>, n: nat, range: Range)
    requires n < |calls| && HoldsLatest(window, calls, n, range)
    ensures HoldsLatest(window, calls, n + 1, range)
  {
    hide After;
    StepAt(window, calls, n);
    var cache := After(window, calls[..n]);
    if Refreshes(window, calls, n, range) {
      assert IsLatest(window, calls, n + 1, range, n);
    } else if range in cache {
      var j: nat :| IsLatest(window, calls, n, range, j)
            && cache[range] == Snapshot(calls[j].after, calls[j].scan.value);
      assert IsLatest(window, calls, n + 1, range, j);
    }
  }

  /** Call `j` is the latest refresh of the range call `i` asks for, and still young enough for it. */
  ghost predicate ServesFor<R>(window: Range, calls: seq<Call<R>>, i: nat, j: nat)
    requires i < |calls| && RangeOf(window, calls[i]).Some?
  {
    && !calls[i].force
    && IsLatest(window, calls, i, RangeOf(window, calls[i]).value, j)
    && calls[i].now - calls[j].after < 30_000_000_000
  }

  lemma LatestIsUnique<R>(window: Range, calls: seq<Call<R>>, n: nat, range: Range, j: nat, k: nat)
    requires n <= |calls| && IsLatest(window, calls, n, range, j) && IsLatest(window, calls, n, range, k)
    ensures j == k
  {
    hide Refreshes;
  }

  /**
   In every run: while the latest successful scan for the narrowed range is younger
   than thirty seconds, an unforced call is answered with it, whatever a new scan
   would give; otherwise a call is answered with its own scan.
   */
  lemma AnswersAreExact<R>(window: Range, calls: seq<Call<R>>, i: nat)
    requires i < |calls| && RangeOf(window, calls[i]).Some?
    ensures forall j: nat | ServesFor(window, calls, i, j) :: AnswerAt(window, calls, i) == calls[j].scan
    ensures (forall j: nat :: !ServesFor(window, calls, i, j)) ==> AnswerAt(window, calls, i) == calls[i].scan
  {
    hide After;
    HitIff(window, calls, i);
    var range := RangeOf(window, calls[i]).value;
    CachedIsLatest(window, calls, i, range);
    forall j: nat | ServesFor(window, calls, i, j)
      ensures AnswerAt(window, calls, i) == calls[j].scan
    {
      var k: nat :| IsLatest(window, calls, i, range, k)
            && After(window, calls[..i])[range] == Snapshot(calls[k].after, calls[k].scan.value);
      LatestIsUnique(window, calls, i, range, j, k);
    }
  }

  /** The cache is hit exactly when some earlier scan serves for the call. */
  lemma HitIff<R>(window: Range, calls: seq<Call<R>>, i: nat)
    requires i < |calls| && RangeOf(window, calls[i]).Some?
    ensures IsHit(window, After(window, calls[..i]), calls[i]) <==> exists j: nat :: ServesFor(window, calls, i, j)
  {
    hide After;
    var range := RangeOf(window, calls[i]).value;
    CachedIsLatest(window, calls, i, range);
    if range in After(window, calls[..i]) {
      var k: nat :| IsLatest(window, calls, i, range, k)
            && After(window, calls[..i])[range] == Snapshot(calls[k].after, calls[k].scan.value);
      if IsHit(window, After(window, calls[..i]), calls[i]) {
        assert ServesFor(window, calls, i, k);
      }
      forall j: nat | ServesFor(window, calls, i, j)
        ensures j == k
      {
        LatestIsUnique(window, calls, i, range, j, k);
      }
    }
  }

  /** A call refreshes its range exactly when no earlier scan serves for it and its own succeeds. */
  lemma RefreshesIff<R>(window: Range, calls: seq<Call<R>>, i: nat, range: Range)
    requires i < |calls|
    ensures Refreshes(window, calls, i, range) <==>
            && RangeOf(window, calls[i]) == Some(range) && calls[i].scan.Ok?
            && forall j: nat :: !ServesFor(window, calls, i, j)
  {
    if RangeOf(window, calls[i]).Some? {
      HitIff(window, calls, i);
    }
  }

  /** Errors are a disjoint range, which adds nothing, or the call's own failed scan, which keeps every entry. */
  lemma ErrorsKeepTheCache<R>(window: Range, calls: seq<Call<R>>, i: nat)
    requires i < |calls| && AnswerAt(window, calls, i).Err?
    ensures After(window, calls[..i + 1]) == After(window, calls[..i])
    ensures || (RangeOf(window, calls[i]).None? && AnswerAt(window, calls, i) == Err(InvalidDiscoveryOptions))
            || (RangeOf(window, calls[i]).Some? && AnswerAt(window, calls, i) == calls[i].scan)
  {
    StepAt(window, calls, i);
  }

  /** Without `force`, two refreshes of one range are a lifetime apart, whatever ranges were asked between. */
  lemma RefreshesAreSpaced<R>(window: Range, calls: seq<Call<R>>, j: nat, k: nat, range: Range)
    requires IsTimed(calls) && j < k < |calls|
    requires Refreshes(window, calls, j, range) && Refreshes(window, calls, k, range) && !calls[k].force
    ensures calls[k].now - calls[j].after >= CACHE_TTL
  {
    CachedIsLatest(window, calls, k, range);
    var l: nat :| IsLatest(window, calls, k, range, l)
          && After(window, calls[..k])[range] == Snapshot(calls[l].after, calls[l].scan.value);
    assert j <= l;
    assert calls[j].after <= calls[l].after by {
      if j < l {
        assert calls[j].after <= calls[l].now <= calls[l].after;
      }
    }
  }

  // ------------------------------------------------------------------- size

  predicate Within(range: Range, window: Range) {
    window.minimum <= range.minimum && range.maximum <= window.maximum
  }

  lemma {:induction false} KeysAreWithin<R>(window: Range, calls: seq<Call<R>>)
    ensures forall range | range in After(window, calls) :: Within(range, window)
    decreases |calls|
  {
    if calls != [] {
      KeysAreWithin(window, calls[..|calls| - 1]);
      var call := calls[|calls| - 1];
      if RangeOf(window, call).Some? {
        var range := RangeOf(window, call).value;
        assert range.Contains(range.minimum) && range.Contains(range.maximum);
      }
    }
  }

  /** One more range for each lower end. */
  function Triangle(n: nat): (t: nat) {
    if n == 0 then 0 else n + Triangle(n - 1)
  }

  /** Ranges with one upper end are told apart by their lower end. */
  lemma {:induction false} SameTop(ranges: set<Range>, lo: int, hi: int, n: nat)
    requires n == hi - lo + 1
    requires forall r | r in ranges :: lo <= r.minimum && r.maximum == hi
    ensures |ranges| <= n
    decreases n
  {
    if n == 0 {
      assert ranges == {} by {
        assert forall r: Range | r in ranges :: r.minimum <= r.maximum;
      }
    } else {
      var rest := set r | r in ranges && r.minimum > lo;
      SameTop(rest, lo + 1, hi, n - 1);
      var here := set r | r in ranges && r.minimum == lo;
      assert ranges == rest + here;
      assert |here| <= 1 by {
        if r :| r in here {
          assert here == {r};
        }
      }
    }
  }

  lemma {:induction false} TriangleClosed(n: nat)
    ensures Triangle(n) == n * (n + 1) / 2
  {
    if n > 0 {
      TriangleClosed(n - 1);
    }
  }

  /** At most n(n+1)/2 ranges lie inside a window of n versions. */
  lemma RangesWithin(ranges: set<Range>, lo: int, hi: int, n: nat)
    requires n == hi - lo + 1
    requires forall r | r in ranges :: lo <= r.minimum && r.maximum <= hi
    ensures |ranges| <= n * (n + 1) / 2
  {
    RangesCounted(ranges, lo, hi, n);
    TriangleClosed(n);
  }

  lemma {:induction false} RangesCounted(ranges: set<Range>, lo: int, hi: int, n: nat)
    requires n == hi - lo + 1
    requires forall r | r in ranges :: lo <= r.minimum && r.maximum <= hi
    ensures |ranges| <= Triangle(n)
    decreases n
  {
    if n == 0 {
      assert ranges == {} by {
        assert forall r: Range | r in ranges :: r.minimum <= r.maximum;
      }
    } else {
      var top := set r | r in ranges && r.maximum == hi;
      var rest := set r | r in ranges && r.maximum < hi;
      SameTop(top, lo, hi, n);
      RangesCounted(rest, lo, hi - 1, n - 1);
      assert ranges == top + rest;
    }
  }

  function Size(window: Range): (n: nat) {
    window.maximum - window.minimum + 1
  }

  /** However many calls and whatever ranges they ask for, a window of n versions holds at most n(n+1)/2 snapshots. */
  lemma CacheIsBounded<R>(window: Range, calls: seq<Call<R>>)
    ensures |After(window, calls)| <= Size(window) * (Size(window) + 1) / 2
    ensures |After(WINDOW, calls)| <= 3
  {
    KeysAreWithin(window, calls);
    RangesWithin(After(window, calls).Keys, window.minimum, window.maximum, Size(window));
    assert |After(window, calls)| == |After(window, calls).Keys|;
    KeysAreWithin(WINDOW, calls);
    RangesWithin(After(WINDOW, calls).Keys, WINDOW.minimum, WINDOW.maximum, 2);
    assert |After(WINDOW, calls)| == |After(WINDOW, calls).Keys|;
  }
}
