/**
 Merging the snapshots of the configured overlays
 (crates/client/src/discovery.rs, `discover_with_registry`). Providers answer
 concurrently; the order in which their answers arrive is an input.
 */
module Aggregation {
  import opened Wrappers
  import opened Strings

  datatype Snapshot<P, I> = Snapshot(peers: seq<P>, local: Option<I>)

  datatype Entry<P, I, E> = Entry(index: nat, overlay: string, result: Result<Snapshot<P, I>, E>)

  datatype OverlayFailure<E> = OverlayFailure(overlay: string, error: E)

  datatype Merged<P, I, E> =
    Merged(snapshots: seq<P>, identities: seq<I>, failures: seq<OverlayFailure<E>>, healthy: nat)

  datatype DiscoveryError<E> =
    | RemoteDiscoveryFailed                                     // the deadline passed
    | OverlayDiscoveryFailed(failures: seq<OverlayFailure<E>>)

  /** The registry's overlays and what each of them answers. */
  datatype Registry<P, I, E> = Registry(overlays: seq<string>, answers: seq<Result<Snapshot<P, I>, E>>)

  predicate IsRegistry<P, I, E>(registry: Registry<P, I, E>) {
    |registry.overlays| == |registry.answers|
  }

  function EntryAt<P, I, E>(registry: Registry<P, I, E>, index: nat): (e: Entry<P, I, E>)
    requires IsRegistry(registry) && index < |registry.overlays|
  {
    Entry(index, registry.overlays[index], registry.answers[index])
  }

  // ----------------------------------------------------------------- sorting

  predicate IsSorted<P, I, E>(entries: seq<Entry<P, I, E>>) {
    forall i, j | 0 <= i < j < |entries| :: entries[i].index <= entries[j].index
  }

  function Insert<P, I, E>(sorted: seq<Entry<P, I, E>>, e: Entry<P, I, E>): (r: seq<Entry<P, I, E>>) {
    var n := |sorted| - 1;
    if sorted == [] || sorted[n].index <= e.index then sorted + [e]
    else Insert(sorted[..n], e) + [sorted[n]]
  }

  predicate IsBelow<P, I, E>(entries: seq<Entry<P, I, E>>, bound: nat) {
    forall k | 0 <= k < |entries| :: entries[k].index <= bound
  }

  lemma {:induction false} InsertKeeps<P, I, E>(sorted: seq<Entry<P, I, E>>, e: Entry<P, I, E>, bound: nat)
    requires IsSorted(sorted) && IsBelow(sorted, bound) && e.index <= bound
    ensures IsSorted(Insert(sorted, e)) && IsBelow(Insert(sorted, e), bound)
    decreases |sorted|
  {
    var n := |sorted| - 1;
    if sorted != [] && sorted[n].index > e.index {
      InsertKeeps(sorted[..n], e, sorted[n].index);
    }
  }

  lemma {:induction false} InsertAdds<P, I, E>(sorted: seq<Entry<P, I, E>>, e: Entry<P, I, E>)
    ensures multiset(Insert(sorted, e)) == multiset(sorted) + multiset{e}
    decreases |sorted|
  {
    var n := |sorted| - 1;
    if sorted != [] && sorted[n].index > e.index {
      InsertAdds(sorted[..n], e);
      assert sorted == sorted[..n] + [sorted[n]];
    }
  }

  lemma {:induction false} HasBound<P, I, E>(entries: seq<Entry<P, I, E>>) returns (bound: nat)
    ensures IsBelow(entries, bound)
  {
    if entries == [] {
      bound := 0;
    } else {
      var n := |entries| - 1;
      bound := HasBound(entries[..n]);
      bound := bound + entries[n].index;
    }
  }

  /** The stable sort by index. */
  function Sorted<P, I, E>(entries: seq<Entry<P, I, E>>): (r: seq<Entry<P, I, E>>) {
    if entries == [] then [] else Insert(Sorted(entries[..|entries| - 1]), entries[|entries| - 1])
  }

  lemma {:induction false} SortedSorts<P, I, E>(entries: seq<Entry<P, I, E>>)
    ensures IsSorted(Sorted(entries))
    ensures multiset(Sorted(entries)) == multiset(entries)
  {
    if entries != [] {
      var n := |entries| - 1;
      SortedSorts(entries[..n]);
      var bound := HasBound(Sorted(entries[..n]));
      InsertKeeps(Sorted(entries[..n]), entries[n], bound + entries[n].index);
      InsertAdds(Sorted(entries[..n]), entries[n]);
      assert entries == entries[..n] + [entries[n]];
    }
  }

  method SortByIndex<P, I, E>(entries: seq<Entry<P, I, E>>) returns (sorted: seq<Entry<P, I, E>>)
    ensures sorted == Sorted(entries)
    ensures IsSorted(sorted)
    ensures multiset(sorted) == multiset(entries)
  {
    sorted := [];
    var i := 0;
    while i < |entries|
      invariant 0 <= i <= |entries|
      invariant sorted == Sorted(entries[..i])
    {
      assert entries[..i + 1][..i] == entries[..i];
      sorted := Insert(sorted, entries[i]);
      i := i + 1;
    }
    assert entries[..i] == entries;
    SortedSorts(entries);
  }

  // ----------------------------------------------------------------- merging

  /** The entries of the overlays that answered, in registry order. */
  function InOrder<P, I, E>(registry: Registry<P, I, E>, arrived: set<nat>, n: nat): (s: seq<Entry<P, I, E>>)
    requires IsRegistry(registry) && n <= |registry.overlays|
  {
    if n == 0 then []
    else InOrder(registry, arrived, n - 1) + (if n - 1 in arrived then [EntryAt(registry, n - 1)] else [])
  }

  function Merge<P, I, E>(entries: seq<Entry<P, I, E>>): (m: Merged<P, I, E>) {
    if entries == [] then Merged([], [], [], 0)
    else
      var before := Merge(entries[..|entries| - 1]);
      var Entry(_, overlay, result) := entries[|entries| - 1];
      if result.Ok? then
        Merged(before.snapshots + result.value.peers,
               before.identities + (if result.value.local.Some? then [result.value.local.value] else []),
               before.failures, before.healthy + 1)
      else before.(failures := before.failures + [OverlayFailure(overlay, result.error)])
  }

  function Answer<P, I, E>(merged: Merged<P, I, E>, timedOut: bool): (r: Result<Merged<P, I, E>, DiscoveryError<E>>) {
    if merged.healthy > 0 then Ok(merged)
    else if timedOut then Err(RemoteDiscoveryFailed)
    else Err(OverlayDiscoveryFailed(merged.failures))
  }

  /** What every order of arrival must give: the healthy overlays' lists in registry order. */
  function Discovered<P, I, E>(registry: Registry<P, I, E>, arrived: set<nat>, timedOut: bool)
    : (r: Result<Merged<P, I, E>, DiscoveryError<E>>)
    requires IsRegistry(registry)
  {
    Answer(Merge(InOrder(registry, arrived, |registry.overlays|)), timedOut)
  }

  predicate AreIndices(arrivals: seq<nat>, n: nat) {
    NoDuplicates(arrivals) && forall i | i in arrivals :: i < n
  }

  /** The answers as they arrive. */
  function Arrived<P, I, E>(registry: Registry<P, I, E>, arrivals: seq<nat>): (s: seq<Entry<P, I, E>>)
    requires IsRegistry(registry) && AreIndices(arrivals, |registry.overlays|)
  {
    seq(|arrivals|, k requires 0 <= k < |arrivals| => assert arrivals[k] in arrivals; EntryAt(registry, arrivals[k]))
  }

  /** What the code computes from one order of arrival: sort the answers, then merge. */
  function Aggregated<P, I, E>(registry: Registry<P, I, E>, arrivals: seq<nat>, timedOut: bool)
    : (r: Result<Merged<P, I, E>, DiscoveryError<E>>)
    requires IsRegistry(registry) && AreIndices(arrivals, |registry.overlays|)
  {
    Answer(Merge(Sorted(Arrived(registry, arrivals))), timedOut)
  }

  function SetOf(arrivals: seq<nat>): (s: set<nat>) {
    set i | i in arrivals
  }

  predicate IsAscending<P, I, E>(entries: seq<Entry<P, I, E>>) {
    forall i, j | 0 <= i < j < |entries| :: entries[i].index < entries[j].index
  }

  /** The entries are those of the overlays below `n` that arrived. */
  ghost predicate AreEntries<P, I, E>(registry: Registry<P, I, E>, arrived: set<nat>, n: nat,
                                      entries: seq<Entry<P, I, E>>)
    requires IsRegistry(registry) && n <= |registry.overlays|
  {
    && (forall k | 0 <= k < |entries| ::
          entries[k].index < n && entries[k].index in arrived && entries[k] == EntryAt(registry, entries[k].index))
    && (forall i: nat | i in arrived && i < n :: EntryAt(registry, i) in entries)
  }

  lemma TopIsLast<P, I, E>(registry: Registry<P, I, E>, arrived: set<nat>, n: nat, sorted: seq<Entry<P, I, E>>)
    requires IsRegistry(registry) && n < |registry.overlays| && n in arrived
    requires IsAscending(sorted) && AreEntries(registry, arrived, n + 1, sorted)
    ensures sorted != [] && sorted[|sorted| - 1] == EntryAt(registry, n)
    ensures AreEntries(registry, arrived, n, sorted[..|sorted| - 1]) && IsAscending(sorted[..|sorted| - 1])
  {
    var top := EntryAt(registry, n);
    assert top in sorted;
    var last := |sorted| - 1;
    var k :| 0 <= k < |sorted| && sorted[k] == top;
    assert sorted[last].index <= n;
    assert k == last;
    forall i: nat | i in arrived && i < n
      ensures EntryAt(registry, i) in sorted[..last]
    {
      var j :| 0 <= j < |sorted| && sorted[j] == EntryAt(registry, i);
      assert sorted[..last][j] == EntryAt(registry, i);
    }
  }

  lemma NoTop<P, I, E>(registry: Registry<P, I, E>, arrived: set<nat>, n: nat, sorted: seq<Entry<P, I, E>>)
    requires IsRegistry(registry) && n < |registry.overlays| && n !in arrived
    requires AreEntries(registry, arrived, n + 1, sorted)
    ensures AreEntries(registry, arrived, n, sorted)
  {
    assert forall k | 0 <= k < |sorted| :: sorted[k].index != n;
  }

  /** Distinct entries in ascending order are the registry-order list of their indices. */
  lemma {:induction false} AscendingIsInOrder<P, I, E>(registry: Registry<P, I, E>, arrived: set<nat>, n: nat,
                                                        sorted: seq<Entry<P, I, E>>)
    requires IsRegistry(registry) && n <= |registry.overlays|
    requires IsAscending(sorted) && AreEntries(registry, arrived, n, sorted)
    ensures sorted == InOrder(registry, arrived, n)
    decreases n
  {
    if n == 0 {
      assert sorted == [];
    } else {
      hide AreEntries, IsAscending;
      if n - 1 in arrived {
        TopIsLast(registry, arrived, n - 1, sorted);
        var before := sorted[..|sorted| - 1];
        AscendingIsInOrder(registry, arrived, n - 1, before);
        assert sorted == before + [EntryAt(registry, n - 1)];
        assert InOrder(registry, arrived, n) == InOrder(registry, arrived, n - 1) + [EntryAt(registry, n - 1)];
      } else {
        NoTop(registry, arrived, n - 1, sorted);
        AscendingIsInOrder(registry, arrived, n - 1, sorted);
        assert InOrder(registry, arrived, n) == InOrder(registry, arrived, n - 1) + []
            == InOrder(registry, arrived, n - 1);
      }
    }
  }

  method MergeAll<P, I, E>(sorted: seq<Entry<P, I, E>>) returns (m: Merged<P, I, E>)
    ensures m == Merge(sorted)
  {
    var snapshots: seq<P>, identities: seq<I>, failures: seq<OverlayFailure<E>>, healthy := [], [], [], 0;
    var i := 0;
    while i < |sorted|
      invariant 0 <= i <= |sorted|
      invariant Merge(sorted[..i]) == Merged(snapshots, identities, failures, healthy)
    {
      assert sorted[..i + 1][..i] == sorted[..i];
      var Entry(_, overlay, result) := sorted[i];
      if result.Ok? {
        healthy := healthy + 1;
        snapshots := snapshots + result.value.peers;
        identities := identities + (if result.value.local.Some? then [result.value.local.value] else []);
      } else {
        failures := failures + [OverlayFailure(overlay, result.error)];
      }
      i := i + 1;
    }
    assert sorted[..i] == sorted;
    m := Merged(snapshots, identities, failures, healthy);
  }

  /** Collects the answers as they arrive, sorts them by registry index and merges. */
  method Discover<P, I, E>(registry: Registry<P, I, E>, arrivals: seq<nat>, timedOut: bool)
    returns (r: Result<Merged<P, I, E>, DiscoveryError<E>>)
    requires IsRegistry(registry) && AreIndices(arrivals, |registry.overlays|)
    ensures r == Aggregated(registry, arrivals, timedOut)
    ensures r == Discovered(registry, SetOf(arrivals), timedOut)
  {
    var results: seq<Entry<P, I, E>> := [];
    var i := 0;
    while i < |arrivals|
      invariant 0 <= i <= |arrivals|
      invariant results == Arrived(registry, arrivals)[..i]
    {
      assert arrivals[i] in arrivals;
      results := results + [EntryAt(registry, arrivals[i])];
      i := i + 1;
    }
    assert results == Arrived(registry, arrivals);
    var sorted := SortByIndex(results);
    AggregatedIsDiscovered(registry, arrivals, timedOut);
    var merged := MergeAll(sorted);
    if merged.healthy == 0 {
      if timedOut {
        return Err(RemoteDiscoveryFailed);
      }
      return Err(OverlayDiscoveryFailed(merged.failures));
    }
    r := Ok(merged);
  }

  lemma SortedEntries<P, I, E>(registry: Registry<P, I, E>, arrivals: seq<nat>,
                               results: seq<Entry<P, I, E>>, sorted: seq<Entry<P, I, E>>)
    requires IsRegistry(registry) && AreIndices(arrivals, |registry.overlays|) && |results| == |arrivals|
    requires forall k | 0 <= k < |arrivals| ::
               arrivals[k] < |registry.overlays| && results[k] == EntryAt(registry, arrivals[k])
    requires IsSorted(sorted) && multiset(sorted) == multiset(results)
    ensures sorted == InOrder(registry, SetOf(arrivals), |registry.overlays|)
  {
    SameMembers(sorted, results);
    DistinctStayDistinct(sorted, results);
    forall i, j | 0 <= i < j < |sorted|
      ensures sorted[i].index < sorted[j].index
    {
      assert sorted[i] in sorted && sorted[j] in sorted;
      var a :| 0 <= a < |results| && results[a] == sorted[i];
      var b :| 0 <= b < |results| && results[b] == sorted[j];
      assert a != b;
    }
    forall k | 0 <= k < |sorted|
      ensures sorted[k].index in arrivals && sorted[k] == EntryAt(registry, sorted[k].index)
    {
      assert sorted[k] in sorted;
      var a :| 0 <= a < |results| && results[a] == sorted[k];
    }
    forall i: nat | i in SetOf(arrivals)
      ensures EntryAt(registry, i) in sorted
    {
      var k :| 0 <= k < |arrivals| && arrivals[k] == i;
      assert results[k] in results;
    }
    AscendingIsInOrder(registry, SetOf(arrivals), |registry.overlays|, sorted);
  }

  /** Sorting any order of arrival and merging gives the registry-order merge of the overlays that arrived. */
  lemma AggregatedIsDiscovered<P, I, E>(registry: Registry<P, I, E>, arrivals: seq<nat>, timedOut: bool)
    requires IsRegistry(registry) && AreIndices(arrivals, |registry.overlays|)
    ensures Aggregated(registry, arrivals, timedOut) == Discovered(registry, SetOf(arrivals), timedOut)
  {
    var results := Arrived(registry, arrivals);
    assert forall k | 0 <= k < |arrivals| :: arrivals[k] in arrivals && results[k] == EntryAt(registry, arrivals[k]);
    SortedSorts(results);
    hide Sorted;
    SortedEntries(registry, arrivals, results, Sorted(results));
  }

  lemma SameMembers<T>(a: seq<T>, b: seq<T>)
    requires multiset(a) == multiset(b)
    ensures forall x :: x in a <==> x in b
  {
    assert forall x :: x in a <==> x in multiset(a);
    assert forall x :: x in b <==> x in multiset(b);
  }

  lemma DistinctStayDistinct<T>(a: seq<T>, b: seq<T>)
    requires multiset(a) == multiset(b) && NoDuplicates(b)
    ensures NoDuplicates(a)
  {
    OncePerMember(b);
    forall i, j | 0 <= i < j < |a|
      ensures a[i] != a[j]
    {
      assert a == a[..i] + [a[i]] + a[i + 1..j] + [a[j]] + a[j + 1..];
      assert multiset(a)[a[i]] <= 1;
    }
  }

  lemma {:induction false} OncePerMember<T>(s: seq<T>)
    requires NoDuplicates(s)
    ensures forall x :: multiset(s)[x] <= 1
  {
    if s != [] {
      var n := |s| - 1;
      OncePerMember(s[..n]);
      assert s == s[..n] + [s[n]];
      assert s[n] !in s[..n];
      assert multiset(s[..n])[s[n]] == 0;
    }
  }

  // -------------------------------------------------------------- properties

  /** The order in which providers answer never shows. */
  lemma ArrivalOrderDoesNotMatter<P, I, E>(registry: Registry<P, I, E>, a: seq<nat>, b: seq<nat>, timedOut: bool)
    requires IsRegistry(registry) && AreIndices(a, |registry.overlays|) && AreIndices(b, |registry.overlays|)
    requires multiset(a) == multiset(b)
    ensures Aggregated(registry, a, timedOut) == Aggregated(registry, b, timedOut)
  {
    hide Aggregated;
    SameMembers(a, b);
    assert SetOf(a) == SetOf(b);
    AggregatedIsDiscovered(registry, a, timedOut);
    AggregatedIsDiscovered(registry, b, timedOut);
  }

  predicate SomeHealthy<P, I, E>(registry: Registry<P, I, E>, arrived: set<nat>, n: nat)
    requires IsRegistry(registry) && n <= |registry.overlays|
  {
    exists i | 0 <= i < n :: i in arrived && registry.answers[i].Ok?
  }

  /** An overlay counts as healthy exactly when it answered, and answered well. */
  lemma {:induction false} HealthyIffSomeAnswer<P, I, E>(registry: Registry<P, I, E>, arrived: set<nat>, n: nat)
    requires IsRegistry(registry) && n <= |registry.overlays|
    ensures Merge(InOrder(registry, arrived, n)).healthy > 0 <==> SomeHealthy(registry, arrived, n)
    decreases n
  {
    if n > 0 {
      hide Merge, InOrder;
      HealthyIffSomeAnswer(registry, arrived, n - 1);
      MergeStep(registry, arrived, n - 1);
      assert SomeHealthy(registry, arrived, n) <==>
             SomeHealthy(registry, arrived, n - 1) || (n - 1 in arrived && registry.answers[n - 1].Ok?);
    }
  }

  lemma MergeStep<P, I, E>(registry: Registry<P, I, E>, arrived: set<nat>, n: nat)
    requires IsRegistry(registry) && n < |registry.overlays|
    ensures var before := Merge(InOrder(registry, arrived, n));
            var after := Merge(InOrder(registry, arrived, n + 1));
            var answer := registry.answers[n];
            if n !in arrived then after == before
            else if answer.Ok? then
              && after.snapshots == before.snapshots + answer.value.peers
              && after.identities == before.identities + LocalOf(answer.value)
              && after.failures == before.failures
              && after.healthy == before.healthy + 1
            else after == before.(failures := before.failures + [OverlayFailure(registry.overlays[n], answer.error)])
  {
    var entries := InOrder(registry, arrived, n);
    if n in arrived {
      assert InOrder(registry, arrived, n + 1)[..|entries|] == entries;
    } else {
      assert InOrder(registry, arrived, n + 1) == entries;
    }
  }

  function LocalOf<P, I>(snapshot: Snapshot<P, I>): (s: seq<I>) {
    if snapshot.local.Some? then [snapshot.local.value] else []
  }

  /** A healthy overlay's peers and identity are in the merged lists, together, after those of earlier overlays. */
  lemma {:induction false} HealthyOverlayIsKept<P, I, E>(registry: Registry<P, I, E>, arrived: set<nat>, n: nat, i: nat)
    returns (peers: seq<P>, identities: seq<I>)
    requires IsRegistry(registry) && i < n <= |registry.overlays|
    requires i in arrived && registry.answers[i].Ok?
    ensures var before, merged := Merge(InOrder(registry, arrived, i)), Merge(InOrder(registry, arrived, n));
            && merged.snapshots == before.snapshots + registry.answers[i].value.peers + peers
            && merged.identities == before.identities + LocalOf(registry.answers[i].value) + identities
    decreases n
  {
    hide InOrder, Merge;
    MergeStep(registry, arrived, n - 1);
    if i == n - 1 {
      peers, identities := [], [];
    } else {
      peers, identities := HealthyOverlayIsKept(registry, arrived, n - 1, i);
      if n - 1 in arrived && registry.answers[n - 1].Ok? {
        peers := peers + registry.answers[n - 1].value.peers;
        identities := identities + LocalOf(registry.answers[n - 1].value);
      }
    }
  }

  /**
   Of what discovery returns, for every order of arrival: a healthy overlay that
   arrived has all its peers and its identity in the lists, in one piece, after
   exactly what the healthy overlays before it in the registry contribute.
   */
  lemma ReturnedListsKeepTheHealthy<P, I, E>(registry: Registry<P, I, E>, arrivals: seq<nat>, timedOut: bool, i: nat)
    returns (peers: seq<P>, identities: seq<I>)
    requires IsRegistry(registry) && AreIndices(arrivals, |registry.overlays|)
    requires i in arrivals && registry.answers[i].Ok?
    ensures var r := Aggregated(registry, arrivals, timedOut);
            && r.Ok?
            && r.value.snapshots == PeersBefore(registry, arrivals, i) + registry.answers[i].value.peers + peers
            && r.value.identities ==
               LocalsBefore(registry, arrivals, i) + LocalOf(registry.answers[i].value) + identities
  {
    hide Aggregated, Merge, InOrder;
    AggregatedIsDiscovered(registry, arrivals, timedOut);
    HealthyIffSomeAnswer(registry, SetOf(arrivals), |registry.overlays|);
    peers, identities := HealthyOverlayIsKept(registry, SetOf(arrivals), |registry.overlays|, i);
    ListsBefore(registry, arrivals, i);
  }

  /** What the healthy overlays that arrived contribute, up to registry index `n`. */
  function PeersBefore<P, I, E>(registry: Registry<P, I, E>, arrivals: seq<nat>, n: nat): (s: seq<P>)
    requires IsRegistry(registry) && n <= |registry.overlays|
  {
    if n == 0 then []
    else PeersBefore(registry, arrivals, n - 1)
         + if n - 1 in arrivals && registry.answers[n - 1].Ok? then registry.answers[n - 1].value.peers else []
  }

  function LocalsBefore<P, I, E>(registry: Registry<P, I, E>, arrivals: seq<nat>, n: nat): (s: seq<I>)
    requires IsRegistry(registry) && n <= |registry.overlays|
  {
    if n == 0 then []
    else LocalsBefore(registry, arrivals, n - 1)
         + if n - 1 in arrivals && registry.answers[n - 1].Ok? then LocalOf(registry.answers[n - 1].value) else []
  }

  lemma {:induction false} ListsBefore<P, I, E>(registry: Registry<P, I, E>, arrivals: seq<nat>, n: nat)
    requires IsRegistry(registry) && n <= |registry.overlays|
    ensures var merged := Merge(InOrder(registry, SetOf(arrivals), n));
            && merged.snapshots == PeersBefore(registry, arrivals, n)
            && merged.identities == LocalsBefore(registry, arrivals, n)
    decreases n
  {
    if n > 0 {
      hide Merge, InOrder;
      ListsBefore(registry, arrivals, n - 1);
      MergeStep(registry, SetOf(arrivals), n - 1);
    }
  }

  /** The returned lists are exactly those contributions, and nothing else. */
  lemma ReturnedListsAreTheContributions<P, I, E>(registry: Registry<P, I, E>, arrivals: seq<nat>, timedOut: bool)
    requires IsRegistry(registry) && AreIndices(arrivals, |registry.overlays|)
    ensures var r := Aggregated(registry, arrivals, timedOut);
            r.Ok? ==>
              && r.value.snapshots == PeersBefore(registry, arrivals, |registry.overlays|)
              && r.value.identities == LocalsBefore(registry, arrivals, |registry.overlays|)
  {
    hide Aggregated, Merge, InOrder;
    AggregatedIsDiscovered(registry, arrivals, timedOut);
    ListsBefore(registry, arrivals, |registry.overlays|);
  }

  /** A peer of some overlay that answered well. */
  ghost predicate IsPeerOf<P, I, E>(registry: Registry<P, I, E>, arrived: set<nat>, i: nat, peer: P)
    requires IsRegistry(registry)
  {
    i < |registry.overlays| && i in arrived && registry.answers[i].Ok? && peer in registry.answers[i].value.peers
  }

  /** Nothing else is merged: every peer comes from an overlay that answered well. */
  lemma {:induction false} OnlyHealthyPeers<P, I, E>(registry: Registry<P, I, E>, arrived: set<nat>, n: nat, peer: P)
    requires IsRegistry(registry) && n <= |registry.overlays|
    requires peer in Merge(InOrder(registry, arrived, n)).snapshots
    ensures exists i: nat :: i < n && IsPeerOf(registry, arrived, i, peer)
    decreases n
  {
    if n > 0 {
      hide InOrder, Merge;
      MergeStep(registry, arrived, n - 1);
      if peer in Merge(InOrder(registry, arrived, n - 1)).snapshots {
        OnlyHealthyPeers(registry, arrived, n - 1, peer);
      } else {
        assert IsPeerOf(registry, arrived, n - 1, peer);
      }
    }
  }

  predicate AllFailed<P, I, E>(registry: Registry<P, I, E>, arrived: set<nat>, n: nat)
    requires IsRegistry(registry) && n <= |registry.overlays|
  {
    forall i | 0 <= i < n :: i in arrived && registry.answers[i].Err?
  }

  function FailureAt<P, I, E>(registry: Registry<P, I, E>, i: nat): (f: OverlayFailure<E>)
    requires IsRegistry(registry) && i < |registry.overlays| && registry.answers[i].Err?
  {
    OverlayFailure(registry.overlays[i], registry.answers[i].error)
  }

  function FailureList<P, I, E>(registry: Registry<P, I, E>, n: nat): (fs: seq<OverlayFailure<E>>)
    requires IsRegistry(registry) && n <= |registry.overlays|
    requires forall i | 0 <= i < n :: registry.answers[i].Err?
    ensures |fs| == n
    ensures forall i | 0 <= i < n :: fs[i] == FailureAt(registry, i)
  {
    if n == 0 then [] else FailureList(registry, n - 1) + [FailureAt(registry, n - 1)]
  }

  /** When no overlay is healthy and none timed out, the failures are those of each overlay, in registry order. */
  lemma {:induction false} FailuresInRegistryOrder<P, I, E>(registry: Registry<P, I, E>, arrived: set<nat>, n: nat)
    requires IsRegistry(registry) && n <= |registry.overlays|
    requires AllFailed(registry, arrived, n)
    ensures var merged := Merge(InOrder(registry, arrived, n));
            merged.healthy == 0 && merged.failures == FailureList(registry, n)
    decreases n
  {
    if n > 0 {
      hide Merge, InOrder;
      FailuresInRegistryOrder(registry, arrived, n - 1);
      MergeStep(registry, arrived, n - 1);
    }
  }

  /** The error cases: nothing healthy arrived, told apart by the deadline. */
  lemma ErrorsAreExact<P, I, E>(registry: Registry<P, I, E>, arrived: set<nat>, timedOut: bool)
    requires IsRegistry(registry)
    requires !timedOut ==> forall i: nat | i < |registry.overlays| :: i in arrived
    ensures var r := Discovered(registry, arrived, timedOut);
            && (r.Err? <==> forall i: nat | i < |registry.overlays| && i in arrived :: registry.answers[i].Err?)
            && (r.Err? && timedOut ==> r.error == RemoteDiscoveryFailed)
            && (r.Err? && !timedOut ==>
                  && r.error.OverlayDiscoveryFailed?
                  && |r.error.failures| == |registry.overlays|
                  && forall i | 0 <= i < |registry.overlays| ::
                       r.error.failures[i] == FailureAt(registry, i))
  {
    HealthyIffSomeAnswer(registry, arrived, |registry.overlays|);
    if Discovered(registry, arrived, timedOut).Err? && !timedOut {
      FailuresInRegistryOrder(registry, arrived, |registry.overlays|);
    }
  }
}
