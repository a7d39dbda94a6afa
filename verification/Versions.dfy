/**
 Public protocol versions, inclusive version ranges, and negotiation
 (crates/protocol/src/version.rs), with the two range-narrowing helpers of the
 client and the daemon, which are one function applied to two windows.
 */
module Versions {
  import opened Wrappers

  /** A nonzero 32-bit version number. */
  type Version = v: int | 0 < v < 0x1_0000_0000 witness 1

  datatype Span = Span(minimum: Version, maximum: Version) {
    predicate Contains(v: Version) {
      minimum <= v <= maximum
    }
  }

  /** An inclusive range whose ends are ordered. */
  type Range = s: Span | s.minimum <= s.maximum witness Span(1, 1)

  const CURRENT: Version := 4
  const PREVIOUS: Version := 3
  /** The versions a client of this build speaks and a daemon of this build serves. */
  const WINDOW: Range := Span(PREVIOUS, CURRENT)

  function NewRange(minimum: Version, maximum: Version): (r: Option<Range>)
    ensures r.Some? <==> exists v: Version :: Span(minimum, maximum).Contains(v)
    ensures r.Some? ==> r.value == Span(minimum, maximum)
  {
    if minimum > maximum then None
    else
      assert Span(minimum, maximum).Contains(minimum);
      Some(Span(minimum, maximum))
  }

  function Exact(v: Version): (r: Range)
    ensures forall u: Version :: r.Contains(u) <==> u == v
  {
    Span(v, v)
  }

  function Max(a: Version, b: Version): (m: Version) { if a < b then b else a }

  function Min(a: Version, b: Version): (m: Version) { if a < b then a else b }

  /**
   `asked` narrowed to `window`: exactly the versions in both, or `None` when
   there are none.
   */
  function Narrow(asked: Range, window: Range): (r: Option<Range>)
    ensures r.None? <==> forall v: Version :: !(asked.Contains(v) && window.Contains(v))
    ensures r.Some? ==> forall v: Version :: r.value.Contains(v) <==> asked.Contains(v) && window.Contains(v)
  {
    var lo, hi := Max(asked.minimum, window.minimum), Min(asked.maximum, window.maximum);
    assert lo <= hi ==> asked.Contains(lo) && window.Contains(lo);
    NewRange(lo, hi)
  }

  /** The highest version both sides speak. */
  function Negotiate(client: Range, daemon: Range): (r: Option<Version>)
    ensures r.None? <==> forall v: Version :: !(client.Contains(v) && daemon.Contains(v))
    ensures r.Some? ==> client.Contains(r.value) && daemon.Contains(r.value)
    ensures r.Some? ==> forall v: Version :: client.Contains(v) && daemon.Contains(v) ==> v <= r.value
  {
    var lo, hi := Max(client.minimum, daemon.minimum), Min(client.maximum, daemon.maximum);
    assert lo <= hi ==> client.Contains(hi) && daemon.Contains(hi);
    if lo > hi then None else Some(hi)
  }

  /** Narrowing twice to one window changes nothing more, and a range inside the window is kept. */
  lemma NarrowIdempotent(asked: Range, window: Range)
    ensures var r := Narrow(asked, window);
            r.Some? ==> Narrow(r.value, window) == r
    ensures (forall v: Version :: asked.Contains(v) ==> window.Contains(v)) ==> Narrow(asked, window) == Some(asked)
  {
    assert asked.Contains(asked.minimum) && asked.Contains(asked.maximum);
  }

  /** The narrowed range depends only on the versions in common, so order does not matter. */
  lemma NarrowCommutes(a: Range, b: Range)
    ensures Narrow(a, b) == Narrow(b, a)
  {
    var x, y := Narrow(a, b), Narrow(b, a);
    if x.Some? && y.Some? {
      assert x.value.Contains(x.value.minimum) && x.value.Contains(x.value.maximum);
      assert y.value.Contains(y.value.minimum) && y.value.Contains(y.value.maximum);
    }
  }

  /** Offering the narrowed range selects what offering the whole range would select in the window. */
  lemma NegotiateNarrowed(asked: Range, window: Range)
    ensures Negotiate(asked, window) ==
            match Narrow(asked, window) { case None => None case Some(r) => Some(r.maximum) }
  {
    var n := Narrow(asked, window);
    if n.Some? {
      assert n.value.Contains(n.value.maximum);
      var v := Negotiate(asked, window).value;
      assert n.value.Contains(v);
    }
  }

  /** A request pinned to one version is executed under it or refused, whatever the daemon serves. */
  lemma PinnedNegotiation(v: Version, daemon: Range)
    ensures Negotiate(Exact(v), daemon) == if daemon.Contains(v) then Some(v) else None
  {
    if daemon.Contains(v) {
      assert Exact(v).Contains(v);
    }
  }
}
