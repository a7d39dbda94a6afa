/**
 The files the walk collects are exactly the regular files at or below the
 declared path, each found under its own literal name
 (crates/daemon/src/checkout_trust.rs).
 */
module TrustFiles {
  import opened Wrappers
  import opened Strings
  import opened TrustTree
  import opened TrustWalk

  /** A path equal to `path` or inside it. */
  ghost predicate Under(path: string, x: string) {
    x == path || exists rest: string :: x == Below(path, rest)
  }

  ghost predicate IsFileAt(disk: Disk, x: string) {
    LiteralAt(disk, x).Some? && LiteralAt(disk, x).value.File?
  }

  /** Everything collected below a plain node is a regular file at that path. */
  lemma {:induction false} CollectedIsFile(disk: Disk, path: string, node: Node, x: string)
    requires IsDisk(disk) && LiteralAt(disk, path) == Some(node) && IsTree(node) && Plain(node)
    requires x in FilesBelow(path, node)
    ensures IsFileAt(disk, x) && Under(path, x)
    decreases node
  {
    hide IsDisk, LiteralAt, FilesAll, Under;
    if node.File? {
      UnderItself(path);
    } else {
      var i := CollectedBelowAnEntry(path, node.entries, x);
      var e := node.entries[i];
      assert e in node.entries;
      EntryIsLiteral(disk, path, i);
      CollectedIsFile(disk, Below(path, e.name), e.node, x);
      UnderEntry(path, e.name, x);
    }
  }

  lemma UnderItself(path: string)
    ensures Under(path, path)
  {
  }

  lemma UnderEntry(path: string, name: string, x: string)
    requires Under(Below(path, name), x)
    ensures Under(path, x)
  {
    if x != Below(path, name) {
      var rest: string :| x == Below(Below(path, name), rest);
      assert x == Below(path, Below(name, rest));
    }
  }

  lemma {:induction false} CollectedBelowAnEntry(path: string, entries: seq<Entry>, x: string) returns (i: nat)
    requires x in FilesAll(path, entries)
    ensures i < |entries| && x in FilesBelow(Below(path, entries[i].name), entries[i].node)
    decreases |entries|
  {
    var n := |entries| - 1;
    if x in FilesAll(path, entries[..n]) {
      i := CollectedBelowAnEntry(path, entries[..n], x);
    } else {
      i := n;
    }
  }

  lemma {:induction false} EntryIsCollected(path: string, entries: seq<Entry>, i: nat, x: string)
    requires i < |entries| && x in FilesBelow(Below(path, entries[i].name), entries[i].node)
    ensures x in FilesAll(path, entries)
    decreases |entries|
  {
    if i < |entries| - 1 {
      EntryIsCollected(path, entries[..|entries| - 1], i, x);
    }
  }

  function Extend(path: string, parts: seq<string>): (r: string)
    decreases |parts|
  {
    if parts == [] then path else Extend(Below(path, parts[0]), parts[1..])
  }

  lemma {:induction false} ExtendIsJoin(path: string, parts: seq<string>)
    requires parts != []
    ensures Extend(path, parts) == Below(path, Join(parts, '/'))
    decreases |parts|
  {
    if |parts| > 1 {
      ExtendIsJoin(Below(path, parts[0]), parts[1..]);
      assert Join(parts, '/') == parts[0] + ['/'] + Join(parts[1..], '/');
    } else {
      assert parts == [parts[0]] && Extend(Below(path, parts[0]), parts[1..]) == Below(path, parts[0]);
    }
  }

  lemma {:induction false} LiteralConcat(node: Node, a: seq<string>, b: seq<string>)
    ensures Literal(node, a + b) ==
            (if Literal(node, a).None? then None else Literal(Literal(node, a).value, b))
    decreases |a|
  {
    if a == [] {
      assert a + b == b;
    } else {
      assert (a + b)[1..] == a[1..] + b;
      var here := Follow(node);
      if here.Some? && here.value.Dir? {
        var child := Find(here.value.entries, a[0]);
        if child.Some? { LiteralConcat(child.value, a[1..], b); }
      }
    }
  }

  /** A file reached by literal names from a plain node is collected. */
  lemma {:induction false} ReachedIsCollected(path: string, node: Node, parts: seq<string>)
    requires Plain(node) && Literal(node, parts).Some? && Literal(node, parts).value.File?
    ensures Extend(path, parts) in FilesBelow(path, node)
    decreases |parts|
  {
    if parts != [] {
      var child := Find(node.entries, parts[0]).value;
      var e :| e in node.entries && e.utf8 && e.name == parts[0] && e.node == child;
      var i :| 0 <= i < |node.entries| && node.entries[i] == e;
      ReachedIsCollected(Below(path, e.name), e.node, parts[1..]);
      EntryIsCollected(path, node.entries, i, Extend(path, parts));
    }
  }

  /** The collected files of an accepted path are the regular files under it, no more and no fewer. */
  lemma CollectedIffFileUnder(disk: Disk, path: string, x: string)
    requires IsDisk(disk)
    requires LiteralAt(disk, path).Some? ==> Plain(LiteralAt(disk, path).value)
    ensures x in FilesAt(disk, path) <==> IsFileAt(disk, x) && Under(path, x)
  {
    var at := LiteralAt(disk, path);
    if x in FilesAt(disk, path) {
      LiteralIsTree(disk.root, Split(path, '/'));
      CollectedIsFile(disk, path, at.value, x);
    }
    if IsFileAt(disk, x) && Under(path, x) {
      if x == path {
        assert x in FilesBelow(path, at.value);
      } else {
        var rest: string :| x == Below(path, rest);
        SplitConcat(path, rest, '/');
        LiteralConcat(disk.root, Split(path, '/'), Split(rest, '/'));
        ReachedIsCollected(path, at.value, Split(rest, '/'));
        ExtendIsJoin(path, Split(rest, '/'));
        JoinSplit(rest, '/');
      }
    }
  }
}
