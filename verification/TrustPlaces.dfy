/**
 The places below a node, and what the walk's demands on a subtree
 (crates/daemon/src/checkout_trust.rs, `collect`) say of them: which nodes and
 names are allowed, how deep they lie and how many there are.
 */
module TrustPlaces {
  import opened Wrappers
  import opened Strings
  import opened TrustTree
  import opened TrustFiles

  /** The node at a place below `node`: the index of a directory entry at each level. */
  function At(node: Node, place: seq<nat>): (r: Option<Node>)
    decreases |place|
  {
    if place == [] then Some(node)
    else if node.Dir? && place[0] < |node.entries| then At(node.entries[place[0]].node, place[1..])
    else None
  }

  /** Every node here and below is a regular file or a directory. */
  ghost predicate HoldsOnlyFiles(node: Node) {
    forall place: seq<nat> :: At(node, place).Some? ==> At(node, place).value.File? || At(node, place).value.Dir?
  }

  predicate IsAllowedName(e: Entry) {
    e.utf8 && Lower(e.name) != ".git"
  }

  /** Every entry here and below has a readable name that is not `.git` in any letter case. */
  ghost predicate HoldsOnlyAllowedNames(node: Node) {
    forall place: seq<nat> :: At(node, place).Some? && At(node, place).value.Dir? ==>
                                forall e | e in At(node, place).value.entries :: IsAllowedName(e)
  }

  lemma AtEntry(node: Node, i: nat, place: seq<nat>)
    requires node.Dir? && i < |node.entries|
    ensures At(node, [i] + place) == At(node.entries[i].node, place)
  {
    assert ([i] + place)[1..] == place;
  }

  lemma GitNameIsLowered(name: string)
    ensures IsGitName(name) <==> Lower(name) == ".git"
  {
    assert Lower(".git") == ".git";
  }

  lemma {:induction false} PlainBelow(node: Node, place: seq<nat>)
    requires Plain(node) && At(node, place).Some?
    ensures Plain(At(node, place).value)
    decreases |place|
  {
    if place != [] {
      assert node.entries[place[0]] in node.entries;
      PlainBelow(node.entries[place[0]].node, place[1..]);
    }
  }

  /** What `Plain` demands, over every place of the subtree. */
  lemma {:induction false} PlainIff(node: Node)
    ensures Plain(node) <==> HoldsOnlyFiles(node) && HoldsOnlyAllowedNames(node)
    decreases node
  {
    assert At(node, []) == Some(node);
    if Plain(node) {
      forall place: seq<nat> | At(node, place).Some?
        ensures At(node, place).value.File? || At(node, place).value.Dir?
        ensures At(node, place).value.Dir? ==> forall e | e in At(node, place).value.entries :: IsAllowedName(e)
      {
        PlainBelow(node, place);
        AllowedEntries(At(node, place).value);
      }
    }
    if HoldsOnlyFiles(node) && HoldsOnlyAllowedNames(node) && node.Dir? {
      forall e | e in node.entries
        ensures e.utf8 && !IsGitName(e.name) && Plain(e.node)
      {
        var i :| 0 <= i < |node.entries| && node.entries[i] == e;
        GitNameIsLowered(e.name);
        forall place: seq<nat>
          ensures At(e.node, place) == At(node, [i] + place)
        {
          AtEntry(node, i, place);
        }
        PlainIff(e.node);
      }
    }
  }

  lemma AllowedEntries(node: Node)
    requires Plain(node)
    ensures node.Dir? ==> forall e | e in node.entries :: IsAllowedName(e)
  {
    if node.Dir? {
      forall e | e in node.entries
        ensures IsAllowedName(e)
      {
        GitNameIsLowered(e.name);
      }
    }
  }

  // ------------------------------------------------------------------ height

  lemma {:induction false} PlacesAreShallow(node: Node, place: seq<nat>)
    requires At(node, place).Some?
    ensures |place| <= Height(node)
    decreases |place|
  {
    if place != [] {
      PlacesAreShallow(node.entries[place[0]].node, place[1..]);
      EntryCounts("", node.entries, place[0]);
    }
  }

  lemma {:induction false} TallestEntry(entries: seq<Entry>) returns (i: nat)
    requires entries != []
    ensures i < |entries| && HeightAll(entries) == 1 + Height(entries[i].node)
    decreases |entries|
  {
    var n := |entries| - 1;
    i := n;
    if entries[..n] != [] && HeightAll(entries[..n]) > 1 + Height(entries[n].node) {
      i := TallestEntry(entries[..n]);
    }
  }

  lemma {:induction false} DeepestPlace(node: Node) returns (place: seq<nat>)
    ensures At(node, place).Some? && |place| == Height(node)
    decreases node
  {
    place := [];
    if node.Dir? && node.entries != [] {
      var i := TallestEntry(node.entries);
      var below := DeepestPlace(node.entries[i].node);
      place := [i] + below;
      AtEntry(node, i, below);
    }
  }

  /** A subtree is at most `h` high exactly when no place in it lies deeper. */
  lemma HeightIff(node: Node, h: nat)
    ensures Height(node) <= h <==> forall place: seq<nat> :: At(node, place).Some? ==> |place| <= h
  {
    var deepest := DeepestPlace(node);
    forall place: seq<nat> | At(node, place).Some?
      ensures |place| <= Height(node)
    {
      PlacesAreShallow(node, place);
    }
  }

  // ------------------------------------------------------------------- count

  /** All places of a subtree. */
  function Places(node: Node): (places: seq<seq<nat>>)
    decreases node
  {
    [[]] + if node.Dir? then PlacesAll(node.entries) else []
  }

  function PlacesAll(entries: seq<Entry>): (places: seq<seq<nat>>)
    decreases entries
  {
    if entries == [] then []
    else
      var Entry(_, _, node) := entries[|entries| - 1];
      PlacesAll(entries[..|entries| - 1]) + Starting(|entries| - 1, Places(node))
  }

  function Starting(i: nat, places: seq<seq<nat>>): (r: seq<seq<nat>>)
    ensures |r| == |places| && forall k | 0 <= k < |r| :: r[k] == [i] + places[k]
  {
    seq(|places|, k requires 0 <= k < |places| => [i] + places[k])
  }

  lemma StartingHolds(i: nat, places: seq<seq<nat>>, place: seq<nat>)
    ensures place in Starting(i, places) <==> place != [] && place[0] == i && place[1..] in places
  {
    var all := Starting(i, places);
    if place != [] && place[0] == i && place[1..] in places {
      var k :| 0 <= k < |places| && places[k] == place[1..];
      assert all[k] == [i] + place[1..] == place;
    }
  }

  lemma {:induction false} PlacesAllHold(entries: seq<Entry>, place: seq<nat>)
    ensures place in PlacesAll(entries) <==>
            place != [] && place[0] < |entries| && place[1..] in Places(entries[place[0]].node)
    decreases |entries|
  {
    if entries != [] {
      var n := |entries| - 1;
      PlacesAllHold(entries[..n], place);
      StartingHolds(n, Places(entries[n].node), place);
    }
  }

  lemma {:induction false} PlacesHold(node: Node, place: seq<nat>)
    ensures place in Places(node) <==> At(node, place).Some?
    decreases |place|
  {
    if node.Dir? {
      PlacesAllHold(node.entries, place);
      if place != [] && place[0] < |node.entries| {
        PlacesHold(node.entries[place[0]].node, place[1..]);
      }
    }
  }

  lemma StartingDiffer(i: nat, places: seq<seq<nat>>)
    requires NoDuplicates(places)
    ensures NoDuplicates(Starting(i, places))
  {
    var all := Starting(i, places);
    forall k | 0 <= k < |all|
      ensures all[k][1..] == places[k]
    {
    }
  }

  lemma {:induction false} PlacesAllDiffer(entries: seq<Entry>)
    ensures NoDuplicates(PlacesAll(entries)) && |PlacesAll(entries)| == CountAll(entries)
    decreases entries
  {
    if entries != [] {
      var n := |entries| - 1;
      var Entry(_, _, node) := entries[n];
      PlacesAllDiffer(entries[..n]);
      PlacesDiffer(node);
      StartingDiffer(n, Places(node));
      forall place | place in PlacesAll(entries[..n])
        ensures place !in Starting(n, Places(node))
      {
        PlacesAllHold(entries[..n], place);
        StartingHolds(n, Places(node), place);
      }
      NoDuplicatesConcat(PlacesAll(entries[..n]), Starting(n, Places(node)));
    }
  }

  lemma {:induction false} PlacesDiffer(node: Node)
    ensures NoDuplicates(Places(node)) && |Places(node)| == Count(node)
    decreases node
  {
    if node.Dir? {
      PlacesAllDiffer(node.entries);
      PlacesAllHold(node.entries, []);
      NoDuplicatesConcat([[]], PlacesAll(node.entries));
    }
  }

  /** `Count` is the number of places in the subtree: each is listed, once. */
  lemma CountIsThePlaces(node: Node)
    ensures |Places(node)| == Count(node) && NoDuplicates(Places(node))
    ensures forall place: seq<nat> :: place in Places(node) <==> At(node, place).Some?
  {
    PlacesDiffer(node);
    forall place: seq<nat>
      ensures place in Places(node) <==> At(node, place).Some?
    {
      PlacesHold(node, place);
    }
  }

  // ------------------------------------------------------------ files, once

  lemma {:induction false} FilesAreUnder(path: string, node: Node, x: string)
    requires x in FilesBelow(path, node)
    ensures Under(path, x)
    decreases node
  {
    hide Under, FilesAll;
    if node.File? {
      UnderItself(path);
    } else {
      var i := CollectedBelowAnEntry(path, node.entries, x);
      var e := node.entries[i];
      assert e in node.entries;
      FilesAreUnder(Below(path, e.name), e.node, x);
      UnderEntry(path, e.name, x);
    }
  }

  /** The component after `path` of a path inside it. */
  lemma ComponentAfter(path: string, name: string, x: string)
    requires '/' !in name && Under(Below(path, name), x)
    ensures |Split(x, '/')| > |Split(path, '/')| && Split(x, '/')[|Split(path, '/')|] == name
  {
    SplitFree(name, '/');
    SplitConcat(path, name, '/');
    if x != Below(path, name) {
      var rest: string :| x == Below(Below(path, name), rest);
      SplitConcat(Below(path, name), rest, '/');
    }
  }

  /** No two entries of a directory share a file. */
  lemma EntriesShareNothing(path: string, entries: seq<Entry>, n: nat, x: string)
    requires n < |entries| && IsTree(Dir(entries)) && Plain(Dir(entries))
    requires x in FilesAll(path, entries[..n])
    ensures x !in FilesBelow(Below(path, entries[n].name), entries[n].node)
  {
    hide FilesBelow, FilesAll, Under, Split, Plain, IsTree;
    var i := CollectedBelowAnEntry(path, entries[..n], x);
    NamesAreParts(entries, i);
    NamesAreParts(entries, n);
    FilesAreUnder(Below(path, entries[i].name), entries[i].node, x);
    ComponentAfter(path, entries[i].name, x);
    if x in FilesBelow(Below(path, entries[n].name), entries[n].node) {
      FilesAreUnder(Below(path, entries[n].name), entries[n].node, x);
      ComponentAfter(path, entries[n].name, x);
      assert false;
    }
  }

  lemma NamesAreParts(entries: seq<Entry>, i: nat)
    requires i < |entries| && IsTree(Dir(entries)) && Plain(Dir(entries))
    ensures '/' !in entries[i].name && entries[i].utf8 && NamesDiffer(entries)
  {
    assert entries[i] in entries;
  }

  lemma {:induction false} FirstFilesDiffer(path: string, entries: seq<Entry>, n: nat)
    requires n <= |entries| && IsTree(Dir(entries)) && Plain(Dir(entries))
    ensures NoDuplicates(FilesAll(path, entries[..n]))
    decreases entries, 0, n
  {
    if n > 0 {
      var before := entries[..n - 1];
      assert entries[..n][..n - 1] == before;
      FirstFilesDiffer(path, entries, n - 1);
      var e := entries[n - 1];
      assert e in entries;
      FilesDiffer(Below(path, e.name), e.node);
      forall x | x in FilesAll(path, before)
        ensures x !in FilesBelow(Below(path, e.name), e.node)
      {
        EntriesShareNothing(path, entries, n - 1, x);
      }
      NoDuplicatesConcat(FilesAll(path, before), FilesBelow(Below(path, e.name), e.node));
    }
  }

  /** In a tree no file is collected twice. */
  lemma {:induction false} FilesDiffer(path: string, node: Node)
    requires IsTree(node) && Plain(node)
    ensures NoDuplicates(FilesBelow(path, node))
    decreases node, 1, 0
  {
    if node.Dir? {
      FirstFilesDiffer(path, node.entries, |node.entries|);
      assert node.entries[..|node.entries|] == node.entries;
    }
  }
}
