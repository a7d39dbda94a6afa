/**
 The disk a trust evaluation walks (crates/daemon/src/checkout_trust.rs), as a
 fixed tree, and what the walk demands of a subtree.
 */
module TrustTree {
  import opened Wrappers
  import opened Strings

  const MAX_COMPARED_FILES: nat := 2048
  const MAX_WALKED_ENTRIES: nat := 8192
  const MAX_COMPARED_DEPTH: nat := 32
  const GIT_ENTRY: string := ".git"

  datatype Node =
    | File(executable: bool, content: seq<Byte>)
    | Dir(entries: seq<Entry>)
    | Link(target: Option<Node>)   // a symbolic link and what following it reaches
    | Special

  /** A directory entry; a name that is not UTF-8 cannot be read as text. */
  datatype Entry = Entry(name: string, utf8: bool, node: Node)

  predicate IsName(name: string) {
    name != "" && name != "." && name != ".." && '/' !in name
  }

  predicate NamesDiffer(entries: seq<Entry>) {
    forall i, j | 0 <= i < j < |entries| && entries[i].utf8 && entries[j].utf8 :: entries[i].name != entries[j].name
  }

  /** What a file system guarantees: names without '/', no readable name twice in a directory. */
  predicate IsTree(node: Node) {
    match node
    case Dir(entries) =>
      && NamesDiffer(entries)
      && (forall e | e in entries :: (e.utf8 ==> IsName(e.name)) && IsTree(e.node))
    case Link(target) => target.Some? ==> IsTree(target.value)
    case _ => true
  }

  /** The entry of that literal name. */
  function Find(entries: seq<Entry>, name: string): (r: Option<Node>)
    ensures r.Some? <==> exists e | e in entries :: e.utf8 && e.name == name
    ensures r.Some? ==> exists e | e in entries :: e.utf8 && e.name == name && e.node == r.value
  {
    if entries == [] then None
    else if entries[0].utf8 && entries[0].name == name then Some(entries[0].node)
    else Find(entries[1..], name)
  }

  /** What opening a path that ends at `node` reaches. */
  function Follow(node: Node): (r: Option<Node>) {
    if node.Link? then (if node.target.Some? then Follow(node.target.value) else None) else Some(node)
  }

  /** The node reached through the literal names `parts`, links followed on the way but not at the end. */
  function Literal(node: Node, parts: seq<string>): (r: Option<Node>)
    decreases |parts|
  {
    if parts == [] then Some(node)
    else
      var here := Follow(node);
      if here.Some? && here.value.Dir? then
        var child := Find(here.value.entries, parts[0]);
        if child.Some? then Literal(child.value, parts[1..]) else None
      else None
  }

  lemma {:induction false} LiteralExtends(node: Node, parts: seq<string>, name: string)
    ensures Literal(node, parts + [name]) ==
            match Literal(node, parts) {
              case None => None
              case Some(last) =>
                var dir := Follow(last);
                if dir.Some? && dir.value.Dir? then Find(dir.value.entries, name) else None
            }
    decreases |parts|
  {
    if parts == [] {
      assert parts + [name] == [name] && [name][1..] == [];
    } else {
      assert (parts + [name])[1..] == parts[1..] + [name];
      var here := Follow(node);
      if here.Some? && here.value.Dir? {
        var child := Find(here.value.entries, parts[0]);
        if child.Some? { LiteralExtends(child.value, parts[1..], name); }
      }
    }
  }

  /** In a tree an entry is found under its own name. */
  lemma {:induction false} FindsItself(entries: seq<Entry>, i: nat)
    requires i < |entries| && entries[i].utf8 && NamesDiffer(entries)
    ensures Find(entries, entries[i].name) == Some(entries[i].node)
  {
    if i > 0 {
      FindsItself(entries[1..], i - 1);
    }
  }

  // ------------------------------------------------- what the walk demands

  /** A name that hides a nested repository, in any letter case. */
  predicate IsGitName(name: string) {
    EqIgnoreAsciiCase(name, GIT_ENTRY)
  }

  /** Only plain files and directories, every name readable, no nested repository. */
  predicate Plain(node: Node) {
    match node
    case File(_, _) => true
    case Dir(entries) => forall e | e in entries :: e.utf8 && !IsGitName(e.name) && Plain(e.node)
    case _ => false
  }

  function Max(a: nat, b: nat): (m: nat) { if a < b then b else a }

  /** Nesting below a node. */
  function Height(node: Node): (h: nat)
    decreases node
  {
    if node.Dir? then HeightAll(node.entries) else 0
  }

  function HeightAll(entries: seq<Entry>): (h: nat)
    decreases entries
  {
    if entries == [] then 0
    else
      var Entry(_, _, node) := entries[|entries| - 1];
      Max(HeightAll(entries[..|entries| - 1]), 1 + Height(node))
  }

  /** Nodes of a subtree, the node itself included. */
  function Count(node: Node): (n: nat)
    ensures n >= 1
    decreases node
  {
    1 + if node.Dir? then CountAll(node.entries) else 0
  }

  function CountAll(entries: seq<Entry>): (n: nat)
    decreases entries
  {
    if entries == [] then 0
    else
      var Entry(_, _, node) := entries[|entries| - 1];
      CountAll(entries[..|entries| - 1]) + Count(node)
  }

  function Below(path: string, name: string): (s: string) {
    path + ['/'] + name
  }

  /** The paths of the regular files of a subtree, in enumeration order. */
  function FilesBelow(path: string, node: Node): (files: seq<string>)
    decreases node
  {
    match node
    case File(_, _) => [path]
    case Dir(entries) => FilesAll(path, entries)
    case _ => []
  }

  function FilesAll(path: string, entries: seq<Entry>): (files: seq<string>)
    decreases entries
  {
    if entries == [] then []
    else
      var Entry(name, _, node) := entries[|entries| - 1];
      FilesAll(path, entries[..|entries| - 1]) + FilesBelow(Below(path, name), node)
  }

  /** A subtree the walk accepts at this depth with these counts already used. */
  predicate Fits(path: string, node: Node, depth: nat, entries: nat, files: nat) {
    && Plain(node)
    && depth + Height(node) <= MAX_COMPARED_DEPTH
    && entries + Count(node) <= MAX_WALKED_ENTRIES
    && files + |FilesBelow(path, node)| <= MAX_COMPARED_FILES
  }

  /** Everything counted for a directory's first entries is counted for all of them. */
  lemma {:induction false} PrefixCounts(path: string, entries: seq<Entry>, i: nat)
    requires i <= |entries|
    ensures HeightAll(entries[..i]) <= HeightAll(entries)
    ensures CountAll(entries[..i]) <= CountAll(entries)
    ensures |FilesAll(path, entries[..i])| <= |FilesAll(path, entries)|
    decreases |entries| - i
  {
    if i < |entries| {
      PrefixCounts(path, entries, i + 1);
      assert entries[..i + 1][..i] == entries[..i];
    } else {
      assert entries[..i] == entries;
    }
  }

  /** One entry's share of its directory. */
  lemma EntryCounts(path: string, entries: seq<Entry>, i: nat)
    requires i < |entries|
    ensures 1 + Height(entries[i].node) <= HeightAll(entries)
    ensures CountAll(entries[..i]) + Count(entries[i].node) == CountAll(entries[..i + 1]) <= CountAll(entries)
    ensures FilesAll(path, entries[..i]) + FilesBelow(Below(path, entries[i].name), entries[i].node)
            == FilesAll(path, entries[..i + 1])
    ensures |FilesAll(path, entries[..i + 1])| <= |FilesAll(path, entries)|
    ensures HeightAll(entries[..i + 1]) == Max(HeightAll(entries[..i]), 1 + Height(entries[i].node))
  {
    assert entries[..i + 1][..i] == entries[..i];
    PrefixCounts(path, entries, i + 1);
  }

  /** In a directory that fits, each entry fits after its predecessors. */
  lemma EntryFits(path: string, entries: seq<Entry>, depth: nat, used: nat, files: nat, i: nat)
    requires i < |entries|
    requires Fits(path, Dir(entries), depth, used, files)
    ensures var e := entries[i];
            && e.utf8 && !IsGitName(e.name)
            && Fits(Below(path, e.name), e.node, depth + 1, used + 1 + CountAll(entries[..i]),
                    files + |FilesAll(path, entries[..i])|)
  {
    EntryCounts(path, entries, i);
    assert entries[i] in entries;
  }

  /** The first `i` entries of a directory fit, each after its predecessors. */
  predicate FirstFit(path: string, entries: seq<Entry>, depth: nat, used: nat, files: nat, i: nat)
    requires i <= |entries|
  {
    Fits(path, Dir(entries[..i]), depth, used, files)
  }

  lemma FirstFitStep(path: string, entries: seq<Entry>, depth: nat, used: nat, files: nat, i: nat)
    requires i < |entries| && FirstFit(path, entries, depth, used, files, i)
    requires entries[i].utf8 && !IsGitName(entries[i].name)
    requires Fits(Below(path, entries[i].name), entries[i].node, depth + 1, used + 1 + CountAll(entries[..i]),
                  files + |FilesAll(path, entries[..i])|)
    ensures FirstFit(path, entries, depth, used, files, i + 1)
  {
    EntryCounts(path, entries, i);
    assert entries[..i + 1] == entries[..i] + [entries[i]];
  }
}
