/**
 The content hash of the knowledge bundle (crates/knowledge/build.rs): the byte
 string fed to the hasher. The hash itself is not modelled; what is proved is
 that the fed string determines the files and nothing else determines it.
 */
module Bundle {
  import opened Wrappers
  import opened Strings

  const NUL: Byte := 0
  const SLASH: Byte := 47
  const END: Byte := 0xff
  const U64: nat := 0x1_0000_0000_0000_0000

  type Name = seq<Byte>
  type Path = seq<Name>

  /** A directory tree as enumerated: the order of `entries` is whatever the file system lists. */
  datatype Node =
    | File(content: seq<Byte>)
    | Dir(entries: seq<Entry>)
    | Special

  datatype Entry = Entry(name: Name, node: Node)

  predicate IsName(name: Name) {
    name != [] && NUL !in name && SLASH !in name
  }

  /** What a file system guarantees of a directory. */
  predicate IsTree(node: Node) {
    match node
    case File(content) => |content| < U64
    case Special => true
    case Dir(entries) =>
      && (forall i, j | 0 <= i < j < |entries| :: entries[i].name != entries[j].name)
      && (forall e | e in entries :: IsName(e.name) && IsTree(e.node))
  }

  // ------------------------------------------------------------ the files of a tree

  /** The relative paths of the regular files below `entries`, in enumeration order. */
  function FilesIn(prefix: Path, entries: seq<Entry>): (files: seq<Path>)
    decreases entries
  {
    if entries == [] then []
    else FilesOf(prefix + [entries[0].name], entries[0].node) + FilesIn(prefix, entries[1..])
  }

  function FilesOf(path: Path, node: Node): (files: seq<Path>)
    decreases node
  {
    match node
    case File(_) => [path]
    case Dir(entries) => FilesIn(path, entries)
    case Special => []
  }

  /** The entry of that name, if any. */
  function Find(entries: seq<Entry>, name: Name): (r: Option<Node>)
    ensures r.Some? ==> exists e | e in entries :: e.name == name && e.node == r.value
    ensures r.None? ==> forall e | e in entries :: e.name != name
  {
    if entries == [] then None
    else if entries[0].name == name then Some(entries[0].node)
    else Find(entries[1..], name)
  }

  /** The content of the regular file at `path`, if there is one. */
  function ContentAt(node: Node, path: Path): (r: Option<seq<Byte>>)
    decreases path
  {
    if path == [] then (if node.File? then Some(node.content) else None)
    else if node.Dir? then
      var child := Find(node.entries, path[0]);
      if child.Some? then ContentAt(child.value, path[1..]) else None
    else None
  }

  /** `collect_files`: pushes into a shared vector, directory by directory. */
  method CollectFiles(current: Path, entries: seq<Entry>, files: seq<Path>) returns (all: seq<Path>)
    ensures all == files + FilesIn(current, entries)
    decreases entries
  {
    all := files;
    var i := 0;
    while i < |entries|
      invariant 0 <= i <= |entries|
      invariant all + FilesIn(current, entries[i..]) == files + FilesIn(current, entries)
    {
      var path := current + [entries[i].name];
      assert entries[i..][1..] == entries[i + 1..];
      match entries[i].node {
        case Dir(below) =>
          all := CollectFiles(path, below, all);
        case File(_) =>
          all := all + [path];
        case Special =>
      }
      i := i + 1;
    }
    assert entries[i..] == [];
  }

  // ------------------------------------------- what the enumeration contains

  predicate IsBelow(prefix: Path, path: Path) {
    |path| >= |prefix| && path[..|prefix|] == prefix
  }

  lemma BelowStep(prefix: Path, name: Name, path: Path)
    ensures IsBelow(prefix + [name], path) <==> IsBelow(prefix, path) && |path| > |prefix| && path[|prefix|] == name
    ensures |path| > |prefix| ==> path[|prefix|..][0] == path[|prefix|]
    ensures |path| > |prefix| ==> path[|prefix|..][1..] == path[|prefix| + 1..]
  {
    if |path| > |prefix| {
      assert path[..|prefix| + 1] == path[..|prefix|] + [path[|prefix|]];
      assert path[..|prefix| + 1][..|prefix|] == path[..|prefix|];
      assert (prefix + [name])[..|prefix|] == prefix;
      assert path[..|prefix| + 1][|prefix|] == path[|prefix|] && (prefix + [name])[|prefix|] == name;
    }
  }

  /** A path below `prefix` is listed exactly when the tree has a file there. */
  lemma {:induction false} ListedIffFile(prefix: Path, node: Node, path: Path)
    requires IsTree(node)
    ensures path in FilesOf(prefix, node) <==>
            IsBelow(prefix, path) && ContentAt(node, path[|prefix|..]).Some?
    decreases node
  {
    if node.File? {
      assert path == prefix ==> path[|prefix|..] == [];
      assert IsBelow(prefix, path) && path[|prefix|..] == [] ==> path == prefix;
    } else if node.Dir? {
      ListedInIffFile(prefix, node.entries, path);
    }
  }

  /** The file below a directory's entries. */
  function ContentBelow(entries: seq<Entry>, rest: Path): (r: Option<seq<Byte>>) {
    if rest == [] then None
    else
      var child := Find(entries, rest[0]);
      if child.Some? then ContentAt(child.value, rest[1..]) else None
  }

  lemma {:induction false} ListedInIffFile(prefix: Path, entries: seq<Entry>, path: Path)
    requires IsTree(Dir(entries))
    ensures path in FilesIn(prefix, entries) <==>
            IsBelow(prefix, path) && ContentBelow(entries, path[|prefix|..]).Some?
    decreases entries
  {
    if entries != [] {
      hide IsBelow, FilesOf, ContentAt;
      var e, tail := entries[0], entries[1..];
      TreeParts(entries);
      ListedIffFile(prefix + [e.name], e.node, path);
      ListedInIffFile(prefix, tail, path);
      BelowStep(prefix, e.name, path);
    }
  }

  /** The first entry and the rest of a directory. */
  lemma TreeParts(entries: seq<Entry>)
    requires IsTree(Dir(entries)) && entries != []
    ensures IsTree(entries[0].node) && IsTree(Dir(entries[1..])) && IsName(entries[0].name)
    ensures Find(entries[1..], entries[0].name).None?
  {
    assert entries[0] in entries;
    assert forall e | e in entries[1..] :: e in entries;
  }

  /** No path is listed twice. */
  lemma {:induction false} ListedOnce(prefix: Path, node: Node)
    requires IsTree(node)
    ensures NoDuplicates(FilesOf(prefix, node))
    decreases node
  {
    if node.Dir? {
      ListedInOnce(prefix, node.entries);
    }
  }

  lemma {:induction false} ListedInOnce(prefix: Path, entries: seq<Entry>)
    requires IsTree(Dir(entries))
    ensures NoDuplicates(FilesIn(prefix, entries))
    decreases entries
  {
    if entries != [] {
      var e, tail := entries[0], entries[1..];
      var here := prefix + [e.name];
      TreeParts(entries);
      ListedOnce(here, e.node);
      ListedInOnce(prefix, tail);
      var a, b := FilesOf(here, e.node), FilesIn(prefix, tail);
      forall p | p in a
        ensures p !in b
      {
        ListedIffFile(here, e.node, p);
        ListedInIffFile(prefix, tail, p);
        BelowStep(prefix, e.name, p);
      }
      NoDuplicatesConcat(a, b);
    }
  }
}
