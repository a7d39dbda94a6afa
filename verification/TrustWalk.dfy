/**
 The bounded walk of the declared paths (crates/daemon/src/checkout_trust.rs,
 `Walk`). The file system may answer a path under its own spelling rules; it is
 trusted only for a path whose every component is listed literally.
 */
module TrustWalk {
  import opened Wrappers
  import opened Strings
  import opened TrustTree

  datatype Stat = Found(node: Node) | Missing | Unreadable

  /** The disk below the launch directory: its tree, its own path lookup, and Unicode case folding. */
  datatype Disk = Disk(root: Node, stat: string -> Stat, fold: string -> string)

  function LiteralAt(disk: Disk, path: string): (r: Option<Node>) {
    Literal(disk.root, Split(path, '/'))
  }

  /** A tree, and a lookup that agrees with the literal names where they exist. */
  ghost predicate IsDisk(disk: Disk) {
    && IsTree(disk.root)
    && (forall path: string :: LiteralAt(disk, path).Some? ==> disk.stat(path) == Found(LiteralAt(disk, path).value))
  }

  datatype Failure = DeadlinePassed | DiskUnreadable | OutputUnreadable | GitFailed

  datatype NameState = Exact | Absent | Refused

  /** Two distinct names that are one under case folding. */
  predicate FoldsTogether(disk: Disk, a: string, b: string) {
    a != b && disk.fold(a) == disk.fold(b)
  }

  predicate Clashes(disk: Disk, listing: seq<Entry>, part: string) {
    exists e | e in listing :: e.utf8 && FoldsTogether(disk, e.name, part)
  }

  /** What looking up each component by its literal name finds; `used` counts the entries read. */
  datatype Scanned = AllFound(used: nat) | PartMissing(used: nat) | Clash | NotADirectory

  function Scan(disk: Disk, node: Node, parts: seq<string>, used: nat): (s: Scanned)
    ensures s.AllFound? || s.PartMissing? ==> s.used >= used
    decreases |parts|
  {
    if parts == [] then AllFound(used)
    else
      match Follow(node)
      case None => PartMissing(used)
      case Some(here) =>
        if !here.Dir? then NotADirectory
        else if Clashes(disk, here.entries, parts[0]) || used + |here.entries| > MAX_WALKED_ENTRIES then Clash
        else
          var child := Find(here.entries, parts[0]);
          if child.None? then PartMissing(used + |here.entries|)
          else Scan(disk, child.value, parts[1..], used + |here.entries|)
  }

  /** No sibling on the way is the same name under case folding. */
  predicate Unambiguous(disk: Disk, node: Node, parts: seq<string>)
    decreases |parts|
  {
    parts == [] ||
    (var here := Follow(node);
     && here.Some? && here.value.Dir?
     && !Clashes(disk, here.value.entries, parts[0])
     && var child := Find(here.value.entries, parts[0]);
        child.Some? && Unambiguous(disk, child.value, parts[1..]))
  }

  /** An exact result means each component exists literally with no case-folding sibling. */
  lemma {:induction false} ExactMeansLiteral(disk: Disk, node: Node, parts: seq<string>, used: nat)
    ensures Scan(disk, node, parts, used).AllFound? ==>
              Literal(node, parts).Some? && Unambiguous(disk, node, parts)
    ensures Scan(disk, node, parts, used).AllFound? && parts != [] ==>
              Scan(disk, node, parts, used).used <= MAX_WALKED_ENTRIES
    ensures Scan(disk, node, parts, used).PartMissing? ==> Literal(node, parts).None?
    decreases |parts|
  {
    if parts != [] {
      var here := Follow(node);
      if here.Some? && here.value.Dir? {
        var child := Find(here.value.entries, parts[0]);
        if child.Some? {
          ExactMeansLiteral(disk, child.value, parts[1..], used + |here.value.entries|);
        }
      }
    }
  }

  /** The answer of the name lookup, the deadline aside. */
  function NameResult(disk: Disk, relative: string, s: Scanned): (r: Result<NameState, Failure>) {
    match s
    case AllFound(_) => Ok(Exact)
    case Clash => Ok(Refused)
    case NotADirectory => Err(DiskUnreadable)
    case PartMissing(_) =>
      match disk.stat(relative)
      case Missing => Ok(Absent)
      case Unreadable => Err(DiskUnreadable)
      case Found(_) => Ok(Refused)
  }

  /** A subtree at its literal place, below the declared path. */
  predicate AcceptsAt(disk: Disk, path: string, depth: nat, entries: nat, files: nat) {
    LiteralAt(disk, path).Some? && Fits(path, LiteralAt(disk, path).value, depth, entries, files)
  }

  function DeclaredScan(disk: Disk, path: string, entries: nat): (s: Scanned) {
    Scan(disk, disk.root, Split(path, '/'), entries + 1)
  }

  /** What the walk demands of a declared path: absent altogether, or exact and fitting. */
  predicate AcceptsDeclared(disk: Disk, path: string, entries: nat, files: nat) {
    && entries + 1 <= MAX_WALKED_ENTRIES
    && var s := DeclaredScan(disk, path, entries);
       || (s.PartMissing? && disk.stat(path).Missing?)
       || (s.AllFound? && AcceptsAt(disk, path, 0, s.used - 1, files))
  }

  /** The demand on one call: of a declared path, or of an entry below one. */
  predicate Accepts(disk: Disk, path: string, depth: nat, entries: nat, files: nat) {
    if depth == 0 then AcceptsDeclared(disk, path, entries, files) else AcceptsAt(disk, path, depth, entries, files)
  }

  /** The entries counted after a call that accepts. */
  function UsedAfter(disk: Disk, path: string, depth: nat, entries: nat): (n: nat) {
    var node := LiteralAt(disk, path);
    var here := if node.Some? then Count(node.value) - 1 else 0;
    if depth > 0 then entries + 1 + here
    else
      var s := DeclaredScan(disk, path, entries);
      if s.AllFound? || s.PartMissing? then s.used + here else entries
  }

  /** The regular files at a path; none where nothing is. */
  function FilesAt(disk: Disk, path: string): (files: seq<string>) {
    var node := LiteralAt(disk, path);
    if node.Some? then FilesBelow(path, node.value) else []
  }

  lemma TooDeep(disk: Disk, path: string, depth: nat, entries: nat, files: nat)
    requires depth > MAX_COMPARED_DEPTH
    ensures !Accepts(disk, path, depth, entries, files)
  {
  }

  lemma TooMany(disk: Disk, path: string, depth: nat, entries: nat, files: nat)
    requires entries + 1 > MAX_WALKED_ENTRIES
    ensures !Accepts(disk, path, depth, entries, files)
  {
  }

  /** A directory entry the walk accepts. */
  predicate EntryAccepted(path: string, entry: Entry, depth: nat, used: nat, files: nat) {
    entry.utf8 && !IsGitName(entry.name) && Fits(Below(path, entry.name), entry.node, depth, used, files)
  }

  function CountFirst(listing: seq<Entry>, i: nat): (n: nat)
    requires i <= |listing|
  {
    CountAll(listing[..i])
  }

  function FilesFirst(path: string, listing: seq<Entry>, i: nat): (files: seq<string>)
    requires i <= |listing|
  {
    FilesAll(path, listing[..i])
  }

  lemma NothingYetFits(path: string, listing: seq<Entry>, depth: nat, used: nat, files: nat)
    requires depth <= MAX_COMPARED_DEPTH && 0 < used <= MAX_WALKED_ENTRIES && files <= MAX_COMPARED_FILES
    ensures FirstFit(path, listing, depth, used - 1, files, 0)
    ensures CountFirst(listing, 0) == 0 && FilesFirst(path, listing, 0) == []
  {
  }

  /** After the entries before it, one entry decides for all up to it. */
  lemma FitsByEntry(path: string, listing: seq<Entry>, depth: nat, used: nat, files: nat, i: nat)
    requires i < |listing| && FirstFit(path, listing, depth, used, files, i)
    ensures var accepted := EntryAccepted(path, listing[i], depth + 1, used + 1 + CountFirst(listing, i),
                                          files + |FilesFirst(path, listing, i)|);
            && (accepted ==> FirstFit(path, listing, depth, used, files, i + 1))
            && (!accepted ==> !Fits(path, Dir(listing), depth, used, files))
    ensures CountFirst(listing, i + 1) == CountFirst(listing, i) + Count(listing[i].node)
    ensures FilesFirst(path, listing, i + 1)
            == FilesFirst(path, listing, i) + FilesBelow(Below(path, listing[i].name), listing[i].node)
  {
    hide Fits, FirstFit, CountAll, FilesAll;
    EntryCounts(path, listing, i);
    if EntryAccepted(path, listing[i], depth + 1, used + 1 + CountFirst(listing, i),
                     files + |FilesFirst(path, listing, i)|) {
      FirstFitStep(path, listing, depth, used, files, i);
    } else if Fits(path, Dir(listing), depth, used, files) {
      EntryFits(path, listing, depth, used, files, i);
    }
  }

  lemma AllFit(path: string, listing: seq<Entry>, depth: nat, used: nat, files: nat)
    requires FirstFit(path, listing, depth, used, files, |listing|)
    ensures Fits(path, Dir(listing), depth, used, files)
    ensures CountFirst(listing, |listing|) == CountAll(listing)
    ensures FilesFirst(path, listing, |listing|) == FilesAll(path, listing)
  {
    assert listing[..|listing|] == listing;
  }

  /** An entry of a directory on the disk is found at its path. */
  lemma EntryIsLiteral(disk: Disk, path: string, i: nat)
    requires IsDisk(disk)
    requires LiteralAt(disk, path).Some? && LiteralAt(disk, path).value.Dir?
    requires IsTree(LiteralAt(disk, path).value)
    requires i < |LiteralAt(disk, path).value.entries| && LiteralAt(disk, path).value.entries[i].utf8
    ensures var e := LiteralAt(disk, path).value.entries[i];
            LiteralAt(disk, Below(path, e.name)) == Some(e.node)
  {
    var entries := LiteralAt(disk, path).value.entries;
    var e := entries[i];
    assert e in entries;
    SplitConcat(path, e.name, '/');
    SplitFree(e.name, '/');
    LiteralExtends(disk.root, Split(path, '/'), e.name);
    FindsItself(entries, i);
  }

  /** What a call on that entry decides, appends and counts. */
  lemma EntryCall(disk: Disk, path: string, i: nat, depth: nat, used: nat, files: nat)
    requires IsDisk(disk) && depth > 0
    requires LiteralAt(disk, path).Some? && LiteralAt(disk, path).value.Dir?
    requires IsTree(LiteralAt(disk, path).value)
    requires i < |LiteralAt(disk, path).value.entries| && LiteralAt(disk, path).value.entries[i].utf8
    ensures var e := LiteralAt(disk, path).value.entries[i];
            var below := Below(path, e.name);
            && LiteralAt(disk, below).Some?
            && Accepts(disk, below, depth, used, files) == Fits(below, e.node, depth, used, files)
            && FilesAt(disk, below) == FilesBelow(below, e.node)
            && UsedAfter(disk, below, depth, used) == used + Count(e.node)
  {
    hide Fits, FilesBelow, Count, IsDisk, IsTree, LiteralAt;
    EntryIsLiteral(disk, path, i);
  }

  lemma {:induction false} LiteralIsTree(node: Node, parts: seq<string>)
    requires IsTree(node) && Literal(node, parts).Some?
    ensures IsTree(Literal(node, parts).value)
    decreases |parts|
  {
    if parts != [] {
      FollowIsTree(node);
      var here := Follow(node).value;
      var child := Find(here.entries, parts[0]).value;
      var e :| e in here.entries && e.utf8 && e.name == parts[0] && e.node == child;
      LiteralIsTree(child, parts[1..]);
    }
  }

  lemma FollowIsTree(node: Node)
    requires IsTree(node)
    ensures Follow(node).Some? ==> IsTree(Follow(node).value)
  {
  }

  // ------------------------------------------------------------ the walk class

  class Walk {
    const disk: Disk
    const clock: nat -> int    // the reading of each look at the clock
    const deadline: int
    var looks: nat
    var entries: nat
    var files: seq<string>

    constructor (disk: Disk, clock: nat -> int, deadline: int)
      ensures this.disk == disk && this.clock == clock && this.deadline == deadline
      ensures looks == 0 && entries == 0 && files == []
    {
      this.disk, this.clock, this.deadline := disk, clock, deadline;
      looks, entries, files := 0, 0, [];
    }

    /** Between calls: every look at the clock was followed by one counted entry, within the bound. */
    predicate InStep()
      reads this`looks, this`entries
    {
      looks == entries <= MAX_WALKED_ENTRIES
    }

    predicate LastLookWasLate()
      reads this`looks
    {
      0 < looks <= MAX_WALKED_ENTRIES + 1 && clock(looks - 1) >= deadline
    }

    method DeadlineHasPassed() returns (passed: bool)
      modifies this`looks
      ensures looks == old(looks) + 1 && passed == (clock(old(looks)) >= deadline)
    {
      passed := clock(looks) >= deadline;
      looks := looks + 1;
    }

    /** One directory of the name lookup: refused (`None`), or whether the exact name is listed. */
    method ScanDirectory(listing: seq<Entry>, part: string) returns (r: Result<Option<bool>, Failure>)
      requires InStep()
      modifies this`looks, this`entries
      ensures r.Err? ==> r.error == DeadlinePassed && LastLookWasLate()
      ensures r.Ok? && r.value.None? ==>
                Clashes(disk, listing, part) || old(entries) + |listing| > MAX_WALKED_ENTRIES
      ensures r.Ok? && r.value.Some? ==>
                && !Clashes(disk, listing, part)
                && entries == old(entries) + |listing| && InStep()
                && (r.value.value <==> Find(listing, part).Some?)
    {
      var exact := false;
      var i := 0;
      while i < |listing|
        invariant 0 <= i <= |listing|
        invariant entries == old(entries) + i && InStep()
        invariant exact <==> exists k | 0 <= k < i :: listing[k].utf8 && listing[k].name == part
        invariant forall k | 0 <= k < i :: !(listing[k].utf8 && FoldsTogether(disk, listing[k].name, part))
      {
        var passed := DeadlineHasPassed();
        if passed {
          return Err(DeadlinePassed);
        }
        entries := entries + 1;
        if entries > MAX_WALKED_ENTRIES {
          return Ok(None);
        }
        var entry := listing[i];
        assert entry in listing;
        if entry.utf8 {
          if entry.name == part {
            exact := true;
          } else if FoldsTogether(disk, entry.name, part) {
            return Ok(None);
          }
        }
        i := i + 1;
      }
      r := Ok(Some(exact));
    }

    method ResolveAbsent(relative: string) returns (r: Result<NameState, Failure>)
      ensures forall used :: r == NameResult(disk, relative, PartMissing(used))
    {
      match disk.stat(relative) {
        case Missing => r := Ok(Absent);
        case Unreadable => r := Err(DiskUnreadable);
        case Found(_) => r := Ok(Refused);
      }
    }

    /** `exact_names`. */
    method ExactNames(relative: string) returns (r: Result<NameState, Failure>)
      requires InStep()
      modifies this`looks, this`entries
      ensures r == Ok(Exact) || r == Ok(Absent) ==> InStep()
      ensures (r == Err(DeadlinePassed) && LastLookWasLate()) ||
              r == NameResult(disk, relative, Scan(disk, disk.root, Split(relative, '/'), old(entries)))
      ensures r == Ok(Exact) ==> Scan(disk, disk.root, Split(relative, '/'), old(entries)) == AllFound(entries)
      ensures r == Ok(Absent) ==> Scan(disk, disk.root, Split(relative, '/'), old(entries)) == PartMissing(entries)
    {
      var parts := Split(relative, '/');
      var dir := disk.root;
      var i := 0;
      while i < |parts|
        invariant 0 <= i <= |parts|
        invariant InStep()
        invariant Scan(disk, dir, parts[i..], entries) == Scan(disk, disk.root, parts, old(entries))
      {
        assert parts[i..][0] == parts[i] && parts[i..][1..] == parts[i + 1..];
        var here := Follow(dir);
        if here.None? {
          r := ResolveAbsent(relative);
          return;
        }
        if !here.value.Dir? {
          return Err(DiskUnreadable);
        }
        var scanned := ScanDirectory(here.value.entries, parts[i]);
        if scanned.Err? {
          return Err(scanned.error);
        }
        if scanned.value.None? {
          return Ok(Refused);
        }
        if !scanned.value.value {
          r := ResolveAbsent(relative);
          return;
        }
        dir := Find(here.value.entries, parts[i]).value;
        i := i + 1;
      }
      assert parts[i..] == [];
      r := Ok(Exact);
    }

    /** `collect`: the answer is what the walk demands, and only accepted files are appended. */
    method Collect(relative: string, depth: nat) returns (r: Result<bool, Failure>)
      requires IsDisk(disk) && InStep() && |files| <= MAX_COMPARED_FILES
      requires depth > 0 ==> LiteralAt(disk, relative).Some?
      modifies this`looks, this`entries, this`files
      ensures |files| <= MAX_COMPARED_FILES && (r == Ok(true) ==> InStep())
      ensures r.Ok? ==> r.value == Accepts(disk, relative, depth, old(entries), |old(files)|)
      ensures r == Ok(true) ==> files == old(files) + FilesAt(disk, relative)
      ensures r == Ok(true) ==> entries == UsedAfter(disk, relative, depth, old(entries))
      ensures r.Err? ==>
                || (r.error == DeadlinePassed && LastLookWasLate())
                || (depth == 0 &&
                    Err(r.error) == NameResult(disk, relative, DeclaredScan(disk, relative, old(entries))))
      decreases (if depth > MAX_COMPARED_DEPTH then 0 else MAX_COMPARED_DEPTH + 1 - depth), 3
    {
      hide IsDisk, Scan, Fits, FilesBelow, Count;
      if depth > MAX_COMPARED_DEPTH {
        TooDeep(disk, relative, depth, entries, |files|);
        return Ok(false);
      }
      var passed := DeadlineHasPassed();
      if passed {
        return Err(DeadlinePassed);
      }
      entries := entries + 1;
      if entries > MAX_WALKED_ENTRIES {
        TooMany(disk, relative, depth, entries - 1, |files|);
        return Ok(false);
      }
      if depth == 0 {
        ExactMeansLiteral(disk, disk.root, Split(relative, '/'), entries);
        var state := ExactNames(relative);
        if state.Err? {
          return Err(state.error);
        }
        match state.value {
          case Exact =>
          case Absent => return Ok(true);
          case Refused => return Ok(false);
        }
      }
      r := CollectNode(relative, depth);
    }

    /** What `collect` does with a node under its literal name, once it is counted. */
    method CollectNode(relative: string, depth: nat) returns (r: Result<bool, Failure>)
      requires IsDisk(disk) && InStep() && |files| <= MAX_COMPARED_FILES
      requires depth <= MAX_COMPARED_DEPTH && 0 < entries
      requires LiteralAt(disk, relative).Some?
      modifies this`looks, this`entries, this`files
      ensures |files| <= MAX_COMPARED_FILES && (r == Ok(true) ==> InStep())
      ensures r.Ok? ==> r.value == AcceptsAt(disk, relative, depth, old(entries) - 1, |old(files)|)
      ensures r == Ok(true) ==> files == old(files) + FilesAt(disk, relative)
      ensures r == Ok(true) ==> entries == old(entries) - 1 + Count(LiteralAt(disk, relative).value)
      ensures r.Err? ==> r.error == DeadlinePassed && LastLookWasLate()
      decreases MAX_COMPARED_DEPTH + 1 - depth, 2
    {
      hide IsTree, FilesAll, CountAll, HeightAll;
      var node := disk.stat(relative).node;
      LiteralIsTree(disk.root, Split(relative, '/'));
      if node.File? {
        if |files| >= MAX_COMPARED_FILES {
          return Ok(false);
        }
        files := files + [relative];
        return Ok(true);
      }
      if !node.Dir? {
        return Ok(false);
      }
      r := CollectEntries(relative, depth, node.entries);
    }

    /** The entries of one directory, each below it in turn. */
    method CollectEntries(relative: string, depth: nat, listing: seq<Entry>) returns (r: Result<bool, Failure>)
      requires IsDisk(disk) && InStep() && |files| <= MAX_COMPARED_FILES
      requires depth <= MAX_COMPARED_DEPTH && 0 < entries
      requires LiteralAt(disk, relative) == Some(Dir(listing)) && IsTree(Dir(listing))
      modifies this`looks, this`entries, this`files
      ensures |files| <= MAX_COMPARED_FILES && (r == Ok(true) ==> InStep())
      ensures r.Ok? ==> r.value == Fits(relative, Dir(listing), depth, old(entries) - 1, |old(files)|)
      ensures r == Ok(true) ==> files == old(files) + FilesAll(relative, listing)
      ensures r == Ok(true) ==> entries == old(entries) + CountAll(listing)
      ensures r.Err? ==> r.error == DeadlinePassed && LastLookWasLate()
      decreases MAX_COMPARED_DEPTH + 1 - depth, 1
    {
      NothingYetFits(relative, listing, depth, entries, |files|);
      hide IsDisk, IsTree, LiteralAt, EntryAccepted, Fits, FirstFit, FilesFirst, CountFirst, FilesBelow, Count;
      hide FilesAll, CountAll;
      var i := 0;
      while i < |listing|
        invariant 0 <= i <= |listing|
        invariant |files| <= MAX_COMPARED_FILES && InStep()
        invariant entries == old(entries) + CountFirst(listing, i)
        invariant files == old(files) + FilesFirst(relative, listing, i)
        invariant FirstFit(relative, listing, depth, old(entries) - 1, |old(files)|, i)
      {
        FitsByEntry(relative, listing, depth, old(entries) - 1, |old(files)|, i);
        var below := CollectEntry(relative, depth, listing, i);
        if below.Err? {
          return below;
        }
        if !below.value {
          return Ok(false);
        }
        i := i + 1;
      }
      AllFit(relative, listing, depth, old(entries) - 1, |old(files)|);
      r := Ok(true);
    }

    /** One directory entry: its name, then everything below it. */
    method CollectEntry(relative: string, depth: nat, listing: seq<Entry>, i: nat) returns (r: Result<bool, Failure>)
      requires IsDisk(disk) && InStep() && |files| <= MAX_COMPARED_FILES
      requires depth <= MAX_COMPARED_DEPTH && i < |listing|
      requires LiteralAt(disk, relative) == Some(Dir(listing)) && IsTree(Dir(listing))
      modifies this`looks, this`entries, this`files
      ensures |files| <= MAX_COMPARED_FILES && (r == Ok(true) ==> InStep())
      ensures r.Ok? ==> r.value == EntryAccepted(relative, listing[i], depth + 1, old(entries), |old(files)|)
      ensures r == Ok(true) ==> files == old(files) + FilesBelow(Below(relative, listing[i].name), listing[i].node)
      ensures r == Ok(true) ==> entries == old(entries) + Count(listing[i].node)
      ensures r.Err? ==> r.error == DeadlinePassed && LastLookWasLate()
      decreases MAX_COMPARED_DEPTH + 1 - depth, 0
    {
      hide IsDisk, IsTree, LiteralAt, Fits, FilesBelow, Count, Accepts, FilesAt, UsedAfter, IsGitName;
      var entry := listing[i];
      if !entry.utf8 {
        return Ok(false);
      }
      if IsGitName(entry.name) {
        return Ok(false);
      }
      EntryCall(disk, relative, i, depth + 1, entries, |files|);
      r := Collect(Below(relative, entry.name), depth + 1);
    }
  }
}
