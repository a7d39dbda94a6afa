/**
 Comparing the declared paths on disk with the remote tree
 (crates/daemon/src/checkout_trust.rs, `contents_match` and
 `open_declared_file`).
 */
module TrustContents {
  import opened Wrappers
  import opened Strings
  import opened TrustTree
  import opened TrustWalk
  import opened TrustFiles
  import opened TrustListing

  const MAX_COMPARED_FILE_BYTES: nat := 4 * 1024 * 1024

  // ------------------------------------------- the walk of all declared paths

  function WalkFiles(disk: Disk, paths: seq<string>): (files: seq<string>) {
    if paths == [] then []
    else WalkFiles(disk, paths[..|paths| - 1]) + FilesAt(disk, paths[|paths| - 1])
  }

  function WalkUsed(disk: Disk, paths: seq<string>): (n: nat) {
    if paths == [] then 0
    else UsedAfter(disk, paths[|paths| - 1], 0, WalkUsed(disk, paths[..|paths| - 1]))
  }

  /** Each declared path is accepted with what the earlier ones have used. */
  predicate WalkAccepts(disk: Disk, paths: seq<string>) {
    paths == [] ||
    (var before := paths[..|paths| - 1];
     && WalkAccepts(disk, before)
     && AcceptsDeclared(disk, paths[|paths| - 1], WalkUsed(disk, before), |WalkFiles(disk, before)|))
  }

  lemma {:induction false} RefusedWalk(disk: Disk, paths: seq<string>, i: nat)
    requires i <= |paths| && !WalkAccepts(disk, paths[..i])
    ensures !WalkAccepts(disk, paths)
    decreases |paths|
  {
    if i < |paths| {
      assert paths[..|paths| - 1][..i] == paths[..i];
      RefusedWalk(disk, paths[..|paths| - 1], i);
    } else {
      assert paths[..i] == paths;
    }
  }

  // ------------------------------------------------------------ set equality

  function Distinct(files: seq<string>): (s: set<string>) {
    set f | f in files
  }

  lemma {:induction false} DistinctCounts(files: seq<string>)
    ensures |Distinct(files)| <= |files|
    ensures |Distinct(files)| == |files| <==> NoDuplicates(files)
  {
    if files != [] {
      var n := |files| - 1;
      DistinctCounts(files[..n]);
      assert files == files[..n] + [files[n]];
      assert Distinct(files) == Distinct(files[..n]) + {files[n]};
      if files[n] in files[..n] {
        assert Distinct(files) == Distinct(files[..n]);
      } else {
        assert NoDuplicates(files) <==> NoDuplicates(files[..n]);
      }
    }
  }

  lemma {:induction false} SubsetOfSameSize(a: set<string>, b: set<string>)
    requires a <= b && |a| == |b|
    ensures a == b
  {
    if a != {} {
      var x :| x in a;
      SubsetOfSameSize(a - {x}, b - {x});
    }
  }

  /** The three tests of the code are equality of sets without repetition. */
  lemma ThreeTestsAreSetEquality(files: seq<string>, expected: map<string, Blob>)
    ensures (&& |Distinct(files)| == |files|
             && |files| == |expected|
             && (forall f | f in Distinct(files) :: f in expected))
            <==> NoDuplicates(files) && Distinct(files) == expected.Keys
  {
    DistinctCounts(files);
    assert |expected| == |expected.Keys|;
    if |Distinct(files)| == |expected.Keys| && Distinct(files) <= expected.Keys {
      SubsetOfSameSize(Distinct(files), expected.Keys);
    }
  }

  // -------------------------------------------------------- one file compared

  /** The checked file; `None` refuses a link, a special or oversized file, or nothing. */
  function OpenDeclaredFile(stat: Stat): (r: Result<Option<Node>, Failure>)
    ensures r.Ok? && r.value.Some? <==> stat.Found? && stat.node.File? && |stat.node.content| <= MAX_COMPARED_FILE_BYTES
    ensures r.Ok? && r.value.Some? ==> r.value.value == stat.node
  {
    match stat
    case Missing => Ok(None)
    case Unreadable => Err(DiskUnreadable)
    case Found(node) =>
      if node.File? && |node.content| <= MAX_COMPARED_FILE_BYTES then Ok(Some(node)) else Ok(None)
  }

  /** The private repository: its hash of a blob, and which of its commands fail. */
  class Git {
    const hash: seq<Byte> -> string
    const fails: nat -> bool
    var runs: nat

    constructor (hash: seq<Byte> -> string, fails: nat -> bool)
      ensures this.hash == hash && this.fails == fails
    {
      this.hash, this.fails, runs := hash, fails, 0;
    }

    method HashBlob(content: seq<Byte>) returns (r: Result<string, Failure>)
      modifies this`runs
      ensures runs == old(runs) + 1
      ensures r == if fails(old(runs)) then Err(GitFailed) else Ok(hash(content))
    {
      r := if fails(runs) then Err(GitFailed) else Ok(hash(content));
      runs := runs + 1;
    }
  }

  /** A file on disk that is the expected blob: contents and executable bit. */
  predicate Agrees(stat: Stat, hash: seq<Byte> -> string, want: Blob) {
    && stat.Found? && stat.node.File?
    && |stat.node.content| <= MAX_COMPARED_FILE_BYTES
    && want == Blob(stat.node.executable, hash(stat.node.content))
  }

  method CompareFile(git: Git, stat: Stat, want: Blob) returns (r: Result<bool, Failure>)
    modifies git`runs
    ensures r.Ok? ==> r.value == Agrees(stat, git.hash, want)
    ensures old(git.runs) <= git.runs <= old(git.runs) + 1
    ensures r.Err? ==>
              || (r.error == DiskUnreadable && stat.Unreadable?)
              || (r.error == GitFailed && git.fails(old(git.runs)))
  {
    var checked := OpenDeclaredFile(stat);
    if checked.Err? {
      return Err(checked.error);
    }
    if checked.value.None? {
      return Ok(false);
    }
    var file := checked.value.value;
    if file.executable != want.executable {
      return Ok(false);
    }
    var hashed := git.HashBlob(file.content);
    if hashed.Err? {
      return Err(hashed.error);
    }
    r := Ok(hashed.value == want.id);
  }

  // -------------------------------------------------------- the whole answer

  /** The files walked are the expected ones, once each, and each agrees. */
  predicate FilesMatch(disk: Disk, hash: seq<Byte> -> string, files: seq<string>, expected: map<string, Blob>) {
    && NoDuplicates(files)
    && Distinct(files) == expected.Keys
    && (forall f | f in files :: f in expected && Agrees(disk.stat(f), hash, expected[f]))
  }

  predicate Matches(disk: Disk, hash: seq<Byte> -> string, paths: seq<string>, listing: Listing) {
    && listing.Ok? && listing.value.Some?
    && WalkAccepts(disk, paths)
    && FilesMatch(disk, hash, WalkFiles(disk, paths), listing.value.value)
  }

  /** The lookup of a declared path cannot be read from the disk. */
  ghost predicate WalkFails(disk: Disk, paths: seq<string>, error: Failure) {
    exists i | 0 <= i < |paths| :: LookupFails(disk, paths, i, error)
  }

  predicate LookupFails(disk: Disk, paths: seq<string>, i: nat, error: Failure)
    requires i < |paths|
  {
    NameResult(disk, paths[i], DeclaredScan(disk, paths[i], WalkUsed(disk, paths[..i]))) == Err(error)
  }

  method WalkAll(walk: Walk, paths: seq<string>) returns (r: Result<bool, Failure>)
    requires IsDisk(walk.disk) && walk.looks == 0 && walk.entries == 0 && walk.files == []
    modifies walk`looks, walk`entries, walk`files
    ensures r.Ok? ==> r.value == WalkAccepts(walk.disk, paths)
    ensures r.Err? ==> (r.error == DeadlinePassed && walk.LastLookWasLate()) || WalkFails(walk.disk, paths, r.error)
    ensures r == Ok(true) ==> walk.files == WalkFiles(walk.disk, paths) && |walk.files| <= MAX_COMPARED_FILES
  {
    hide IsDisk, AcceptsDeclared, UsedAfter, FilesAt;
    var i := 0;
    while i < |paths|
      invariant 0 <= i <= |paths|
      invariant walk.InStep() && |walk.files| <= MAX_COMPARED_FILES
      invariant walk.entries == WalkUsed(walk.disk, paths[..i])
      invariant walk.files == WalkFiles(walk.disk, paths[..i])
      invariant WalkAccepts(walk.disk, paths[..i])
    {
      assert paths[..i + 1][..i] == paths[..i];
      var collected := walk.Collect(paths[i], 0);
      if collected.Err? {
        assert (collected.error == DeadlinePassed && walk.LastLookWasLate())
            || LookupFails(walk.disk, paths, i, collected.error);
        return Err(collected.error);
      }
      if !collected.value {
        RefusedWalk(walk.disk, paths, i + 1);
        return Ok(false);
      }
      i := i + 1;
    }
    assert paths[..i] == paths;
    r := Ok(true);
  }

  /** One of the `n` commands from `first` on fails. */
  ghost predicate SomeRunFails(fails: nat -> bool, first: nat, n: nat) {
    exists run: nat :: first <= run < first + n && fails(run)
  }

  method CompareFiles(git: Git, disk: Disk, files: seq<string>, expected: map<string, Blob>)
    returns (r: Result<bool, Failure>)
    modifies git`runs
    ensures r.Ok? ==> r.value == FilesMatch(disk, git.hash, files, expected)
    ensures r.Err? ==>
              || (r.error == DiskUnreadable && exists f | f in files :: disk.stat(f).Unreadable?)
              || (r.error == GitFailed && SomeRunFails(git.fails, old(git.runs), |files|))
  {
    hide Agrees, NoDuplicates;
    ThreeTestsAreSetEquality(files, expected);
    var distinct := Distinct(files);
    if |distinct| != |files| || |files| != |expected| || exists f | f in distinct :: f !in expected {
      return Ok(false);
    }
    assert distinct == expected.Keys;
    var i := 0;
    while i < |files|
      invariant 0 <= i <= |files| && old(git.runs) <= git.runs <= old(git.runs) + i
      invariant forall k | 0 <= k < i ::
                  files[k] in expected && Agrees(disk.stat(files[k]), git.hash, expected[files[k]])
    {
      assert files[i] in distinct;
      ghost var run := git.runs;
      var same := CompareFile(git, disk.stat(files[i]), expected[files[i]]);
      if same.Err? {
        assert old(git.runs) <= run < old(git.runs) + |files|;
        return Err(same.error);
      }
      if !same.value {
        return Ok(false);
      }
      i := i + 1;
    }
    r := Ok(true);
  }

  /**
   Why the comparison gives no answer: git did not list the tree, the listing is
   malformed, the deadline passed at one of the looks the walk can make, a declared
   path cannot be looked up, or one of the hash commands failed; `runs` is the number
   of git commands made before.
   */
  ghost predicate ContentsFail(fails: nat -> bool, runs: nat, disk: Disk, clock: nat -> int, deadline: int,
                               paths: seq<string>, stdout: Result<string, Failure>, error: Failure)
  {
    || stdout == Err(error)
    || (stdout.Ok? && Parsed(Split(stdout.value, '\0')) == Err(error))
    || (error == DeadlinePassed && exists look: nat :: look <= MAX_WALKED_ENTRIES && clock(look) >= deadline)
    || WalkFails(disk, paths, error)
    || (error == GitFailed && SomeRunFails(fails, runs, MAX_COMPARED_FILES))
  }

  /** `contents_match`: an answer says whether the declared paths hold exactly the listed blobs. */
  method ContentsMatch(git: Git, disk: Disk, clock: nat -> int, deadline: int, paths: seq<string>,
                       stdout: Result<string, Failure>) returns (r: Result<bool, Failure>)
    requires IsDisk(disk)
    modifies git`runs
    ensures r.Ok? ==> stdout.Ok? && r.value == Matches(disk, git.hash, paths, Parsed(Split(stdout.value, '\0')))
    ensures r.Err? ==> ContentsFail(git.fails, old(git.runs), disk, clock, deadline, paths, stdout, r.error)
  {
    hide IsDisk, WalkAccepts, WalkFiles, FilesMatch, Parsed, Split, WalkFails;
    if stdout.Err? {
      return Err(stdout.error);
    }
    var expected := ParseListing(stdout.value);
    if expected.Err? {
      return Err(expected.error);
    }
    if expected.value.None? {
      return Ok(false);
    }
    var walk := new Walk(disk, clock, deadline);
    var walked := WalkAll(walk, paths);
    if walked.Err? {
      return Err(walked.error);
    }
    if !walked.value {
      return Ok(false);
    }
    WalkedFilesAreReadable(disk, paths);
    r := CompareFiles(git, disk, walk.files, expected.value.value);
  }

  // ----------------------------------------------------------- what it means

  ghost predicate UnderAny(paths: seq<string>, x: string) {
    exists path | path in paths :: Under(path, x)
  }

  /** No declared path leads to anything the walk refuses. */
  predicate AllPlain(disk: Disk, paths: seq<string>) {
    forall path | path in paths :: LiteralAt(disk, path).Some? ==> Plain(LiteralAt(disk, path).value)
  }

  /** Over plain subtrees the walk finds the regular files under the declared paths, no more and no fewer. */
  lemma {:induction false} PlainWalkFindsTheFiles(disk: Disk, paths: seq<string>, x: string)
    requires IsDisk(disk) && AllPlain(disk, paths)
    ensures x in WalkFiles(disk, paths) <==> IsFileAt(disk, x) && UnderAny(paths, x)
    decreases |paths|
  {
    hide IsDisk, FilesAt, IsFileAt, Under, Plain, LiteralAt;
    if paths != [] {
      var n := |paths| - 1;
      PlainWalkFindsTheFiles(disk, paths[..n], x);
      assert paths == paths[..n] + [paths[n]];
      assert UnderAny(paths, x) <==> UnderAny(paths[..n], x) || Under(paths[n], x);
      CollectedIffFileUnder(disk, paths[n], x);
    }
  }

  /** So an accepted walk finds exactly those files. */
  lemma WalkFindsTheFiles(disk: Disk, paths: seq<string>, x: string)
    requires IsDisk(disk) && WalkAccepts(disk, paths)
    ensures x in WalkFiles(disk, paths) <==> IsFileAt(disk, x) && UnderAny(paths, x)
  {
    hide IsDisk, AcceptsDeclared, FilesAt, IsFileAt, UnderAny, Plain, LiteralAt, WalkAccepts, WalkFiles, WalkUsed;
    forall path | path in paths
      ensures LiteralAt(disk, path).Some? ==> Plain(LiteralAt(disk, path).value)
    {
      var i :| 0 <= i < |paths| && paths[i] == path;
      EachIsAccepted(disk, paths, i);
      AcceptedIsPlain(disk, path, WalkUsed(disk, paths[..i]), |WalkFiles(disk, paths[..i])|);
    }
    PlainWalkFindsTheFiles(disk, paths, x);
  }

  lemma WalkedFilesAreReadable(disk: Disk, paths: seq<string>)
    requires IsDisk(disk) && WalkAccepts(disk, paths)
    ensures forall f | f in WalkFiles(disk, paths) :: disk.stat(f).Found?
  {
    hide WalkAccepts, WalkFiles, UnderAny;
    forall f | f in WalkFiles(disk, paths)
      ensures disk.stat(f).Found?
    {
      WalkFindsTheFiles(disk, paths, f);
    }
  }

  lemma AcceptedIsPlain(disk: Disk, path: string, used: nat, files: nat)
    requires AcceptsDeclared(disk, path, used, files)
    ensures LiteralAt(disk, path).Some? ==> Plain(LiteralAt(disk, path).value)
  {
    ExactMeansLiteral(disk, disk.root, Split(path, '/'), used + 1);
  }

  /** A positive answer: the files under the declared paths, their contents and bits, are exactly the remote's. */
  lemma MatchMeansSameFiles(disk: Disk, hash: seq<Byte> -> string, paths: seq<string>, listing: Listing, x: string)
    requires IsDisk(disk) && Matches(disk, hash, paths, listing)
    ensures IsFileAt(disk, x) && UnderAny(paths, x) <==> x in listing.value.value
    ensures x in listing.value.value ==>
              var file := LiteralAt(disk, x).value;
              listing.value.value[x] == Blob(file.executable, hash(file.content))
  {
    hide WalkAccepts, Under;
    WalkFindsTheFiles(disk, paths, x);
    assert x in WalkFiles(disk, paths) <==> x in Distinct(WalkFiles(disk, paths));
  }

  /** Each declared path of an accepted walk is accepted with what the earlier ones used. */
  lemma {:induction false} EachIsAccepted(disk: Disk, paths: seq<string>, i: nat)
    requires WalkAccepts(disk, paths) && i < |paths|
    ensures AcceptsDeclared(disk, paths[i], WalkUsed(disk, paths[..i]), |WalkFiles(disk, paths[..i])|)
    decreases |paths|
  {
    hide AcceptsDeclared, UsedAfter, FilesAt;
    var n := |paths| - 1;
    if i < n {
      assert paths[..n][..i] == paths[..i];
      EachIsAccepted(disk, paths[..n], i);
    }
  }

  /** Two declared paths with a regular file at or below both are refused, whatever the remote lists. */
  lemma OverlappingPathsAreRefused(disk: Disk, hash: seq<Byte> -> string, paths: seq<string>, listing: Listing,
                                   i: nat, j: nat, x: string)
    requires IsDisk(disk) && i < j < |paths|
    requires IsFileAt(disk, x) && Under(paths[i], x) && Under(paths[j], x)
    ensures !Matches(disk, hash, paths, listing)
  {
    if WalkAccepts(disk, paths) {
      hide IsDisk, IsFileAt, Under, FilesAt, WalkAccepts;
      IsCollectedFrom(disk, paths, i, x);
      IsCollectedFrom(disk, paths, j, x);
      Repeats(disk, paths, i, j, x);
    }
  }

  lemma IsCollectedFrom(disk: Disk, paths: seq<string>, i: nat, x: string)
    requires IsDisk(disk) && WalkAccepts(disk, paths) && i < |paths| && IsFileAt(disk, x) && Under(paths[i], x)
    ensures x in FilesAt(disk, paths[i])
  {
    hide IsDisk, IsFileAt, Under, FilesAt;
    EachIsAccepted(disk, paths, i);
    AcceptedIsPlain(disk, paths[i], WalkUsed(disk, paths[..i]), |WalkFiles(disk, paths[..i])|);
    CollectedIffFileUnder(disk, paths[i], x);
  }

  /** A declared path that exists is named unambiguously all along. */
  lemma AcceptedIsUnambiguous(disk: Disk, paths: seq<string>, path: string)
    requires WalkAccepts(disk, paths) && path in paths && LiteralAt(disk, path).Some?
    ensures Unambiguous(disk, disk.root, Split(path, '/'))
  {
    var i :| 0 <= i < |paths| && paths[i] == path;
    EachIsAccepted(disk, paths, i);
    ExactMeansLiteral(disk, disk.root, Split(path, '/'), WalkUsed(disk, paths[..i]) + 1);
  }

  lemma {:induction false} Repeats(disk: Disk, paths: seq<string>, i: nat, j: nat, x: string)
    requires i < j < |paths|
    requires x in FilesAt(disk, paths[i]) && x in FilesAt(disk, paths[j])
    ensures !NoDuplicates(WalkFiles(disk, paths))
    decreases |paths|
  {
    hide FilesAt;
    var n := |paths| - 1;
    var before := WalkFiles(disk, paths[..n]);
    var all := WalkFiles(disk, paths);
    if j < n {
      Repeats(disk, paths[..n], i, j, x);
      var a, b :| 0 <= a < b < |before| && before[a] == before[b];
      assert all[a] == all[b];
    } else {
      HeldEarlier(disk, paths[..n], i, x);
      var a :| 0 <= a < |before| && before[a] == x;
      var last := FilesAt(disk, paths[n]);
      var b :| 0 <= b < |last| && last[b] == x;
      assert all[a] == x && all[|before| + b] == x;
    }
  }

  lemma {:induction false} HeldEarlier(disk: Disk, paths: seq<string>, i: nat, x: string)
    requires i < |paths| && x in FilesAt(disk, paths[i])
    ensures x in WalkFiles(disk, paths)
    decreases |paths|
  {
    if i < |paths| - 1 {
      HeldEarlier(disk, paths[..|paths| - 1], i, x);
    }
  }
}
