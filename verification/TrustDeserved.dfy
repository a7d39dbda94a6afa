/**
 When a checkout is trusted, from the outside
 (crates/daemon/src/checkout_trust.rs, `evaluate`): the origin, the names the
 declared paths are read through, what lies below them, and how the files there
 compare with the remote, each said of the disk and of git's answers. The
 evaluation trusts exactly then.
 */
module TrustDeserved {
  import opened Wrappers
  import opened Strings
  import opened TrustTree
  import opened TrustWalk
  import opened TrustFiles
  import opened TrustListing
  import opened TrustContents
  import opened TrustEvaluate
  import opened TrustPlaces
  import GitHubUrl

  // ------------------------------------------------------ names on the disk

  /** The entries of the directory the component at `k` is looked up in. */
  function ListingAt(disk: Disk, parts: seq<string>, k: nat): (r: Option<seq<Entry>>)
    requires k <= |parts|
  {
    var dir := Literal(disk.root, parts[..k]);
    if dir.None? then None
    else
      var here := Follow(dir.value);
      if here.Some? && here.value.Dir? then Some(here.value.entries) else None
  }

  predicate Lists(listing: seq<Entry>, name: string) {
    exists e | e in listing :: e.utf8 && e.name == name
  }

  /** No other name in the listing is the same under case folding. */
  predicate HasNoVariant(disk: Disk, listing: seq<Entry>, name: string) {
    forall e | e in listing && e.utf8 && e.name != name :: disk.fold(e.name) != disk.fold(name)
  }

  /** The component at `k` exists under its own name and no variant of it does. */
  predicate IsNamed(disk: Disk, parts: seq<string>, k: nat)
    requires k < |parts|
  {
    var listing := ListingAt(disk, parts, k);
    listing.Some? && Lists(listing.value, parts[k]) && HasNoVariant(disk, listing.value, parts[k])
  }

  /** Nothing is there for the component at `k`: its directory has no such name, or is a dangling link. */
  predicate IsMissing(disk: Disk, parts: seq<string>, k: nat)
    requires k < |parts|
  {
    var listing := ListingAt(disk, parts, k);
    if listing.Some? then !Lists(listing.value, parts[k]) && HasNoVariant(disk, listing.value, parts[k])
    else Literal(disk.root, parts[..k]).Some? && Follow(Literal(disk.root, parts[..k]).value).None?
  }

  predicate AllNamed(disk: Disk, parts: seq<string>, from: nat, to: nat)
    requires to <= |parts|
  {
    forall k | from <= k < to :: IsNamed(disk, parts, k)
  }

  predicate StopsAt(disk: Disk, parts: seq<string>, from: nat, k: nat)
    requires k < |parts|
  {
    AllNamed(disk, parts, from, k) && IsMissing(disk, parts, k)
  }

  predicate Stops(disk: Disk, parts: seq<string>, from: nat) {
    exists k | from <= k < |parts| :: StopsAt(disk, parts, from, k)
  }

  /** The directory entries read while the components from `k` on are looked up. */
  function EntriesRead(disk: Disk, parts: seq<string>, k: nat): (n: nat)
    requires k <= |parts|
    decreases |parts| - k
  {
    if k == |parts| then 0
    else
      var listing := ListingAt(disk, parts, k);
      (if listing.Some? then |listing.value| else 0) + EntriesRead(disk, parts, k + 1)
  }

  lemma {:induction false} NothingIsReadBeyond(disk: Disk, parts: seq<string>, k: nat)
    requires k <= |parts| && Literal(disk.root, parts[..k]).None?
    ensures EntriesRead(disk, parts, k) == 0
    decreases |parts| - k
  {
    if k < |parts| {
      assert parts[..k + 1] == parts[..k] + [parts[k]];
      LiteralExtends(disk.root, parts[..k], parts[k]);
      NothingIsReadBeyond(disk, parts, k + 1);
    }
  }

  /** What the lookup finds from the component at `k` on, reached at `node` with `used` entries counted. */
  predicate IsScanned(disk: Disk, parts: seq<string>, k: nat, used: nat, s: Scanned)
    requires k <= |parts|
  {
    var total := used + EntriesRead(disk, parts, k);
    && (s.AllFound? <==> AllNamed(disk, parts, k, |parts|) && total <= 8192)
    && (s.PartMissing? <==> Stops(disk, parts, k) && total <= 8192)
    && (s.AllFound? || s.PartMissing? ==> s.used == total)
  }

  lemma VariantIff(disk: Disk, listing: seq<Entry>, name: string)
    ensures Clashes(disk, listing, name) <==> !HasNoVariant(disk, listing, name)
    ensures Find(listing, name).Some? <==> Lists(listing, name)
  {
  }

  /** The component at `k` decides, or leaves it to the rest. */
  lemma LookupStep(disk: Disk, parts: seq<string>, k: nat)
    requires k < |parts|
    ensures IsNamed(disk, parts, k) ==> !IsMissing(disk, parts, k)
    ensures AllNamed(disk, parts, k, |parts|) <==> IsNamed(disk, parts, k) && AllNamed(disk, parts, k + 1, |parts|)
    ensures Stops(disk, parts, k) <==>
            IsMissing(disk, parts, k) || (IsNamed(disk, parts, k) && Stops(disk, parts, k + 1))
  {
    assert IsNamed(disk, parts, k) ==> !IsMissing(disk, parts, k);
    hide IsNamed, IsMissing;
    assert AllNamed(disk, parts, k, k);
    if Stops(disk, parts, k) {
      var m :| k <= m < |parts| && StopsAt(disk, parts, k, m);
      assert m > k ==> StopsAt(disk, parts, k + 1, m);
    }
    if IsMissing(disk, parts, k) {
      assert StopsAt(disk, parts, k, k);
    }
    var next := k + 1;
    if Stops(disk, parts, next) {
      var m :| next <= m < |parts| && StopsAt(disk, parts, next, m);
      assert IsNamed(disk, parts, k) ==> StopsAt(disk, parts, k, m);
    }
  }

  /** The next component, one level down. */
  lemma NextListing(disk: Disk, node: Node, parts: seq<string>, k: nat)
    requires k < |parts| && Literal(disk.root, parts[..k]) == Some(node)
    ensures parts[k..][0] == parts[k] && parts[k..][1..] == parts[k + 1..]
    ensures var here := Follow(node);
            && ListingAt(disk, parts, k) == (if here.Some? && here.value.Dir? then Some(here.value.entries) else None)
            && Literal(disk.root, parts[..k + 1]) ==
               (if here.Some? && here.value.Dir? then Find(here.value.entries, parts[k]) else None)
  {
    assert parts[..k + 1] == parts[..k] + [parts[k]];
    LiteralExtends(disk.root, parts[..k], parts[k]);
  }

  /** What the directory at hand says of the component at `k`. */
  lemma ListingDecides(disk: Disk, node: Node, parts: seq<string>, k: nat)
    requires k < |parts| && Literal(disk.root, parts[..k]) == Some(node)
    ensures var here := Follow(node);
            if here.None? then IsMissing(disk, parts, k) && !IsNamed(disk, parts, k)
            else if !here.value.Dir? then !IsMissing(disk, parts, k) && !IsNamed(disk, parts, k)
            else
              var clear := !Clashes(disk, here.value.entries, parts[k]);
              var found := Find(here.value.entries, parts[k]).Some?;
              (IsNamed(disk, parts, k) <==> clear && found) && (IsMissing(disk, parts, k) <==> clear && !found)
  {
    NextListing(disk, node, parts, k);
    hide Literal, Clashes, HasNoVariant, Lists;
    if Follow(node).Some? && Follow(node).value.Dir? {
      VariantIff(disk, Follow(node).value.entries, parts[k]);
    }
  }

  lemma {:induction false} ScanIff(disk: Disk, node: Node, parts: seq<string>, k: nat, used: nat)
    requires k <= |parts| && Literal(disk.root, parts[..k]) == Some(node) && used <= 8192
    ensures IsScanned(disk, parts, k, used, Scan(disk, node, parts[k..], used))
    decreases |parts| - k
  {
    if k < |parts| {
      NextListing(disk, node, parts, k);
      ListingDecides(disk, node, parts, k);
      LookupStep(disk, parts, k);
      hide Literal, ListingAt, IsNamed, IsMissing, AllNamed, Stops, Clashes;
      var here := Follow(node);
      if here.Some? && here.value.Dir? {
        var child := Find(here.value.entries, parts[k]);
        if child.None? {
          NothingIsReadBeyond(disk, parts, k + 1);
        } else if used + |here.value.entries| <= 8192 {
          ScanIff(disk, child.value, parts, k + 1, used + |here.value.entries|);
        }
      } else {
        NothingIsReadBeyond(disk, parts, k + 1);
      }
    }
  }

  // --------------------------------------------------------- declared paths

  /** Below a declared path: only files and directories under allowed names, at most 32 levels. */
  ghost predicate IsComparable(node: Node) {
    && HoldsOnlyFiles(node) && HoldsOnlyAllowedNames(node)
    && forall place: seq<nat> :: At(node, place).Some? ==> |place| <= 32
  }

  /** A declared path that exists under exactly its own name, over a subtree that can be compared. */
  ghost predicate IsPresent(disk: Disk, path: string) {
    && AllNamed(disk, Split(path, '/'), 0, |Split(path, '/')|)
    && LiteralAt(disk, path).Some? && IsComparable(LiteralAt(disk, path).value)
  }

  /** A declared path that nothing on the disk answers to. */
  ghost predicate IsAbsent(disk: Disk, path: string) {
    disk.stat(path).Missing? && Stops(disk, Split(path, '/'), 0)
  }

  /** The entries a declared path costs: itself, those read to find it, and everything below it. */
  function Cost(disk: Disk, path: string): (n: nat) {
    var node := LiteralAt(disk, path);
    1 + EntriesRead(disk, Split(path, '/'), 0) + if node.Some? then |Places(node.value)| - 1 else 0
  }

  function TotalCost(disk: Disk, paths: seq<string>): (n: nat) {
    if paths == [] then 0 else TotalCost(disk, paths[..|paths| - 1]) + Cost(disk, paths[|paths| - 1])
  }

  lemma ComparableIff(node: Node)
    ensures IsComparable(node) <==> Plain(node) && Height(node) <= 32
  {
    PlainIff(node);
    HeightIff(node, 32);
  }

  lemma DeclaredScanIff(disk: Disk, path: string, used: nat)
    requires used + 1 <= 8192
    ensures IsScanned(disk, Split(path, '/'), 0, used + 1, DeclaredScan(disk, path, used))
  {
    var parts := Split(path, '/');
    assert parts[..0] == [] && parts[0..] == parts;
    ScanIff(disk, disk.root, parts, 0, used + 1);
  }

  /** One declared path is accepted exactly when it is comparable or absent, within what is left of the bounds. */
  lemma DeclaredIff(disk: Disk, path: string, used: nat, files: nat)
    requires files <= 2048
    ensures AcceptsDeclared(disk, path, used, files) <==>
            && (IsPresent(disk, path) || IsAbsent(disk, path))
            && used + Cost(disk, path) <= 8192
            && files + |FilesAt(disk, path)| <= 2048
    ensures AcceptsDeclared(disk, path, used, files) ==> UsedAfter(disk, path, 0, used) == used + Cost(disk, path)
  {
    if used + 1 <= 8192 {
      DeclaredScanIff(disk, path, used);
      ExactMeansLiteral(disk, disk.root, Split(path, '/'), used + 1);
      hide Scan, EntriesRead, Literal, AllNamed, Stops, IsComparable, Plain, Height, Count, FilesBelow, Places, Split;
      if LiteralAt(disk, path).Some? {
        ComparableIff(LiteralAt(disk, path).value);
        CountIsThePlaces(LiteralAt(disk, path).value);
      }
    }
  }

  ghost predicate EachIsSound(disk: Disk, paths: seq<string>) {
    forall path | path in paths :: IsPresent(disk, path) || IsAbsent(disk, path)
  }

  /** The walk accepts exactly the sound paths within the two totals. */
  lemma {:induction false} WalkIff(disk: Disk, paths: seq<string>)
    ensures WalkAccepts(disk, paths) <==>
            EachIsSound(disk, paths) && TotalCost(disk, paths) <= 8192 && |WalkFiles(disk, paths)| <= 2048
    ensures WalkAccepts(disk, paths) ==> WalkUsed(disk, paths) == TotalCost(disk, paths)
    decreases |paths|
  {
    hide AcceptsDeclared, IsPresent, IsAbsent, Cost, FilesAt, UsedAfter;
    if paths != [] {
      var n := |paths| - 1;
      WalkIff(disk, paths[..n]);
      assert paths == paths[..n] + [paths[n]];
      assert EachIsSound(disk, paths) <==>
             EachIsSound(disk, paths[..n]) && (IsPresent(disk, paths[n]) || IsAbsent(disk, paths[n]));
      if WalkAccepts(disk, paths[..n]) {
        DeclaredIff(disk, paths[n], WalkUsed(disk, paths[..n]), |WalkFiles(disk, paths[..n])|);
      }
    }
  }

  lemma SoundIsPlain(disk: Disk, paths: seq<string>)
    requires IsDisk(disk) && EachIsSound(disk, paths)
    ensures AllPlain(disk, paths)
  {
    hide IsComparable, AllNamed, Stops, Plain, Height;
    forall path | path in paths
      ensures LiteralAt(disk, path).Some? ==> Plain(LiteralAt(disk, path).value)
    {
      if LiteralAt(disk, path).Some? {
        StatIsLiteral(disk, path);
        ComparableIff(LiteralAt(disk, path).value);
      }
    }
  }

  // ------------------------------------------------------------- the contents

  /** No regular file lies under two of the declared paths. */
  ghost predicate ShareNoFile(disk: Disk, paths: seq<string>) {
    forall i, j, x: string | 0 <= i < j < |paths| && IsFileAt(disk, x) && Under(paths[i], x) :: !Under(paths[j], x)
  }

  /** The regular files under the declared paths are the expected ones, each with its contents and executable bit. */
  ghost predicate HoldExactly(disk: Disk, hash: seq<Byte> -> string, paths: seq<string>, expected: map<string, Blob>) {
    && (forall x: string :: IsFileAt(disk, x) && UnderAny(paths, x) <==> x in expected)
    && (forall x | x in expected :: IsFileAt(disk, x) && IsBlob(LiteralAt(disk, x).value, hash, expected[x]))
  }

  /** A regular file of at most 4 MiB with that hash and that executable bit. */
  predicate IsBlob(node: Node, hash: seq<Byte> -> string, blob: Blob) {
    && node.File? && |node.content| <= 4_194_304
    && blob.executable == node.executable && blob.id == hash(node.content)
  }

  lemma {:induction false} WalkFilesDiffer(disk: Disk, paths: seq<string>)
    requires IsDisk(disk) && AllPlain(disk, paths) && ShareNoFile(disk, paths)
    ensures NoDuplicates(WalkFiles(disk, paths))
    decreases |paths|
  {
    if paths != [] {
      var n := |paths| - 1;
      WalkFilesDiffer(disk, paths[..n]);
      LastFilesDiffer(disk, paths[n]);
      hide IsDisk, FilesAt, IsFileAt, Under, AllPlain, LiteralAt;
      forall x | x in WalkFiles(disk, paths[..n])
        ensures x !in FilesAt(disk, paths[n])
      {
        LastSharesNothing(disk, paths, x);
      }
      NoDuplicatesConcat(WalkFiles(disk, paths[..n]), FilesAt(disk, paths[n]));
    }
  }

  lemma LastFilesDiffer(disk: Disk, path: string)
    requires IsDisk(disk) && (LiteralAt(disk, path).Some? ==> Plain(LiteralAt(disk, path).value))
    ensures NoDuplicates(FilesAt(disk, path))
  {
    hide Plain, IsTree, FilesBelow;
    if LiteralAt(disk, path).Some? {
      LiteralIsTree(disk.root, Split(path, '/'));
      FilesDiffer(path, LiteralAt(disk, path).value);
    }
  }

  lemma LastSharesNothing(disk: Disk, paths: seq<string>, x: string)
    requires IsDisk(disk) && AllPlain(disk, paths) && ShareNoFile(disk, paths) && paths != []
    requires x in WalkFiles(disk, paths[..|paths| - 1])
    ensures x !in FilesAt(disk, paths[|paths| - 1])
  {
    hide IsDisk, FilesAt, WalkFiles, IsFileAt, Under, LiteralAt, Plain;
    var n := |paths| - 1;
    PlainWalkFindsTheFiles(disk, paths[..n], x);
    var path :| path in paths[..n] && Under(path, x);
    var i :| 0 <= i < n && paths[i] == path;
    CollectedIffFileUnder(disk, paths[n], x);
  }

  lemma AgreesIff(disk: Disk, hash: seq<Byte> -> string, x: string, want: Blob)
    requires IsDisk(disk) && IsFileAt(disk, x)
    ensures Agrees(disk.stat(x), hash, want) <==> IsBlob(LiteralAt(disk, x).value, hash, want)
  {
    StatIsLiteral(disk, x);
  }

  /** Over plain subtrees the walked set is the expected one exactly when the regular files there are. */
  lemma SameKeysIff(disk: Disk, paths: seq<string>, expected: map<string, Blob>)
    requires IsDisk(disk) && AllPlain(disk, paths)
    ensures Distinct(WalkFiles(disk, paths)) == expected.Keys <==>
            forall x: string :: IsFileAt(disk, x) && UnderAny(paths, x) <==> x in expected
    ensures forall x | x in WalkFiles(disk, paths) :: IsFileAt(disk, x)
  {
    hide IsDisk, WalkFiles, IsFileAt, UnderAny, AllPlain;
    var files := WalkFiles(disk, paths);
    forall x: string
      ensures x in Distinct(files) <==> IsFileAt(disk, x) && UnderAny(paths, x)
      ensures x in files <==> x in Distinct(files)
    {
      PlainWalkFindsTheFiles(disk, paths, x);
    }
    if forall x: string :: IsFileAt(disk, x) && UnderAny(paths, x) <==> x in expected {
      assert forall x :: x in Distinct(files) <==> x in expected.Keys;
    }
  }

  lemma BlobsIff(disk: Disk, hash: seq<Byte> -> string, files: seq<string>, expected: map<string, Blob>)
    requires IsDisk(disk) && (forall x | x in files :: IsFileAt(disk, x)) && Distinct(files) == expected.Keys
    ensures (forall f | f in files :: f in expected && Agrees(disk.stat(f), hash, expected[f])) <==>
            (forall x | x in expected :: IsFileAt(disk, x) && IsBlob(LiteralAt(disk, x).value, hash, expected[x]))
  {
    hide IsDisk, Agrees, IsBlob, LiteralAt;
    assert forall x :: x in files <==> x in Distinct(files);
    forall x | x in expected
      ensures Agrees(disk.stat(x), hash, expected[x]) <==> IsBlob(LiteralAt(disk, x).value, hash, expected[x])
    {
      AgreesIff(disk, hash, x, expected[x]);
    }
  }

  /** The files found are the expected ones exactly when the disk holds exactly them. */
  lemma FilesMatchIff(disk: Disk, hash: seq<Byte> -> string, paths: seq<string>, expected: map<string, Blob>)
    requires IsDisk(disk) && AllPlain(disk, paths) && ShareNoFile(disk, paths)
    ensures FilesMatch(disk, hash, WalkFiles(disk, paths), expected) <==> HoldExactly(disk, hash, paths, expected)
  {
    WalkFilesDiffer(disk, paths);
    SameKeysIff(disk, paths, expected);
    hide IsDisk, WalkFiles, IsFileAt, Agrees, IsBlob, UnderAny, AllPlain, ShareNoFile, LiteralAt, NoDuplicates;
    hide Distinct;
    if Distinct(WalkFiles(disk, paths)) == expected.Keys {
      BlobsIff(disk, hash, WalkFiles(disk, paths), expected);
    }
  }

  /** The comparison, said of the disk and the remote's files alone. */
  ghost predicate IsSame(disk: Disk, hash: seq<Byte> -> string, paths: seq<string>, expected: map<string, Blob>) {
    && EachIsSound(disk, paths)
    && TotalCost(disk, paths) <= 8192
    && |expected| <= 2048
    && ShareNoFile(disk, paths)
    && HoldExactly(disk, hash, paths, expected)
  }

  lemma MatchedIsSame(disk: Disk, hash: seq<Byte> -> string, paths: seq<string>, expected: map<string, Blob>)
    requires IsDisk(disk) && Matches(disk, hash, paths, Ok(Some(expected)))
    ensures IsSame(disk, hash, paths, expected)
  {
    hide IsDisk, Agrees, IsFileAt, Under, HoldExactly, WalkAccepts, WalkFiles, EachIsSound, AllPlain;
    WalkIff(disk, paths);
    SoundIsPlain(disk, paths);
    ThreeTestsAreSetEquality(WalkFiles(disk, paths), expected);
    forall i, j, x: string | 0 <= i < j < |paths| && IsFileAt(disk, x) && Under(paths[i], x)
      ensures !Under(paths[j], x)
    {
      if Under(paths[j], x) {
        OverlappingPathsAreRefused(disk, hash, paths, Ok(Some(expected)), i, j, x);
        assert false;
      }
    }
    FilesMatchIff(disk, hash, paths, expected);
  }

  lemma SameIsMatched(disk: Disk, hash: seq<Byte> -> string, paths: seq<string>, expected: map<string, Blob>)
    requires IsDisk(disk) && IsSame(disk, hash, paths, expected)
    ensures Matches(disk, hash, paths, Ok(Some(expected)))
  {
    hide IsDisk, Agrees, ShareNoFile, HoldExactly, WalkAccepts, WalkFiles, EachIsSound, AllPlain;
    SoundIsPlain(disk, paths);
    FilesMatchIff(disk, hash, paths, expected);
    ThreeTestsAreSetEquality(WalkFiles(disk, paths), expected);
    WalkIff(disk, paths);
  }

  // ---------------------------------------------- how declared paths are reached

  /** The listing shows no name that is `wanted` in other letter case. */
  predicate ShowsNoVariant(names: Result<seq<string>, Failure>, wanted: string) {
    names.Ok? && forall name | name in names.value :: Lower(name) == Lower(wanted) ==> name == wanted
  }

  /** The first component of a relative path. */
  ghost predicate Leads(component: string, path: string) {
    '/' !in component && Under(component, path)
  }

  /** Above a '/' of the path: no link on the disk, nothing but a directory in the commit, no variant listed in it. */
  ghost predicate IsPlainAbove(disk: Disk, head: Head, prefix: string, rest: string) {
    && !(disk.stat(prefix).Found? && disk.stat(prefix).node.Link?)
    && (head.kind(prefix) == Ok(None) || head.kind(prefix) == Ok(Some("tree")))
    && (forall component: string | Leads(component, rest) ::
          if prefix == "" then ShowsNoVariant(head.names(""), component)
          else ShowsNoVariant(head.names(prefix + "/"), prefix + "/" + component))
  }

  /** A declared path reached through real directories only, with no variant of a component in the commit. */
  ghost predicate IsReachedPlainly(disk: Disk, head: Head, path: string) {
    && (forall component: string | Leads(component, path) :: ShowsNoVariant(head.names(""), component))
    && (forall prefix: string, rest: string | path == Below(prefix, rest) :: IsPlainAbove(disk, head, prefix, rest))
  }

  lemma CollidesIff(names: seq<string>, wanted: string)
    ensures Collides(names, wanted) <==> !ShowsNoVariant(Ok(names), wanted)
  {
  }

  lemma {:induction false} LeadsIff(component: string, path: string)
    ensures Leads(component, path) <==> component == Split(path, '/')[0]
  {
    if Leads(component, path) {
      SplitFree(component, '/');
      if path != component {
        var rest: string :| path == Below(component, rest);
        SplitConcat(component, rest, '/');
      }
    }
    var parts := Split(path, '/');
    JoinSplit(path, '/');
    assert '/' !in parts[0] by { assert parts[0] in parts; }
    if |parts| > 1 {
      assert path == Below(parts[0], Join(parts[1..], '/'));
    }
  }

  /** Cutting a path at its `k`-th '/'. */
  lemma CutAt(path: string, k: nat)
    requires 0 < k < |Split(path, '/')|
    ensures var parts := Split(path, '/');
            && path == Below(Join(parts[..k], '/'), Join(parts[k..], '/'))
            && Split(Join(parts[..k], '/'), '/') == parts[..k]
            && Split(Join(parts[k..], '/'), '/') == parts[k..]
  {
    var parts := Split(path, '/');
    SplitJoin(parts[..k], '/');
    SplitJoin(parts[k..], '/');
    var prefix, rest := Join(parts[..k], '/'), Join(parts[k..], '/');
    SplitConcat(prefix, rest, '/');
    assert parts[..k] + parts[k..] == parts;
    JoinSplit(path, '/');
    JoinSplit(Below(prefix, rest), '/');
  }

  /** Each '/' of a path is one of those cuts. */
  lemma CutIs(prefix: string, rest: string)
    ensures var parts := Split(Below(prefix, rest), '/');
            var k := |Split(prefix, '/')|;
            0 < k < |parts| && Prefix(parts, k) == prefix && Split(rest, '/') == parts[k..]
  {
    SplitConcat(prefix, rest, '/');
    var parts := Split(Below(prefix, rest), '/');
    var k := |Split(prefix, '/')|;
    assert parts[..k] == Split(prefix, '/');
    JoinSplit(prefix, '/');
  }

  lemma PlainAboveIff(disk: Disk, head: Head, path: string, k: nat, rest: string)
    requires 0 < k < |Split(path, '/')| && Split(rest, '/') == Split(path, '/')[k..]
    ensures PlainAt(disk, head, Split(path, '/'), k) <==>
            IsPlainAbove(disk, head, Prefix(Split(path, '/'), k), rest)
  {
    hide Leads, Split, ShowsNoVariant, Collides, Prefix;
    var parts := Split(path, '/');
    var prefix := Prefix(parts, k);
    var names := head.names(ListedDir(prefix));
    forall component: string
      ensures Leads(component, rest) <==> component == parts[k]
    {
      LeadsIff(component, rest);
    }
    if names.Ok? {
      CollidesIff(names.value, ListedDir(prefix) + parts[k]);
    }
    RefusesErrors(names, ListedDir(prefix) + parts[k]);
    assert "" + parts[k] == parts[k];
  }

  lemma RefusesErrors(names: Result<seq<string>, Failure>, wanted: string)
    ensures ShowsNoVariant(names, wanted) ==> names.Ok?
  {
  }

  /** What `path_is_plain` demands, over every '/' of the path. */
  lemma PlainPathIff(disk: Disk, head: Head, path: string)
    ensures PlainPath(disk, head, path) <==> IsReachedPlainly(disk, head, path)
  {
    hide Leads, Split, ShowsNoVariant, Collides, IsPlainAbove, PlainAt, Prefix;
    var parts := Split(path, '/');
    TopIff(disk, head, path);
    if PlainPath(disk, head, path) {
      forall prefix: string, rest: string | path == Below(prefix, rest)
        ensures IsPlainAbove(disk, head, prefix, rest)
      {
        CutIs(prefix, rest);
        PlainAboveIff(disk, head, path, |Split(prefix, '/')|, rest);
      }
    }
    if IsReachedPlainly(disk, head, path) {
      forall k | 0 < k < |parts|
        ensures PlainAt(disk, head, parts, k)
      {
        CutAt(path, k);
        var rest := Join(parts[k..], '/');
        PlainAboveIff(disk, head, path, k, rest);
        assert Prefix(parts, k) == Join(parts[..k], '/') by { PrefixIsJoin(parts, k); }
      }
    }
  }

  lemma PrefixIsJoin(parts: seq<string>, k: nat)
    requires 0 < k <= |parts|
    ensures Prefix(parts, k) == Join(parts[..k], '/')
  {
  }

  lemma TopIff(disk: Disk, head: Head, path: string)
    ensures PlainAt(disk, head, Split(path, '/'), 0) <==>
            forall component: string | Leads(component, path) :: ShowsNoVariant(head.names(""), component)
  {
    hide Leads, Split, ShowsNoVariant, Collides;
    var parts := Split(path, '/');
    var names := head.names("");
    forall component: string
      ensures Leads(component, path) <==> component == parts[0]
    {
      LeadsIff(component, path);
    }
    if names.Ok? {
      CollidesIff(names.value, parts[0]);
    }
    RefusesErrors(names, parts[0]);
    assert ListedDir("") + parts[0] == parts[0];
  }

  // -------------------------------------------------------------------- trust

  /**
   The whole answer: for an origin that denotes `owner`/`name`, over the fetched commit
   and its listing, the checkout is trusted exactly when a path is declared, the
   repository is on the list, the directory has a `.git` entry, every declared path is
   reached plainly and is absent or comparable, the walk stays within its two bounds,
   and the disk holds exactly the listed files, none of them under two declared paths.
   */
  lemma TrustedIff(facts: Facts, disk: Disk, fetch: string -> Result<Head, Failure>, hash: seq<Byte> -> string,
                   owner: string, name: string, head: Head, lines: seq<Line>)
    requires IsDisk(disk)
    requires facts.storedOrigin.Some? && GitHubUrl.Denotes(facts.storedOrigin.value, owner, name)
    requires fetch(Lower(owner + "/" + name)) == Ok(head) && head.listing(facts.paths) == Ok(Print(lines))
    requires forall line | line in lines :: IsPrintable(line)
    ensures ShouldTrust(facts, disk, fetch, hash) <==>
            && facts.paths != []
            && Lower(owner + "/" + name) in facts.trustedRepositories
            && disk.stat(".git").Found?
            && (forall path | path in facts.paths :: IsReachedPlainly(disk, head, path))
            && IsSame(disk, hash, facts.paths, AsMap(lines))
  {
    hide IsDisk, GitHubUrl.GithubRepository, GitHubUrl.Denotes, PlainPath, IsReachedPlainly, Matches, IsSame;
    hide Parsed, Split, Print, IsPrintable, AsMap;
    GitHubUrl.AcceptsExactlyTheTwoForms(facts.storedOrigin.value, Lower(owner + "/" + name));
    ListingRoundTrip(lines);
    forall path
      ensures PlainPath(disk, head, path) <==> IsReachedPlainly(disk, head, path)
    {
      PlainPathIff(disk, head, path);
    }
    var expected := AsMap(lines);
    if Matches(disk, hash, facts.paths, Ok(Some(expected))) {
      MatchedIsSame(disk, hash, facts.paths, expected);
    } else if IsSame(disk, hash, facts.paths, expected) {
      SameIsMatched(disk, hash, facts.paths, expected);
    }
  }
}
