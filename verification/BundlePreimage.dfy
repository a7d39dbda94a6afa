/**
 The string `bundle_content_hash` feeds to the hasher (crates/knowledge/build.rs):
 the files in path order, each as path, NUL, 8-byte big-endian length, NUL,
 content, 0xff.
 */
module BundlePreimage {
  import opened Wrappers
  import opened Strings
  import opened Bundle

  // ---------------------------------------------------------------- path order

  predicate BytesLess(a: seq<Byte>, b: seq<Byte>) {
    if a == [] then b != []
    else b != [] && (a[0] < b[0] || (a[0] == b[0] && BytesLess(a[1..], b[1..])))
  }

  /** Paths compare component by component. */
  predicate PathLess(a: Path, b: Path) {
    if a == [] then b != []
    else b != [] && (BytesLess(a[0], b[0]) || (a[0] == b[0] && PathLess(a[1..], b[1..])))
  }

  lemma {:induction false} BytesOrder(a: seq<Byte>, b: seq<Byte>)
    ensures BytesLess(a, b) || a == b || BytesLess(b, a)
    ensures BytesLess(a, b) ==> a != b && !BytesLess(b, a)
  {
    if a != [] && b != [] {
      BytesOrder(a[1..], b[1..]);
      assert a[0] == b[0] && a[1..] == b[1..] ==> a == b by { assert a == [a[0]] + a[1..] && b == [b[0]] + b[1..]; }
    }
  }

  lemma {:induction false} BytesTransitive(a: seq<Byte>, b: seq<Byte>, c: seq<Byte>)
    requires BytesLess(a, b) && BytesLess(b, c)
    ensures BytesLess(a, c)
  {
    if a != [] && a[0] == b[0] && b[0] == c[0] {
      BytesTransitive(a[1..], b[1..], c[1..]);
    }
  }

  lemma {:induction false} PathOrder(a: Path, b: Path)
    ensures PathLess(a, b) || a == b || PathLess(b, a)
    ensures PathLess(a, b) ==> a != b && !PathLess(b, a)
  {
    if a != [] && b != [] {
      BytesOrder(a[0], b[0]);
      PathOrder(a[1..], b[1..]);
      assert a[0] == b[0] && a[1..] == b[1..] ==> a == b by { assert a == [a[0]] + a[1..] && b == [b[0]] + b[1..]; }
    }
  }

  lemma {:induction false} PathTransitive(a: Path, b: Path, c: Path)
    requires PathLess(a, b) && PathLess(b, c)
    ensures PathLess(a, c)
  {
    if a != [] {
      BytesOrder(a[0], b[0]);
      BytesOrder(b[0], c[0]);
      if a[0] == b[0] && b[0] == c[0] {
        PathTransitive(a[1..], b[1..], c[1..]);
      } else if a[0] != b[0] && b[0] != c[0] {
        BytesTransitive(a[0], b[0], c[0]);
      }
    }
  }

  lemma SamePrefix<T>(a: seq<T>, b: seq<T>, d: nat)
    requires 0 < d <= |a| && d <= |b|
    ensures a[..d] == b[..d] <==> a[0] == b[0] && a[1..][..d - 1] == b[1..][..d - 1]
  {
    assert a[..d] == [a[0]] + a[1..][..d - 1] && b[..d] == [b[0]] + b[1..][..d - 1];
  }

  lemma ProperPrefix<T>(a: seq<T>, b: seq<T>)
    requires a != [] && b != []
    ensures a < b <==> a[0] == b[0] && a[1..] < b[1..]
  {
    assert a == [a[0]] + a[1..] && b == [b[0]] + b[1..];
  }

  /** The one that ends first, or has the smaller byte where they first differ. */
  lemma {:induction false} BytesLessIff(a: seq<Byte>, b: seq<Byte>)
    ensures BytesLess(a, b) <==> a < b || exists d: nat | d < |a| && d < |b| :: a[..d] == b[..d] && a[d] < b[d]
  {
    if a != [] && b != [] {
      BytesLessIff(a[1..], b[1..]);
      ProperPrefix(a, b);
      assert a[..0] == b[..0];
      if d: nat :| d < |a| && d < |b| && a[..d] == b[..d] && a[d] < b[d] {
        if d > 0 {
          SamePrefix(a, b, d);
          assert a[1..][d - 1] < b[1..][d - 1];
        }
      }
      if d: nat :| d < |a[1..]| && d < |b[1..]| && a[1..][..d] == b[1..][..d] && a[1..][d] < b[1..][d] {
        SamePrefix(a, b, d + 1);
        assert a[d + 1] < b[d + 1];
      }
    }
  }

  /** The one that ends first, or has the smaller component where they first differ. */
  lemma {:induction false} PathLessIff(a: Path, b: Path)
    ensures PathLess(a, b) <==>
            a < b || exists d: nat | d < |a| && d < |b| :: a[..d] == b[..d] && BytesLess(a[d], b[d])
  {
    if a != [] && b != [] {
      PathLessIff(a[1..], b[1..]);
      hide BytesLess;
      ProperPrefix(a, b);
      assert a[..0] == b[..0];
      if d: nat :| d < |a| && d < |b| && a[..d] == b[..d] && BytesLess(a[d], b[d]) {
        if d > 0 {
          SamePrefix(a, b, d);
          assert BytesLess(a[1..][d - 1], b[1..][d - 1]);
        }
      }
      if d: nat :| d < |a[1..]| && d < |b[1..]| && a[1..][..d] == b[1..][..d] && BytesLess(a[1..][d], b[1..][d]) {
        SamePrefix(a, b, d + 1);
        assert BytesLess(a[d + 1], b[d + 1]);
      }
    }
  }

  // -------------------------------------------------------------------- sorting

  predicate Ascending(s: seq<Path>) {
    forall i, j | 0 <= i < j < |s| :: PathLess(s[i], s[j])
  }

  function Insert(p: Path, s: seq<Path>): (r: seq<Path>)
    ensures forall x :: x in r <==> x == p || x in s
  {
    if s == [] || PathLess(p, s[0]) then [p] + s else [s[0]] + Insert(p, s[1..])
  }

  /** `files.sort()`. */
  function Sorted(files: seq<Path>): (r: seq<Path>)
    ensures forall x :: x in r <==> x in files
  {
    if files == [] then [] else Insert(files[0], Sorted(files[1..]))
  }

  lemma {:induction false} InsertAscends(p: Path, s: seq<Path>)
    requires Ascending(s) && p !in s
    ensures Ascending(Insert(p, s))
  {
    if s != [] && PathLess(p, s[0]) {
      forall i | 0 <= i < |s|
        ensures PathLess(p, s[i])
      {
        if i > 0 { PathTransitive(p, s[0], s[i]); }
      }
    } else if s != [] {
      PathOrder(p, s[0]);
      InsertAscends(p, s[1..]);
      var rest := Insert(p, s[1..]);
      forall i | 0 <= i < |rest|
        ensures PathLess(s[0], rest[i])
      {
        assert rest[i] in rest;
      }
    }
  }

  lemma {:induction false} SortedAscends(files: seq<Path>)
    requires NoDuplicates(files)
    ensures Ascending(Sorted(files))
  {
    if files != [] {
      SortedAscends(files[1..]);
      InsertAscends(files[0], Sorted(files[1..]));
    }
  }

  /** An ascending listing is determined by what it lists. */
  lemma {:induction false} AscendingUnique(a: seq<Path>, b: seq<Path>)
    requires Ascending(a) && Ascending(b)
    requires forall x :: x in a <==> x in b
    ensures a == b
  {
    if b != [] {
      HasAMember(b);
    }
    if a != [] {
      assert a[0] in b;
      assert b[0] in b && b[0] in a;
      HeadsAgree(a, b);
      forall x
        ensures x in a[1..] <==> x in b[1..]
      {
        PathOrder(a[0], a[0]);
        assert x in a[1..] ==> x in a && PathLess(a[0], x);
        assert x in b[1..] ==> x in b && PathLess(b[0], x);
        assert a == [a[0]] + a[1..] && b == [b[0]] + b[1..];
      }
      AscendingUnique(a[1..], b[1..]);
      assert a == [a[0]] + a[1..] && b == [b[0]] + b[1..];
    }
  }

  lemma HasAMember(s: seq<Path>)
    requires s != []
    ensures exists x :: x in s
  {
    assert s[0] in s;
  }

  lemma HeadsAgree(a: seq<Path>, b: seq<Path>)
    requires Ascending(a) && Ascending(b) && a != [] && b != []
    requires a[0] in b && b[0] in a
    ensures a[0] == b[0]
  {
    var i :| 0 <= i < |b| && b[i] == a[0];
    var j :| 0 <= j < |a| && a[j] == b[0];
    PathOrder(a[0], b[0]);
    assert forall k | 0 < k < |b| :: PathLess(b[0], b[k]);
    assert forall k | 0 < k < |a| :: PathLess(a[0], a[k]);
  }

  // ------------------------------------------------------------ the fed string

  function Pow256(k: nat): (n: nat)
    ensures n >= 1
  {
    if k == 0 then 1 else 256 * Pow256(k - 1)
  }

  /** The low `k` bytes of `n`, most significant first. */
  function BigEndian(n: nat, k: nat): (s: seq<Byte>)
    ensures |s| == k
    decreases k
  {
    if k == 0 then [] else BigEndian(n / 256, k - 1) + [n % 256]
  }

  function FromBigEndian(s: seq<Byte>): (n: nat) {
    if s == [] then 0 else 256 * FromBigEndian(s[..|s| - 1]) + s[|s| - 1]
  }

  lemma {:induction false} BigEndianValue(n: nat, k: nat)
    requires n < Pow256(k)
    ensures FromBigEndian(BigEndian(n, k)) == n
    decreases k
  {
    if k > 0 {
      BigEndianValue(n / 256, k - 1);
      var s := BigEndian(n, k);
      assert s[..k - 1] == BigEndian(n / 256, k - 1);
    }
  }

  lemma U64IsEightBytes()
    ensures Pow256(8) == U64
  {
    assert Pow256(4) == 0x1_0000_0000;
    assert Pow256(5) == 0x100_0000_0000;
    assert Pow256(6) == 0x1_0000_0000_0000;
    assert Pow256(7) == 0x100_0000_0000_0000;
  }

  /** The eight bytes of a length, weighed by their positions. */
  lemma SizeIsBigEndian(n: nat)
    requires n < 0x1_0000_0000_0000_0000
    ensures var s: seq<int> := BigEndian(n, 8);
            n == 0x100_0000_0000_0000 * s[0] + 0x1_0000_0000_0000 * s[1] + 0x100_0000_0000 * s[2]
                 + 0x1_0000_0000 * s[3] + 0x100_0000 * s[4] + 0x1_0000 * s[5] + 0x100 * s[6] + s[7]
  {
    var s := BigEndian(n, 8);
    U64IsEightBytes();
    BigEndianValue(n, 8);
    hide BigEndian, FromBigEndian, Pow256;
    FourBytes(s);
    OneMoreByte(s, 4);
    OneMoreByte(s, 5);
    OneMoreByte(s, 6);
    OneMoreByte(s, 7);
    assert s[..8] == s;
  }

  lemma FourBytes(s: seq<Byte>)
    requires |s| >= 4
    ensures var t: seq<int> := s; FromBigEndian(s[..4]) == 0x100_0000 * t[0] + 0x1_0000 * t[1] + 0x100 * t[2] + t[3]
  {
    hide FromBigEndian;
    OneMoreByte(s, 0);
    OneMoreByte(s, 1);
    OneMoreByte(s, 2);
    OneMoreByte(s, 3);
  }

  lemma OneMoreByte(s: seq<Byte>, k: nat)
    requires k < |s|
    ensures FromBigEndian(s[..k + 1]) == 256 * FromBigEndian(s[..k]) + s[k]
    ensures FromBigEndian(s[..0]) == 0
  {
    assert s[..k + 1][..k] == s[..k];
  }

  datatype Listed = Listed(path: seq<Byte>, content: seq<Byte>)

  predicate IsListed(f: Listed) {
    NUL !in f.path && |f.content| < U64
  }

  /** What one file contributes. */
  function Record(f: Listed): (s: seq<Byte>) {
    f.path + [NUL] + (BigEndian(|f.content|, 8) + [NUL] + f.content + [END])
  }

  function Feed(files: seq<Listed>): (s: seq<Byte>) {
    if files == [] then [] else Record(files[0]) + Feed(files[1..])
  }

  /** The first record of a fed string and what follows it. */
  function ParseRecord(s: seq<Byte>): (r: Option<(Listed, seq<Byte>)>)
    ensures r.Some? ==> |r.value.1| < |s|
  {
    match SplitOnce(s, NUL)
    case None => None
    case Some((path, rest)) =>
      if |rest| < 9 || rest[8] != NUL then None
      else
        var n := FromBigEndian(rest[..8]);
        if |rest| < 9 + n + 1 || rest[9 + n] != END then None
        else Some((Listed(path, rest[9..9 + n]), rest[9 + n + 1..]))
  }

  function Parse(s: seq<Byte>): (r: Option<seq<Listed>>)
    decreases |s|
  {
    if s == [] then Some([])
    else
      match ParseRecord(s)
      case None => None
      case Some((f, rest)) =>
        var more := Parse(rest);
        if more.None? then None else Some([f] + more.value)
  }

  lemma ParseRecordBack(f: Listed, rest: seq<Byte>)
    requires IsListed(f)
    ensures ParseRecord(Record(f) + rest) == Some((f, rest))
  {
    U64IsEightBytes();
    BigEndianValue(|f.content|, 8);
    hide BigEndian, FromBigEndian, SplitOnce;
    var size := BigEndian(|f.content|, 8);
    var tail := size + [NUL] + f.content + [END];
    var body := tail + rest;
    Regroup(f.path + [NUL], tail, rest);
    SplitOnceUnique(f.path, body, NUL);
    BodyParts(size, f.content, rest);
  }

  /** What follows the path of a record, piece by piece. */
  lemma BodyParts(size: seq<Byte>, content: seq<Byte>, rest: seq<Byte>)
    requires |size| == 8
    ensures var body, n := size + [NUL] + content + [END] + rest, |content|;
            && |body| == 10 + n + |rest|
            && body[..8] == size && body[8] == NUL
            && body[9..9 + n] == content && body[9 + n] == END && body[9 + n + 1..] == rest
  {
  }

  /** The fed string can be read back: no two lists of files feed the same string. */
  lemma {:induction false} ParseFeed(files: seq<Listed>)
    requires forall f | f in files :: IsListed(f)
    ensures Parse(Feed(files)) == Some(files)
  {
    if files != [] {
      ParseRecordBack(files[0], Feed(files[1..]));
      ParseFeed(files[1..]);
      assert [files[0]] + files[1..] == files;
    }
  }

  // --------------------------------------------------------------- path strings

  predicate IsTrail(b: Byte) { 0x80 <= b <= 0xBF }

  /** Well-formed UTF-8, by the table in section 4 of RFC 3629. */
  predicate IsUtf8(s: seq<Byte>) {
    if s == [] then true
    else if s[0] <= 0x7F then IsUtf8(s[1..])
    else if 0xC2 <= s[0] <= 0xDF then |s| >= 2 && IsTrail(s[1]) && IsUtf8(s[2..])
    else if 0xE0 <= s[0] <= 0xEF then
      && |s| >= 3 && IsTrail(s[1]) && IsTrail(s[2])
      && (s[0] == 0xE0 ==> s[1] >= 0xA0) && (s[0] == 0xED ==> s[1] <= 0x9F)
      && IsUtf8(s[3..])
    else if 0xF0 <= s[0] <= 0xF4 then
      && |s| >= 4 && IsTrail(s[1]) && IsTrail(s[2]) && IsTrail(s[3])
      && (s[0] == 0xF0 ==> s[1] >= 0x90) && (s[0] == 0xF4 ==> s[1] <= 0x8F)
      && IsUtf8(s[4..])
    else false
  }

  predicate IsUtf8Path(path: Path) {
    forall part | part in path :: IsUtf8(part)
  }

  /** `relative_path_string`: the parts joined with '/', or `None` for a part that is not UTF-8. */
  method RelativePathString(path: Path) returns (r: Option<seq<Byte>>)
    requires path != []
    ensures r == if IsUtf8Path(path) then Some(Join(path, SLASH)) else None
  {
    var parts: Path := [];
    var i := 0;
    while i < |path|
      invariant 0 <= i <= |path| && parts == path[..i]
      invariant forall k | 0 <= k < i :: IsUtf8(path[k])
    {
      if !IsUtf8(path[i]) {
        assert path[i] in path;
        return None;
      }
      parts := parts + [path[i]];
      i := i + 1;
    }
    assert path[..i] == path;
    r := Some(Join(parts, SLASH));
  }

  /** The joined string determines the path. */
  lemma JoinedPathsDiffer(a: Path, b: Path)
    requires a != [] && b != []
    requires forall part | part in a + b :: IsName(part)
    requires Join(a, SLASH) == Join(b, SLASH)
    ensures a == b
  {
    assert forall part | part in a :: part in a + b;
    assert forall part | part in b :: part in a + b;
    SplitJoin(a, SLASH);
    SplitJoin(b, SLASH);
  }

  lemma {:induction false} JoinedIsNulFree(path: Path)
    requires path != [] && forall part | part in path :: IsName(part)
    ensures NUL !in Join(path, SLASH)
  {
    assert path[0] in path && NUL != SLASH;
    if |path| > 1 {
      assert forall part | part in path[1..] :: part in path;
      JoinedIsNulFree(path[1..]);
    }
  }

  // ------------------------------------------------------------- the theorem

  /** The files of a bundle directory in path order. */
  function SortedFiles(entries: seq<Entry>): (files: seq<Path>) {
    Sorted(FilesIn([], entries))
  }

  /** A file as it is fed; the content is read back through its path. */
  function ListedFile(entries: seq<Entry>, path: Path): (f: Listed)
    requires path != [] && ContentBelow(entries, path).Some?
  {
    Listed(Join(path, SLASH), ContentBelow(entries, path).value)
  }

  lemma ListedIffBelow(entries: seq<Entry>, path: Path)
    requires IsTree(Dir(entries))
    ensures path in SortedFiles(entries) <==> ContentBelow(entries, path).Some?
    ensures path in SortedFiles(entries) ==> path != []
  {
    ListedInIffFile([], entries, path);
    assert path[0..] == path;
  }

  predicate AreFiles(entries: seq<Entry>, files: seq<Path>) {
    forall i | 0 <= i < |files| :: files[i] != [] && ContentBelow(entries, files[i]).Some?
  }

  /** The contributions of `files`, in order. */
  function Listing(entries: seq<Entry>, files: seq<Path>): (r: seq<Listed>)
    requires AreFiles(entries, files)
    ensures |r| == |files|
    ensures forall i | 0 <= i < |files| :: r[i] == ListedFile(entries, files[i])
  {
    seq(|files|, i requires 0 <= i < |files| => ListedFile(entries, files[i]))
  }

  lemma SortedAreFiles(entries: seq<Entry>)
    requires IsTree(Dir(entries))
    ensures AreFiles(entries, SortedFiles(entries))
  {
    var files := SortedFiles(entries);
    forall i | 0 <= i < |files|
      ensures files[i] != [] && ContentBelow(entries, files[i]).Some?
    {
      ListedIffBelow(entries, files[i]);
    }
  }

  /** Every file path of the bundle is UTF-8. */
  predicate AllUtf8(entries: seq<Entry>) {
    forall p | p in FilesIn([], entries) :: IsUtf8Path(p)
  }

  /** The string fed for a bundle whose paths are UTF-8. */
  function Preimage(entries: seq<Entry>): (s: seq<Byte>)
    requires IsTree(Dir(entries))
  {
    SortedAreFiles(entries);
    Feed(Listing(entries, SortedFiles(entries)))
  }

  /** `fs::read` of a file of the bundle. */
  function ReadFile(entries: seq<Entry>, path: Path): (content: seq<Byte>)
    requires ContentBelow(entries, path).Some?
  {
    ContentBelow(entries, path).value
  }

  lemma {:induction false} FeedMore(files: seq<Listed>, f: Listed)
    ensures Feed(files + [f]) == Feed(files) + Record(f)
  {
    if files == [] {
      assert files + [f] == [f] && [f][1..] == [];
    } else {
      assert (files + [f])[1..] == files[1..] + [f];
      FeedMore(files[1..], f);
    }
  }

  /** The updates of the hasher for one file. */
  method UpdateHasher(hasher: seq<Byte>, relative: seq<Byte>, bytes: seq<Byte>) returns (updated: seq<Byte>)
    ensures updated == hasher + Record(Listed(relative, bytes))
  {
    hide BigEndian;
    var size := BigEndian(|bytes|, 8);
    ghost var tail := size + [NUL] + bytes + [END];
    updated := hasher + relative;
    updated := updated + [NUL];
    Regroup(hasher, relative, [NUL]);
    ghost var named := updated;
    updated := updated + size;
    updated := updated + [NUL];
    Regroup(named, size, [NUL]);
    updated := updated + bytes;
    Regroup(named, size + [NUL], bytes);
    updated := updated + [END];
    Regroup(named, size + [NUL] + bytes, [END]);
    Regroup(hasher, relative + [NUL], tail);
  }

  lemma Regroup(a: seq<Byte>, b: seq<Byte>, c: seq<Byte>)
    ensures a + b + c == a + (b + c)
  {
  }

  /** `bundle_content_hash` up to the hash: everything passed to the hasher, or `None` for a path that is not UTF-8. */
  method BundleContentPreimage(entries: seq<Entry>) returns (fed: Option<seq<Byte>>)
    requires IsTree(Dir(entries))
    ensures fed == if AllUtf8(entries) then Some(Preimage(entries)) else None
  {
    hide Feed, FilesIn, ContentBelow, IsUtf8Path, IsTree, Record, Sorted;
    var files := CollectFiles([], entries, []);
    assert [] + FilesIn([], entries) == FilesIn([], entries);
    files := Sorted(files);
    SortedAreFiles(entries);
    ghost var all := Listing(entries, files);
    var hasher: seq<Byte> := [];
    var i := 0;
    FeedNothing();
    assert all[..0] == [];
    while i < |files|
      invariant 0 <= i <= |files|
      invariant hasher == Feed(all[..i])
      invariant forall k | 0 <= k < i :: IsUtf8Path(files[k])
    {
      var bytes := ReadFile(entries, files[i]);
      var relative := RelativePathString(files[i]);
      if relative.None? {
        assert files[i] in FilesIn([], entries);
        return None;
      }
      hasher := UpdateHasher(hasher, relative.value, bytes);
      FeedMore(all[..i], all[i]);
      assert all[..i] + [all[i]] == all[..i + 1];
      i := i + 1;
    }
    assert all[..i] == all;
    assert forall p | p in files :: IsUtf8Path(p);
    fed := Some(hasher);
  }

  lemma FeedNothing()
    ensures Feed([]) == []
  {
  }

  /** Every part of a listed path is a name. */
  lemma {:induction false} PartsAreNames(entries: seq<Entry>, path: Path)
    requires IsTree(Dir(entries)) && ContentBelow(entries, path).Some?
    ensures forall part | part in path :: IsName(part)
    ensures |ContentBelow(entries, path).value| < U64
    decreases path
  {
    var child := Find(entries, path[0]).value;
    var e :| e in entries && e.name == path[0] && e.node == child;
    assert IsTree(child);
    if child.Dir? {
      PartsAreNames(child.entries, path[1..]);
    } else {
      assert path[1..] == [];
    }
    assert path == [path[0]] + path[1..];
  }

  /** What is listed can be read back from the fed string. */
  lemma ListingIsReadable(entries: seq<Entry>)
    requires IsTree(Dir(entries))
    ensures AreFiles(entries, SortedFiles(entries))
    ensures Parse(Preimage(entries)) == Some(Listing(entries, SortedFiles(entries)))
  {
    var files := SortedFiles(entries);
    SortedAreFiles(entries);
    var all := Listing(entries, files);
    forall f | f in all
      ensures IsListed(f)
    {
      var i :| 0 <= i < |all| && all[i] == f;
      assert files[i] in files;
      PartsAreNames(entries, files[i]);
      JoinedIsNulFree(files[i]);
    }
    ParseFeed(all);
  }

  lemma {:induction false} FeedConcat(a: seq<Listed>, b: seq<Listed>)
    ensures Feed(a + b) == Feed(a) + Feed(b)
  {
    if a == [] {
      assert a + b == b;
    } else {
      assert (a + b)[1..] == a[1..] + b;
      FeedConcat(a[1..], b);
    }
  }

  lemma FeedAt(files: seq<Listed>, i: nat)
    requires i < |files|
    ensures Feed(files) == Feed(files[..i]) + Record(files[i]) + Feed(files[i + 1..])
  {
    hide Record;
    FeedConcat(files[..i], files[i..]);
    assert files == files[..i] + files[i..] && files[i..][0] == files[i] && files[i..][1..] == files[i + 1..];
  }

  /** The listed paths are those of the files of the bundle, in ascending order. */
  lemma SortedFilesAreExact(entries: seq<Entry>)
    requires IsTree(Dir(entries))
    ensures Ascending(SortedFiles(entries))
    ensures forall path: Path :: path in SortedFiles(entries) <==> ContentBelow(entries, path).Some?
  {
    hide FilesIn, Sorted, ContentBelow, IsTree, Ascending;
    ListedInOnce([], entries);
    SortedAscends(FilesIn([], entries));
    forall path: Path
      ensures path in SortedFiles(entries) <==> ContentBelow(entries, path).Some?
    {
      ListedIffBelow(entries, path);
    }
  }

  /**
   The fed string, byte by byte: for each file in that order its path with '/' between
   the components, 0, its length in eight bytes, 0, its content and 255.
   */
  lemma PreimageIsExact(entries: seq<Entry>, i: nat)
    requires IsTree(Dir(entries)) && AreFiles(entries, SortedFiles(entries)) && i < |SortedFiles(entries)|
    ensures var all := Listing(entries, SortedFiles(entries));
            var path, content := SortedFiles(entries)[i], ContentBelow(entries, SortedFiles(entries)[i]).value;
            Preimage(entries) ==
            Feed(all[..i])
            + (Join(path, 47) + [0] + (BigEndian(|content|, 8) + [0] + content + [255]))
            + Feed(all[i + 1..])
  {
    hide SortedFiles, ContentBelow, IsTree, BigEndian, Feed, Join;
    FeedAt(Listing(entries, SortedFiles(entries)), i);
  }

  /** Two bundles hold the same files with the same contents. */
  ghost predicate SameFiles(a: seq<Entry>, b: seq<Entry>) {
    forall path: Path :: ContentBelow(a, path) == ContentBelow(b, path)
  }

  /** The same files feed the same string, however the directories are enumerated. */
  lemma SameFilesFeedTheSame(a: seq<Entry>, b: seq<Entry>)
    requires IsTree(Dir(a)) && IsTree(Dir(b)) && SameFiles(a, b)
    ensures Preimage(a) == Preimage(b)
  {
    ListedInOnce([], a);
    ListedInOnce([], b);
    SortedAscends(FilesIn([], a));
    SortedAscends(FilesIn([], b));
    forall path
      ensures path in SortedFiles(a) <==> path in SortedFiles(b)
    {
      ListedIffBelow(a, path);
      ListedIffBelow(b, path);
    }
    AscendingUnique(SortedFiles(a), SortedFiles(b));
    ListingIsReadable(a);
    ListingIsReadable(b);
    assert Listing(a, SortedFiles(a)) == Listing(b, SortedFiles(b));
  }

  /** Equal listings list the same path at every position. */
  lemma ListingsAgree(a: seq<Entry>, b: seq<Entry>, path: Path)
    requires IsTree(Dir(a)) && IsTree(Dir(b))
    requires Preimage(a) == Preimage(b)
    requires ContentBelow(a, path).Some?
    ensures ContentBelow(b, path) == ContentBelow(a, path)
  {
    ListingIsReadable(a);
    ListingIsReadable(b);
    ListedIffBelow(a, path);
    var fa, fb := SortedFiles(a), SortedFiles(b);
    var i :| 0 <= i < |fa| && fa[i] == path;
    assert Listing(a, fa)[i] == Listing(b, fb)[i];
    var other := fb[i];
    assert other in fb;
    PartsAreNames(a, path);
    PartsAreNames(b, other);
    JoinedPathsDiffer(path, other);
  }

  /**
   Two bundles feed the same string exactly when they hold the same files: the
   string is injective in the map from relative path to content and depends on
   nothing else, in particular not on the order in which directories are listed.
   */
  lemma PreimageDeterminesTheFiles(a: seq<Entry>, b: seq<Entry>)
    requires IsTree(Dir(a)) && IsTree(Dir(b))
    ensures Preimage(a) == Preimage(b) <==> SameFiles(a, b)
  {
    if Preimage(a) == Preimage(b) {
      forall path: Path
        ensures ContentBelow(a, path) == ContentBelow(b, path)
      {
        if ContentBelow(a, path).Some? {
          ListingsAgree(a, b, path);
        } else if ContentBelow(b, path).Some? {
          ListingsAgree(b, a, path);
        }
      }
    } else if SameFiles(a, b) {
      SameFilesFeedTheSame(a, b);
    }
  }
}
