/**
 The trust predicate as a whole (crates/daemon/src/checkout_trust.rs,
 `evaluate`, `is_trusted`, `path_is_plain`). What git answers about the fetched
 commit is a parameter.
 */
module TrustEvaluate {
  import opened Wrappers
  import opened Strings
  import opened TrustTree
  import opened TrustWalk
  import opened TrustFiles
  import opened TrustListing
  import opened TrustContents
  import GitHubUrl

  const TREE: string := "tree"

  /** What git says of the fetched commit: the type at a path, the names in a directory, the recursive listing. */
  datatype Head = Head(kind: string -> Result<Option<string>, Failure>,
                       names: string -> Result<seq<string>, Failure>,
                       listing: seq<string> -> Result<string, Failure>)

  datatype Facts = Facts(storedOrigin: Option<string>, trustedRepositories: seq<string>, paths: seq<string>)

  datatype Verdict = Trusted | Untrusted

  // ---------------------------------------------------------- path_is_plain

  function Prefix(components: seq<string>, depth: nat): (s: string)
    requires depth <= |components|
  {
    if depth == 0 then "" else Join(components[..depth], '/')
  }

  /** The directory as `ls-tree` is asked for it. */
  function ListedDir(prefix: string): (s: string) {
    if prefix == "" then "" else prefix + ['/']
  }

  predicate Collides(names: seq<string>, wanted: string) {
    exists name | name in names :: EqIgnoreAsciiCase(name, wanted) && name != wanted
  }

  /** What is demanded of the component at `depth` and of the ancestor above it. */
  predicate PlainAt(disk: Disk, head: Head, components: seq<string>, depth: nat)
    requires depth < |components|
  {
    var prefix := Prefix(components, depth);
    var names := head.names(ListedDir(prefix));
    && (depth > 0 ==>
          && !(disk.stat(prefix).Found? && disk.stat(prefix).node.Link?)
          && (head.kind(prefix) == Ok(None) || head.kind(prefix) == Ok(Some(TREE))))
    && names.Ok?
    && !Collides(names.value, ListedDir(prefix) + components[depth])
  }

  predicate PlainPath(disk: Disk, head: Head, path: string) {
    var components := Split(path, '/');
    forall depth | 0 <= depth < |components| :: PlainAt(disk, head, components, depth)
  }

  /** A git command about the component at `depth` fails. */
  predicate ComponentFails(head: Head, components: seq<string>, depth: nat, error: Failure)
    requires depth < |components|
  {
    var prefix := Prefix(components, depth);
    (depth > 0 && head.kind(prefix) == Err(error)) || head.names(ListedDir(prefix)) == Err(error)
  }

  predicate PathFails(head: Head, path: string, error: Failure) {
    var components := Split(path, '/');
    exists depth | 0 <= depth < |components| :: ComponentFails(head, components, depth, error)
  }

  method ComponentIsPlain(disk: Disk, head: Head, components: seq<string>, depth: nat)
    returns (r: Result<bool, Failure>)
    requires depth < |components|
    ensures r.Ok? ==> r.value == PlainAt(disk, head, components, depth)
    ensures r.Err? ==> ComponentFails(head, components, depth, r.error)
  {
    var prefix := Prefix(components, depth);
    if depth > 0 {
      if disk.stat(prefix).Found? && disk.stat(prefix).node.Link? {
        return Ok(false);
      }
      var kind := head.kind(prefix);
      if kind.Err? {
        return Err(kind.error);
      }
      if kind.value.Some? && kind.value.value != TREE {
        return Ok(false);
      }
    }
    var names := head.names(ListedDir(prefix));
    if names.Err? {
      return Err(names.error);
    }
    r := Ok(!Collides(names.value, ListedDir(prefix) + components[depth]));
  }

  method PathIsPlain(disk: Disk, head: Head, path: string) returns (r: Result<bool, Failure>)
    ensures r.Ok? ==> r.value == PlainPath(disk, head, path)
    ensures r.Err? ==> PathFails(head, path, r.error)
  {
    hide Split, PlainAt, ComponentFails;
    var components := Split(path, '/');
    var depth := 0;
    while depth < |components|
      invariant 0 <= depth <= |components|
      invariant forall d | 0 <= d < depth :: PlainAt(disk, head, components, d)
    {
      var plain := ComponentIsPlain(disk, head, components, depth);
      if plain.Err? {
        return Err(plain.error);
      }
      if !plain.value {
        return Ok(false);
      }
      depth := depth + 1;
    }
    r := Ok(true);
  }

  lemma StatIsLiteral(disk: Disk, path: string)
    requires IsDisk(disk) && LiteralAt(disk, path).Some?
    ensures disk.stat(path) == Found(LiteralAt(disk, path).value)
  {
  }

  /** A node that leads on to a further name is a directory, or a link to one. */
  lemma LeadsOn(node: Node, parts: seq<string>)
    requires parts != [] && Literal(node, parts).Some?
    ensures node.Dir? || node.Link?
  {
  }

  /** A plain path that exists is reached through real directories only: no link redirects the read. */
  lemma PlainPathIsReal(disk: Disk, head: Head, path: string, depth: nat)
    requires IsDisk(disk) && PlainPath(disk, head, path) && LiteralAt(disk, path).Some?
    requires 0 < depth < |Split(path, '/')|
    ensures var ancestor := LiteralAt(disk, Prefix(Split(path, '/'), depth));
            ancestor.Some? && ancestor.value.Dir?
  {
    hide IsDisk, Literal, Split;
    var components := Split(path, '/');
    var prefix := Prefix(components, depth);
    SplitJoin(components[..depth], '/');
    assert components == components[..depth] + components[depth..];
    LiteralConcat(disk.root, components[..depth], components[depth..]);
    LeadsOn(LiteralAt(disk, prefix).value, components[depth..]);
    StatIsLiteral(disk, prefix);
    assert PlainAt(disk, head, components, depth);
  }

  // --------------------------------------------------------------- evaluate

  /** Every reason for trust at once. */
  predicate ShouldTrust(facts: Facts, disk: Disk, fetch: string -> Result<Head, Failure>, hash: seq<Byte> -> string) {
    && facts.paths != []
    && facts.storedOrigin.Some?
    && var repository := GitHubUrl.GithubRepository(facts.storedOrigin.value);
    && repository.Some?
    && repository.value in facts.trustedRepositories
    && disk.stat(GIT_ENTRY).Found?
    && var head := fetch(repository.value);
    && head.Ok?
    && (forall path | path in facts.paths :: PlainPath(disk, head.value, path))
    && var listing := head.value.listing(facts.paths);
       listing.Ok? && Matches(disk, hash, facts.paths, Parsed(Split(listing.value, '\0')))
  }

  method PathsArePlain(disk: Disk, head: Head, paths: seq<string>) returns (r: Result<bool, Failure>)
    ensures r.Ok? ==> r.value == forall path | path in paths :: PlainPath(disk, head, path)
    ensures r.Err? ==> exists path | path in paths :: PathFails(head, path, r.error)
  {
    hide PlainPath, PathFails;
    var i := 0;
    while i < |paths|
      invariant 0 <= i <= |paths|
      invariant forall k | 0 <= k < i :: PlainPath(disk, head, paths[k])
    {
      var plain := PathIsPlain(disk, head, paths[i]);
      if plain.Err? {
        return Err(plain.error);
      }
      if !plain.value {
        return Ok(false);
      }
      i := i + 1;
    }
    r := Ok(true);
  }

  /** Why an evaluation gives no answer: the fetch, a git command about a path, or the comparison fails. */
  ghost predicate Fails(facts: Facts, fails: nat -> bool, runs: nat, disk: Disk, clock: nat -> int, deadline: int,
                        fetch: string -> Result<Head, Failure>, error: Failure)
  {
    && facts.storedOrigin.Some?
    && var repository := GitHubUrl.GithubRepository(facts.storedOrigin.value);
    && repository.Some? && repository.value in facts.trustedRepositories
    && var head := fetch(repository.value);
    && (|| head == Err(error)
        || (head.Ok? && exists path | path in facts.paths :: PathFails(head.value, path, error))
        || (head.Ok? && ContentsFail(fails, runs, disk, clock, deadline, facts.paths,
                                     head.value.listing(facts.paths), error)))
  }

  /** `evaluate`: an answer is `Trusted` exactly when every reason holds. */
  method Evaluate(facts: Facts, git: Git, disk: Disk, clock: nat -> int, deadline: int,
                  fetch: string -> Result<Head, Failure>) returns (r: Result<Verdict, Failure>)
    requires IsDisk(disk)
    modifies git`runs
    ensures r.Ok? ==> (r.value.Trusted? <==> ShouldTrust(facts, disk, fetch, git.hash))
    ensures r.Err? ==> Fails(facts, git.fails, old(git.runs), disk, clock, deadline, fetch, r.error)
  {
    hide IsDisk, GitHubUrl.GithubRepository, PlainPath, PathFails, Matches, ContentsFail, Parsed, Split;
    if facts.trustedRepositories == [] || facts.paths == [] {
      return Ok(Untrusted);
    }
    if facts.storedOrigin.None? {
      return Ok(Untrusted);
    }
    var repository := GitHubUrl.GithubRepository(facts.storedOrigin.value);
    if repository.None? {
      return Ok(Untrusted);
    }
    if repository.value !in facts.trustedRepositories {
      return Ok(Untrusted);
    }
    if !disk.stat(GIT_ENTRY).Found? {
      return Ok(Untrusted);
    }
    var head := fetch(repository.value);
    if head.Err? {
      return Err(head.error);
    }
    var plain := PathsArePlain(disk, head.value, facts.paths);
    if plain.Err? {
      return Err(plain.error);
    }
    if !plain.value {
      return Ok(Untrusted);
    }
    var same := ContentsMatch(git, disk, clock, deadline, facts.paths, head.value.listing(facts.paths));
    if same.Err? {
      return Err(same.error);
    }
    r := Ok(if same.value then Trusted else Untrusted);
  }

  /** `is_trusted`: a failure is a refusal, so only a complete positive answer trusts. */
  method IsTrusted(facts: Facts, git: Git, disk: Disk, clock: nat -> int, deadline: int,
                   fetch: string -> Result<Head, Failure>) returns (trusted: bool)
    requires IsDisk(disk)
    modifies git`runs
    ensures trusted ==> ShouldTrust(facts, disk, fetch, git.hash)
    ensures !trusted && ShouldTrust(facts, disk, fetch, git.hash) ==>
              exists error :: Fails(facts, git.fails, old(git.runs), disk, clock, deadline, fetch, error)
  {
    hide ShouldTrust, Fails;
    var verdict := Evaluate(facts, git, disk, clock, deadline, fetch);
    trusted := verdict.Ok? && verdict.value.Trusted?;
  }

  /**
   Trust, from the outside: the origin is a trusted GitHub repository; a path is a
   regular file under the declared paths exactly when the remote lists it, with the
   same contents and executable bit; and a declared path that exists is reached
   through real directories under unambiguous literal names.
   */
  lemma TrustMeans(facts: Facts, disk: Disk, fetch: string -> Result<Head, Failure>, hash: seq<Byte> -> string,
                   lines: seq<Line>, x: string, path: string, depth: nat)
    requires IsDisk(disk) && ShouldTrust(facts, disk, fetch, hash)
    requires var repository := GitHubUrl.GithubRepository(facts.storedOrigin.value).value;
             fetch(repository).value.listing(facts.paths) == Ok(Print(lines))
    requires forall line | line in lines :: IsPrintable(line)
    ensures exists owner: string, name: string ::
              && GitHubUrl.Denotes(facts.storedOrigin.value, owner, name)
              && Lower(owner + "/" + name) in facts.trustedRepositories
    ensures IsFileAt(disk, x) && UnderAny(facts.paths, x) <==> exists line | line in lines :: line.path == x
    ensures x in AsMap(lines) ==>
              var file := LiteralAt(disk, x).value;
              AsMap(lines)[x] == Blob(file.executable, hash(file.content))
    ensures path in facts.paths && LiteralAt(disk, path).Some? && 0 < depth < |Split(path, '/')| ==>
              var ancestor := LiteralAt(disk, Prefix(Split(path, '/'), depth));
              ancestor.Some? && ancestor.value.Dir?
    ensures path in facts.paths && LiteralAt(disk, path).Some? ==> Unambiguous(disk, disk.root, Split(path, '/'))
  {
    if path in facts.paths && LiteralAt(disk, path).Some? {
      AcceptedIsUnambiguous(disk, facts.paths, path);
    }
    hide Unambiguous, LiteralAt;
    hide IsDisk, GitHubUrl.GithubRepository, GitHubUrl.Denotes, PlainPath, Matches, Parsed, Split, Print, IsPrintable;
    hide UnderAny, IsFileAt;
    var repository := GitHubUrl.GithubRepository(facts.storedOrigin.value).value;
    GitHubUrl.AcceptsExactlyTheTwoForms(facts.storedOrigin.value, repository);
    ListingRoundTrip(lines);
    MatchMeansSameFiles(disk, hash, facts.paths, Ok(Some(AsMap(lines))), x);
    if path in facts.paths && LiteralAt(disk, path).Some? && 0 < depth < |Split(path, '/')| {
      PlainPathIsReal(disk, fetch(repository).value, path, depth);
    }
  }
}
