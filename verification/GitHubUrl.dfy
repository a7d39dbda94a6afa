/**
 The GitHub remote URL recogniser of the trust predicate
 (crates/daemon/src/checkout_trust.rs, `github_repository`).
 */
module GitHubUrl {
  import opened Wrappers
  import opened Strings

  const HTTPS_SCHEME: string := "https://"
  const GITHUB_HOST: string := "github.com"
  const SCP_USER: string := "git@"
  const GIT_SUFFIX: string := ".git"

  predicate IsOwner(s: string) {
    s != "" && forall c | c in s :: IsAsciiAlphanumeric(c) || c == '-'
  }

  predicate IsRepo(s: string) {
    s != "" && s != "." && s != ".." && forall c | c in s :: IsAsciiAlphanumeric(c) || c in {'.', '_', '-'}
  }

  /** The owner and repository names a remote may carry, by character code: digits, letters, '-'; also '.' and '_'. */
  lemma NamesIff(s: string)
    ensures IsOwner(s) <==> s != "" && forall i | 0 <= i < |s| :: IsLetterOrDigit(s[i] as int) || s[i] as int == 45
    ensures IsRepo(s) <==>
            && s != "" && s != "." && s != ".."
            && forall i | 0 <= i < |s| :: IsLetterOrDigit(s[i] as int) || s[i] as int in {45, 46, 95}
  {
    assert forall i | 0 <= i < |s| :: s[i] in s;
  }

  predicate IsLetterOrDigit(code: int) {
    48 <= code <= 57 || 65 <= code <= 90 || 97 <= code <= 122
  }

  function StripGit(repo: string): (r: string) {
    if EndsWith(repo, GIT_SUFFIX) then repo[..|repo| - 4] else repo
  }

  /** The repository a path `<owner>/<repo>[.git]` names. */
  function RepositoryOf(path: string): (r: Option<string>) {
    match SplitOnce(path, '/')
    case None => None
    case Some((owner, tail)) =>
      var repo := StripGit(tail);
      if IsOwner(owner) && IsRepo(repo) then Some(Lower(owner + "/" + repo)) else None
  }

  /** What follows the host of an accepted remote, as the code cuts it off. */
  function PathOf(url: string): (r: Option<string>) {
    if |url| > |HTTPS_SCHEME| && EqIgnoreAsciiCase(url[..|HTTPS_SCHEME|], HTTPS_SCHEME) then
      match SplitOnce(url[|HTTPS_SCHEME|..], '/')
      case None => None
      case Some((host, path)) => if EqIgnoreAsciiCase(host, GITHUB_HOST) then Some(path) else None
    else if StartsWith(url, SCP_USER) then
      match SplitOnce(url[|SCP_USER|..], ':')
      case None => None
      case Some((host, path)) => if EqIgnoreAsciiCase(host, GITHUB_HOST) then Some(path) else None
    else None
  }

  /** `github_repository`. */
  function GithubRepository(url: string): (r: Option<string>) {
    match PathOf(url)
    case None => None
    case Some(path) => RepositoryOf(path)
  }

  // ------------------------------------------------------------ the two forms

  /** `https://github.com/` in any letter case. */
  predicate IsHttps(prefix: string) {
    EqIgnoreAsciiCase(prefix, HTTPS_SCHEME + GITHUB_HOST + "/")
  }

  /** `git@github.com:`, the host in any letter case. */
  predicate IsScp(prefix: string) {
    StartsWith(prefix, SCP_USER) && EqIgnoreAsciiCase(prefix[|SCP_USER|..], GITHUB_HOST + ":")
  }

  lemma LowerConcat(a: string, b: string)
    ensures Lower(a + b) == Lower(a) + Lower(b)
  {
  }

  /** Letter case never makes or hides a separator. */
  lemma LowerKeepsPunctuation(s: string, c: char)
    requires !('a' <= c <= 'z') && !('A' <= c <= 'Z')
    ensures c in Lower(s) <==> c in s
  {
    if c in s {
      var i :| 0 <= i < |s| && s[i] == c;
      assert Lower(s)[i] == c;
    }
    if c in Lower(s) {
      var i :| 0 <= i < |s| && Lower(s)[i] == c;
      assert s[i] == c;
    }
  }

  /** A host followed by its terminator is cut exactly there. */
  lemma HostCut(text: string, host: string, path: string, end: char)
    requires end in {'/', ':'} && text == host + [end] + path && EqIgnoreAsciiCase(host, GITHUB_HOST)
    ensures SplitOnce(text, end) == Some((host, path))
  {
    LowerKeepsPunctuation(host, end);
    assert end !in GITHUB_HOST;
    LowerKeepsPunctuation(GITHUB_HOST, end);
    SplitOnceUnique(host, path, end);
  }

  lemma HttpsPath(prefix: string, path: string)
    requires IsHttps(prefix)
    ensures PathOf(prefix + path) == Some(path)
  {
    var url := prefix + path;
    LowerConcat(HTTPS_SCHEME, GITHUB_HOST + "/");
    LowerConcat(GITHUB_HOST, "/");
    assert |prefix| == |Lower(prefix)| == 19;
    var scheme, host := prefix[..8], prefix[8..18];
    assert prefix == scheme + host + [prefix[18]];
    LowerConcat(scheme + host, [prefix[18]]);
    LowerConcat(scheme, host);
    var low := Lower(prefix);
    assert low[..8] == Lower(scheme) && low[8..18] == Lower(host) && low[18] == LowerChar(prefix[18]);
    assert low == Lower(HTTPS_SCHEME) + (Lower(GITHUB_HOST) + Lower("/"));
    assert prefix[18] == '/';
    assert url[..8] == scheme && url[8..] == host + ['/'] + path;
    HostCut(url[8..], host, path, '/');
  }

  lemma ScpPath(prefix: string, path: string)
    requires IsScp(prefix)
    ensures PathOf(prefix + path) == Some(path)
  {
    var url := prefix + path;
    LowerConcat(GITHUB_HOST, ":");
    var tail := prefix[4..];
    assert |tail| == |Lower(tail)| == 11;
    var host := tail[..10];
    assert tail == host + [tail[10]];
    LowerConcat(host, [tail[10]]);
    var low := Lower(tail);
    assert low[..10] == Lower(host) && low[10] == LowerChar(tail[10]);
    assert low == Lower(GITHUB_HOST) + Lower(":");
    assert tail[10] == ':';
    assert url[..4] == SCP_USER && url[4..] == host + [':'] + path;
    assert LowerChar(url[0]) == 'g' && Lower(HTTPS_SCHEME)[0] == 'h';
    assert |url| > 8 ==> Lower(url[..8])[0] == 'g';
    HostCut(url[4..], host, path, ':');
  }

  /** A path is cut off only from one of the two forms. */
  lemma PathOfIsExact(url: string)
    requires PathOf(url).Some?
    ensures |PathOf(url).value| <= |url|
    ensures var prefix := url[..|url| - |PathOf(url).value|];
            url == prefix + PathOf(url).value && (IsHttps(prefix) || IsScp(prefix))
  {
    hide SplitOnce, LowerChar, IsHttps, IsScp;
    var path := PathOf(url).value;
    if |url| > 8 && EqIgnoreAsciiCase(url[..8], HTTPS_SCHEME) {
      var host := SplitOnce(url[8..], '/').value.0;
      assert url == url[..8] + url[8..] == (url[..8] + host + ['/']) + path;
      HttpsPrefix(url[..8], host);
    } else {
      var host := SplitOnce(url[4..], ':').value.0;
      assert url == url[..4] + url[4..] == (url[..4] + host + [':']) + path;
      ScpPrefix(host);
    }
  }

  lemma HttpsPrefix(scheme: string, host: string)
    requires EqIgnoreAsciiCase(scheme, HTTPS_SCHEME) && EqIgnoreAsciiCase(host, GITHUB_HOST)
    ensures IsHttps(scheme + host + ['/'])
  {
    LowerConcat(scheme + host, ['/']);
    LowerConcat(scheme, host);
    LowerConcat(HTTPS_SCHEME + GITHUB_HOST, ['/']);
    LowerConcat(HTTPS_SCHEME, GITHUB_HOST);
  }

  lemma ScpPrefix(host: string)
    requires EqIgnoreAsciiCase(host, GITHUB_HOST)
    ensures IsScp(SCP_USER + host + [':'])
  {
    assert (SCP_USER + host + [':'])[4..] == host + [':'];
    LowerConcat(host, [':']);
    LowerConcat(GITHUB_HOST, [':']);
  }

  // ------------------------------------------------------------ the theorems

  /** How a repository name may be written: with one `.git`, or bare when it has none. */
  predicate IsTail(tail: string, name: string) {
    tail == name + GIT_SUFFIX || (tail == name && !EndsWith(name, GIT_SUFFIX))
  }

  lemma StripGitIff(tail: string, name: string)
    ensures StripGit(tail) == name <==> IsTail(tail, name)
  {
    if EndsWith(tail, GIT_SUFFIX) {
      assert tail == tail[..|tail| - 4] + GIT_SUFFIX;
    }
    if tail == name + GIT_SUFFIX {
      assert tail[|tail| - 4..] == GIT_SUFFIX;
      assert tail[..|tail| - 4] == name;
    }
  }

  /** `path` is `<owner>/<name>[.git]` with valid parts. */
  predicate IsPath(path: string, owner: string, name: string) {
    && IsOwner(owner) && IsRepo(name)
    && |path| > |owner| && path[..|owner|] == owner && path[|owner|] == '/'
    && IsTail(path[|owner| + 1..], name)
  }

  lemma RepositoryOfIff(path: string, owner: string, name: string)
    ensures IsPath(path, owner, name) ==> RepositoryOf(path) == Some(Lower(owner + "/" + name))
    ensures RepositoryOf(path).Some? ==>
            var cut := SplitOnce(path, '/').value;
            IsPath(path, cut.0, StripGit(cut.1)) && RepositoryOf(path).value == Lower(cut.0 + "/" + StripGit(cut.1))
  {
    hide SplitOnce, StripGit, Lower;
    if IsPath(path, owner, name) {
      var tail := path[|owner| + 1..];
      assert path == owner + ['/'] + tail;
      assert '/' !in owner;
      SplitOnceUnique(owner, tail, '/');
      StripGitIff(tail, name);
    }
    if RepositoryOf(path).Some? {
      var cut := SplitOnce(path, '/').value;
      assert path[|cut.0| + 1..] == cut.1;
      StripGitIff(cut.1, StripGit(cut.1));
    }
  }

  /** The URL is one of the two documented forms for this repository. */
  ghost predicate Denotes(url: string, owner: string, name: string) {
    exists prefix: string, path: string ::
      (IsHttps(prefix) || IsScp(prefix)) && IsPath(path, owner, name) && url == prefix + path
  }

  /** Exactly the two documented forms are accepted, and the answer is the lower-cased repository. */
  lemma AcceptsExactlyTheTwoForms(url: string, repository: string)
    ensures GithubRepository(url) == Some(repository) <==>
            exists owner: string, name: string :: Denotes(url, owner, name) && repository == Lower(owner + "/" + name)
  {
    if GithubRepository(url) == Some(repository) {
      PathOfIsExact(url);
      var path := PathOf(url).value;
      var cut := SplitOnce(path, '/').value;
      RepositoryOfIff(path, cut.0, StripGit(cut.1));
      assert Denotes(url, cut.0, StripGit(cut.1));
    }
    forall owner: string, name: string | Denotes(url, owner, name) && repository == Lower(owner + "/" + name)
      ensures GithubRepository(url) == Some(repository)
    {
      var prefix, path :|
        (IsHttps(prefix) || IsScp(prefix)) && IsPath(path, owner, name) && url == prefix + path;
      if IsHttps(prefix) { HttpsPath(prefix, path); } else { ScpPath(prefix, path); }
      RepositoryOfIff(path, owner, name);
    }
  }

  /** The https and the scp form of one path, in any letter case of scheme and host, mean the same. */
  lemma FormsAgree(https: string, scp: string, path: string)
    requires IsHttps(https) && IsScp(scp)
    ensures GithubRepository(https + path) == GithubRepository(scp + path) == RepositoryOf(path)
  {
    HttpsPath(https, path);
    ScpPath(scp, path);
  }

  lemma LowerSame(s: string, t: string)
    requires EqIgnoreAsciiCase(s, t)
    ensures |s| == |t| && forall i | 0 <= i < |s| :: LowerChar(s[i]) == LowerChar(t[i])
  {
    assert |s| == |Lower(s)| == |Lower(t)|;
    assert forall i | 0 <= i < |s| :: Lower(s)[i] == Lower(t)[i];
  }

  lemma LowerKeepsOwner(s: string, t: string)
    requires EqIgnoreAsciiCase(s, t) && IsOwner(s)
    ensures IsOwner(t)
  {
    LowerSame(s, t);
    forall c | c in t
      ensures IsAsciiAlphanumeric(c) || c == '-'
    {
      var i :| 0 <= i < |t| && t[i] == c;
      assert s[i] in s;
    }
  }

  lemma LowerKeepsRepo(s: string, t: string)
    requires EqIgnoreAsciiCase(s, t) && IsRepo(s)
    ensures IsRepo(t)
  {
    LowerSame(s, t);
    forall c | c in t
      ensures IsAsciiAlphanumeric(c) || c in {'.', '_', '-'}
    {
      var i :| 0 <= i < |t| && t[i] == c;
      assert s[i] in s;
    }
    if |t| == 1 {
      assert s == [s[0]] && t == [t[0]];
    } else if |t| == 2 {
      assert s == [s[0], s[1]] && t == [t[0], t[1]];
    }
  }

  lemma LowerKeepsParts(s: string, t: string)
    requires EqIgnoreAsciiCase(s, t)
    ensures |s| == |t|
    ensures IsOwner(s) <==> IsOwner(t)
    ensures IsRepo(s) <==> IsRepo(t)
  {
    LowerSame(s, t);
    if IsOwner(s) { LowerKeepsOwner(s, t); }
    if IsOwner(t) { LowerKeepsOwner(t, s); }
    if IsRepo(s) { LowerKeepsRepo(s, t); }
    if IsRepo(t) { LowerKeepsRepo(t, s); }
  }

  /** Cutting two spellings of one path at their first '/' cuts them alike. */
  lemma LowerKeepsCut(p: string, q: string)
    requires EqIgnoreAsciiCase(p, q)
    requires SplitOnce(p, '/').Some?
    ensures SplitOnce(q, '/').Some?
    ensures var a, b := SplitOnce(p, '/').value, SplitOnce(q, '/').value;
            EqIgnoreAsciiCase(a.0, b.0) && EqIgnoreAsciiCase(a.1, b.1)
  {
    hide SplitOnce, LowerChar;
    var a := SplitOnce(p, '/').value;
    var n := |a.0|;
    LowerSlices(p, q, n);
    assert p[..n] == a.0 && p[n + 1..] == a.1 && p[n] == '/';
    LowerKeepsPunctuation(q[..n], '/');
    LowerKeepsPunctuation(a.0, '/');
    LowerKeepsSlash(p, q, n);
    assert q == q[..n] + ['/'] + q[n + 1..];
    SplitOnceUnique(q[..n], q[n + 1..], '/');
  }

  lemma LowerSlices(p: string, q: string, n: nat)
    requires EqIgnoreAsciiCase(p, q) && n < |p|
    ensures |q| == |p|
    ensures Lower(p[..n]) == Lower(q[..n]) && Lower(p[n + 1..]) == Lower(q[n + 1..])
  {
    hide LowerChar;
    assert |q| == |Lower(q)| == |Lower(p)| == |p|;
    assert Lower(p[..n]) == Lower(p)[..n] && Lower(q[..n]) == Lower(q)[..n];
    assert Lower(p[n + 1..]) == Lower(p)[n + 1..] && Lower(q[n + 1..]) == Lower(q)[n + 1..];
  }

  lemma LowerKeepsSlash(p: string, q: string, n: nat)
    requires EqIgnoreAsciiCase(p, q) && n < |p| && |q| == |p| && p[n] == '/'
    ensures q[n] == '/'
  {
    assert Lower(q)[n] == Lower(p)[n] == '/';
  }

  /**
   Letter case of the owner and the repository name does not matter; letter
   case of the `.git` suffix does. Two spellings of one accepted path mean the
   same repository exactly when both or neither end in the literal suffix.
   */
  lemma PathsAgreeIffSuffixesAgree(p: string, q: string)
    requires EqIgnoreAsciiCase(p, q)
    requires RepositoryOf(p).Some?
    ensures RepositoryOf(q) == RepositoryOf(p) <==> (EndsWith(p, GIT_SUFFIX) <==> EndsWith(q, GIT_SUFFIX))
  {
    LowerKeepsCut(p, q);
    var (owner, tail) := SplitOnce(p, '/').value;
    var (owner', tail') := SplitOnce(q, '/').value;
    LowerKeepsParts(owner, owner');
    LowerKeepsParts(tail, tail');
    SuffixOfPath(p);
    SuffixOfPath(q);
    var repo, repo' := StripGit(tail), StripGit(tail');
    if EndsWith(tail, GIT_SUFFIX) <==> EndsWith(tail', GIT_SUFFIX) {
      assert Lower(repo) == Lower(tail)[..|repo|] && Lower(repo') == Lower(tail')[..|repo'|];
      LowerKeepsParts(repo, repo');
      LowerConcat(owner + "/", repo);
      LowerConcat(owner' + "/", repo');
      LowerConcat(owner, "/");
      LowerConcat(owner', "/");
    } else {
      assert |repo| != |repo'|;
      assert |Lower(owner + "/" + repo)| != |Lower(owner' + "/" + repo')|;
    }
  }

  /** The suffix of a path is the suffix of its repository part. */
  lemma SuffixOfPath(p: string)
    requires SplitOnce(p, '/').Some?
    ensures EndsWith(p, GIT_SUFFIX) <==> EndsWith(SplitOnce(p, '/').value.1, GIT_SUFFIX)
  {
    hide SplitOnce;
    var (owner, tail) := SplitOnce(p, '/').value;
    if |tail| >= 4 {
      assert p[|p| - 4..] == tail[|tail| - 4..];
    } else if |p| >= 4 {
      assert p[|owner|] == '/' && p[|p| - 4..][|owner| - (|p| - 4)] == '/';
      assert '/' !in GIT_SUFFIX;
    }
  }

  /** The suffix of a URL is the suffix of its path. */
  lemma SuffixAfter(prefix: string, path: string)
    requires '/' in path
    ensures EndsWith(prefix + path, GIT_SUFFIX) <==> EndsWith(path, GIT_SUFFIX)
  {
    var url := prefix + path;
    if |path| >= 4 {
      assert url[|url| - 4..] == path[|path| - 4..];
    } else if |url| >= 4 {
      var i :| 0 <= i < |path| && path[i] == '/';
      assert url[|url| - 4..][4 - |path| + i] == '/';
      assert '/' !in GIT_SUFFIX;
    }
  }

  lemma LowerCut(u: string, v: string, n: nat)
    requires EqIgnoreAsciiCase(u, v) && n <= |u|
    ensures |v| == |u|
    ensures EqIgnoreAsciiCase(u[..n], v[..n]) && EqIgnoreAsciiCase(u[n..], v[n..])
  {
    hide LowerChar;
    assert |v| == |Lower(v)| == |Lower(u)| == |u|;
    assert Lower(u[..n]) == Lower(u)[..n] && Lower(v[..n]) == Lower(v)[..n];
    assert Lower(u[n..]) == Lower(u)[n..] && Lower(v[n..]) == Lower(v)[n..];
  }

  /** A spelling of an https prefix is one; a spelling of an scp prefix is one exactly with the literal user. */
  lemma PrefixSpelling(a: string, b: string)
    requires EqIgnoreAsciiCase(a, b)
    ensures IsHttps(a) ==> IsHttps(b) && !StartsWith(a, SCP_USER)
    ensures IsScp(a) ==> (IsScp(b) <==> StartsWith(b, SCP_USER))
  {
    if IsHttps(a) {
      assert Lower(a)[0] == 'h';
    }
    if IsScp(a) {
      LowerCut(a, b, |SCP_USER|);
    }
  }

  /** Neither form begins with the user in other letters. */
  lemma CapitalUserHasNoPath(u: string, v: string)
    requires EqIgnoreAsciiCase(u, v) && StartsWith(u, SCP_USER) && !StartsWith(v, SCP_USER)
    ensures PathOf(v).None?
  {
    assert |v| == |Lower(v)| == |Lower(u)| == |u| && u[..4][0] == 'g';
    assert Lower(v)[0] == Lower(u)[0] == 'g';
    assert Lower(HTTPS_SCHEME)[0] == 'h';
    assert |v| > 8 ==> Lower(v[..8])[0] == 'g';
  }

  /**
   Letter case of the scheme, host, owner and name does not matter; that of the
   suffix and of the scp user does. A spelling of an accepted URL means the same
   repository exactly when both or neither end in the literal suffix, and it
   keeps the literal user if there is one.
   */
  lemma LetterCaseMattersOnlyInSuffixAndUser(u: string, v: string)
    requires EqIgnoreAsciiCase(u, v) && GithubRepository(u).Some?
    ensures GithubRepository(v) == GithubRepository(u) <==>
            && (EndsWith(u, GIT_SUFFIX) <==> EndsWith(v, GIT_SUFFIX))
            && (StartsWith(u, SCP_USER) ==> StartsWith(v, SCP_USER))
  {
    hide PathOf, RepositoryOf, EndsWith, StartsWith, EqIgnoreAsciiCase, IsHttps, IsScp;
    PathOfIsExact(u);
    var p := PathOf(u).value;
    var n := |u| - |p|;
    LowerCut(u, v, n);
    var a, b, q := u[..n], v[..n], v[n..];
    assert u[n..] == p && v == b + q;
    SpellingOfPath(a, p, b, q);
    if StartsWith(u, SCP_USER) && !StartsWith(v, SCP_USER) {
      CapitalUserHasNoPath(u, v);
    } else {
      SpellingOfPrefix(a, p, b, q);
      PathsAgreeIffSuffixesAgree(p, q);
    }
  }

  lemma SpellingOfPath(a: string, p: string, b: string, q: string)
    requires EqIgnoreAsciiCase(p, q) && RepositoryOf(p).Some?
    ensures EndsWith(a + p, GIT_SUFFIX) <==> EndsWith(p, GIT_SUFFIX)
    ensures EndsWith(b + q, GIT_SUFFIX) <==> EndsWith(q, GIT_SUFFIX)
  {
    hide Lower;
    LowerKeepsPunctuation(p, '/');
    LowerKeepsPunctuation(q, '/');
    SuffixAfter(a, p);
    SuffixAfter(b, q);
  }

  /** A spelling that keeps the literal user is cut at the same place. */
  lemma SpellingOfPrefix(a: string, p: string, b: string, q: string)
    requires EqIgnoreAsciiCase(a, b) && (IsHttps(a) || IsScp(a))
    requires StartsWith(a + p, SCP_USER) ==> StartsWith(b + q, SCP_USER)
    ensures PathOf(b + q) == Some(q)
  {
    hide PathOf;
    PrefixSpelling(a, b);
    if IsHttps(a) {
      HttpsPath(b, q);
    } else {
      LowerCut(a, b, |SCP_USER|);
      assert (a + p)[..4] == a[..4] && (b + q)[..4] == b[..4];
      ScpPath(b, q);
    }
  }

  /** Writing the suffix in capitals names another repository. */
  lemma UpperCaseSuffixIsAnotherRepository(owner: string, name: string)
    requires IsOwner(owner) && IsRepo(name)
    ensures RepositoryOf(owner + "/" + name + ".git") == Some(Lower(owner + "/" + name))
    ensures RepositoryOf(owner + "/" + name + ".GIT") == Some(Lower(owner + "/" + (name + ".GIT")))
  {
    hide RepositoryOf, Lower, IsOwner, IsRepo;
    var p, q, big := owner + "/" + name + ".git", owner + "/" + name + ".GIT", name + ".GIT";
    var n := |owner|;
    assert p[..n] == owner && p[n] == '/' && p[n + 1..] == name + ".git";
    assert q[..n] == owner && q[n] == '/' && q[n + 1..] == big;
    CapitalSuffixIsAName(name);
    RepositoryOfIff(p, owner, name);
    RepositoryOfIff(q, owner, big);
  }

  lemma CapitalSuffixIsAName(name: string)
    requires IsRepo(name)
    ensures IsRepo(name + ".GIT") && !EndsWith(name + ".GIT", GIT_SUFFIX)
  {
    var big := name + ".GIT";
    assert big[|big| - 4..] == ".GIT";
    assert ".GIT"[1] == 'G' && GIT_SUFFIX[1] == 'g';
    assert forall c | c in big :: c in name || c in ".GIT";
  }

  lemma BarePath(owner: string, name: string)
    requires IsOwner(owner) && IsRepo(name) && !EndsWith(name, GIT_SUFFIX)
    ensures RepositoryOf(owner + "/" + name) == Some(Lower(owner + "/" + name))
  {
    hide RepositoryOf, Lower, IsOwner, IsRepo, EndsWith;
    var p, n := owner + "/" + name, |owner|;
    assert p[..n] == owner && p[n] == '/' && p[n + 1..] == name;
    RepositoryOfIff(p, owner, name);
  }

  lemma SmallNames()
    ensures IsOwner("o") && IsRepo("r") && !EndsWith("r", GIT_SUFFIX)
    ensures Lower("o/r") == "o/r" && Lower("o/r.GIT") == "o/r.git"
  {
  }

  lemma SmallPaths()
    ensures RepositoryOf("o/r") == RepositoryOf("o/r.git") == Some("o/r")
    ensures RepositoryOf("o/r.GIT") == Some("o/r.git")
  {
    SmallNames();
    hide RepositoryOf, Lower, IsOwner, IsRepo, EndsWith;
    assert "o" + "/" + "r" == "o/r" && "o" + "/" + "r" + ".git" == "o/r.git";
    assert "o" + "/" + "r" + ".GIT" == "o/r.GIT" == "o" + "/" + ("r" + ".GIT");
    BarePath("o", "r");
    UpperCaseSuffixIsAnotherRepository("o", "r");
  }

  /** Remotes that differ in the letter case of the suffix name two repositories. */
  lemma SuffixExample()
    ensures GithubRepository("https://github.com/o/r.git") == Some("o/r")
    ensures GithubRepository("https://github.com/o/r.GIT") == Some("o/r.git")
  {
    hide PathOf, RepositoryOf, EqIgnoreAsciiCase;
    SmallPaths();
    var https := "https://github.com/";
    assert IsHttps(https) by {
      assert https == HTTPS_SCHEME + GITHUB_HOST + "/";
      SameSpelling(https);
    }
    HttpsPath(https, "o/r.git");
    HttpsPath(https, "o/r.GIT");
    assert https + "o/r.git" == "https://github.com/o/r.git" && https + "o/r.GIT" == "https://github.com/o/r.GIT";
  }

  lemma SameSpelling(s: string)
    ensures EqIgnoreAsciiCase(s, s)
  {
  }

  /** With the scp user in other letters, a remote is no GitHub repository. */
  lemma UserExample()
    ensures GithubRepository("git@github.com:o/r") == Some("o/r")
    ensures GithubRepository("GIT@github.com:o/r") == None
  {
    hide PathOf, RepositoryOf, EqIgnoreAsciiCase, StartsWith;
    SmallPaths();
    var scp, big := "git@github.com:", "GIT@github.com:o/r";
    UserSpellings(scp, big);
    ScpPath(scp, "o/r");
    assert scp + "o/r" == "git@github.com:o/r";
    CapitalUserHasNoPath("git@github.com:o/r", big);
  }

  lemma UserSpellings(scp: string, big: string)
    requires scp == "git@github.com:" && big == "GIT@github.com:o/r"
    ensures IsScp(scp) && StartsWith("git@github.com:o/r", SCP_USER) && !StartsWith(big, SCP_USER)
    ensures EqIgnoreAsciiCase("git@github.com:o/r", big)
  {
    assert scp[..4] == SCP_USER && scp[4..] == GITHUB_HOST + ":";
    assert big[..4][0] != SCP_USER[0];
    assert Lower("git@github.com:o/r") == "git@github.com:o/r" == Lower(big);
  }
}
