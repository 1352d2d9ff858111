/**
 * The string logic of the git service (backend/src/services/git.ts): where a
 * project lives on disk and how a GitHub token is put into a remote URL.
 */
module Git {
  import opened Results
  import opened Strings
  import opened Paths

  // ------------------------------------------------------------ project paths

  /** `getProjectPath(userId, projectId)`: `path.join(WORKSPACE_DIR, userId, projectId)`. */
  function ProjectPath(workspaceDir: string, userId: string, projectId: string): (r: string)
    ensures r != ""
  {
    JoinPaths([workspaceDir, userId, projectId])
  }

  /** `getProjectPath(projectId)`: `path.join(WORKSPACE_DIR, 'projects', projectId)`. */
  function ProjectPathById(workspaceDir: string, projectId: string): (r: string)
    ensures r != ""
  {
    JoinPaths([workspaceDir, "projects", projectId])
  }

  /**
   * The one-argument overload lands in the directory of a user whose id is
   * "projects": the two overloads share that part of the workspace.
   */
  lemma OverloadsShareProjectsDir(workspaceDir: string, projectId: string)
    ensures ProjectPathById(workspaceDir, projectId) == ProjectPath(workspaceDir, "projects", projectId)
  {
  }

  /**
   * With an absolute workspace directory and ids that are plain path segments,
   * the project directory is the workspace, the user id and the project id joined by '/'.
   */
  lemma ProjectPathPlain(workspaceSegs: seq<string>, userId: string, projectId: string)
    requires |workspaceSegs| >= 1 && AllPlain(workspaceSegs)
    requires Plain(userId) && Plain(projectId)
    ensures ProjectPath("/" + Join(workspaceSegs, '/'), userId, projectId)
         == "/" + Join(workspaceSegs, '/') + "/" + userId + "/" + projectId
  {
    var w := "/" + Join(workspaceSegs, '/');
    var rel := Join([userId, projectId], '/');
    JoinPair(userId, projectId);
    calc {
      ProjectPath(w, userId, projectId);
      JoinPaths([w, userId, projectId]);
      { ThreeAsTwo(w, userId, projectId, rel); }
      JoinPaths([w, rel]);
      { JoinPlain(workspaceSegs, [userId, projectId]); }
      w + "/" + rel;
      { ConcatAssoc3(w, userId, projectId); }
      w + "/" + userId + "/" + projectId;
    }
  }

  lemma JoinPair(u: string, p: string)
    ensures Join([u, p], '/') == u + "/" + p
  {
    assert [u, p][1..] == [p];
  }

  /** Joining three non-empty parts is joining the first with the other two glued. */
  lemma ThreeAsTwo(w: string, u: string, p: string, rel: string)
    requires w != "" && u != "" && p != "" && rel == u + "/" + p
    ensures JoinPaths([w, u, p]) == JoinPaths([w, rel])
  {
    GlueThree(w, u, p);
    GlueTwo(w, rel);
    SameGlue([w, u, p], [w, rel]);
  }

  /** `path.join` depends on its arguments only through their glued form. */
  lemma SameGlue(a: seq<string>, b: seq<string>)
    requires Glue(a) == Glue(b)
    ensures JoinPaths(a) == JoinPaths(b)
  {
  }

  lemma ConcatAssoc3(w: string, u: string, p: string)
    ensures w + "/" + (u + "/" + p) == w + "/" + u + "/" + p
  {
  }

  // ------------------------------------------------- clone / init token rewrite

  const GithubPrefix := "https://github.com/"

  function AuthenticatedPrefix(token: string): string {
    "https://" + token + "@github.com/"
  }

  /**
   * `repoUrl.replace('https://github.com/', 'https://<token>@github.com/')` in
   * `cloneRepository` and `initAndPushRepo`: only the first occurrence changes.
   */
  function CloneUrl(repoUrl: string, token: string): (r: string)
    ensures IndexOf(repoUrl, GithubPrefix).None? ==> r == repoUrl
    ensures IndexOf(repoUrl, GithubPrefix).Some? && '$' !in token ==>
      var i := IndexOf(repoUrl, GithubPrefix).value;
      r == repoUrl[..i] + AuthenticatedPrefix(token) + repoUrl[i + |GithubPrefix|..]
  {
    TokenPlain(token);
    ReplaceFirst(repoUrl, GithubPrefix, AuthenticatedPrefix(token))
  }

  /** A token without '$' is put into the URL as it is, whatever the match. */
  lemma TokenPlain(token: string)
    ensures '$' !in token ==>
      forall matched, before, after, groups ::
        ExpandReplacement(AuthenticatedPrefix(token), matched, before, after, groups) == AuthenticatedPrefix(token)
  {
    if '$' !in token {
      TokenDollarFree(token);
      forall matched, before, after, groups {
        ExpandPlain(AuthenticatedPrefix(token), matched, before, after, groups);
      }
    }
  }

  lemma TokenDollarFree(token: string)
    requires '$' !in token
    ensures '$' !in AuthenticatedPrefix(token)
  {
    assert '$' !in "https://" && '$' !in "@github.com/";
  }

  /** A URL that starts with the bare GitHub prefix gets the token right after "https://". */
  lemma CloneUrlPlain(rest: string, token: string)
    requires '$' !in token
    ensures CloneUrl(GithubPrefix + rest, token) == AuthenticatedPrefix(token) + rest
  {
    var url := GithubPrefix + rest;
    assert OccursAt(url, GithubPrefix, 0);
  }

  // ------------------------------------------------- pull / branch token rewrite

  const Scheme := "https://"
  const Host := "github.com/"

  /**
   * Length of the match of `/https:\/\/([^@]+@)?github\.com\//` starting at `i`, if
   * it matches there. The optional group is tried first: a non-empty run of
   * non-'@' characters must end at an '@' that is followed by the host.
   */
  function MatchLength(s: string, i: nat): (r: Option<nat>)
    ensures r.Some? ==> i + r.value <= |s| && OccursAt(s, Scheme, i)
  {
    if !OccursAt(s, Scheme, i) then None
    else
      var j := i + |Scheme|;
      match IndexOfFrom(s, "@", j)
      case Some(k) =>
        if k > j && OccursAt(s, Host, k + 1) then Some(k + 1 + |Host| - i)
        else if OccursAt(s, Host, j) then Some(|Scheme| + |Host|)
        else None
      case None =>
        if OccursAt(s, Host, j) then Some(|Scheme| + |Host|) else None
  }

  /** The text of the optional credential group `([^@]+@)` of the match at `i`; "" when it took no part. */
  function Group1(s: string, i: nat): string {
    if !OccursAt(s, Scheme, i) then ""
    else
      var j := i + |Scheme|;
      match IndexOfFrom(s, "@", j)
      case Some(k) => if k > j && OccursAt(s, Host, k + 1) then s[j..k + 1] else ""
      case None => ""
  }

  /** The leftmost match at or after `from`: its start and length. */
  function FirstMatchFrom(s: string, from: nat): (r: Option<(nat, nat)>)
    decreases |s| - from
    ensures r.Some? ==> from <= r.value.0 && MatchLength(s, r.value.0) == Some(r.value.1)
    ensures r.Some? ==> forall j :: from <= j < r.value.0 ==> MatchLength(s, j).None?
    ensures r.None? ==> forall j :: from <= j ==> MatchLength(s, j).None?
  {
    if from > |s| then None
    else match MatchLength(s, from)
      case Some(n) => Some((from, n))
      case None => FirstMatchFrom(s, from + 1)
  }

  /**
   * `url.replace(/https:\/\/([^@]+@)?github\.com\//, 'https://<token>@github.com/')`
   * in `pullRepository` and `createAndPushBranch`: the first match, with or without
   * a credential, becomes the authenticated prefix, whose substitution patterns
   * (the token's own '$' among them) are expanded against the match.
   */
  function RemoteUrl(url: string, token: string): (r: string)
  {
    CredentialReplace(url, AuthenticatedPrefix(token))
  }

  /** `url.replace(/https:\/\/([^@]+@)?github\.com\//, rep)`: the first match, replaced by `rep` expanded against it. */
  function CredentialReplace(url: string, rep: string): (r: string)
  {
    match FirstMatchFrom(url, 0)
    case None => url
    case Some((i, n)) =>
      url[..i] + ExpandReplacement(rep, url[i..i + n], url[..i], url[i + n..], [Group1(url, i)]) + url[i + n..]
  }

  /** An existing credential (non-empty, without '@') is replaced by the token. */
  lemma RemoteUrlReplacesCredential(credential: string, rest: string, token: string)
    requires credential != "" && '@' !in credential && '$' !in token
    ensures RemoteUrl(AuthenticatedPrefix(credential) + rest, token) == AuthenticatedPrefix(token) + rest
  {
    var url := AuthenticatedPrefix(credential) + rest;
    var n := CredentialMatch(credential, rest);
    RemoteUrlOfMatch(url, n, token);
    TokenDollarFree(token);
    ExpandPlain(AuthenticatedPrefix(token), url[0..n], url[..0], url[n..], [Group1(url, 0)]);
  }

  /** The match in a URL carrying a credential: the whole prefix, with the credential and its '@' as the group. */
  lemma CredentialMatch(credential: string, rest: string) returns (n: nat)
    requires credential != "" && '@' !in credential
    ensures var url := AuthenticatedPrefix(credential) + rest;
      && n <= |url|
      && FirstMatchFrom(url, 0) == Some((0, n))
      && Group1(url, 0) == credential + "@"
      && url[n..] == rest
  {
    var url := AuthenticatedPrefix(credential) + rest;
    var j := |Scheme|;
    var k := j + |credential|;
    n := k + 1 + |Host|;
    CredentialUrlShape(credential, rest);
    CharFirstAt(url, '@', j, k);
    assert MatchLength(url, 0) == Some(n);
    assert url[j..k + 1] == url[j..k] + [url[k]];
  }

  /** A match at the very start is replaced by the expanded replacement. */
  lemma RemoteUrlOfMatch(url: string, n: nat, token: string)
    requires n <= |url| && FirstMatchFrom(url, 0) == Some((0, n))
    ensures RemoteUrl(url, token)
         == ExpandReplacement(AuthenticatedPrefix(token), url[0..n], url[..0], url[n..], [Group1(url, 0)]) + url[n..]
  {
    ReplaceAtStart(url, n, AuthenticatedPrefix(token));
  }

  lemma ReplaceAtStart(url: string, n: nat, rep: string)
    requires n <= |url| && FirstMatchFrom(url, 0) == Some((0, n))
    ensures CredentialReplace(url, rep) == ExpandReplacement(rep, url[0..n], url[..0], url[n..], [Group1(url, 0)]) + url[n..]
  {
    var e := ExpandReplacement(rep, url[0..n], url[..0], url[n..], [Group1(url, 0)]);
    EmptyHead(url, e, url[n..]);
  }

  lemma EmptyHead(s: string, x: string, y: string)
    ensures s[..0] + x + y == x + y
  {
    assert s[..0] == [];
  }

  /**
   * A token spelling "$1" is not put in literally: the regex's credential group is
   * substituted for it, so the old credential comes back with an extra '@'.
   */
  lemma GroupReferenceInToken(credential: string, rest: string)
    requires credential != "" && '@' !in credential
    ensures RemoteUrl(AuthenticatedPrefix(credential) + rest, "$1") == AuthenticatedPrefix(credential + "@") + rest
  {
    var url := AuthenticatedPrefix(credential) + rest;
    var n := CredentialMatch(credential, rest);
    RemoteUrlOfMatch(url, n, "$1");
    DollarOneExpands(credential + "@", url[0..n], url[..0], url[n..]);
  }

  lemma DollarOneExpands(g: string, matched: string, before: string, after: string)
    ensures ExpandReplacement(AuthenticatedPrefix("$1"), matched, before, after, [g]) == AuthenticatedPrefix(g)
  {
    var tail := "@github.com/";
    PrefixParts("$1", tail);
    PrefixParts(g, tail);
    ExpandAround(Scheme, "$1", tail, g, matched, before, after);
  }

  /** A group reference between two '$'-free literals expands to the group between them. */
  lemma ExpandAround(pre: string, ref: string, post: string, g: string, matched: string, before: string, after: string)
    requires '$' !in pre && '$' !in post && ref == "$1" && post != [] && post[0] == '@'
    ensures ExpandReplacement(pre + (ref + post), matched, before, after, [g]) == pre + (g + post)
  {
    ExpandPlainPrefix(pre, ref + post, matched, before, after, [g]);
    ExpandGroupOne(ref, post, g, matched, before, after);
    ExpandPlain(post, matched, before, after, [g]);
  }

  /** The authenticated prefix around `x`, split into '$'-free literal parts. */
  lemma PrefixParts(x: string, tail: string)
    requires tail == "@github.com/"
    ensures AuthenticatedPrefix(x) == Scheme + (x + tail)
    ensures '$' !in Scheme && '$' !in tail
    ensures tail[0] == '@'
  {
  }

  /** "$1" followed by a non-digit stands for the first group. */
  lemma ExpandGroupOne(ref: string, rest: string, g: string, matched: string, before: string, after: string)
    requires ref == "$1" && rest != [] && rest[0] == '@'
    ensures ExpandReplacement(ref + rest, matched, before, after, [g]) == g + ExpandReplacement(rest, matched, before, after, [g])
  {
    var r := ref + rest;
    assert r[0] == '$' && r[1] == '1' && r[2] == '@' && r[2..] == rest;
    assert IsDigit(r[1]) && DigitValue(r[1]) == 1 && !IsDigit(r[2]);
  }


  /** The pieces of a URL that carries a credential. */
  lemma CredentialUrlShape(credential: string, rest: string)
    requires credential != "" && '@' !in credential
    ensures var url := AuthenticatedPrefix(credential) + rest;
      var k := |Scheme| + |credential|;
      && k + 1 + |Host| <= |url|
      && OccursAt(url, Scheme, 0)
      && url[k] == '@'
      && url[|Scheme|..k] == credential
      && OccursAt(url, Host, k + 1)
      && url[k + 1 + |Host|..] == rest
  {
    var url := AuthenticatedPrefix(credential) + rest;
    var k := |Scheme| + |credential|;
    assert url == Scheme + credential + "@" + Host + rest;
    assert url[|Scheme|..k] == credential;
    assert url[k + 1..k + 1 + |Host|] == Host;
    assert url[k + 1 + |Host|..] == rest;
  }

  /** The first occurrence of `[c]` at or after `j` is at `k` when `s[j..k]` has no `c`. */
  lemma CharFirstAt(s: string, c: char, j: nat, k: nat)
    requires j <= k < |s| && s[k] == c && c !in s[j..k]
    ensures IndexOfFrom(s, [c], j) == Some(k)
  {
    assert OccursAt(s, [c], k) by {
      assert s[k..k + 1] == [c];
    }
    forall m | j <= m < k ensures !OccursAt(s, [c], m) {
      assert s[m] == s[j..k][m - j];
    }
  }

  /** No occurrence of the one-character pattern `[c]` starts at or after `j`. */
  lemma CharAbsentFrom(s: string, c: char, j: nat)
    requires j <= |s| && c !in s[j..]
    ensures IndexOfFrom(s, [c], j).None?
  {
    forall m | j <= m < |s| ensures s[m] != c {
      assert s[m] == s[j..][m - j];
      assert s[j..][m - j] in s[j..];
    }
    forall m | j <= m ensures !OccursAt(s, [c], m) {
      if m < |s| {
        assert s[m..m + 1][0] == s[m];
      }
    }
  }

  /** The plain GitHub prefix is the scheme followed by the host. */
  lemma PlainUrlShape(rest: string)
    requires '@' !in rest
    ensures OccursAt(GithubPrefix + rest, Scheme, 0)
    ensures OccursAt(GithubPrefix + rest, Host, |Scheme|)
    ensures |Scheme| <= |GithubPrefix + rest|
    ensures '@' !in (GithubPrefix + rest)[|Scheme|..]
  {
    var url := GithubPrefix + rest;
    assert url == Scheme + Host + rest;
    assert url[|Scheme|..] == Host + rest;
    assert '@' !in Host;
  }

  /**
   * A URL without a credential gets the token, as the clone rewrite would do, as
   * long as no '@' follows: otherwise the optional credential group of the regex
   * would swallow everything up to that '@'.
   */
  lemma RemoteUrlPlain(rest: string, token: string)
    requires '@' !in rest && '$' !in token
    ensures RemoteUrl(GithubPrefix + rest, token) == AuthenticatedPrefix(token) + rest
    ensures RemoteUrl(GithubPrefix + rest, token) == CloneUrl(GithubPrefix + rest, token)
  {
    var url := GithubPrefix + rest;
    PlainUrlShape(rest);
    CharAbsentFrom(url, '@', |Scheme|);
    assert MatchLength(url, 0) == Some(|Scheme| + |Host|);
    TokenPlain(token);
    CloneUrlPlain(rest, token);
  }

  /** Rewriting a URL that already carries the same token changes nothing. */
  lemma RemoteUrlIdempotent(rest: string, token: string)
    requires token != "" && '@' !in token && '$' !in token
    ensures RemoteUrl(AuthenticatedPrefix(token) + rest, token) == AuthenticatedPrefix(token) + rest
  {
    RemoteUrlReplacesCredential(token, rest, token);
  }

  /** The pull rewrite leaves the result of the clone rewrite as it is. */
  lemma CloneThenRemoteUrl(rest: string, token: string)
    requires token != "" && '@' !in token && '$' !in token
    ensures RemoteUrl(CloneUrl(GithubPrefix + rest, token), token) == CloneUrl(GithubPrefix + rest, token)
  {
    CloneUrlPlain(rest, token);
    RemoteUrlIdempotent(rest, token);
  }

  /** An occurrence of the bare GitHub prefix starts with 'h' and has '/' 18 characters later. */
  lemma PrefixShape(url: string, i: int)
    requires OccursAt(url, GithubPrefix, i)
    ensures url[i] == 'h' && url[i + 18] == '/'
  {
    assert url[i..i + 19][0] == url[i];
    assert url[i..i + 19][18] == url[i + 18];
  }

  /** Example: the clone rewrite does not touch a URL that already embeds a credential. */
  lemma CloneUrlKeepsCredential()
    ensures CloneUrl("https://tok@github.com/o/r", "T") == "https://tok@github.com/o/r"
  {
    var url := "https://tok@github.com/o/r";
    assert |url| == 26;
    forall i | 0 <= i ensures !OccursAt(url, GithubPrefix, i) {
      if OccursAt(url, GithubPrefix, i) {
        PrefixShape(url, i);
      }
    }
  }
}
