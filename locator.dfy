/** The repository locator: `extract_platform_and_username` maps a remote URL
    in HTTPS form (`https://host/owner/repo`) or SSH form (`git@host:owner/repo`)
    to the relative storage path `host/owner/repo`, or to `None`. */
module Locator {
  import opened Wrappers
  import opened PyStr

  /** The separator between the three components of the storage path
      (`os.sep` on a POSIX host). */
  const Sep: char := '/'

  const HttpsScheme: string := "https://"
  const SshScheme: string := "git@"
  const GitSuffix: string := ".git"

  /** The three capture groups of a successful match. */
  datatype Groups = Groups(platform: string, owner: string, repo: string)

  /** The text the groups and the literal parts of the pattern cover. */
  function MatchedText(scheme: string, hostEnd: char, g: Groups): string {
    scheme + g.platform + [hostEnd] + g.owner + "/" + g.repo
  }

  /** The pattern `scheme([^E]+)E([^/]+)/([^/]+)(\.git)?`, where `E` is `hostEnd`,
      matches a prefix of `url` with these groups: each group is non-empty and
      free of the character that ends it. Several choices of the last group may
      fit the same URL. */
  predicate PatternMatches(url: string, scheme: string, hostEnd: char, g: Groups) {
    && g.platform != [] && hostEnd !in g.platform
    && g.owner != [] && '/' !in g.owner
    && g.repo != [] && '/' !in g.repo
    && StartsWith(url, MatchedText(scheme, hostEnd, g))
  }

  /** The groups `re.match` reports: the last run is as long as it can be, so the
      URL ends after it or continues with a '/'; the optional `(\.git)?` then
      matches the empty string and never shortens the last group. */
  predicate Greedy(url: string, scheme: string, hostEnd: char, g: Groups) {
    && PatternMatches(url, scheme, hostEnd, g)
    && var n := |MatchedText(scheme, hostEnd, g)|;
       n == |url| || url[n] == '/'
  }

  /** `re.match` of the pattern against `url`, as a left-to-right scan: each run
      is taken up to its delimiter, and a match needs every run non-empty. */
  function MatchUrl(url: string, scheme: string, hostEnd: char): (m: Option<Groups>)
    ensures m.Some? ==> StartsWith(url, scheme)
    ensures m.Some? ==> && m.value.platform != [] && hostEnd !in m.value.platform
                        && m.value.owner != [] && '/' !in m.value.owner
                        && m.value.repo != [] && '/' !in m.value.repo
  {
    if !StartsWith(url, scheme) then None
    else
      var a := |scheme|;
      var b := RunEnd(url, a, hostEnd);
      if b == a || b == |url| then None
      else
        var c := RunEnd(url, b + 1, '/');
        if c == b + 1 || c == |url| then None
        else
          var d := RunEnd(url, c + 1, '/');
          if d == c + 1 then None
          else Some(Groups(url[a..b], url[b + 1..c], url[c + 1..d]))
  }

  /** What the scan returns are groups `re.match` reports. */
  lemma MatchUrlSound(url: string, scheme: string, hostEnd: char)
    ensures var m := MatchUrl(url, scheme, hostEnd);
            m.Some? ==> Greedy(url, scheme, hostEnd, m.value)
  {
    var m := MatchUrl(url, scheme, hostEnd);
    if m.Some? {
      var a := |scheme|;
      var b := RunEnd(url, a, hostEnd);
      var c := RunEnd(url, b + 1, '/');
      var d := RunEnd(url, c + 1, '/');
      var g := Groups(url[a..b], url[b + 1..c], url[c + 1..d]);
      assert m == Some(g);
      assert url[..b] == scheme + g.platform by {
        assert url[..b] == url[..a] + url[a..b];
      }
      assert url[..b + 1] == scheme + g.platform + [hostEnd] by {
        assert url[..b + 1] == url[..b] + [url[b]];
      }
      assert url[..c] == scheme + g.platform + [hostEnd] + g.owner by {
        assert url[..c] == url[..b + 1] + url[b + 1..c];
      }
      assert url[..c + 1] == scheme + g.platform + [hostEnd] + g.owner + "/" by {
        assert url[..c + 1] == url[..c] + [url[c]];
      }
      assert url[..d] == MatchedText(scheme, hostEnd, g) by {
        assert url[..d] == url[..c + 1] + url[c + 1..d];
      }
    }
  }

  /** The scan at given run ends. */
  lemma MatchUrlAt(url: string, scheme: string, hostEnd: char, b: nat, c: nat, d: nat)
    requires StartsWith(url, scheme)
    requires |scheme| < b < |url| && RunEnd(url, |scheme|, hostEnd) == b
    requires b + 1 < c < |url| && RunEnd(url, b + 1, '/') == c
    requires c + 1 < d <= |url| && RunEnd(url, c + 1, '/') == d
    ensures MatchUrl(url, scheme, hostEnd) == Some(Groups(url[|scheme|..b], url[b + 1..c], url[c + 1..d]))
  {
  }

  /** Whenever the pattern fits a prefix of `url` at all, the scan succeeds with
      the same host and owner and a last group that extends the given one. */
  lemma MatchUrlComplete(url: string, scheme: string, hostEnd: char, g: Groups)
    requires PatternMatches(url, scheme, hostEnd, g)
    ensures MatchUrl(url, scheme, hostEnd).Some?
    ensures var m := MatchUrl(url, scheme, hostEnd).value;
            m.platform == g.platform && m.owner == g.owner && StartsWith(m.repo, g.repo)
  {
    MatchedTextParts(url, scheme, hostEnd, g);
    var b := |scheme| + |g.platform|;
    var c := b + 1 + |g.owner|;
    MatchUrlFromParts(url, scheme, hostEnd, g, b, c, c + 1 + |g.repo|);
  }

  /** The scan over a URL whose runs hold the groups at the places the pattern
      puts them. */
  lemma MatchUrlFromParts(url: string, scheme: string, hostEnd: char, g: Groups, b: nat, c: nat, d: nat)
    requires g.platform != [] && g.owner != [] && g.repo != []
    requires b == |scheme| + |g.platform| && c == b + 1 + |g.owner| && d == c + 1 + |g.repo|
    requires d <= |url| && StartsWith(url, scheme)
    requires url[|scheme|..b] == g.platform && url[b + 1..c] == g.owner && url[c + 1..d] == g.repo
    requires RunEnd(url, |scheme|, hostEnd) == b && RunEnd(url, b + 1, '/') == c
    requires RunEnd(url, c + 1, '/') >= d
    ensures MatchUrl(url, scheme, hostEnd).Some?
    ensures var m := MatchUrl(url, scheme, hostEnd).value;
            m.platform == g.platform && m.owner == g.owner && StartsWith(m.repo, g.repo)
  {
    var e := RunEnd(url, c + 1, '/');
    MatchUrlAt(url, scheme, hostEnd, b, c, e);
    SlicePrefix(url, c + 1, d, e);
  }

  /** Where the groups sit in a URL that the pattern fits, and where the scan
      stops in it. */
  lemma MatchedTextParts(url: string, scheme: string, hostEnd: char, g: Groups)
    requires PatternMatches(url, scheme, hostEnd, g)
    ensures var a := |scheme|;
            var b := a + |g.platform|;
            var c := b + 1 + |g.owner|;
            var d := c + 1 + |g.repo|;
            && d <= |url| && StartsWith(url, scheme)
            && url[a..b] == g.platform && url[b + 1..c] == g.owner && url[c + 1..d] == g.repo
            && RunEnd(url, a, hostEnd) == b && RunEnd(url, b + 1, '/') == c
            && RunEnd(url, c + 1, '/') >= d
  {
    var a := |scheme|;
    var b := a + |g.platform|;
    var c := b + 1 + |g.owner|;
    MatchedTextSlices(url, scheme, hostEnd, g);
    RunEndOver(url, a, g.platform, hostEnd);
    RunEndOver(url, b + 1, g.owner, '/');
    RunEndOver(url, c + 1, g.repo, '/');
  }

  /** The groups and the literal parts of the pattern as slices of the URL. */
  lemma MatchedTextSlices(url: string, scheme: string, hostEnd: char, g: Groups)
    requires StartsWith(url, MatchedText(scheme, hostEnd, g))
    ensures var a := |scheme|;
            var b := a + |g.platform|;
            var c := b + 1 + |g.owner|;
            var d := c + 1 + |g.repo|;
            && d <= |url| && url[..a] == scheme
            && url[a..b] == g.platform && url[b] == hostEnd
            && url[b + 1..c] == g.owner && url[c] == '/' && url[c + 1..d] == g.repo
  {
    var a := |scheme|;
    var b := a + |g.platform|;
    var c := b + 1 + |g.owner|;
    var t2 := scheme + g.platform;
    var t3 := t2 + [hostEnd];
    var t4 := t3 + g.owner;
    var t5 := t4 + "/";
    PrefixParts(url, t5, g.repo);
    PrefixParts(url, t4, "/");
    PrefixParts(url, t3, g.owner);
    PrefixParts(url, t2, [hostEnd]);
    PrefixParts(url, scheme, g.platform);
    assert url[b] == url[b..b + 1][0];
    assert url[c] == url[c..c + 1][0];
  }

  /** The scan returns exactly the groups `re.match` reports, and nothing when
      there are none. */
  lemma MatchUrlIff(url: string, scheme: string, hostEnd: char, g: Groups)
    ensures MatchUrl(url, scheme, hostEnd) == Some(g) <==> Greedy(url, scheme, hostEnd, g)
  {
    MatchUrlSound(url, scheme, hostEnd);
    if Greedy(url, scheme, hostEnd, g) {
      MatchUrlComplete(url, scheme, hostEnd, g);
      var m := MatchUrl(url, scheme, hostEnd).value;
      assert m.repo == g.repo;
    }
  }

  /** The storage path: the three groups joined by `Sep`, with every `.git`
      removed from the repository group by `str.replace`. */
  function StoragePath(g: Groups): (path: string)
    ensures StartsWith(path, g.platform + [Sep] + g.owner + [Sep])
    ensures |path| <= |g.platform| + |g.owner| + |g.repo| + 2
  {
    var prefix := g.platform + [Sep] + g.owner + [Sep];
    assert (prefix + Replace(g.repo, GitSuffix, ""))[..|prefix|] == prefix;
    prefix + Replace(g.repo, GitSuffix, "")
  }

  /** `extract_platform_and_username`: the HTTPS pattern is tried first, then
      the SSH pattern; anything else gives `None`. */
  function ExtractPlatformAndUsername(url: string): (path: Option<string>)
    ensures !StartsWith(url, HttpsScheme) && !StartsWith(url, SshScheme) ==> path.None?
  {
    match MatchUrl(url, HttpsScheme, '/')
    case Some(g) => Some(StoragePath(g))
    case None =>
      match MatchUrl(url, SshScheme, ':')
      case Some(g) => Some(StoragePath(g))
      case None => None
  }

  /** A URL gives no path exactly when neither pattern fits any prefix of it. */
  lemma ExtractNoneIff(url: string)
    ensures ExtractPlatformAndUsername(url).None? <==>
            forall g :: !PatternMatches(url, HttpsScheme, '/', g) && !PatternMatches(url, SshScheme, ':', g)
  {
    MatchUrlSound(url, HttpsScheme, '/');
    MatchUrlSound(url, SshScheme, ':');
    if ExtractPlatformAndUsername(url).None? {
      forall g ensures !PatternMatches(url, HttpsScheme, '/', g) && !PatternMatches(url, SshScheme, ':', g) {
        if PatternMatches(url, HttpsScheme, '/', g) { MatchUrlComplete(url, HttpsScheme, '/', g); }
        if PatternMatches(url, SshScheme, ':', g) { MatchUrlComplete(url, SshScheme, ':', g); }
      }
    }
  }

  /** The path comes from the groups `re.match` reports for the HTTPS pattern
      when that pattern fits, and from the SSH pattern's groups otherwise. */
  lemma ExtractFromGroups(url: string, g: Groups)
    ensures Greedy(url, HttpsScheme, '/', g) ==>
              ExtractPlatformAndUsername(url) == Some(StoragePath(g))
    ensures (forall h :: !PatternMatches(url, HttpsScheme, '/', h)) && Greedy(url, SshScheme, ':', g) ==>
              ExtractPlatformAndUsername(url) == Some(StoragePath(g))
  {
    if Greedy(url, HttpsScheme, '/', g) {
      MatchUrlIff(url, HttpsScheme, '/', g);
    }
    if (forall h :: !PatternMatches(url, HttpsScheme, '/', h)) && Greedy(url, SshScheme, ':', g) {
      MatchUrlSound(url, HttpsScheme, '/');
      MatchUrlIff(url, SshScheme, ':', g);
    }
  }

  function HttpsUrl(host: string, owner: string, repo: string): string {
    HttpsScheme + host + "/" + owner + "/" + repo
  }

  function SshUrl(host: string, owner: string, repo: string): string {
    SshScheme + host + ":" + owner + "/" + repo
  }

  /** `https://host/owner/repo` followed by nothing or by further `/…` segments
      gives `host/owner/repo'`, where `repo'` is `repo` without any `.git`. */
  lemma HttpsPath(host: string, owner: string, repo: string, rest: string)
    requires host != [] && '/' !in host
    requires owner != [] && '/' !in owner
    requires repo != [] && '/' !in repo
    requires rest == [] || rest[0] == '/'
    ensures ExtractPlatformAndUsername(HttpsUrl(host, owner, repo) + rest) ==
            Some(host + [Sep] + owner + [Sep] + Replace(repo, GitSuffix, ""))
  {
    var url := HttpsUrl(host, owner, repo) + rest;
    var g := Groups(host, owner, repo);
    assert MatchedText(HttpsScheme, '/', g) == HttpsUrl(host, owner, repo);
    assert url[..|HttpsUrl(host, owner, repo)|] == HttpsUrl(host, owner, repo);
    MatchUrlIff(url, HttpsScheme, '/', g);
  }

  /** `git@host:owner/repo` followed by nothing or by further `/…` segments gives
      `host/owner/repo'`; here the host may contain '/' but not ':'. */
  lemma SshPath(host: string, owner: string, repo: string, rest: string)
    requires host != [] && ':' !in host
    requires owner != [] && '/' !in owner
    requires repo != [] && '/' !in repo
    requires rest == [] || rest[0] == '/'
    ensures ExtractPlatformAndUsername(SshUrl(host, owner, repo) + rest) ==
            Some(host + [Sep] + owner + [Sep] + Replace(repo, GitSuffix, ""))
  {
    var url := SshUrl(host, owner, repo) + rest;
    var g := Groups(host, owner, repo);
    assert MatchedText(SshScheme, ':', g) == SshUrl(host, owner, repo);
    assert url[..|SshUrl(host, owner, repo)|] == SshUrl(host, owner, repo);
    assert MatchUrl(url, HttpsScheme, '/') == None by {
      assert url[0] == 'g' && HttpsScheme[0] == 'h';
      assert !StartsWith(url, HttpsScheme);
    }
    MatchUrlIff(url, SshScheme, ':', g);
  }

  /** Removing `.git` everywhere: a `.git` anywhere in the repository group is
      dropped, and the text on either side is treated independently. */
  lemma RemoveGitSplice(a: string, b: string)
    ensures Replace(a + GitSuffix + b, GitSuffix, "") ==
            Replace(a, GitSuffix, "") + Replace(b, GitSuffix, "")
  {
    assert GitSuffix[0] !in GitSuffix[1..];
    ReplaceSplice(a, b, GitSuffix, "");
    assert Replace(a, GitSuffix, "") + "" == Replace(a, GitSuffix, "");
  }

  /** A trailing `.git` is removed like any other. */
  lemma RemoveTrailingGit(repo: string)
    ensures Replace(repo + GitSuffix, GitSuffix, "") == Replace(repo, GitSuffix, "")
  {
    var p := Replace(repo, GitSuffix, "");
    RemoveGitSplice(repo, []);
    assert repo + GitSuffix + [] == repo + GitSuffix;
    assert Replace([], GitSuffix, "") == [];
    assert p + [] == p;
  }

  /** `https://host/owner/repo` and `https://host/owner/repo.git` give the same path. */
  lemma GitSuffixSamePath(host: string, owner: string, repo: string)
    requires host != [] && '/' !in host
    requires owner != [] && '/' !in owner
    requires repo != [] && '/' !in repo
    ensures ExtractPlatformAndUsername(HttpsUrl(host, owner, repo + GitSuffix)) ==
            ExtractPlatformAndUsername(HttpsUrl(host, owner, repo))
  {
    var u1, u2 := HttpsUrl(host, owner, repo), HttpsUrl(host, owner, repo + GitSuffix);
    var p := Replace(repo, GitSuffix, "");
    HttpsPath(host, owner, repo, []);
    assert u1 + [] == u1;
    assert ExtractPlatformAndUsername(u1) == Some(host + [Sep] + owner + [Sep] + p);
    HttpsPath(host, owner, repo + GitSuffix, []);
    assert u2 + [] == u2;
    RemoveTrailingGit(repo);
    assert ExtractPlatformAndUsername(u2) == Some(host + [Sep] + owner + [Sep] + p);
  }

  /** `git@host:owner/repo.git` gives the same path as `https://host/owner/repo`
      when the host contains neither '/' nor ':'. */
  lemma SshSameAsHttps(host: string, owner: string, repo: string)
    requires host != [] && '/' !in host && ':' !in host
    requires owner != [] && '/' !in owner
    requires repo != [] && '/' !in repo
    ensures ExtractPlatformAndUsername(SshUrl(host, owner, repo + GitSuffix)) ==
            ExtractPlatformAndUsername(HttpsUrl(host, owner, repo))
  {
    var u1, u2 := HttpsUrl(host, owner, repo), SshUrl(host, owner, repo + GitSuffix);
    var p := Replace(repo, GitSuffix, "");
    HttpsPath(host, owner, repo, []);
    assert u1 + [] == u1;
    assert ExtractPlatformAndUsername(u1) == Some(host + [Sep] + owner + [Sep] + p);
    SshPath(host, owner, repo + GitSuffix, []);
    assert u2 + [] == u2;
    RemoveTrailingGit(repo);
    assert ExtractPlatformAndUsername(u2) == Some(host + [Sep] + owner + [Sep] + p);
  }

  /** A `.git` in the middle of the repository name is removed too: the GitHub
      Pages repository `https://github.com/o/o.github.io` is stored as
      `github.com/o/ohub.io`, and `x.gity` and `xy` share one path. */
  lemma InnerGitRemoved(host: string, owner: string, a: string, b: string)
    requires host != [] && '/' !in host
    requires owner != [] && '/' !in owner
    requires '/' !in a && '/' !in b
    ensures ExtractPlatformAndUsername(HttpsUrl(host, owner, a + GitSuffix + b)) ==
            Some(host + [Sep] + owner + [Sep] + Replace(a, GitSuffix, "") + Replace(b, GitSuffix, ""))
  {
    var repo := a + GitSuffix + b;
    assert '/' !in repo by {
      assert forall k :: 0 <= k < |repo| ==> repo[k] in a || repo[k] in GitSuffix || repo[k] in b;
    }
    var u := HttpsUrl(host, owner, repo);
    assert u + [] == u;
    RemoveGitSplice(a, b);
    var ra, rb := Replace(a, GitSuffix, ""), Replace(b, GitSuffix, "");
    assert host + [Sep] + owner + [Sep] + (ra + rb) == host + [Sep] + owner + [Sep] + ra + rb;
    HttpsPath(host, owner, repo, []);
  }

  /** A repository group that is only `.git` leaves an empty last component. */
  lemma RepoComponentCanVanish(host: string, owner: string)
    requires host != [] && '/' !in host
    requires owner != [] && '/' !in owner
    ensures ExtractPlatformAndUsername(HttpsUrl(host, owner, GitSuffix)) ==
            Some(host + [Sep] + owner + [Sep])
  {
    var u := HttpsUrl(host, owner, GitSuffix);
    assert u + [] == u;
    RemoveTrailingGit([]);
    assert [] + GitSuffix == GitSuffix;
    assert Replace(GitSuffix, GitSuffix, "") == [];
    assert host + [Sep] + owner + [Sep] + [] == host + [Sep] + owner + [Sep];
    HttpsPath(host, owner, GitSuffix, []);
  }
}
