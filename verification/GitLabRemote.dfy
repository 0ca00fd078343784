/** Reading a Git remote as a GitLab project: the spellings that mean the same, and the web address. */
module GitLabRemote {
  import opened Common
  import opened Text

  datatype Repository = Repository(host: string, path: string, scheme: string)

  // ----- The string calls -----

  function BeforeFirst(s: string, c: char): string {
    s[..Find(s, c)]
  }

  function AfterLast(s: string, c: char): string {
    if s == "" || s[|s| - 1] == c then "" else AfterLast(s[..|s| - 1], c) + [s[|s| - 1]]
  }

  lemma BeforeFirstIs(a: string, c: char, b: string)
    requires c !in a
    ensures BeforeFirst(a, c) == a && BeforeFirst(a + [c] + b, c) == a
  {
    var s := a + [c] + b;
    assert s[|a|] == c;
    assert forall i :: 0 <= i < |a| ==> s[i] == a[i] && a[i] in a;
  }

  lemma {:induction false} AfterLastIs(a: string, c: char, b: string)
    requires c !in b
    ensures AfterLast(b, c) == b && AfterLast(a + [c] + b, c) == b
  {
    var s := a + [c] + b;
    if b == "" {
      assert s[|s| - 1] == c;
    } else {
      var n := |b| - 1;
      AfterLastIs(a, c, b[..n]);
      assert b == b[..n] + [b[n]] && s[..|s| - 1] == a + [c] + b[..n];
    }
  }

  function SplitOnce(s: string, c: char): Option<(string, string)> {
    if Find(s, c) == |s| then None else Some((BeforeFirst(s, c), s[Find(s, c) + 1..]))
  }

  lemma SplitOnceIs(a: string, c: char, b: string)
    requires c !in a
    ensures SplitOnce(a + [c] + b, c) == Some((a, b))
  {
    var s := a + [c] + b;
    BeforeFirstIs(a, c, b);
    assert s[|a|] == c;
    assert s[|a| + 1..] == b;
  }

  predicate EndsWith(s: string, e: string) {
    |s| >= |e| && s[|s| - |e|..] == e
  }

  function TrimSlashes(s: string): string {
    if s != "" && s[|s| - 1] == '/' then TrimSlashes(s[..|s| - 1]) else s
  }

  const GIT := ".git"

  function StripGit(s: string): string {
    if EndsWith(s, GIT) then s[..|s| - |GIT|] else s
  }

  // ----- Parsing -----

  predicate IsAlphanumeric(c: char) {
    '0' <= c <= '9' || 'a' <= c <= 'z' || 'A' <= c <= 'Z'
  }

  predicate IsHostChar(c: char) {
    IsAlphanumeric(c) || c == '.' || c == '-' || c == ':'
  }

  predicate IsPathChar(c: char) {
    IsAlphanumeric(c) || c == '-' || c == '.' || c == '_' || c == '/'
  }

  predicate ValidHost(h: string) {
    h != "" && h[0] != '-' && forall c :: c in h ==> IsHostChar(c)
  }

  predicate ValidPath(p: string) {
    && '/' in p
    && (forall part :: part in Split(p, '/') ==> part != "" && part != "." && part != "..")
    && (forall c :: c in p ==> IsPathChar(c))
  }

  function Check(authority: string, rawPath: string, scheme: string): Option<Repository> {
    var path := StripGit(TrimSlashes(rawPath));
    if ValidHost(authority) && ValidPath(path) then Some(Repository(Lower(authority), path, scheme)) else None
  }

  function Parse(url: string): Option<Repository> {
    if StripPrefix(url, "https://").Some? then
      var cut := SplitOnce(url[8..], '/');
      if cut.None? then None else Check(AfterLast(cut.value.0, '@'), cut.value.1, "https")
    else if StripPrefix(url, "http://").Some? then
      var cut := SplitOnce(url[7..], '/');
      if cut.None? then None else Check(AfterLast(cut.value.0, '@'), cut.value.1, "http")
    else if StripPrefix(url, "ssh://").Some? then
      var cut := SplitOnce(url[6..], '/');
      // The port of an SSH address is not the web port.
      if cut.None? then None else Check(BeforeFirst(AfterLast(cut.value.0, '@'), ':'), cut.value.1, "https")
    else
      var cut := SplitOnce(url, ':');
      if cut.None? then None else Check(AfterLast(cut.value.0, '@'), cut.value.1, "https")
  }

  function WebUrl(r: Repository): string {
    r.scheme + "://" + r.host + "/" + r.path
  }

  // ----- What is accepted -----

  predicate Accepted(r: Repository) {
    ValidHost(r.host) && Lower(r.host) == r.host && ValidPath(r.path) && (r.scheme == "https" || r.scheme == "http")
  }

  lemma LowerKeepsHost(h: string)
    requires ValidHost(h)
    ensures ValidHost(Lower(h)) && Lower(Lower(h)) == Lower(h)
  {
    var l := Lower(h);
    forall c | c in l ensures IsHostChar(c) {
      var k :| 0 <= k < |l| && l[k] == c;
      assert h[k] in h;
    }
    assert forall k :: 0 <= k < |l| ==> Lower(l)[k] == l[k];
  }

  lemma ParseIsAccepted(url: string)
    ensures Parse(url).Some? ==> Accepted(Parse(url).value)
  {
    hide ValidHost, ValidPath, StripGit, TrimSlashes, AfterLast, BeforeFirst, SplitOnce, Lower;
    forall h | ValidHost(h) ensures ValidHost(Lower(h)) && Lower(Lower(h)) == Lower(h) {
      LowerKeepsHost(h);
    }
  }

  /** A slash at the end leaves an empty part after it. */
  lemma {:induction false} LaterEmptyPart(s: string)
    requires s != "" && s[|s| - 1] == '/'
    ensures exists j :: 0 < j < |Split(s, '/')| && Split(s, '/')[j] == ""
  {
    var parts := Split(s, '/');
    if |s| == 1 {
      assert Split(s[1..], '/') == [""];
      assert parts[1] == "";
    } else {
      LaterEmptyPart(s[1..]);
      var rest := Split(s[1..], '/');
      var j :| 0 < j < |rest| && rest[j] == "";
      if s[0] == '/' {
        assert parts[j + 1] == "";
      } else {
        assert parts[j] == "";
      }
    }
  }

  lemma EndSlashLeavesEmpty(s: string)
    requires s != "" && s[|s| - 1] == '/'
    ensures "" in Split(s, '/')
  {
    LaterEmptyPart(s);
    var j :| 0 < j < |Split(s, '/')| && Split(s, '/')[j] == "";
    assert Split(s, '/')[j] in Split(s, '/');
  }

  lemma ValidPathIsTrimmed(p: string)
    requires ValidPath(p)
    ensures p != "" && p[|p| - 1] != '/' && TrimSlashes(p) == p
  {
    if p[|p| - 1] == '/' {
      EndSlashLeavesEmpty(p);
    }
  }

  // ----- The web address -----

  lemma HostIsPlain(h: string)
    requires ValidHost(h)
    ensures '/' !in h && '@' !in h
  {
  }

  lemma ParseWeb(host: string, rawPath: string, scheme: string)
    requires '/' !in host && (scheme == "https" || scheme == "http")
    ensures Parse(scheme + "://" + host + "/" + rawPath) == Check(AfterLast(host, '@'), rawPath, scheme)
  {
    hide Check, AfterLast, SplitOnce;
    var url := scheme + "://" + host + "/" + rawPath;
    var rest := host + "/" + rawPath;
    SplitOnceIs(host, '/', rawPath);
    assert rest == host + ['/'] + rawPath;
    if scheme == "https" {
      assert url == "https://" + rest;
      assert url[8..] == rest;
    } else {
      assert url == "http://" + rest;
      assert url[4] == ':' && "https://"[4] == 's';
      assert url[7..] == rest;
    }
  }

  /** The parts between slashes are names: none is empty, a dot or two dots. */
  predicate NamesOnly(parts: seq<string>) {
    forall part :: part in parts ==> part !in {"", ".", ".."}
  }

  /** Exactly which web addresses are read, and as what: the host may hold letters, digits, dots, hyphens
      and a port, but not start with a hyphen; the path needs two or more names of letters, digits, dots,
      hyphens and underscores. */
  lemma WebAcceptedIff(host: string, path: string, scheme: string)
    requires '/' !in host && '@' !in host && (scheme == "https" || scheme == "http")
    requires path != "" && path[|path| - 1] != '/' && !EndsWith(path, ".git")
    ensures Parse(scheme + "://" + host + "/" + path)
      == if host != "" && host[0] != '-'
            && (forall c :: c in host ==>
                  'a' <= c <= 'z' || 'A' <= c <= 'Z' || '0' <= c <= '9' || c in {'.', '-', ':'})
            && '/' in path && NamesOnly(Split(path, '/'))
            && (forall c :: c in path ==>
                  'a' <= c <= 'z' || 'A' <= c <= 'Z' || '0' <= c <= '9' || c in {'.', '-', '_', '/'})
         then Some(Repository(Lower(host), path, scheme)) else None
  {
    hide Parse, AfterLast, Lower, EndsWith, TrimSlashes, StripGit, Split;
    ParseWeb(host, path, scheme);
    AfterLastIs("", '@', host);
    SlashTrimmed(path, "");
    assert path + "" == path;
    GitStripped(path);
  }

  /** The web address of a parsed remote reads back as the same repository exactly when the path does
      not itself end in `.git`. */
  lemma WebUrlRoundTripsIff(url: string)
    requires Parse(url).Some?
    ensures var r := Parse(url).value;
      Parse(WebUrl(r)) == Some(r) <==> !EndsWith(r.path, GIT)
  {
    hide Parse, ValidHost, ValidPath, TrimSlashes, AfterLast, Lower;
    ParseIsAccepted(url);
    var r := Parse(url).value;
    HostIsPlain(r.host);
    ParseWeb(r.host, r.path, r.scheme);
    AfterLastIs("", '@', r.host);
    ValidPathIsTrimmed(r.path);
  }

  lemma TwoParts(a: string, b: string)
    requires '/' !in a && '/' !in b
    ensures Split(a + "/" + b, '/') == [a, b]
  {
    SplitAtFirst(a, '/', b);
    SplitOfPlain(b, '/');
    assert a + "/" + b == a + ['/'] + b;
  }

  // ----- Spellings -----

  predicate PlainUser(u: string) {
    '/' !in u && ':' !in u && '@' !in u
  }

  predicate Slashes(s: string) {
    forall i :: 0 <= i < |s| ==> s[i] == '/'
  }

  /** What may follow a path without meaning anything: a `.git` or not, and any number of slashes. */
  predicate IsTail(tail: string) {
    Slashes(tail) || (".git" <= tail && Slashes(tail[4..]))
  }

  lemma {:induction false} SlashTrimmed(p: string, slashes: string)
    requires p != "" && p[|p| - 1] != '/' && Slashes(slashes)
    ensures TrimSlashes(p + slashes) == p
  {
    if slashes == "" {
      assert p + slashes == p;
    } else {
      var init := slashes[..|slashes| - 1];
      assert (p + slashes)[..|p + slashes| - 1] == p + init;
      SlashTrimmed(p, init);
    }
  }

  lemma GitStripped(p: string)
    ensures StripGit(p + GIT) == p
    ensures StripGit(p) == p <==> !EndsWith(p, GIT)
  {
    var s := p + GIT;
    assert s[|s| - |GIT|..] == GIT && s[..|s| - |GIT|] == p;
  }

  /** A tail is stripped, unless it has no `.git` and the path ends in one of its own. */
  lemma TailStripped(p: string, tail: string)
    requires ValidPath(p) && IsTail(tail)
    ensures StripGit(TrimSlashes(p + tail)) == p <==> GIT <= tail || !EndsWith(p, GIT)
  {
    hide ValidPath, TrimSlashes, StripGit, EndsWith;
    ValidPathIsTrimmed(p);
    GitStripped(p);
    if GIT <= tail {
      assert tail == GIT + tail[4..];
      assert p + tail == p + GIT + tail[4..];
      assert tail[0] == '.';
      SlashTrimmed(p + GIT, tail[4..]);
    } else {
      SlashTrimmed(p, tail);
    }
  }

  lemma TailChecks(host: string, path: string, tail: string, scheme: string)
    requires ValidHost(host) && ValidPath(path) && IsTail(tail)
    ensures Check(host, path + tail, scheme) == Some(Repository(Lower(host), path, scheme))
      <==> GIT <= tail || !EndsWith(path, GIT)
  {
    hide ValidHost, ValidPath, TrimSlashes, Lower, StripGit, EndsWith;
    TailStripped(path, tail);
  }

  /** A second `.git` is lost on the way back. */
  lemma DoubleGitIsLost()
    ensures Parse("https://h/a/b.git.git") == Some(Repository("h", "a/b.git", "https"))
    ensures Parse(WebUrl(Repository("h", "a/b.git", "https"))) == Some(Repository("h", "a/b", "https"))
  {
    hide Parse, AfterLast, Lower, ValidPath, ValidHost, StripGit, TrimSlashes;
    assert "a/" + "b" == "a/b" && "a/" + "b.git" == "a/b.git";
    SmallPath("b");
    SmallPath("b.git");
    SmallHost();
    TailStripped("a/b", GIT);
    TailStripped("a/b.git", GIT);
    AfterLastIs("", '@', "h");
    ParseWeb("h", "a/b.git.git", "https");
    ParseWeb("h", "a/b.git", "https");
    assert "https://h/a/b.git.git" == "https" + "://" + "h" + "/" + "a/b.git.git";
    assert "a/b.git.git" == "a/b.git" + GIT && "a/b.git" == "a/b" + GIT;
  }

  lemma SmallHost()
    ensures ValidHost("h") && Lower("h") == "h"
  {
  }

  lemma SmallPath(name: string)
    requires name == "b" || name == "b.git"
    ensures ValidPath("a/" + name)
  {
    TwoParts("a", name);
    assert "a" + "/" + name == "a/" + name;
    assert (name == "b" || name == "b.git") ==> '/' !in name;
    assert ("a/" + name)[1] == '/';
  }

  /** Every spelling of one host and path, with any user and SSH port and any tail, over https, http,
      ssh and scp, is read as the same: this project, exactly when the tail has its `.git` or the path
      does not end in one. */
  lemma SpellingsAgree(user: string, host: string, port: string, path: string, tail: string)
    requires ValidHost(host) && ':' !in host && ValidPath(path) && PlainUser(user) && IsTail(tail)
    requires '/' !in port && '@' !in port
    ensures var web := Parse("https" + "://" + host + "/" + (path + tail));
      && Parse("https" + "://" + (user + "@" + host) + "/" + (path + tail)) == web
      && Parse("ssh://" + user + "@" + host + ":" + port + "/" + (path + tail)) == web
      && Parse("ssh://" + user + "@" + host + "/" + (path + tail)) == web
      && Parse(user + "@" + host + ":" + (path + tail)) == web
      && (web == Some(Repository(Lower(host), path, "https")) <==> GIT <= tail || !EndsWith(path, GIT))
    ensures var plain := Parse("http" + "://" + host + "/" + (path + tail));
      && Parse("http" + "://" + (user + "@" + host) + "/" + (path + tail)) == plain
      && (plain == Some(Repository(Lower(host), path, "http")) <==> GIT <= tail || !EndsWith(path, GIT))
  {
    hide Parse, ValidHost, ValidPath, TrimSlashes, AfterLast, Lower, StripGit, EndsWith, BeforeFirst, Check;
    HostIsPlain(host);
    AfterLastIs("", '@', host);
    AfterLastIs(user, '@', host);
    assert user + "@" + host == user + ['@'] + host;
    var raw := path + tail;
    ParseWeb(host, raw, "https");
    ParseWeb(host, raw, "http");
    ParseWeb(user + "@" + host, raw, "https");
    ParseWeb(user + "@" + host, raw, "http");
    ParseSsh(user, host, port, raw);
    ParseSshWithoutPort(user, host, raw);
    ParseScp(user, host, raw);
    TailChecks(host, path, tail, "https");
    TailChecks(host, path, tail, "http");
  }

  lemma ParseSsh(user: string, host: string, port: string, rawPath: string)
    requires PlainUser(user) && '/' !in host && '@' !in host && ':' !in host && '/' !in port && '@' !in port
    ensures Parse("ssh://" + user + "@" + host + ":" + port + "/" + rawPath) == Check(host, rawPath, "https")
  {
    hide Check, AfterLast, BeforeFirst, SplitOnce;
    var authority := user + "@" + host + ":" + port;
    var url := "ssh://" + user + "@" + host + ":" + port + "/" + rawPath;
    assert url == "ssh://" + (authority + "/" + rawPath);
    assert url[6..] == authority + ['/'] + rawPath;
    assert url[0] == 's';
    SplitOnceIs(authority, '/', rawPath);
    var after := host + ":" + port;
    assert authority == user + ['@'] + after;
    AfterLastIs(user, '@', after);
    assert after == host + [':'] + port;
    BeforeFirstIs(host, ':', port);
  }

  lemma ParseSshWithoutPort(user: string, host: string, rawPath: string)
    requires PlainUser(user) && '/' !in host && '@' !in host && ':' !in host
    ensures Parse("ssh://" + user + "@" + host + "/" + rawPath) == Check(host, rawPath, "https")
  {
    hide Check, AfterLast, BeforeFirst, SplitOnce;
    var authority := user + "@" + host;
    var url := "ssh://" + user + "@" + host + "/" + rawPath;
    assert url == "ssh://" + (authority + "/" + rawPath);
    assert url[6..] == authority + ['/'] + rawPath;
    assert url[0] == 's';
    SplitOnceIs(authority, '/', rawPath);
    assert authority == user + ['@'] + host;
    AfterLastIs(user, '@', host);
    BeforeFirstIs(host, ':', "");
  }

  lemma ParseScp(user: string, host: string, rawPath: string)
    requires PlainUser(user) && '/' !in host && '@' !in host && ':' !in host
    ensures Parse(user + "@" + host + ":" + rawPath) == Check(host, rawPath, "https")
  {
    hide Check, AfterLast, SplitOnce;
    var login := user + "@" + host;
    var url := login + ":" + rawPath;
    assert url == login + [':'] + rawPath;
    SplitOnceIs(login, ':', rawPath);
    assert login == user + ['@'] + host;
    AfterLastIs(user, '@', host);
    NoSchemeBeforeUser(login, rawPath, |user|, "https");
    NoSchemeBeforeUser(login, rawPath, |user|, "http");
    NoSchemeBeforeUser(login, rawPath, |user|, "ssh");
  }

  /** The first colon of a scheme comes after no `@`; here it does. */
  lemma NoSchemeBeforeUser(login: string, rest: string, k: nat, scheme: string)
    requires ':' !in login && k < |login| && login[k] == '@'
    requires '@' !in scheme
    ensures !(scheme + "://" <= login + ":" + rest)
  {
    var p, url := scheme + "://", login + ":" + rest;
    if |scheme| < |login| {
      assert login[|scheme|] in login;
      assert url[|scheme|] == login[|scheme|] && p[|scheme|] == ':';
    } else {
      assert scheme[k] in scheme;
      assert url[k] == '@' && p[k] == scheme[k];
    }
  }
}
