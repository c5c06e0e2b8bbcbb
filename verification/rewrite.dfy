/** The string rewrites of the handler and the forwarder: the scheme
    normalisation of the incoming path, the `https:/` repair before a URL
    leaves the gateway, the jsDelivr rewrites of file URLs, and the
    blob-to-raw rewrite of file views. */
module Rewrite {
  import opened Wrappers
  import opened Text
  import opened Patterns

  /** The first two steps of the handler: a path without a scheme gets
      `https://`, and when no `://` lies inside `u[3:9]` the first `s:/`
      becomes `s://` (the WSGI server collapses `//` to `/`). */
  function Normalize(path: string): string {
    var u := if StartsWith(path, "http") then path else "https://" + path;
    if FoundWithin(u, "://", 3, 9) then u else ReplaceFirst(u, "s:/", "s://")
  }

  /** A path without a scheme is only prefixed. */
  lemma NormalizeSchemeless(path: string)
    requires !StartsWith(path, "http")
    ensures Normalize(path) == "https://" + path
  {
    var u := "https://" + path;
    assert OccursAt(u, "://", 5) by {
      assert u[5..8] == "://";
    }
  }

  /** A URL that already has `https://` is left as it is. */
  lemma NormalizeKeepsFullScheme(url: string)
    requires StartsWith(url, "https://")
    ensures Normalize(url) == url
  {
    assert StartsWith(url, "http") by {
      assert url[..4] == url[..8][..4];
    }
    assert OccursAt(url, "://", 5) by {
      assert url[5..8] == url[..8][5..8];
    }
  }

  /** The collapsed form `https:/rest` gets its second slash back. */
  lemma NormalizeCollapsed(rest: string)
    requires |rest| == 0 || rest[0] != '/'
    ensures Normalize("https:/" + rest) == "https://" + rest
  {
    var u := "https:/" + rest;
    assert StartsWith(u, "http") by {
      assert u[..4] == "http";
    }
    forall i | 3 <= i && i + 3 <= 9 ensures !OccursAt(u, "://", i) {
      if OccursAt(u, "://", i) {
        OccursAtChar(u, "://", i, 0);
        OccursAtChar(u, "://", i, 1);
        OccursAtChar(u, "://", i, 2);
      }
    }
    assert OccursAt(u, "s:/", 4) by {
      assert u[4..7] == "s:/";
    }
    forall j | 0 <= j < 4 ensures !OccursAt(u, "s:/", j) {
      if OccursAt(u, "s:/", j) {
        OccursAtChar(u, "s:/", j, 0);
      }
    }
    ReplaceFirstCases(u, "s:/", "s://");
    assert u[..4] + "s://" + u[7..] == "https://" + rest;
  }

  /** Normalisation always yields a text that starts with `http`: the
      repair only ever touches what follows. */
  lemma NormalizeStartsWithHttp(path: string)
    ensures StartsWith(Normalize(path), "http")
  {
    var u := if StartsWith(path, "http") then path else "https://" + path;
    assert StartsWith(u, "http") by {
      if !StartsWith(path, "http") {
        assert u[..4] == "http";
      }
    }
    if !FoundWithin(u, "://", 3, 9) {
      var head := u[..4];
      assert u == head + u[4..];
      forall j | 0 <= j < |head| ensures !OccursAt(head + u[4..], "s:/", j) {
        if OccursAt(u, "s:/", j) {
          OccursAtChar(u, "s:/", j, 0);
        }
      }
      ReplaceFirstAfter(head, u[4..], "s:/", "s://");
      var r := head + ReplaceFirst(u[4..], "s:/", "s://");
      assert r[..4] == head;
    }
  }

  /** The repair of app.py:96-97 and app.py:167-168: a URL that starts with
      `https:/` but not `https://` gets the missing slash. */
  function RepairScheme(url: string): (r: string)
    ensures !StartsWith(url, "https:/") || StartsWith(url, "https://") ==> r == url
    ensures StartsWith(url, "https:/") ==> StartsWith(r, "https://")
    ensures StartsWith(url, "https:/") && !StartsWith(url, "https://") ==>
              |r| == |url| + 1 && r[..7] == url[..7] && r[7] == '/' && r[8..] == url[7..]
  {
    if StartsWith(url, "https:/") && !StartsWith(url, "https://") then
      var r := "https://" + url[7..];
      assert url[..7] == "https:/";
      r
    else url
  }

  /** Repairing twice is repairing once. */
  lemma RepairSchemeIdempotent(url: string)
    ensures RepairScheme(RepairScheme(url)) == RepairScheme(url)
  {
  }

  /** The host part the jsDelivr rewrites substitute for the GitHub host. */
  const JsDelivrHost: string := "cdn.jsdelivr.net/gh"

  /** A file URL cut where the engine's match cuts it: the scheme, the host
      with its slash, the author and repo groups, the kind word of an exp2
      URL (`blob/` or `raw/`, empty for the raw host) and the ref path. */
  datatype FileUrl = FileUrl(scheme: string, host: string, author: string, repo: string, kind: string, path: string)

  /** The GitHub form of a file URL. */
  function GitHubUrl(f: FileUrl): string {
    f.scheme + f.host + f.author + "/" + f.repo + "/" + f.kind + f.path
  }

  /** The jsDelivr form of the same file, `cdn.jsdelivr.net/gh/AUTHOR/REPO@REF/PATH`. */
  function JsDelivrUrl(f: FileUrl): string {
    f.scheme + JsDelivrHost + "/" + f.author + "/" + f.repo + "@" + f.path
  }

  /** The jsDelivr URL is the scheme, the jsDelivr host and the rest. */
  lemma JsDelivrSplit(f: FileUrl)
    ensures JsDelivrUrl(f) == f.scheme + JsDelivrHost + ("/" + f.author + "/" + f.repo + "@" + f.path)
  {
    var h := f.scheme + JsDelivrHost;
    assert h + "/" + f.author + "/" + f.repo + "@" + f.path == h + ("/" + f.author + "/" + f.repo + "@" + f.path);
  }

  /** Cutting `u` at its two group slashes and putting the pieces back together gives `u`. */
  lemma Reassemble(u: string, p: nat, b: nat, c: nat, j: nat, e: nat)
    requires p <= b <= c && c + 1 < j <= e <= |u| && u[c] == '/' && u[j - 1] == '/'
    ensures u == u[..p] + u[p..b] + u[b..c] + "/" + u[c + 1..j - 1] + "/" + u[j..e] + u[e..]
  {
    assert u[..c] == u[..p] + u[p..b] + u[b..c];
    assert u[..j - 1] == u[..c] + "/" + u[c + 1..j - 1];
    assert u[..e] == u[..j - 1] + "/" + u[j..e];
    assert u == u[..e] + u[e..];
  }

  /** The kind word after the repo group of an exp2 match is `blob/` or `raw/`. */
  lemma BlobKind(u: string, b: nat, a: nat, n: nat)
    requires b <= |u| && LeastDouble(BlobRest, u, b, 1) == Some((a, n))
    ensures OccursAt(u, "blob/", b + a + 1 + n + 1) || OccursAt(u, "raw/", b + a + 1 + n + 1)
  {
    LeastDoubleRest(BlobRest, u, b, 1);
  }

  /** The pieces of `u` between the given cut points. */
  function CutAt(u: string, p: nat, b: nat, c: nat, j: nat, e: nat): (f: FileUrl)
    requires p <= b <= c && c + 1 < j <= e <= |u| && u[c] == '/' && u[j - 1] == '/'
    ensures GitHubUrl(f) == u
    ensures f.scheme == u[..p] && f.host == u[p..b] && f.kind == u[j..e]
    ensures f.author == u[b..c] && f.repo == u[c + 1..j - 1] && f.path == u[e..]
  {
    Reassemble(u, p, b, c, j, e);
    FileUrl(u[..p], u[p..b], u[b..c], u[c + 1..j - 1], u[j..e], u[e..])
  }

  /** Where the exp2 search cuts `u`: the host ends at `b`, the author group
      has `a` characters and the repo group `n`, each followed by a slash,
      and the kind follows the repo. */
  predicate BlobCutPoints(u: string, b: nat, a: nat, n: nat) {
    && SchemeLength(u) <= b && 1 <= n && b + a + 1 + n < |u|
    && u[SchemeLength(u)..b] == "github.com/" && u[b + a] == '/' && u[b + a + 1 + n] == '/'
    && (OccursAt(u, "blob/", b + a + 1 + n + 1) || OccursAt(u, "raw/", b + a + 1 + n + 1))
  }

  /** The exp2 search reports cut points of that form. */
  lemma BlobCutFound(u: string, b: nat, a: nat, n: nat)
    requires Base(BlobRaw, u) == Some(b) && LeastDouble(BlobRest, u, b, 1) == Some((a, n))
    ensures BlobCutPoints(u, b, a, n)
  {
    BaseAt(BlobRaw, u);
    BlobKind(u, b, a, n);
  }

  /** The exp2 URL `u` cut at those points. */
  function BlobCut(u: string, b: nat, a: nat, n: nat): (f: FileUrl)
    requires BlobCutPoints(u, b, a, n)
    ensures GitHubUrl(f) == u
    ensures f.scheme == u[..SchemeLength(u)] && f.host == "github.com/"
    ensures f.kind == "blob/" || f.kind == "raw/"
    ensures f.author == u[b..b + a] && f.repo == u[b + a + 1..b + a + 1 + n]
  {
    var j := b + a + 1 + n + 1;
    var k := if OccursAt(u, "blob/", j) then 5 else 4;
    CutAt(u, SchemeLength(u), b, b + a, j, j + k)
  }

  /** The exp2 URL `u` cut at the match `exp2.match(u)` reports. */
  function SplitBlobUrl(u: string): (f: Option<FileUrl>)
    ensures f.Some? ==> GitHubUrl(f.value) == u
    ensures f.Some? ==> f.value.scheme == u[..SchemeLength(u)] && f.value.host == "github.com/"
    ensures f.Some? ==> f.value.kind == "blob/" || f.value.kind == "raw/"
  {
    match Base(BlobRaw, u)
    case None => None
    case Some(b) =>
      match LeastDouble(BlobRest, u, b, 1)
      case None => None
      case Some((a, n)) =>
        BlobCutFound(u, b, a, n);
        Some(BlobCut(u, b, a, n))
  }

  /** Where the search finds the groups, the cut is taken at them. */
  lemma SplitBlobAt(u: string, b: nat, a: nat, n: nat)
    requires Base(BlobRaw, u) == Some(b) && LeastDouble(BlobRest, u, b, 1) == Some((a, n))
    ensures BlobCutPoints(u, b, a, n) && SplitBlobUrl(u) == Some(BlobCut(u, b, a, n))
  {
    BlobCutFound(u, b, a, n);
  }

  /** Where the search finds the groups, the match reports the groups of the cut. */
  lemma SplitBlobMatch(u: string, b: nat, a: nat, n: nat)
    requires Base(BlobRaw, u) == Some(b) && LeastDouble(BlobRest, u, b, 1) == Some((a, n))
    ensures BlobCutPoints(u, b, a, n) && SplitBlobUrl(u) == Some(BlobCut(u, b, a, n))
    ensures Match(BlobRaw, u) == Some(MatchResult(BlobRaw, [BlobCut(u, b, a, n).author, BlobCut(u, b, a, n).repo]))
  {
    SplitBlobAt(u, b, a, n);
    MatchDouble(BlobRaw, u, b, a, n);
  }

  /** Where the search finds no groups, neither the cut nor the match exists. */
  lemma SplitBlobNone(u: string)
    requires Base(BlobRaw, u).None? || LeastDouble(BlobRest, u, Base(BlobRaw, u).value, 1).None?
    ensures SplitBlobUrl(u).None? && Match(BlobRaw, u).None?
  {
  }

  /** The cut exists exactly when `exp2` matches, and its author and repo
      are the groups `exp2.match(u).groups()`. */
  lemma SplitBlobGroups(u: string)
    ensures SplitBlobUrl(u).Some? <==> Match(BlobRaw, u).Some?
    ensures SplitBlobUrl(u).Some? ==> [SplitBlobUrl(u).value.author, SplitBlobUrl(u).value.repo] == Match(BlobRaw, u).value.groups
  {
    if Base(BlobRaw, u).Some? && LeastDouble(BlobRest, u, Base(BlobRaw, u).value, 1).Some? {
      var b := Base(BlobRaw, u).value;
      var (a, n) := LeastDouble(BlobRest, u, b, 1).value;
      SplitBlobMatch(u, b, a, n);
    } else {
      SplitBlobNone(u);
    }
  }

  /** Where the exp4 search cuts `u`: the host ends at `b` and the author
      group has `a` characters and the repo group `n`, each followed by a
      slash. */
  predicate RawCutPoints(u: string, b: nat, a: nat, n: nat) {
    && SchemeLength(u) <= b && 1 <= n && b + a + 1 + n < |u|
    && (u[SchemeLength(u)..b] == "raw.githubusercontent.com/" || u[SchemeLength(u)..b] == "raw.github.com/")
    && u[b + a] == '/' && u[b + a + 1 + n] == '/'
  }

  /** The exp4 search reports cut points of that form. */
  lemma RawCutFound(u: string, b: nat, a: nat, n: nat)
    requires Base(RawHost, u) == Some(b) && LeastDouble(RefPathRest, u, b, 1) == Some((a, n))
    ensures RawCutPoints(u, b, a, n)
  {
    RawHostAt(u, b);
  }

  /** The exp4 host is one of the two raw host names. */
  lemma RawHostAt(u: string, b: nat)
    requires Base(RawHost, u) == Some(b)
    ensures SchemeLength(u) < b <= |u|
    ensures u[SchemeLength(u)..b] == "raw.githubusercontent.com/" || u[SchemeLength(u)..b] == "raw.github.com/"
  {
    BaseAt(RawHost, u);
  }

  /** The exp4 URL `u` cut at those points. */
  function RawCut(u: string, b: nat, a: nat, n: nat): (f: FileUrl)
    requires RawCutPoints(u, b, a, n)
    ensures GitHubUrl(f) == u
    ensures f.scheme == u[..SchemeLength(u)] && f.kind == ""
    ensures f.host == "raw.githubusercontent.com/" || f.host == "raw.github.com/"
    ensures f.host == u[SchemeLength(u)..b]
    ensures f.author == u[b..b + a] && f.repo == u[b + a + 1..b + a + 1 + n]
  {
    var j := b + a + 1 + n + 1;
    CutAt(u, SchemeLength(u), b, b + a, j, j)
  }

  /** The exp4 URL `u` cut at the match `exp4.match(u)` reports; the ref path
      is everything after the slash that closes the repo group. */
  function SplitRawUrl(u: string): (f: Option<FileUrl>)
    ensures f.Some? ==> GitHubUrl(f.value) == u
    ensures f.Some? ==> f.value.scheme == u[..SchemeLength(u)] && f.value.kind == ""
    ensures f.Some? ==> f.value.host == "raw.githubusercontent.com/" || f.value.host == "raw.github.com/"
  {
    match Base(RawHost, u)
    case None => None
    case Some(b) =>
      match LeastDouble(RefPathRest, u, b, 1)
      case None => None
      case Some((a, n)) =>
        RawCutFound(u, b, a, n);
        Some(RawCut(u, b, a, n))
  }

  /** Where the search finds the groups, the cut is taken at them. */
  lemma SplitRawAt(u: string, b: nat, a: nat, n: nat)
    requires Base(RawHost, u) == Some(b) && LeastDouble(RefPathRest, u, b, 1) == Some((a, n))
    ensures RawCutPoints(u, b, a, n) && SplitRawUrl(u) == Some(RawCut(u, b, a, n))
  {
    RawCutFound(u, b, a, n);
  }

  /** Where the search finds the groups, the match reports the groups of the cut. */
  lemma SplitRawMatch(u: string, b: nat, a: nat, n: nat)
    requires Base(RawHost, u) == Some(b) && LeastDouble(RefPathRest, u, b, 1) == Some((a, n))
    ensures RawCutPoints(u, b, a, n) && SplitRawUrl(u) == Some(RawCut(u, b, a, n))
    ensures Match(RawHost, u) == Some(MatchResult(RawHost, [RawCut(u, b, a, n).author, RawCut(u, b, a, n).repo]))
  {
    SplitRawAt(u, b, a, n);
    MatchDouble(RawHost, u, b, a, n);
  }

  /** Where the search finds no groups, neither the cut nor the match exists. */
  lemma SplitRawNone(u: string)
    requires Base(RawHost, u).None? || LeastDouble(RefPathRest, u, Base(RawHost, u).value, 1).None?
    ensures SplitRawUrl(u).None? && Match(RawHost, u).None?
  {
  }

  /** The cut exists exactly when `exp4` matches, and its author and repo
      are the groups `exp4.match(u).groups()`. */
  lemma SplitRawGroups(u: string)
    ensures SplitRawUrl(u).Some? <==> Match(RawHost, u).Some?
    ensures SplitRawUrl(u).Some? ==> [SplitRawUrl(u).value.author, SplitRawUrl(u).value.repo] == Match(RawHost, u).value.groups
  {
    if Base(RawHost, u).Some? && LeastDouble(RefPathRest, u, Base(RawHost, u).value, 1).Some? {
      var b := Base(RawHost, u).value;
      var (a, n) := LeastDouble(RefPathRest, u, b, 1).value;
      SplitRawMatch(u, b, a, n);
    } else {
      SplitRawNone(u);
    }
  }

  /** Replacing the first occurrence of a host name that directly follows
      the scheme replaces that one, when the scheme does not contain the
      first letter of the name. */
  lemma ReplaceAtHost(scheme: string, target: string, tail: string, repl: string)
    requires |target| >= 1 && forall j :: 0 <= j < |scheme| ==> scheme[j] != target[0]
    ensures ReplaceFirst(scheme + target + tail, target, repl) == scheme + repl + tail
  {
    var s := scheme + target + tail;
    forall j | 0 <= j < |scheme| ensures !OccursAt(s, target, j) {
      if OccursAt(s, target, j) {
        OccursAtChar(s, target, j, 0);
      }
    }
    ReplaceFirstAt(scheme, target, tail, repl);
  }

  /** The schemes the patterns allow hold neither `g` nor `r`, the first
      letters of the hosts. */
  predicate SchemeWord(scheme: string) {
    scheme == "" || scheme == "http://" || scheme == "https://"
  }

  lemma SchemeAvoidsHosts(scheme: string)
    requires SchemeWord(scheme)
    ensures forall j :: 0 <= j < |scheme| ==> scheme[j] != 'g' && scheme[j] != 'r'
  {
  }

  /** app.py:155 as written: the first `/blob/` becomes `@`, then the first
      `github.com` becomes the jsDelivr host. */
  function CdnBlobAsWritten(u: string): string {
    ReplaceFirst(ReplaceFirst(u, "/blob/", "@"), "github.com", JsDelivrHost)
  }

  /** The jsDelivr redirect target for an exp2 URL: the same file under
      `cdn.jsdelivr.net/gh`, the ref joined to the repo with `@`. */
  function JsDelivrBlob(u: string): (r: Option<string>)
    ensures r.Some? <==> SplitBlobUrl(u).Some?
    ensures r.Some? ==> var f := SplitBlobUrl(u).value; GitHubUrl(f) == u && r.value == JsDelivrUrl(f)
  {
    match SplitBlobUrl(u)
    case Some(f) => Some(JsDelivrUrl(f))
    case None => None
  }

  /** Where no `/blob/` begins before the one that follows the repo group,
      the rewrite as written gives the jsDelivr URL of the file. */
  lemma CdnBlobAgrees(u: string)
    requires SplitBlobUrl(u).Some? && SplitBlobUrl(u).value.kind == "blob/"
    requires var f := SplitBlobUrl(u).value;
             forall i :: 0 <= i < |f.scheme| + |f.host| + |f.author| + 1 + |f.repo| ==> !OccursAt(u, "/blob/", i)
    ensures CdnBlobAsWritten(u) == JsDelivrBlob(u).value
  {
    var f := SplitBlobUrl(u).value;
    BaseAt(BlobRaw, u);
    CdnBlobOf(f);
  }

  /** `CdnBlobAgrees` stated on the pieces of the URL. */
  lemma CdnBlobOf(f: FileUrl)
    requires SchemeWord(f.scheme) && f.host == "github.com/" && f.kind == "blob/"
    requires forall i :: 0 <= i < |f.scheme| + |f.host| + |f.author| + 1 + |f.repo| ==> !OccursAt(GitHubUrl(f), "/blob/", i)
    ensures CdnBlobAsWritten(GitHubUrl(f)) == JsDelivrUrl(f)
  {
    var tail := "/" + f.author + "/" + f.repo + "@" + f.path;
    BlobMarked(f);
    SchemeAvoidsHosts(f.scheme);
    ReplaceAtHost(f.scheme, "github.com", tail, JsDelivrHost);
    JsDelivrSplit(f);
  }

  /** The first step of the rewrite as written, where the first `/blob/` is
      the kind word: the GitHub host then the `@`-joined rest. */
  lemma BlobMarked(f: FileUrl)
    requires f.host == "github.com/" && f.kind == "blob/"
    requires forall i :: 0 <= i < |f.scheme| + |f.host| + |f.author| + 1 + |f.repo| ==> !OccursAt(GitHubUrl(f), "/blob/", i)
    ensures ReplaceFirst(GitHubUrl(f), "/blob/", "@") == f.scheme + "github.com" + ("/" + f.author + "/" + f.repo + "@" + f.path)
  {
    var head := f.scheme + f.host + f.author + "/" + f.repo;
    BlobForm(f);
    ReplaceFirstAt(head, "/blob/", f.path, "@");
    MarkedForm(f);
  }

  lemma BlobForm(f: FileUrl)
    requires f.kind == "blob/"
    ensures GitHubUrl(f) == (f.scheme + f.host + f.author + "/" + f.repo) + "/blob/" + f.path
  {
  }

  lemma MarkedForm(f: FileUrl)
    requires f.host == "github.com/"
    ensures (f.scheme + f.host + f.author + "/" + f.repo) + "@" + f.path
            == f.scheme + "github.com" + ("/" + f.author + "/" + f.repo + "@" + f.path)
  {
    assert f.host == "github.com" + "/";
  }

  /** A path segment the lazy groups cut exactly: not empty, no slash, no newline. */
  predicate Plain(t: string) {
    |t| >= 1 && forall k :: 0 <= k < |t| ==> t[k] != '/' && t[k] != '\n'
  }

  predicate NoNewline(t: string) {
    forall k :: 0 <= k < |t| ==> t[k] != '\n'
  }

  /** An exp2 file URL whose author and repo are single plain segments. */
  predicate PlainBlobFile(f: FileUrl) {
    && SchemeWord(f.scheme) && f.host == "github.com/"
    && Plain(f.author) && Plain(f.repo)
    && (f.kind == "blob/" || f.kind == "raw/") && NoNewline(f.path)
  }

  /** `u` holds the pieces of `f` where the GitHub form puts them. */
  predicate CutsAs(u: string, f: FileUrl) {
    var b := |f.scheme| + |f.host|;
    var c := b + |f.author|;
    var j := c + 1 + |f.repo| + 1;
    && |u| == j + |f.kind| + |f.path|
    && u[..|f.scheme|] == f.scheme && u[|f.scheme|..b] == f.host
    && u[b..c] == f.author && u[c] == '/' && u[c + 1..j - 1] == f.repo && u[j - 1] == '/'
    && u[j..j + |f.kind|] == f.kind && u[j + |f.kind|..] == f.path
  }

  /** The GitHub URL of a file, index by index. */
  lemma GitHubIndex(f: FileUrl)
    ensures CutsAs(GitHubUrl(f), f)
  {
    GitHubHead(f);
    GitHubTail(f);
  }

  /** The scheme, host and author of the GitHub URL, then a slash. */
  lemma GitHubHead(f: FileUrl)
    ensures var u := GitHubUrl(f); var b := |f.scheme| + |f.host|; var c := b + |f.author|;
            && c < |u| && u[..|f.scheme|] == f.scheme && u[|f.scheme|..b] == f.host
            && u[b..c] == f.author && u[c] == '/'
  {
    var u := GitHubUrl(f);
    var c := |f.scheme| + |f.host| + |f.author|;
    assert u == (f.scheme + f.host + f.author) + "/" + (f.repo + "/" + f.kind + f.path);
    assert u[..c] == f.scheme + f.host + f.author;
  }

  /** The repo, a slash, the kind and the path end the GitHub URL. */
  lemma GitHubTail(f: FileUrl)
    ensures var u := GitHubUrl(f); var c := |f.scheme| + |f.host| + |f.author|; var j := c + 1 + |f.repo| + 1;
            && |u| == j + |f.kind| + |f.path|
            && u[c + 1..j - 1] == f.repo && u[j - 1] == '/'
            && u[j..j + |f.kind|] == f.kind && u[j + |f.kind|..] == f.path
  {
    var u := GitHubUrl(f);
    var c := |f.scheme| + |f.host| + |f.author|;
    var t := f.repo + "/" + f.kind + f.path;
    var x := f.scheme + f.host + f.author + "/";
    Regroup(x, f.repo, f.kind, f.path);
    assert u[c + 1..] == t;
    TailParts(f.repo, f.kind, f.path);
    SuffixSlices(u, c + 1, |f.repo|, |f.kind|);
  }

  /** What follows `x` in `x + r + "/" + k + p`. */
  lemma Regroup(x: string, r: string, k: string, p: string)
    ensures x + r + "/" + k + p == x + (r + "/" + k + p)
  {
  }

  /** The pieces of `r + "/" + k + p`. */
  lemma TailParts(r: string, k: string, p: string)
    ensures var t := r + "/" + k + p;
            && t[..|r|] == r && t[|r|] == '/' && t[|r| + 1..|r| + 1 + |k|] == k && t[|r| + 1 + |k|..] == p
  {
    var t := r + "/" + k + p;
    assert t == (r + "/") + (k + p);
  }

  /** Slices of the suffix `u[i..]` are slices of `u`, shifted by `i`. */
  lemma SuffixSlices(u: string, i: nat, x: nat, y: nat)
    requires i + x + 1 + y <= |u|
    ensures var t := u[i..];
            && u[i..i + x] == t[..x] && u[i + x] == t[x]
            && u[i + x + 1..i + x + 1 + y] == t[x + 1..x + 1 + y] && u[i + x + 1 + y..] == t[x + 1 + y..]
  {
  }

  /** A scheme word followed by a host keeps its length as the scheme the
      patterns skip. */
  lemma SchemeLengthOf(scheme: string, rest: string)
    requires SchemeWord(scheme) && |rest| >= 1 && (rest[0] == 'g' || rest[0] == 'r')
    ensures SchemeLength(scheme + rest) == |scheme|
  {
    var s := scheme + rest;
    if scheme == "" {
      assert !StartsWith(s, "https://") && !StartsWith(s, "http://") by {
        assert s[0] == rest[0];
      }
    } else if scheme == "http://" {
      assert !StartsWith(s, "https://") by {
        assert s[4] == ':';
      }
      assert s[..7] == scheme;
    } else {
      assert s[..8] == scheme;
    }
  }

  /** A scheme word then `github.com/`: the author group starts after the host. */
  lemma BaseOf(scheme: string, rest: string)
    requires SchemeWord(scheme) && |rest| >= 11 && rest[..11] == "github.com/"
    ensures SchemeLength(scheme + rest) == |scheme|
    ensures Base(BlobRaw, scheme + rest) == Some(|scheme| + 11)
  {
    assert rest[0] == rest[..11][0];
    SchemeLengthOf(scheme, rest);
    assert (scheme + rest)[|scheme|..|scheme| + 11] == rest[..11];
  }

  /** A plain exp2 file URL starts its author group after `github.com/`. */
  lemma PlainBlobBase(f: FileUrl)
    requires SchemeWord(f.scheme) && f.host == "github.com/"
    ensures SchemeLength(GitHubUrl(f)) == |f.scheme|
    ensures Base(BlobRaw, GitHubUrl(f)) == Some(|f.scheme| + 11)
  {
    var rest := f.host + f.author + "/" + f.repo + "/" + f.kind + f.path;
    assert GitHubUrl(f) == f.scheme + rest;
    assert rest[..11] == f.host;
    BaseOf(f.scheme, rest);
  }

  /** A kind word then a path without newlines: the exp2 rest holds, and
      `blob/` is found exactly when the kind word is `blob/`. */
  lemma KindRest(u: string, j: nat, kind: string, path: string)
    requires kind == "blob/" || kind == "raw/"
    requires |u| == j + |kind| + |path| && u[j..j + |kind|] == kind && u[j + |kind|..] == path
    requires NoNewline(path)
    ensures RestOk(BlobRest, u, j) && (OccursAt(u, "blob/", j) <==> kind == "blob/")
  {
    forall k | j + |kind| <= k < |u| ensures u[k] != '\n' {
      assert u[k] == u[j + |kind|..][k - j - |kind|];
    }
    if kind == "blob/" {
      assert OccursAt(u, "blob/", j);
    } else {
      assert OccursAt(u, "raw/", j);
      assert u[j] == u[j..j + 4][0];
    }
  }

  /** Between `i` and `e` no character is a slash or a newline. */
  predicate PlainRun(u: string, i: nat, e: nat) {
    e <= |u| && forall k :: i <= k < e ==> u[k] != '/' && u[k] != '\n'
  }

  /** No group shorter than a plain run is followed by its slash. */
  lemma ShorterNoSegment(u: string, i: nat, e: nat, m: nat)
    requires PlainRun(u, i, e) && i + m < e
    ensures !Segment(u, i, m)
  {
  }

  /** Two plain runs, each closed by a slash, then the kind word: the lazy
      groups take exactly the two runs. */
  lemma PairAt(u: string, b: nat, a: nat, n: nat)
    requires 1 <= a && 1 <= n
    requires PlainRun(u, b, b + a) && b + a < |u| && u[b + a] == '/'
    requires PlainRun(u, b + a + 1, b + a + 1 + n) && b + a + 1 + n < |u| && u[b + a + 1 + n] == '/'
    requires RestOk(BlobRest, u, b + a + 1 + n + 1)
    ensures LeastDouble(BlobRest, u, b, 1) == Some((a, n))
  {
    assert Segment(u, b, a);
    assert Segment(u, b + a + 1, n);
    forall x': nat, y': nat | 1 <= x' < a ensures !Double(BlobRest, u, b, x', y') {
      ShorterNoSegment(u, b, b + a, x');
    }
    forall y': nat | y' < n ensures !Double(BlobRest, u, b, a, y') {
      ShorterNoSegment(u, b + a + 1, b + a + 1 + n, y');
    }
    LeastDoubleIs(BlobRest, u, b, 1, a, n);
  }

  /** Where `u` holds a plain text, it holds a plain run. */
  lemma PlainSlice(u: string, i: nat, t: string)
    requires Plain(t) && i + |t| <= |u| && u[i..i + |t|] == t
    ensures PlainRun(u, i, i + |t|)
  {
    forall k | i <= k < i + |t| ensures u[k] == t[k - i] {
      assert u[k] == u[i..i + |t|][k - i];
    }
  }

  /** The lazy groups of an exp2 file URL with plain author and repo take
      its author and its repo. */
  lemma PlainBlobPair(u: string, f: FileUrl)
    requires Plain(f.author) && Plain(f.repo) && CutsAs(u, f) && |f.host| == 11
    requires RestOk(BlobRest, u, |f.scheme| + 11 + |f.author| + 1 + |f.repo| + 1)
    ensures LeastDouble(BlobRest, u, |f.scheme| + 11, 1) == Some((|f.author|, |f.repo|))
  {
    CutsAsAt(u, f, |f.scheme| + 11);
    PlainPair(u, |f.scheme| + 11, f.author, f.repo);
  }

  /** The pieces of `f` in `u`, from where the author starts. */
  lemma CutsAsAt(u: string, f: FileUrl, b: nat)
    requires CutsAs(u, f) && b == |f.scheme| + |f.host|
    ensures b + |f.author| + 1 + |f.repo| < |u|
    ensures u[b..b + |f.author|] == f.author && u[b + |f.author|] == '/'
    ensures u[b + |f.author| + 1..b + |f.author| + 1 + |f.repo|] == f.repo && u[b + |f.author| + 1 + |f.repo|] == '/'
    ensures var j := b + |f.author| + 1 + |f.repo| + 1;
            |u| == j + |f.kind| + |f.path| && u[j..j + |f.kind|] == f.kind && u[j + |f.kind|..] == f.path
  {
  }

  /** Two plain texts, each closed by a slash, then the exp2 rest: the lazy
      groups take exactly the two texts. */
  lemma PlainPair(u: string, b: nat, author: string, repo: string)
    requires Plain(author) && Plain(repo)
    requires b + |author| + 1 + |repo| < |u|
    requires u[b..b + |author|] == author && u[b + |author|] == '/'
    requires u[b + |author| + 1..b + |author| + 1 + |repo|] == repo && u[b + |author| + 1 + |repo|] == '/'
    requires RestOk(BlobRest, u, b + |author| + 1 + |repo| + 1)
    ensures LeastDouble(BlobRest, u, b, 1) == Some((|author|, |repo|))
  {
    PlainSlice(u, b, author);
    PlainSlice(u, b + |author| + 1, repo);
    PairAt(u, b, |author|, |repo|);
  }

  /** Two exp2 file URLs with the same GitHub form, scheme, host, author and
      repo are the same: the kind word and the path follow from the text. */
  lemma GitHubUrlInjective(f: FileUrl, g: FileUrl)
    requires GitHubUrl(f) == GitHubUrl(g)
    requires f.scheme == g.scheme && f.host == g.host && f.author == g.author && f.repo == g.repo
    requires f.kind == "blob/" || f.kind == "raw/"
    requires g.kind == "blob/" || g.kind == "raw/"
    ensures f == g
  {
    GitHubIndex(f);
    GitHubIndex(g);
    var u := GitHubUrl(f);
    var j := |f.scheme| + |f.host| + |f.author| + 1 + |f.repo| + 1;
    assert f.kind[0] == u[j] == g.kind[0];
  }

  /** Cutting the GitHub form of an exp2 file URL where it has its groups
      gives back the file URL. */
  lemma BlobCutIs(f: FileUrl)
    requires CutsAs(GitHubUrl(f), f) && SchemeLength(GitHubUrl(f)) == |f.scheme| && f.host == "github.com/"
    requires f.kind == "blob/" || f.kind == "raw/"
    requires BlobCutPoints(GitHubUrl(f), |f.scheme| + 11, |f.author|, |f.repo|)
    ensures BlobCut(GitHubUrl(f), |f.scheme| + 11, |f.author|, |f.repo|) == f
  {
    CutsAsAt(GitHubUrl(f), f, |f.scheme| + 11);
    BlobCutFrom(f, GitHubUrl(f), |f.scheme| + 11);
  }

  /** `BlobCutIs` on the pieces where the URL holds them. */
  lemma BlobCutFrom(f: FileUrl, u: string, b: nat)
    requires u == GitHubUrl(f) && b == |f.scheme| + 11 && f.host == "github.com/" && SchemeLength(u) == |f.scheme|
    requires f.kind == "blob/" || f.kind == "raw/"
    requires BlobCutPoints(u, b, |f.author|, |f.repo|)
    requires u[..|f.scheme|] == f.scheme && u[b..b + |f.author|] == f.author
    requires u[b + |f.author| + 1..b + |f.author| + 1 + |f.repo|] == f.repo
    ensures BlobCut(u, b, |f.author|, |f.repo|) == f
  {
    GitHubUrlInjective(f, BlobCut(u, b, |f.author|, |f.repo|));
  }

  /** Cutting a plain exp2 file URL gives back its pieces. */
  lemma SplitBlobRoundTrip(f: FileUrl)
    requires PlainBlobFile(f)
    ensures SplitBlobUrl(GitHubUrl(f)) == Some(f)
  {
    var u := GitHubUrl(f);
    PlainBlobSearch(f);
    SplitBlobAt(u, |f.scheme| + 11, |f.author|, |f.repo|);
    BlobCutIs(f);
  }

  /** The exp2 search on the GitHub form of a plain file finds the host end
      and the author and repo lengths of the file. */
  lemma PlainBlobSearch(f: FileUrl)
    requires PlainBlobFile(f)
    ensures var u := GitHubUrl(f);
            && CutsAs(u, f) && SchemeLength(u) == |f.scheme|
            && Base(BlobRaw, u) == Some(|f.scheme| + 11)
            && LeastDouble(BlobRest, u, |f.scheme| + 11, 1) == Some((|f.author|, |f.repo|))
  {
    var u := GitHubUrl(f);
    GitHubIndex(f);
    PlainBlobBase(f);
    PlainBlobRest(f);
    PlainBlobPair(u, f);
  }

  /** After the repo of the GitHub form of a plain file comes what `exp2`
      demands. */
  lemma PlainBlobRest(f: FileUrl)
    requires PlainBlobFile(f)
    ensures RestOk(BlobRest, GitHubUrl(f), |f.scheme| + 11 + |f.author| + 1 + |f.repo| + 1)
  {
    var u := GitHubUrl(f);
    GitHubIndex(f);
    CutsAsAt(u, f, |f.scheme| + 11);
    KindRest(u, |f.scheme| + 11 + |f.author| + 1 + |f.repo| + 1, f.kind, f.path);
  }

  /** `s` has no slash followed by `b`, so no `/blob/` starts inside it. */
  predicate NoSlashB(s: string) {
    forall j :: 0 <= j < |s| - 1 ==> s[j] != '/' || s[j + 1] != 'b'
  }

  lemma NoSlashBNoBlob(s: string)
    requires NoSlashB(s)
    ensures forall j :: 0 <= j ==> !OccursAt(s, "/blob/", j)
  {
    forall j | 0 <= j && OccursAt(s, "/blob/", j) ensures false {
      OccursAtChar(s, "/blob/", j, 0);
      OccursAtChar(s, "/blob/", j, 1);
    }
  }

  /** No `/blob/` starts inside `head` when it holds no slash followed by
      `b` and a slash follows it. */
  lemma HeadNoBlob(head: string, tail: string)
    requires NoSlashB(head)
    ensures forall j :: 0 <= j < |head| ==> !OccursAt(head + "/blob/" + tail, "/blob/", j)
  {
    var s := head + "/blob/" + tail;
    forall j | 0 <= j < |head| ensures !OccursAt(s, "/blob/", j) {
      if OccursAt(s, "/blob/", j) {
        OccursAtChar(s, "/blob/", j, 0);
        OccursAtChar(s, "/blob/", j, 1);
      }
    }
  }

  lemma RepoBlobForm(f: FileUrl)
    requires f.repo == "blob" && f.kind == "blob/"
    ensures GitHubUrl(f) == (f.scheme + f.host + f.author) + "/blob/" + ("blob/" + f.path)
  {
  }

  lemma RepoBlobMarked(f: FileUrl)
    requires f.host == "github.com/"
    ensures (f.scheme + f.host + f.author) + "@" + ("blob/" + f.path)
            == f.scheme + "github.com" + ("/" + f.author + "@" + "blob/" + f.path)
  {
    assert f.host == "github.com" + "/";
  }

  /** A repository named `blob`: the rewrite as written marks the `/blob/`
      between author and repo, so jsDelivr is asked for ref `blob` of the
      repository named like the author. */
  lemma CdnBlobRepoBlob(f: FileUrl)
    requires SchemeWord(f.scheme) && f.host == "github.com/" && f.repo == "blob" && f.kind == "blob/"
    requires NoSlashB(f.scheme + f.host + f.author)
    ensures CdnBlobAsWritten(GitHubUrl(f)) == f.scheme + JsDelivrHost + ("/" + f.author + "@" + "blob/" + f.path)
  {
    var head := f.scheme + f.host + f.author;
    var tail := "blob/" + f.path;
    RepoBlobForm(f);
    HeadNoBlob(head, tail);
    ReplaceFirstAt(head, "/blob/", tail, "@");
    RepoBlobMarked(f);
    SchemeAvoidsHosts(f.scheme);
    ReplaceAtHost(f.scheme, "github.com", "/" + f.author + "@" + "blob/" + f.path, JsDelivrHost);
  }

  lemma GitHubForm(f: FileUrl)
    requires f.host == "github.com/"
    ensures GitHubUrl(f) == f.scheme + "github.com" + ("/" + f.author + "/" + f.repo + "/" + f.kind + f.path)
  {
    assert f.host == "github.com" + "/";
  }

  /** An exp2 URL of kind `raw/` with no `/blob/` anywhere: the rewrite as
      written only swaps the host and keeps `/raw/` in the path. */
  lemma CdnBlobRawKind(f: FileUrl)
    requires SchemeWord(f.scheme) && f.host == "github.com/" && f.kind == "raw/"
    requires NoSlashB(GitHubUrl(f))
    ensures CdnBlobAsWritten(GitHubUrl(f)) == f.scheme + JsDelivrHost + ("/" + f.author + "/" + f.repo + "/" + f.kind + f.path)
  {
    NoSlashBNoBlob(GitHubUrl(f));
    ReplaceFirstNone(GitHubUrl(f), "/blob/", "@");
    GitHubForm(f);
    SchemeAvoidsHosts(f.scheme);
    ReplaceAtHost(f.scheme, "github.com", "/" + f.author + "/" + f.repo + "/" + f.kind + f.path, JsDelivrHost);
  }

  /** Joining two texts adds no slash followed by `b` unless the seam does. */
  lemma NoSlashBJoin(s: string, t: string)
    requires NoSlashB(s) && NoSlashB(t)
    requires |s| == 0 || |t| == 0 || s[|s| - 1] != '/' || t[0] != 'b'
    ensures NoSlashB(s + t)
  {
    var w := s + t;
    forall j | 0 <= j < |w| - 1 ensures w[j] != '/' || w[j + 1] != 'b' {
      if j + 1 < |s| {
        assert w[j] == s[j] && w[j + 1] == s[j + 1];
      } else if j >= |s| {
        assert w[j] == t[j - |s|] && w[j + 1] == t[j + 1 - |s|];
      } else {
        assert w[j] == s[|s| - 1] && w[j + 1] == t[0];
      }
    }
  }

  /** A text without slashes has no slash followed by `b`. */
  lemma PlainNoSlashB(t: string)
    requires Plain(t)
    ensures NoSlashB(t)
  {
  }

  /** The scheme and the host of an exp2 URL hold no slash followed by `b`. */
  lemma SchemeHostNoSlashB(scheme: string)
    requires SchemeWord(scheme)
    ensures NoSlashB(scheme + "github.com/")
  {
    var host := "github.com/";
    assert NoSlashB(host);
    assert NoSlashB(scheme);
    NoSlashBJoin(scheme, host);
  }

  /** The scheme, host and author of an exp2 URL whose author does not start
      with `b` hold no slash followed by `b`. */
  lemma HeadNoSlashB(f: FileUrl)
    requires PlainBlobFile(f) && f.author[0] != 'b'
    ensures NoSlashB(f.scheme + f.host + f.author)
  {
    SchemeHostNoSlashB(f.scheme);
    PlainNoSlashB(f.author);
    NoSlashBJoin(f.scheme + f.host, f.author);
  }

  /** An exp2 URL of kind `raw/` whose author, repo and path do not start
      with `b` and whose path holds no slash followed by `b` contains no
      `/blob/`. */
  lemma RawKindNoSlashB(f: FileUrl)
    requires PlainBlobFile(f) && f.kind == "raw/" && f.author[0] != 'b' && f.repo[0] != 'b'
    requires NoSlashB(f.path) && (|f.path| == 0 || f.path[0] != 'b')
    ensures NoSlashB(GitHubUrl(f))
  {
    HeadNoSlashB(f);
    var h := f.scheme + f.host + f.author;
    NoSlashBJoin(h, "/");
    PlainNoSlashB(f.repo);
    NoSlashBJoin(h + "/", f.repo);
    NoSlashBJoin(h + "/" + f.repo, "/");
    assert NoSlashB(f.kind);
    NoSlashBJoin(h + "/" + f.repo + "/", f.kind);
    NoSlashBJoin(h + "/" + f.repo + "/" + f.kind, f.path);
  }

  /** The exp2 URLs of a repository named `blob` whose author does not start
      with `b`. */
  predicate RepoBlobCase(f: FileUrl) {
    PlainBlobFile(f) && f.repo == "blob" && f.kind == "blob/" && f.author[0] != 'b'
  }

  /** The exp2 URLs of kind `raw/` whose author, repo and path do not start
      with `b` and whose path holds no slash followed by `b`. */
  predicate RawKindCase(f: FileUrl) {
    && PlainBlobFile(f) && f.kind == "raw/" && f.author[0] != 'b' && f.repo[0] != 'b'
    && NoSlashB(f.path) && (|f.path| == 0 || f.path[0] != 'b')
  }

  /** Two texts that differ at one index differ. */
  lemma DifferAt(s: string, t: string, k: nat)
    requires k < |s| && k < |t| && s[k] != t[k]
    ensures s != t
  {
  }

  /** For a repository named `blob` the rewrite as written and the jsDelivr
      URL of the file differ: the `@` lands after the author. */
  lemma RepoBlobDiffers(f: FileUrl)
    requires RepoBlobCase(f)
    ensures JsDelivrBlob(GitHubUrl(f)) == Some(JsDelivrUrl(f))
    ensures CdnBlobAsWritten(GitHubUrl(f)) != JsDelivrUrl(f)
  {
    SplitBlobRoundTrip(f);
    HeadNoSlashB(f);
    CdnBlobRepoBlob(f);
    JsDelivrSplit(f);
    var k := |f.scheme| + |JsDelivrHost| + 1 + |f.author|;
    var w := f.scheme + JsDelivrHost + ("/" + f.author + "@" + "blob/" + f.path);
    assert w[k] == '@';
    assert JsDelivrUrl(f)[k] == '/';
    DifferAt(w, JsDelivrUrl(f), k);
  }

  /** For an exp2 URL of kind `raw/` the rewrite as written and the jsDelivr
      URL of the file differ: `/raw/` stays where the `@` belongs. */
  lemma RawKindDiffers(f: FileUrl)
    requires RawKindCase(f)
    ensures JsDelivrBlob(GitHubUrl(f)) == Some(JsDelivrUrl(f))
    ensures CdnBlobAsWritten(GitHubUrl(f)) != JsDelivrUrl(f)
  {
    SplitBlobRoundTrip(f);
    RawKindNoSlashB(f);
    CdnBlobRawKind(f);
    JsDelivrSplit(f);
    var k := |f.scheme| + |JsDelivrHost| + 1 + |f.author| + 1 + |f.repo|;
    var w := f.scheme + JsDelivrHost + ("/" + f.author + "/" + f.repo + "/" + f.kind + f.path);
    assert w[k] == '/';
    assert JsDelivrUrl(f)[k] == '@';
    DifferAt(w, JsDelivrUrl(f), k);
  }

  /** `https://github.com/acme/blob/blob/main/x.md` is such a URL. */
  lemma RepoBlobWitness()
    ensures RepoBlobCase(FileUrl("https://", "github.com/", "acme", "blob", "blob/", "main/x.md"))
  {
  }

  /** `https://github.com/acme/widgets/raw/main/x.md` is such a URL. */
  lemma RawKindWitness()
    ensures RawKindCase(FileUrl("https://", "github.com/", "acme", "widgets", "raw/", "main/x.md"))
  {
  }

  /** The mark `@` between the repo and the ref of an exp4 URL: the slash
      that closes the repo group of the match becomes `@`. */
  function RawRefMark(u: string): (v: string)
    ensures |v| == |u|
    ensures SplitRawUrl(u).None? ==> v == u
    ensures SplitRawUrl(u).Some? ==>
              var f := SplitRawUrl(u).value;
              var q := |f.scheme| + |f.host| + |f.author| + 1 + |f.repo|;
              && q < |u| && u[q] == '/' && v[q] == '@'
              && (forall k :: 0 <= k < |u| && k != q ==> v[k] == u[k])
              && v == f.scheme + f.host + f.author + "/" + f.repo + "@" + f.path
  {
    match SplitRawUrl(u)
    case None => u
    case Some(f) =>
      MarkFile(f);
      MarkAt(u, |f.scheme| + |f.host| + |f.author| + 1 + |f.repo|)
  }

  /** `u` with the character at `q` turned into `@`. */
  function MarkAt(u: string, q: nat): (v: string)
    requires q < |u|
    ensures |v| == |u| && v[q] == '@'
    ensures forall k :: 0 <= k < |u| && k != q ==> v[k] == u[k]
  {
    u[..q] + "@" + u[q + 1..]
  }

  /** In the GitHub form of a raw-host file, the slash after the repo turned
      into `@` gives the marked text. */
  lemma MarkFile(f: FileUrl)
    requires f.kind == ""
    ensures var u := GitHubUrl(f); var q := |f.scheme| + |f.host| + |f.author| + 1 + |f.repo|;
            && q < |u| && u[q] == '/'
            && MarkAt(u, q) == f.scheme + f.host + f.author + "/" + f.repo + "@" + f.path
  {
    var u := GitHubUrl(f);
    var q := |f.scheme| + |f.host| + |f.author| + 1 + |f.repo|;
    var head := f.scheme + f.host + f.author + "/" + f.repo;
    assert u == head + "/" + f.path;
    assert u[..q] == head && u[q + 1..] == f.path;
  }

  /** app.py:158, `re.sub(r'(\.com/.*?/.+?)/(.+?/)', r'\1@\2', u, 1)`, from
      index `p` on: at the leftmost `.com/` where the pattern matches, the
      slash after its second lazy group becomes `@`; where it matches nowhere
      the text is unchanged. */
  function SubMarkFrom(u: string, p: nat): (v: string)
    ensures |v| == |u|
    ensures v == u || exists q :: p + 5 < q < |u| && u[q] == '/' && v == MarkAt(u, q)
    decreases |u| - p
  {
    if p + 5 > |u| then u
    else if SubMarkAt(u, p).Some? then MarkAt(u, SubMarkAt(u, p).value)
    else SubMarkFrom(u, p + 1)
  }

  /** The slash the substitution marks when its match starts at `p`: after
      `.com/`, the lazy `.*?` and `.+?` groups (each closed by a slash) are
      the least pair for which `.+?/` follows. */
  function SubMarkAt(u: string, p: nat): (q: Option<nat>)
    requires p + 5 <= |u|
    ensures q.Some? ==> OccursAt(u, ".com/", p) && p + 5 < q.value < |u| && u[q.value] == '/'
  {
    if OccursAt(u, ".com/", p) && LeastDouble(SlashRest, u, p + 5, 0).Some? then
      var (x, y) := LeastDouble(SlashRest, u, p + 5, 0).value;
      Some(p + 5 + x + 1 + y)
    else None
  }

  /** The substitution marks the same slash as the exp4 match, the one that
      closes the repo group (as `RawRefMark` does), whenever the author
      group does not begin with a slash (there `.*?` would match the empty
      text instead). */
  lemma SubMarksRawRef(u: string)
    requires SplitRawUrl(u).Some? && !StartsWith(SplitRawUrl(u).value.author, "/")
    ensures var f := SplitRawUrl(u).value;
            SubMarkFrom(u, 0) == f.scheme + f.host + f.author + "/" + f.repo + "@" + f.path
  {
    var b := Base(RawHost, u).value;
    var (a, n) := LeastDouble(RefPathRest, u, b, 1).value;
    SplitRawLengths(u, b, a, n);
    SubMarksAt(u, b, a, n);
  }

  /** The substitution agrees with the reference mark `RawRefMark` on every
      exp4 URL whose author group does not begin with a slash. */
  lemma SubMarkIsRawRefMark(u: string)
    requires SplitRawUrl(u).Some? && !StartsWith(SplitRawUrl(u).value.author, "/")
    ensures SubMarkFrom(u, 0) == RawRefMark(u)
  {
    SubMarksRawRef(u);
  }

  /** `SubMarksRawRef` at the cut points. */
  lemma SubMarksAt(u: string, b: nat, a: nat, n: nat)
    requires Base(RawHost, u) == Some(b) && LeastDouble(RefPathRest, u, b, 1) == Some((a, n))
    requires b < |u| && u[b] != '/' && SplitRawUrl(u).Some?
    requires var f := SplitRawUrl(u).value; |f.scheme| + |f.host| + |f.author| + 1 + |f.repo| == b + a + 1 + n
    ensures var f := SplitRawUrl(u).value;
            SubMarkFrom(u, 0) == f.scheme + f.host + f.author + "/" + f.repo + "@" + f.path
  {
    SubMarkCut(u, b, a, n);
    MarkFile(SplitRawUrl(u).value);
  }

  /** `RawCutLengths` for the cut the search makes. */
  lemma SplitRawLengths(u: string, b: nat, a: nat, n: nat)
    requires Base(RawHost, u) == Some(b) && LeastDouble(RefPathRest, u, b, 1) == Some((a, n))
    ensures b < |u| && SplitRawUrl(u).Some?
    ensures var f := SplitRawUrl(u).value;
            && |f.scheme| + |f.host| + |f.author| + 1 + |f.repo| == b + a + 1 + n
            && (StartsWith(f.author, "/") <==> u[b] == '/')
  {
    SplitRawAt(u, b, a, n);
    RawCutLengths(u, b, a, n);
  }

  /** The pieces of the cut have the lengths of the cut points. */
  lemma RawCutLengths(u: string, b: nat, a: nat, n: nat)
    requires RawCutPoints(u, b, a, n) && 1 <= a
    ensures var f := RawCut(u, b, a, n);
            && |f.scheme| + |f.host| + |f.author| + 1 + |f.repo| == b + a + 1 + n
            && (StartsWith(f.author, "/") <==> u[b] == '/')
  {
    var f := RawCut(u, b, a, n);
    assert f.author[0] == u[b];
  }

  /** The substitution marks the slash after the exp4 repo group when the
      author group does not begin with a slash. */
  lemma SubMarkCut(u: string, b: nat, a: nat, n: nat)
    requires Base(RawHost, u) == Some(b) && LeastDouble(RefPathRest, u, b, 1) == Some((a, n))
    requires b < |u| && u[b] != '/'
    ensures SubMarkFrom(u, 0) == MarkAt(u, b + a + 1 + n)
  {
    BaseAt(RawHost, u);
    NoComBeforeHost(u, SchemeLength(u), b);
    ComAtHost(u, SchemeLength(u), b);
    SubMarkHost(u, b, a, n);
  }

  /** `SubMarksRawRef` at the cut points: when the first `.com/` starts at
      `b - 5`, both mark the slash after the repo group. */
  lemma SubMarkHost(u: string, b: nat, a: nat, n: nat)
    requires 5 <= b < |u| && OccursAt(u, ".com/", b - 5)
    requires forall p :: 0 <= p && p + 5 < b ==> !OccursAt(u, ".com/", p)
    requires u[b] != '/' && LeastDouble(RefPathRest, u, b, 1) == Some((a, n))
    ensures SubMarkFrom(u, 0) == MarkAt(u, b + a + 1 + n)
  {
    SubMarkSkip(u, 0, b - 5);
    SubLeastPair(u, b, a, n);
    SubMarkFromHost(u, b, a, n);
  }

  /** The match at the `.com/` that ends the host marks the slash after the
      pair the lazy search finds there. */
  lemma SubMarkFromHost(u: string, b: nat, a: nat, n: nat)
    requires 5 <= b <= |u| && OccursAt(u, ".com/", b - 5) && LeastDouble(SlashRest, u, b, 0) == Some((a, n))
    ensures SubMarkFrom(u, b - 5) == MarkAt(u, b + a + 1 + n)
  {
    var p := b - 5;
    assert p + 5 == b;
    assert SubMarkAt(u, p) == Some(b + a + 1 + n);
  }

  /** `.com/` at `p` puts a dot at `p` and a slash at `p + 4`. */
  lemma ComChars(u: string, p: nat)
    ensures OccursAt(u, ".com/", p) ==> u[p] == '.' && u[p + 4] == '/'
  {
    if OccursAt(u, ".com/", p) {
      OccursAtChar(u, ".com/", p, 0);
      OccursAtChar(u, ".com/", p, 4);
    }
  }

  /** No `.com/` begins in the scheme or the host of an exp4 URL before the
      one that ends the host: the scheme holds no dot, and the host name no
      slash before its last character. */
  lemma NoComBeforeHost(u: string, sl: nat, b: nat)
    requires sl <= b <= |u| && u[..sl] in ["", "http://", "https://"]
    requires u[sl..b] in ["raw.githubusercontent.com/", "raw.github.com/"]
    ensures forall p :: 0 <= p && p + 5 < b ==> !OccursAt(u, ".com/", p)
  {
    var scheme := u[..sl];
    var host := u[sl..b];
    SchemeNoDot(scheme);
    HostNoSlash(host);
    forall p | 0 <= p && p + 5 < b
      ensures !OccursAt(u, ".com/", p)
    {
      ComChars(u, p);
      if p < sl {
        assert u[p] == scheme[p];
      } else {
        assert u[p + 4] == host[p + 4 - sl];
      }
    }
  }

  /** The scheme words hold no dot. */
  lemma SchemeNoDot(scheme: string)
    requires scheme in ["", "http://", "https://"]
    ensures forall k :: 0 <= k < |scheme| ==> scheme[k] != '.'
  {
  }

  /** The raw host names hold no slash before their last character. */
  lemma HostNoSlash(host: string)
    requires host in ["raw.githubusercontent.com/", "raw.github.com/"]
    ensures forall k :: 0 <= k < |host| - 1 ==> host[k] != '/'
  {
  }

  /** The host of an exp4 URL ends with `.com/`. */
  lemma ComAtHost(u: string, sl: nat, b: nat)
    requires sl <= b <= |u| && u[sl..b] in ["raw.githubusercontent.com/", "raw.github.com/"]
    ensures sl + 5 <= b && OccursAt(u, ".com/", b - 5)
  {
    var host := u[sl..b];
    assert host[|host| - 5..] == ".com/";
    assert u[b - 5..b] == host[|host| - 5..];
  }

  /** Where no match starts, the substitution looks further on. */
  lemma {:induction false} SubMarkSkip(u: string, p: nat, t: nat)
    requires p <= t && forall p' :: p <= p' < t ==> !OccursAt(u, ".com/", p')
    ensures SubMarkFrom(u, p) == SubMarkFrom(u, t)
    decreases t - p
  {
    if p < t && p + 5 <= |u| {
      assert SubMarkAt(u, p).None?;
      SubMarkSkip(u, p + 1, t);
    }
  }

  /** After the `.com/` that ends the host, the substitution's lazy groups
      are the exp4 author and repo groups: a slash cannot close an empty
      first group, every pair the exp4 rest admits the substitution's rest
      admits too, and a smaller pair for the substitution would be a smaller
      pair for exp4. */
  lemma SubLeastPair(u: string, b: nat, a: nat, n: nat)
    requires b < |u| && u[b] != '/' && LeastDouble(RefPathRest, u, b, 1) == Some((a, n))
    ensures LeastDouble(SlashRest, u, b, 0) == Some((a, n))
  {
    LeastDoubleCorrect(RefPathRest, u, b, 1);
    var k := RefPathSlash(u, b, a, n);
    SlashPairAt(u, b, a, n, k);
    LeastDoubleIs(SlashRest, u, b, 1, a, n);
    LeastDoubleNoSlash(SlashRest, u, b, 0);
  }

  /** The slash the exp4 rest `.+?/.+$` finds after the repo group. */
  lemma RefPathSlash(u: string, b: nat, a: nat, n: nat) returns (k: nat)
    requires Double(RefPathRest, u, b, a, n)
    ensures RefPathAt(u, b + a + 1 + n + 1, k)
  {
    assert RestOk(RefPathRest, u, b + a + 1 + n + 1);
    k :| b + a + 1 + n + 1 < k < |u| && RefPathAt(u, b + a + 1 + n + 1, k);
  }

  /** The exp4 pair is the least pair for the substitution's rest too. */
  lemma SlashPairAt(u: string, b: nat, a: nat, n: nat, k: nat)
    requires LeastDoubleAt(RefPathRest, u, b, 1, a, n) && RefPathAt(u, b + a + 1 + n + 1, k)
    ensures LeastDoubleAt(SlashRest, u, b, 1, a, n)
  {
    assert SlashAt(u, b + a + 1 + n + 1, k);
    assert RestOk(SlashRest, u, b + a + 1 + n + 1);
    SubNoSmaller(u, b, a, n, k);
  }

  /** The minimality half of `SubLeastPair`. */
  lemma SubNoSmaller(u: string, b: nat, a: nat, n: nat, k: nat)
    requires LeastDoubleAt(RefPathRest, u, b, 1, a, n) && RefPathAt(u, b + a + 1 + n + 1, k)
    ensures forall x: nat, y: nat :: 1 <= x < a ==> !Double(SlashRest, u, b, x, y)
    ensures forall y: nat :: y < n ==> !Double(SlashRest, u, b, a, y)
  {
    forall x: nat, y: nat | 1 <= x < a
      ensures !Double(SlashRest, u, b, x, y)
    {
      ShorterFirst(u, b, a, n, k, x);
    }
    forall y: nat | y < n
      ensures !Double(SlashRest, u, b, a, y)
    {
      ShorterSecond(u, b, a, n, k, y);
    }
  }

  /** A first group closed by an earlier slash leaves the exp4 pattern a
      longer repo group reaching the same slash. */
  lemma ShorterFirst(u: string, b: nat, a: nat, n: nat, k: nat, x: nat)
    requires Double(RefPathRest, u, b, a, n) && RefPathAt(u, b + a + 1 + n + 1, k) && x < a
    ensures Segment(u, b, x) ==> Double(RefPathRest, u, b, x, a + n - x)
  {
    if Segment(u, b, x) {
      assert DotsIn(u, b + x + 1, b + a + 1 + n);
      assert b + x + 1 + (a + n - x) + 1 == b + a + 1 + n + 1;
      assert RestOk(RefPathRest, u, b + x + 1 + (a + n - x) + 1);
    }
  }

  /** A second group closed by an earlier slash leaves the exp4 rest a
      longer ref reaching the same slash. */
  lemma ShorterSecond(u: string, b: nat, a: nat, n: nat, k: nat, y: nat)
    requires Double(RefPathRest, u, b, a, n) && RefPathAt(u, b + a + 1 + n + 1, k) && y < n
    ensures Double(SlashRest, u, b, a, y) ==> Double(RefPathRest, u, b, a, y)
  {
    if Double(SlashRest, u, b, a, y) {
      var j := b + a + 1 + y + 1;
      assert DotsIn(u, j, k);
      assert RefPathAt(u, j, k);
    }
  }

  /** app.py:157-160: the substitution's `@` mark, then
      `raw.githubusercontent.com` replaced by the jsDelivr host when present,
      `raw.github.com` otherwise. */
  function CdnRaw(u: string): string {
    var v := SubMarkFrom(u, 0);
    var w := ReplaceFirst(v, "raw.githubusercontent.com", JsDelivrHost);
    if w == v then ReplaceFirst(v, "raw.github.com", JsDelivrHost) else w
  }

  /** An exp4 URL is redirected to the jsDelivr URL of the same file. On the
      short host `raw.github.com` this needs the long host name not to occur
      in the marked text, which is what the `_u == u` test assumes. */
  lemma CdnRawIsJsDelivr(u: string)
    requires SplitRawUrl(u).Some? && !StartsWith(SplitRawUrl(u).value.author, "/")
    requires SplitRawUrl(u).value.host == "raw.githubusercontent.com/"
             || forall j :: 0 <= j ==> !OccursAt(SubMarkFrom(u, 0), "raw.githubusercontent.com", j)
    ensures CdnRaw(u) == JsDelivrUrl(SplitRawUrl(u).value)
  {
    var f := SplitRawUrl(u).value;
    SubMarksRawRef(u);
    BaseAt(RawHost, u);
    CdnRawOf(f, SubMarkFrom(u, 0));
  }

  /** `CdnRawIsJsDelivr` stated on the pieces of the URL and its marked form. */
  lemma CdnRawOf(f: FileUrl, v: string)
    requires SchemeWord(f.scheme) && (f.host == "raw.githubusercontent.com/" || f.host == "raw.github.com/")
    requires v == f.scheme + f.host + f.author + "/" + f.repo + "@" + f.path
    requires f.host == "raw.githubusercontent.com/" || forall j :: 0 <= j ==> !OccursAt(v, "raw.githubusercontent.com", j)
    ensures var w := ReplaceFirst(v, "raw.githubusercontent.com", JsDelivrHost);
            (if w == v then ReplaceFirst(v, "raw.github.com", JsDelivrHost) else w) == JsDelivrUrl(f)
  {
    var tail := "/" + f.author + "/" + f.repo + "@" + f.path;
    SchemeAvoidsHosts(f.scheme);
    JsDelivrSplit(f);
    if f.host == "raw.githubusercontent.com/" {
      HostForm(f, "raw.githubusercontent.com", v);
      ReplaceAtHost(f.scheme, "raw.githubusercontent.com", tail, JsDelivrHost);
      assert |f.scheme + JsDelivrHost + tail| != |v|;
    } else {
      HostForm(f, "raw.github.com", v);
      ReplaceFirstCases(v, "raw.githubusercontent.com", JsDelivrHost);
      ReplaceAtHost(f.scheme, "raw.github.com", tail, JsDelivrHost);
    }
  }

  /** The marked text is the scheme, the host name and the `@`-joined rest. */
  lemma HostForm(f: FileUrl, name: string, v: string)
    requires f.host == name + "/"
    requires v == f.scheme + f.host + f.author + "/" + f.repo + "@" + f.path
    ensures v == f.scheme + name + ("/" + f.author + "/" + f.repo + "@" + f.path)
  {
  }
}
