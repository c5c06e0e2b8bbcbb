/** The request handler (app.py:130-171): normalise the path, classify it,
    run the three rule lists, then redirect to jsDelivr, redirect to the
    upstream URL, or escape the URL and forward it.

    The handler is split in two. `PlanOf` is the decision, a pure function of
    the settings, the path and the request suffix; `Handle` carries it out,
    handing a forwarded URL to the forwarder. */
module Gateway {
  import opened Wrappers
  import opened Text
  import opened Patterns
  import opened Acl
  import opened Rewrite
  import opened RawLink
  import opened Escape
  import opened Forwarder

  /** What the handler reads from the process: the rule lists, the
      `jsdelivr` switch (an `int`, on when non-zero) and `size_limit`. */
  datatype Settings = Settings(lists: Lists, jsdelivr: int, sizeLimit: int)

  /** The messages of the three refusals. */
  const InvalidInput: string := "Invalid input."
  const WhiteListDenial: string := "Forbidden by white list."
  const BlackListDenial: string := "Forbidden by black list."

  /** The decision of the handler. */
  datatype Plan =
    | Refuse(message: string)          // 403 with the message as body
    | CdnRedirect(target: string)      // the same file on jsDelivr
    | UpstreamRedirect(target: string) // the upstream URL itself, for the pass-list
    | Forward(target: string)          // the escaped URL, handed to the forwarder

  /** app.py:154-171, once the rule lists have let the match through:
      `passBy` is the pass-list hit. The exp2 rewrite is the one written at
      app.py:155 (`Rewrite.CdnBlobAsWritten`). */
  function Route(jsdelivr: int, passBy: bool, u: string, suffix: string): (p: Plan)
    ensures !p.Refuse?
  {
    var cdn := jsdelivr != 0 || passBy;
    if cdn && Match(BlobRaw, u).Some? then
      CdnRedirect(CdnBlobAsWritten(u))
    else if cdn && Match(RawHost, u).Some? then
      CdnRedirect(CdnRaw(u))
    else
      var v := if Match(BlobRaw, u).Some? then BlobToRaw(u) else u;
      if passBy then UpstreamRedirect(RepairScheme(v + suffix))
      else Forward(Quote(v))
  }

  /** `Route` with the exp2 rewrite corrected (`Rewrite.JsDelivrBlob`):
      the one branch where the two differ. */
  function RouteIntended(jsdelivr: int, passBy: bool, u: string, suffix: string): (p: Plan)
    ensures !p.Refuse?
    ensures !((jsdelivr != 0 || passBy) && Match(BlobRaw, u).Some?) ==> p == Route(jsdelivr, passBy, u, suffix)
  {
    if (jsdelivr != 0 || passBy) && Match(BlobRaw, u).Some? then
      SplitBlobGroups(u);
      CdnRedirect(JsDelivrBlob(u).value)
    else Route(jsdelivr, passBy, u, suffix)
  }

  /** app.py:135-171 for the normalised URL `u` and what `check_url(u)`
      returned. */
  function Dispatch(settings: Settings, u: string, m: Option<MatchResult>, suffix: string): Plan
    requires WellFormed(settings.lists)
  {
    match m
    case None => Refuse(InvalidInput)
    case Some(r) =>
      match Evaluate(settings.lists, r.groups)
      case DeniedByWhitelist => Refuse(WhiteListDenial)
      case DeniedByBlacklist => Refuse(BlackListDenial)
      case PassThrough => Route(settings.jsdelivr, true, u, suffix)
      case Allowed => Route(settings.jsdelivr, false, u, suffix)
  }

  /** app.py:131-171 as a decision. */
  function PlanOf(settings: Settings, suffix: string, path: string): Plan
    requires WellFormed(settings.lists)
  {
    var u := Normalize(path);
    Dispatch(settings, u, Classify(u), suffix)
  }

  /** `handler(u)`: the plan carried out. */
  function Handle(settings: Settings, fetch: Outbound -> Fetched, client: Client, path: string, fuel: nat): Reply
    requires WellFormed(settings.lists)
  {
    match PlanOf(settings, client.suffix, path)
    case Refuse(msg) => Forbidden(msg)
    case CdnRedirect(t) => Redirect(t)
    case UpstreamRedirect(t) => Redirect(t)
    case Forward(t) => Proxy(fetch, client, settings.sizeLimit, t, false, fuel)
  }

  /** The refusal messages differ, so the message names the reason. */
  lemma MessagesDiffer()
    ensures InvalidInput != WhiteListDenial && InvalidInput != BlackListDenial && WhiteListDenial != BlackListDenial
  {
    assert InvalidInput[0] != WhiteListDenial[0];
    assert InvalidInput[0] != BlackListDenial[0];
    assert WhiteListDenial[14] != BlackListDenial[14];
  }

  /** Each refusal comes exactly from its reason: no match, the whitelist
      gate, or a blacklist hit that passed the gate. */
  lemma DispatchRefusals(settings: Settings, u: string, m: Option<MatchResult>, suffix: string)
    requires WellFormed(settings.lists)
    ensures Dispatch(settings, u, m, suffix) == Refuse(InvalidInput) <==> m.None?
    ensures Dispatch(settings, u, m, suffix) == Refuse(WhiteListDenial) <==>
              m.Some? && Evaluate(settings.lists, m.value.groups) == DeniedByWhitelist
    ensures Dispatch(settings, u, m, suffix) == Refuse(BlackListDenial) <==>
              m.Some? && Evaluate(settings.lists, m.value.groups) == DeniedByBlacklist
  {
    MessagesDiffer();
  }

  /** What the rule lists let through is routed, with the pass-list hit as
      `passBy`; nothing else is. */
  lemma DispatchRoutes(settings: Settings, u: string, m: Option<MatchResult>, suffix: string)
    requires WellFormed(settings.lists)
    ensures !Dispatch(settings, u, m, suffix).Refuse? <==>
              m.Some? && Evaluate(settings.lists, m.value.groups) in {Allowed, PassThrough}
    ensures m.Some? && Evaluate(settings.lists, m.value.groups) in {Allowed, PassThrough} ==>
              var passBy := Evaluate(settings.lists, m.value.groups) == PassThrough;
              Dispatch(settings, u, m, suffix) == Route(settings.jsdelivr, passBy, u, suffix)
  {
  }

  /** A path is refused as invalid exactly when no pattern accepts its
      normalised form. */
  lemma InvalidInputRefused(settings: Settings, suffix: string, path: string)
    requires WellFormed(settings.lists)
    ensures PlanOf(settings, suffix, path) == Refuse(InvalidInput) <==> forall shape :: !Matches(shape, Normalize(path))
  {
    var u := Normalize(path);
    ClassifyCorrect(u);
    DispatchRefusals(settings, u, Classify(u), suffix);
  }

  /** A match that both the blacklist and the pass-list hit is refused, by
      the whitelist gate or by the blacklist: the pass-list never reaches it. */
  lemma BlackListBeatsPassList(settings: Settings, u: string, m: Option<MatchResult>, suffix: string)
    requires WellFormed(settings.lists)
    requires m.Some? && Hits(settings.lists.black, m.value.groups)
    ensures Dispatch(settings, u, m, suffix) == Refuse(WhiteListDenial)
            || Dispatch(settings, u, m, suffix) == Refuse(BlackListDenial)
  {
    BlacklistBeatsPassList(settings.lists, m.value.groups);
  }

  /** A jsDelivr redirect happens exactly when the switch or the pass-list
      is on and the URL has the exp2 or the exp4 shape: releases, git
      endpoints and gists are never sent to jsDelivr. */
  lemma CdnOnlyForFiles(jsdelivr: int, passBy: bool, u: string, suffix: string)
    ensures Route(jsdelivr, passBy, u, suffix).CdnRedirect? <==>
              (jsdelivr != 0 || passBy) && (Match(BlobRaw, u).Some? || Match(RawHost, u).Some?)
  {
  }

  /** The exp2 redirect as written names the same author, repo and path on
      jsDelivr when the kind is `blob/` and no `/blob/` comes before it
      (the conditions of `Rewrite.CdnBlobAgrees`). */
  lemma CdnBlobTarget(jsdelivr: int, passBy: bool, u: string, suffix: string)
    requires (jsdelivr != 0 || passBy) && Match(BlobRaw, u).Some?
    requires SplitBlobUrl(u).Some? ==>
               var f := SplitBlobUrl(u).value;
               && f.kind == "blob/"
               && forall i :: 0 <= i < |f.scheme| + |f.host| + |f.author| + 1 + |f.repo| ==> !OccursAt(u, "/blob/", i)
    ensures SplitBlobUrl(u).Some?
    ensures var f := SplitBlobUrl(u).value;
            && GitHubUrl(f) == u && [f.author, f.repo] == Match(BlobRaw, u).value.groups
            && Route(jsdelivr, passBy, u, suffix) == CdnRedirect(JsDelivrUrl(f))
  {
    SplitBlobGroups(u);
    CdnBlobAgrees(u);
  }

  /** The corrected exp2 redirect names the same author, repo and path on
      jsDelivr for every exp2 URL. */
  lemma CdnBlobTargetIntended(jsdelivr: int, passBy: bool, u: string, suffix: string)
    requires (jsdelivr != 0 || passBy) && Match(BlobRaw, u).Some?
    ensures SplitBlobUrl(u).Some?
    ensures var f := SplitBlobUrl(u).value;
            && GitHubUrl(f) == u && [f.author, f.repo] == Match(BlobRaw, u).value.groups
            && RouteIntended(jsdelivr, passBy, u, suffix) == CdnRedirect(JsDelivrUrl(f))
  {
    SplitBlobGroups(u);
  }

  /** A repo named `blob`, or the kind `raw/`, reaches the client: the
      handler as written redirects such an exp2 URL elsewhere than the
      file's jsDelivr address, which the corrected handler names. */
  lemma CdnBlobFindingReachesRoute(f: FileUrl, jsdelivr: int, passBy: bool, suffix: string)
    requires RepoBlobCase(f) || RawKindCase(f)
    requires jsdelivr != 0 || passBy
    ensures Route(jsdelivr, passBy, GitHubUrl(f), suffix) != CdnRedirect(JsDelivrUrl(f))
    ensures RouteIntended(jsdelivr, passBy, GitHubUrl(f), suffix) == CdnRedirect(JsDelivrUrl(f))
  {
    var u := GitHubUrl(f);
    if RepoBlobCase(f) {
      RepoBlobDiffers(f);
    } else {
      RawKindDiffers(f);
    }
    SplitBlobGroups(u);
  }

  /** The exp4 redirect names the same author, repo and path on jsDelivr
      (under the condition `Rewrite.CdnRawIsJsDelivr` states for the short
      host). */
  lemma CdnRawTarget(jsdelivr: int, passBy: bool, u: string, suffix: string)
    requires (jsdelivr != 0 || passBy) && Match(RawHost, u).Some?
    requires SplitRawUrl(u).Some? ==>
               && !StartsWith(SplitRawUrl(u).value.author, "/")
               && (SplitRawUrl(u).value.host == "raw.githubusercontent.com/"
                   || forall j :: 0 <= j ==> !OccursAt(SubMarkFrom(u, 0), "raw.githubusercontent.com", j))
    ensures SplitRawUrl(u).Some?
    ensures var f := SplitRawUrl(u).value;
            && GitHubUrl(f) == u && [f.author, f.repo] == Match(RawHost, u).value.groups
            && Route(jsdelivr, passBy, u, suffix) == CdnRedirect(JsDelivrUrl(f))
  {
    SplitRawGroups(u);
    HostsExclusive(u);
    CdnRawIsJsDelivr(u);
  }

  /** The pass-list redirect to the upstream URL only happens where no
      jsDelivr rewrite applies, so the URL is the matched one, unchanged,
      with the request suffix and the `https:/` repair. */
  lemma UpstreamRedirectTarget(jsdelivr: int, passBy: bool, u: string, suffix: string)
    ensures Route(jsdelivr, passBy, u, suffix).UpstreamRedirect? <==>
              passBy && Match(BlobRaw, u).None? && Match(RawHost, u).None?
    ensures Route(jsdelivr, passBy, u, suffix).UpstreamRedirect? ==>
              Route(jsdelivr, passBy, u, suffix).target == RepairScheme(u + suffix)
  {
  }

  /** Forwarding happens exactly when the pass-list missed and the jsDelivr
      switch does not apply; the forwarded URL decodes to the UTF-8 bytes
      of the matched URL, with the first `/blob/` of an exp2 URL turned into
      `/raw/`, and that rewritten URL still has the exp2 shape. */
  lemma ForwardTarget(jsdelivr: int, passBy: bool, u: string, suffix: string)
    ensures Route(jsdelivr, passBy, u, suffix).Forward? <==>
              !passBy && (jsdelivr == 0 || (Match(BlobRaw, u).None? && Match(RawHost, u).None?))
    ensures Route(jsdelivr, passBy, u, suffix).Forward? ==>
              var v := if Match(BlobRaw, u).Some? then BlobToRaw(u) else u;
              && Unquote(Route(jsdelivr, passBy, u, suffix).target) == Some(Utf8(v))
              && (Match(BlobRaw, u).Some? ==> Match(BlobRaw, v).Some?)
  {
    var v := if Match(BlobRaw, u).Some? then BlobToRaw(u) else u;
    QuoteRoundTrip(v);
    if Match(BlobRaw, u).Some? {
      BlobToRawMatches(u);
    }
  }

  /** The handler forbids exactly when the plan refuses, with the plan's
      message; the forwarder never does. */
  lemma HandleForbids(settings: Settings, fetch: Outbound -> Fetched, client: Client, path: string, fuel: nat)
    requires WellFormed(settings.lists)
    ensures Handle(settings, fetch, client, path, fuel).Forbidden? <==> PlanOf(settings, client.suffix, path).Refuse?
    ensures PlanOf(settings, client.suffix, path).Refuse? ==>
              Handle(settings, fetch, client, path, fuel) == Forbidden(PlanOf(settings, client.suffix, path).message)
              && Status(Handle(settings, fetch, client, path, fuel)) == Some(403)
  {
    var p := PlanOf(settings, client.suffix, path);
    if p.Forward? {
      ProxyNeverForbids(fetch, client, settings.sizeLimit, p.target, false, fuel);
    }
  }

  /** Both redirects of the plan are sent as they are, with status 307;
      a forwarded URL is fetched with redirects refused. */
  lemma HandleCarriesOut(settings: Settings, fetch: Outbound -> Fetched, client: Client, path: string, fuel: nat)
    requires WellFormed(settings.lists)
    ensures var p := PlanOf(settings, client.suffix, path);
            && (p.CdnRedirect? || p.UpstreamRedirect? ==>
                  Handle(settings, fetch, client, path, fuel) == Redirect(p.target)
                  && Status(Handle(settings, fetch, client, path, fuel)) == Some(307))
            && (p.Forward? ==>
                  Handle(settings, fetch, client, path, fuel) == Proxy(fetch, client, settings.sizeLimit, p.target, false, fuel))
  {
  }
}
