# fastgithub request gateway, modelled in Dafny

fastgithub is a small HTTP gateway in front of GitHub. A client asks it for
a path such as `github.com/acme/widgets/blob/main/README.md`. The gateway:

1. normalises the path into a URL;
2. classifies the URL with five anchored patterns:
   - releases and archives,
   - file views and raw files,
   - git endpoints,
   - the raw content host,
   - gists;
3. checks the captured author and repo against a whitelist, a blacklist and a pass-list;
4. answers in one of four ways:
   - it refuses with 403;
   - it redirects to jsDelivr, rewriting the URL into what is meant to be the same file there (two findings below show where the exp2 rewrite misses);
   - it redirects to the upstream URL itself;
   - it percent-escapes the URL and forwards the request upstream.

The forwarder relays the upstream answer, with three exceptions:
- it sends the client to the upstream URL when the body is larger than the size limit;
- it turns an upstream redirect it can serve into a path on the gateway;
- it follows any other upstream redirect itself.

A settings record holds the listening host and port, the debug flag, the size limit and the jsDelivr switch. The record comes with:
- defaults;
- a host validator (`localhost` or a dotted IPv4 address);
- string coercions for the values of the configuration file;
- `get`, `set` and `reset`.

The model is functional throughout. Each module follows one part of the program:

| module | file | what it holds |
|---|---|---|
| `Wrappers` | wrappers.dfy | `Option` and `Result` |
| `Text` | text.dfy | the Python string built-ins the code relies on: `startswith`, `find`, `replace(…, 1)`, `split`, `lower`, `int()` and `str()` |
| `Patterns` | patterns.dfy | the five patterns as lazy matchers and `check_url` |
| `Acl` | acl.dfy | the three rule lists and their evaluation, as loops and as a function |
| `Rewrite` | rewrite.dfy | the normalisation of the path, the `https:/` repair and the jsDelivr rewrites |
| `RawLink` | rawlink.dfy | the `/blob/` → `/raw/` rewrite and its preservation of the exp2 shape |
| `Escape` | escape.dfy | `quote(u, safe='/:')` and its decoding (section 2.1 of RFC 3986) |
| `Forwarder` | forwarder.dfy | `proxy`: the outgoing request, the size limit and the `Location` handling, with the network as a parameter |
| `Gateway` | gateway.dfy | `handler`: the decision (`PlanOf`) and carrying it out (`Handle`) |
| `Config` | config.dfy | `AppConfig`, `validate_host`, the loader, `get`/`set`/`reset` |

Some semantics need stating:

- **Regex semantics.**
  - `.` is any character but a newline.
  - `$` holds at the end of the text or just before one final newline.
  - A lazy group takes the least length that lets the rest of the pattern match.
  - For two lazy groups the engine takes the least author length for which some repo length works, then the least such repo length. `LeastDoubleAt` states this and `MatchCorrect` proves the matcher meets it.
- **Rule lists.**
  - The rule lists are parameters, in the parsed form the comment at app.py:21-25 describes: `user`, `user/repo` or `*/repo`.
  - As written, the module constants at app.py:27-32 are raw strings that are never split into rules.
- **Redirects.** `RedirectResponse` answers 307. This is the framework's default and the code passes no status. Descriptions of the program that say 302 do not match the code; the model follows the code.

## Model

| member | source | states |
|---|---|---|
| Patterns.Rank | app.py:83 | the patterns are tried in the order exp1, exp2, exp3, exp4, exp5 |
| Patterns.BaseAt | app.py:35-39 | where a pattern's author group starts, the text before it is an optional `http://` or `https://` and one of the pattern's host names |
| Patterns.LeastSingleCorrect | app.py:39 | the one-group search returns the least group length after which a slash and the required rest follow, and nothing when no length works |
| Patterns.LeastDoubleCorrect | app.py:35-38 | the two-group search returns the least author length for which some repo length works, with the least such repo length, and nothing when no pair works |
| Patterns.LeastDoubleIs | app.py:35-38 | the engine's pair of group lengths is unique, so any pair with the least-pair property is the one the search returns |
| Patterns.MatchCorrect | app.py:35-39 | `exp.match(s)` succeeds exactly when some choice of group lengths fits the pattern, and its groups are the texts of the engine's lazy choice |
| Patterns.MatchDouble | app.py:35-38 | the groups of a two-group match are the author and repo texts cut at the lengths the search found |
| Patterns.Match | app.py:35-39 | a match carries its pattern; the gist pattern yields one group and the others yield two |
| Patterns.FirstMatchNone | app.py:83-87 | the loop over the patterns returns nothing exactly when no pattern in the order matches |
| Patterns.FirstMatchSome | app.py:83-86 | what the loop returns is the match of some pattern, and no earlier pattern matches |
| Patterns.Classify | app.py:82-87 | `check_url` fails exactly when no pattern matches; otherwise it returns the match of its pattern, and every earlier pattern fails |
| Patterns.ClassifyCorrect | app.py:82-87 | `check_url`, stated on the patterns: no pattern accepts, or the first accepting pattern with the engine's groups |
| Patterns.HostsExclusive | app.py:35-39 | the github.com, raw-host and gist-host patterns never accept the same URL |
| Acl.Scan | app.py:144-146 | one rule loop stops with a hit exactly when some rule of the list hits the groups |
| Acl.Decide | app.py:138-150 | the three loops in order give the verdict `Evaluate` states: whitelist gate, then blacklist, then pass-list |
| Acl.WildcardHits | app.py:140 | `('*', repo)` hits exactly the two-group matches whose repo is `repo`: never another repo, never a gist match |
| Acl.AuthorRuleHits | app.py:145 | a one-segment rule `user` hits exactly the matches whose author is `user` |
| Acl.RepoRuleHits | app.py:145 | a rule `user/repo` hits a two-group match exactly when both groups equal the rule |
| Acl.BlacklistBeatsPassList | app.py:144-150 | a match hit by the blacklist is denied whatever the pass-list holds, and by the blacklist once the whitelist let it through |
| Acl.WhitelistGate | app.py:138-143 | a non-empty whitelist with no hitting rule denies, whatever the other lists hold |
| Acl.EmptyListsAllow | app.py:138-150 | with three empty lists every match is allowed |
| Rewrite.NormalizeSchemeless | app.py:131-133 | a path that does not start with `http` is only prefixed with `https://` |
| Rewrite.NormalizeKeepsFullScheme | app.py:131-133 | a URL that already starts with `https://` is left as it is |
| Rewrite.NormalizeCollapsed | app.py:132-133 | the collapsed form `https:/rest` gets its second slash back |
| Rewrite.NormalizeStartsWithHttp | app.py:131-133 | the normalised URL always starts with `http` |
| Rewrite.RepairScheme | app.py:96-97 | a URL starting `https:/` but not `https://` gets exactly one slash inserted after `https:/`; every other URL is unchanged |
| Rewrite.RepairSchemeIdempotent | app.py:167-168 | repairing twice is repairing once |
| Rewrite.SplitBlobGroups | app.py:36 | an exp2 URL can be cut into scheme, host, author, repo, kind and path exactly when exp2 matches, and the cut's author and repo are the match's groups |
| Rewrite.SplitBlobUrl | app.py:36 | the cut reassembles to the URL, with the scheme the pattern skips, the host `github.com/` and the kind `blob/` or `raw/` |
| Rewrite.SplitBlobRoundTrip | app.py:36 | cutting the GitHub URL of a file whose author and repo are single path segments gives back the file |
| Rewrite.SplitRawGroups | app.py:38 | an exp4 URL can be cut exactly when exp4 matches, and the cut's author and repo are the match's groups |
| Rewrite.SplitRawUrl | app.py:38 | the exp4 cut reassembles to the URL, with one of the two raw host names and no kind word |
| Rewrite.JsDelivrBlob | app.py:155 | the corrected exp2 rewrite: it exists exactly when the exp2 cut does, and it is the jsDelivr URL of the same author, repo and ref path |
| Rewrite.CdnBlobAgrees | app.py:155 | where the first `/blob/` is the kind word, the rewrite as written gives the corrected jsDelivr URL |
| Rewrite.CdnBlobRepoBlob | app.py:155 | for a repository named `blob`, the rewrite as written puts the `@` between author and repo |
| Rewrite.RepoBlobDiffers | app.py:155 | for a repository named `blob`, the rewrite as written differs from the jsDelivr URL of the file |
| Rewrite.RepoBlobWitness | app.py:155 | `https://github.com/acme/blob/blob/main/x.md` is such a URL |
| Rewrite.CdnBlobRawKind | app.py:155 | for an exp2 URL of kind `raw/` with no `/blob/`, the rewrite as written only swaps the host and keeps `/raw/` |
| Rewrite.RawKindDiffers | app.py:155 | for an exp2 URL of kind `raw/`, the rewrite as written differs from the jsDelivr URL of the file |
| Rewrite.RawKindWitness | app.py:155 | `https://github.com/acme/widgets/raw/main/x.md` is such a URL |
| Rewrite.SubMarkFrom | app.py:158 | the substitution changes nothing, or turns exactly one slash after a `.com/` into `@` |
| Rewrite.SubMarkAt | app.py:158 | a substitution match starting at an index lies on a `.com/` and marks a slash after it |
| Rewrite.SubMarksRawRef | app.py:158 | on an exp4 URL whose author group does not begin with a slash, the substitution marks the slash that closes the repo group: the result is scheme, host, author, `/`, repo, `@`, ref path |
| Rewrite.RawRefMark | app.py:158 | the reference mark: exactly one character changes, the slash that closes the repo group of the exp4 match, which becomes `@`; without a match nothing changes |
| Rewrite.SubMarkIsRawRefMark | app.py:158 | the substitution and the reference mark agree on every exp4 URL whose author group does not begin with a slash |
| Rewrite.CdnRawIsJsDelivr | app.py:157-160 | an exp4 URL whose author group does not begin with a slash is rewritten into the jsDelivr URL of the same author, repo and ref path |
| RawLink.BlobToRawEdits | app.py:163-164 | the rewrite turns the first `/blob/` into `/raw/`, and changes nothing without one |
| RawLink.EditedChars | app.py:164 | index by index, the text before the edit is kept, and the text after it moves one place to the left |
| RawLink.BlobToRawMatches | app.py:163-164 | rewriting the first `/blob/` of an exp2 URL into `/raw/` gives a URL that exp2 still accepts |
| Escape.Utf8Char | app.py:170 | one character encodes to one to four bytes, and to its own code exactly when it is ASCII |
| Escape.UnquoteQuoteBytes | app.py:170 | decoding the escaped bytes gives back the bytes |
| Escape.Utf8CharDecodes | app.py:170 | the encoding of a character is led by a byte announcing its width, followed by continuation bytes, and spells the character's code point, a Unicode scalar value |
| Escape.Utf8RoundTrip | app.py:170 | decoding the UTF-8 encoding of a text gives back the text |
| Escape.Utf8Injective | app.py:170 | different texts have different UTF-8 encodings |
| Escape.QuoteRoundTrip | app.py:170 | the escaped URL decodes to the UTF-8 bytes of the URL, and those decode to the URL |
| Escape.QuoteInjective | app.py:170 | different URLs are escaped differently |
| Escape.QuoteAlphabet | app.py:170 | the escaped URL holds only unreserved characters, `/`, `:`, `%` and hex digits |
| Escape.QuoteKeepsSafeText | app.py:170 | a URL made only of unreserved ASCII characters, `/` and `:` is left as it is |
| Forwarder.ForwardedHeaders | app.py:91-93 | the forwarded headers are the client's headers with exactly the name `Host` removed, values unchanged |
| Forwarder.OutgoingRequest | app.py:95-98 | the upstream request keeps the client's method, body and headers without `Host`; its URL is the target plus the request suffix with the `https:/` repair |
| Forwarder.LookUpFinds | app.py:101 | a case-insensitive header lookup finds nothing exactly when no name matches, else the value of the first matching entry |
| Forwarder.LookUpEntry | app.py:108-109 | in a case-distinct header list the lookup returns the one matching entry |
| Forwarder.Assign | app.py:111 | assigning a header adds or overwrites that exact name and keeps every entry under any other name; in a dict, whose names are distinct, the names stay distinct and the name holds only the new value |
| Forwarder.LookUpAssign | app.py:111 | after the assignment the name reads back the new value |
| Forwarder.TransportErrorReply | app.py:116-121 | a transport error becomes a 500 whose only header announces HTML |
| Forwarder.BadLengthReply | app.py:101-121 | a `Content-length` that `int()` rejects becomes a 500 that keeps the upstream headers and announces HTML |
| Forwarder.SizeLimit | app.py:101-102 | the client is sent to the upstream URL exactly when the announced length is strictly above the limit; otherwise the `Location` decision applies |
| Forwarder.LocationCases | app.py:108-115 | a reply without `Location` is relayed; an accepted `Location` is relayed as `'/' + Location`; a rejected one is followed |
| Forwarder.FollowsRejectedLocation | app.py:110-113 | a rejected `Location` is fetched next with redirects allowed, its URL built with the suffix and the repair |
| Forwarder.ProxyUnfold | app.py:89-115 | one call of `proxy` is the step for its URL, and then either the reply or the call for the followed location |
| Forwarder.ChaseReplies | app.py:113 | every reply of the redirect chase other than running out of fuel is the final reply of some step |
| Forwarder.ChaseEndless | app.py:110-113 | a chase in which every step follows a location reaches no reply, whatever the fuel |
| Forwarder.ChaseFuel | app.py:113 | once a reply is reached, more fuel changes nothing |
| Forwarder.ProxyFuel | app.py:113 | once `proxy` reaches a reply, more fuel changes nothing |
| Forwarder.ProxyNeverForbids | app.py:89-121 | the forwarder never answers 403 |
| Gateway.Route | app.py:154-171 | a match the rule lists let through is never refused |
| Gateway.RouteIntended | app.py:154-171 | the handler with the corrected exp2 rewrite never refuses either, and differs from the handler as written only in the exp2 jsDelivr branch |
| Gateway.MessagesDiffer | app.py:138-152 | the three refusal messages are pairwise different |
| Gateway.DispatchRefusals | app.py:135-152 | each refusal comes exactly from its reason: no match, the whitelist gate, or a blacklist hit |
| Gateway.DispatchRoutes | app.py:134-150 | a match is routed exactly when the lists allow it or the pass-list hits it, with `pass_by` set by the pass-list |
| Gateway.InvalidInputRefused | app.py:131-152 | a path is refused as invalid exactly when no pattern accepts its normalised URL |
| Gateway.BlackListBeatsPassList | app.py:144-150 | a match that both the blacklist and the pass-list hit is refused |
| Gateway.CdnOnlyForFiles | app.py:154-161 | a jsDelivr redirect happens exactly when the switch or `pass_by` is on and the URL matches exp2 or exp4 |
| Gateway.CdnBlobTarget | app.py:154-156 | the exp2 redirect as written names the same author, repo and ref path on jsDelivr when the kind is `blob/` and no `/blob/` comes before the kind word |
| Gateway.CdnBlobTargetIntended | app.py:154-156 | the corrected exp2 redirect names the same author, repo and ref path on jsDelivr for every exp2 URL |
| Gateway.CdnBlobFindingReachesRoute | app.py:154-156 | for a repository named `blob` or the kind `raw/`, the handler as written redirects elsewhere than the file's jsDelivr URL, which the corrected handler names |
| Gateway.CdnRawTarget | app.py:157-161 | the exp4 redirect names the same author, repo and ref path on jsDelivr when the author group does not begin with a slash |
| Gateway.UpstreamRedirectTarget | app.py:162-169 | the upstream redirect happens exactly when `pass_by` holds and no jsDelivr rewrite applies; its target is the URL plus the suffix with the repair |
| Gateway.ForwardTarget | app.py:162-171 | forwarding happens exactly when `pass_by` is off and the switch does not apply; the forwarded URL decodes to the URL with its first `/blob/` made `/raw/`, which still matches exp2 |
| Gateway.HandleForbids | app.py:130-171 | the handler answers 403 exactly when the plan refuses, with the plan's message |
| Gateway.HandleCarriesOut | app.py:154-171 | both redirects are sent as planned with status 307, and a forwarded URL goes to `proxy` with redirects refused |
| Text.ReplaceFirstCases | app.py:133 | `replace(…, 1)` changes nothing without an occurrence and rewrites only the first one otherwise |
| Text.JoinSplit | config.py:19 | joining the parts of `split('.')` gives back the text |
| Text.SplitJoin | config.py:19 | splitting a join of dot-free parts gives back the parts |
| Text.ParseIntToString | config.py:67 | `int(str(i)) == i` |
| Config.ValidateHost | config.py:14-37 | an accepted host is returned unchanged, and a value other than `localhost` without four dot-separated parts is refused for its part count |
| Config.ValidateHostAccepts | config.py:14-37 | the validator as written accepts `localhost` and exactly the texts the address pattern matches, including one with a final newline |
| Config.AddressPatternIsRegex | config.py:23-34 | reading the pattern part by part after `split('.')` accepts exactly what the regex accepts |
| Config.OctetCanonical | config.py:25 | an octet is one to three digits, no leading zero, value at most 255 |
| Config.OctetOfNat | config.py:25 | `str(n)` is an octet exactly when `n <= 255` |
| Config.LeadingZeroAndOverflowRefused | config.py:23-35 | a last part `01` or `256` is refused |
| Config.NewlineAddressAccepted | config.py:32-34 | as written, an address followed by a newline is accepted; the corrected validator refuses it |
| Config.NewlineAddressWitness | config.py:32-34 | `"127.0.0.1\n"` is such an address |
| Config.ValidateHostStrict | config.py:14-37 | the corrected validator also returns an accepted host unchanged and refuses a wrong part count |
| Config.ValidateHostStrictAccepts | config.py:14-37 | the corrected validator accepts `localhost` and exactly four octets joined by dots, never a newline |
| Config.DottedQuadAccepted | config.py:23-35 | every dotted quad of numbers up to 255 is accepted |
| Config.Problems | config.py:5-37 | the fields reported as failing are exactly those whose checks fail: the host validator as written, the port bounds and the `jsdelivr` coercion |
| Config.ValidIntendedIsValid | config.py:14-37 | the checks with the corrected validator refuse every record the checks as written refuse, and in addition exactly the records with a valid port whose host is an address and a final newline |
| Config.Validate | config.py:74 | building a record succeeds exactly when it passes its checks, and returns it unchanged |
| Config.DefaultsValid | config.py:6-11 | the defaults pass their own checks; the size limit is 999 · 2^30 and the chunk size 10240 |
| Config.ParseDebugCases | config.py:64-65 | the `debug` coercion ignores ASCII case and reads `True` as on and `False` as off |
| Config.ParseDebugWords | config.py:64-65 | the texts `True` and `False` that `str()` writes for the flag read back as on and off |
| Config.Load | config.py:59-74 | a loaded record always passes its checks |
| Config.LoadEmpty | config.py:59-74 | an empty `app` section gives the defaults |
| Config.LoadOptions | config.py:64-74 | a `debug` option sets the field by the coercion, and a `port` text that `int()` rejects stops the load naming the option |
| Config.LoadDump | config.py:74-86 | loading the section written back from a valid record gives that record |
| Config.DumpReads | config.py:84-86 | each option written back reads as its field |
| Config.Get | config.py:93-97 | `get` fails exactly for a name that is not a field, with that name |
| Config.Set | config.py:99-110 | `set` of an unknown name fails with that name, and a successful `set` yields a record that passes its checks |
| Config.SetThenGet | config.py:99-105 | after a successful `set`, `get` returns the new value for that parameter and the old value for every other |
| Config.WithThenGet | config.py:103-105 | changing one field changes what `get` reads for that parameter only |
| Config.SetFails | config.py:99-110 | `set` fails exactly for an unknown name, a value of the wrong type or a record that fails its checks |
| Config.SetPort | config.py:7 | on a valid record, setting the port succeeds exactly inside 1 .. 65535, and otherwise fails naming `port` |
| Config.Reset | config.py:112-114 | `reset` always gives a record that passes its checks |
| Config.SetNewlineHost | config.py:99-110 | as written, `set('host', '127.0.0.1\n')` on a valid record succeeds and stores the newline, which the corrected checks refuse |
| Config.ResetGets | config.py:112-114 | after `reset` every parameter reads its default, whatever the record was |

## Left out

- The FastAPI application, its routes and `uvicorn.run` (app.py:123-129, app.py:173-181) are framework wiring. `Gateway.Handle` is the handler.
- The network:
  - The `requests.request` call is the parameter `fetch`, which maps the outgoing request to an upstream status and header list or to a transport error.
  - The `default_headers` patch (app.py:42) is not modelled.
- Streaming is not modelled. This covers `iter_content`, `iter_slices`, `stream_decode_response_unicode` and the body generator (app.py:44-80, app.py:104-106). A relayed reply carries the upstream status and headers only.
- The `Request.*` class attributes (app.py:91, app.py:95) are the explicit `Client` record: method, request suffix, header dict and body.
- The raw rule strings at app.py:27-32 are not parsed. As written, iterating them yields characters, and the one-character string `'\n'` is truthy, so every request would be denied by the whitelist. The model takes the parsed form as a parameter.
- Acl.RuleHits: requires a wildcard rule to have two segments (`WellFormed`), because `('*',)` raises `IndexError` at app.py:140 on a two-group match.
- Forwarder.Proxy: the recursion of app.py:113 spends one unit of `fuel` per request. A chase can be endless: an upstream that answers every request with status 200 and a `Location` that `check_url` rejects is fetched again and again, because `requests` does not follow a `Location` on a 200. In the source such a chase ends at Python's recursion limit: the `RecursionError` is caught by the `except` at app.py:116-121, and the client gets a 500 whose message and headers depend on the interpreter's stack. The model answers `HopLimit` there, for every fuel, and `Forwarder.Status` gives it no status. `Forwarder.ProxyFuel` shows that extra fuel changes no reply a finite chase reaches.
- The `status=` keyword of the `Response(...)` calls at app.py:115, app.py:143, app.py:146 and app.py:152 is not modelled. Starlette's `Response` takes `status_code`, so as written each of these calls raises `TypeError` and the client gets a 500. The model follows the intended behaviour: a relayed reply carries the upstream status, and the three refusals answer 403 (`Gateway.HandleForbids`). The JSON and repr details of the error body are reduced to its message text.
- Rewrite.SubMarkFrom: the `re.sub` at app.py:158 is modelled for its one pattern and replacement, not as general regex substitution.
- Rewrite.CdnRawIsJsDelivr: requires that the exp4 author group does not begin with a slash. For `raw.githubusercontent.com//a/b/c/d` exp4's groups are `/a` and `b`, but the substitution's `.*?` matches the empty text and marks the slash after `a`; the redirect then does not name the matched author and repo. `Rewrite.SubMarksRawRef` and `Gateway.CdnRawTarget` carry the same requirement.
- Rewrite.CdnRawIsJsDelivr: on the short host `raw.github.com` it requires that the long host name does not occur in the marked URL. That is the assumption behind the `_u == u` test at app.py:160.
- Gateway.CdnRawTarget: carries the same requirement on the short host.
- Rewrite.CdnBlobAgrees: requires that no `/blob/` begins before the kind word. The two findings below show what happens otherwise.
- Rewrite.SplitBlobRoundTrip: requires an author and a repo without slashes or newlines, because lazy groups cut elsewhere when a group could contain a slash.
- Text.ParseInt: `int()` is modelled for an optional sign followed by ASCII digits. Surrounding whitespace, `_` separators and non-ASCII digits are refused where Python accepts them.
- Text.Lower: `lower()` is modelled on ASCII letters only.
- Config.Set: values are typed (`Value`). pydantic's lax coercion of a value of another type is reported as `WrongType`. The error messages of pydantic and of the validator are reduced to the failing field names and `HostError`.
- Config.Get: `hasattr` also accepts method names of the record. The model accepts only the six field names.
- Config.Set: `hasattr` at config.py:101 also accepts the names of the record's other attributes and methods (`model_dump`, `validate_host`, …). As written, `set('model_dump', 1)` passes that test, pydantic drops the extra key when the record is rebuilt, and the call succeeds with the record unchanged. The model reports `UnknownParameter` for every name other than the six fields, and `Config.SetFails` counts such a name among the failures.
- Config.Load: `jsdelivr` text is coerced as `int()` would. configparser lower-casing of option names, reading and writing `config.ini`, and `save` (config.py:48-57, config.py:88-91) are file I/O. The section arrives as a map from option names to texts.

## Findings

| source | as written | input that shows it | evidently intended | confidence | as-written member | corrected member |
|---|---|---|---|---|---|---|
| app.py:155 | the first `/blob/` anywhere in the URL becomes `@`, so a repository named `blob` gets the `@` between author and repo | `https://github.com/acme/blob/blob/main/x.md` becomes `https://cdn.jsdelivr.net/gh/acme@blob/main/x.md` | `https://cdn.jsdelivr.net/gh/acme/blob@main/x.md`, the same file on jsDelivr | not executed | Rewrite.CdnBlobAsWritten (Rewrite.RepoBlobDiffers, Rewrite.RepoBlobWitness), used by Gateway.Route (Gateway.CdnBlobFindingReachesRoute) | Rewrite.JsDelivrBlob (Rewrite.SplitBlobRoundTrip, Rewrite.CdnBlobAgrees), used by Gateway.RouteIntended (Gateway.CdnBlobTargetIntended) |
| app.py:155 | exp2 accepts the kind `raw/`, but only `/blob/` is replaced, so `/raw/` stays where the `@` belongs | `https://github.com/acme/widgets/raw/main/x.md` becomes `https://cdn.jsdelivr.net/gh/acme/widgets/raw/main/x.md` | `https://cdn.jsdelivr.net/gh/acme/widgets@main/x.md` | not executed | Rewrite.CdnBlobAsWritten (Rewrite.RawKindDiffers, Rewrite.RawKindWitness), used by Gateway.Route (Gateway.CdnBlobFindingReachesRoute) | Rewrite.JsDelivrBlob (Rewrite.SplitBlobRoundTrip, Rewrite.CdnBlobAgrees), used by Gateway.RouteIntended (Gateway.CdnBlobTargetIntended) |
| config.py:32-34 | `re.match` with `$` accepts a final newline after the fourth octet | `"127.0.0.1\n"` is accepted as a host | only four octets joined by dots, as `fullmatch` would demand | not executed | Config.ValidateHost (Config.NewlineAddressAccepted, Config.NewlineAddressWitness), used by Config.Valid (Config.SetNewlineHost) | Config.ValidateHostStrict (Config.ValidateHostStrictAccepts), used by Config.ValidIntended (Config.ValidIntendedIsValid) |
