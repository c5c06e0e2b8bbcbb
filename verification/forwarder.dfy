/** The forwarder `proxy` (app.py:89-121): it sends the client's request to
    the upstream URL, then decides from the upstream status and headers
    whether to stream the body back, to redirect the client to the upstream
    when the body is too large, to relay an upstream redirect through the
    gateway, or to follow an upstream redirect itself.

    The network is a parameter: `fetch` maps the request the forwarder
    would send to what comes back, a status and a header list or a
    transport error. The source follows upstream redirects without bound;
    here every request spends one unit of `fuel`. */
module Forwarder {
  import opened Wrappers
  import opened Text
  import opened Patterns
  import opened Rewrite

  /** Response headers in order, names in the case the upstream sent them. */
  type Headers = seq<(string, string)>

  /** The media type the error reply announces. */
  const HtmlType: string := "text/html; charset=UTF-8"

  /** `requests` keeps response headers in a case-insensitive dict, so no
      two names differ only in ASCII case. */
  predicate CaseDistinct(hs: Headers) {
    forall i, j :: 0 <= i < j < |hs| ==> Lower(hs[i].0) != Lower(hs[j].0)
  }

  /** The keys of a plain dict: no two entries have exactly the same name. */
  predicate NamesDistinct(hs: Headers) {
    forall i, j :: 0 <= i < j < |hs| ==> hs[i].0 != hs[j].0
  }

  /** `r.headers.get(name)` on that dict: the value under `name`, compared
      without regard to ASCII case. */
  function LookUp(hs: Headers, name: string): Option<string>
    decreases |hs|
  {
    if |hs| == 0 then None
    else if Lower(hs[0].0) == Lower(name) then Some(hs[0].1)
    else LookUp(hs[1..], name)
  }

  /** The lookup finds nothing exactly when no name matches, and otherwise
      the value of the first entry whose name matches. */
  lemma {:induction false} LookUpFinds(hs: Headers, name: string)
    ensures LookUp(hs, name).None? <==> forall i :: 0 <= i < |hs| ==> Lower(hs[i].0) != Lower(name)
    ensures LookUp(hs, name).Some? ==>
              exists i :: 0 <= i < |hs| && Lower(hs[i].0) == Lower(name) && hs[i].1 == LookUp(hs, name).value
                          && forall j :: 0 <= j < i ==> Lower(hs[j].0) != Lower(name)
    decreases |hs|
  {
    if |hs| > 0 && Lower(hs[0].0) != Lower(name) {
      LookUpFinds(hs[1..], name);
      assert forall i :: 1 <= i < |hs| ==> hs[i] == hs[1..][i - 1];
      if LookUp(hs, name).Some? {
        var i :| 0 <= i < |hs[1..]| && Lower(hs[1..][i].0) == Lower(name) && hs[1..][i].1 == LookUp(hs, name).value
                 && forall j :: 0 <= j < i ==> Lower(hs[1..][j].0) != Lower(name);
        assert Lower(hs[i + 1].0) == Lower(name) && hs[i + 1].1 == LookUp(hs, name).value;
      }
    }
  }

  /** In a case-distinct list the entry found is the one entry whose name
      matches. */
  lemma LookUpEntry(hs: Headers, name: string, i: nat)
    requires CaseDistinct(hs) && i < |hs| && Lower(hs[i].0) == Lower(name)
    ensures LookUp(hs, name) == Some(hs[i].1)
  {
    LookUpFinds(hs, name);
    var j :| 0 <= j < |hs| && Lower(hs[j].0) == Lower(name) && hs[j].1 == LookUp(hs, name).value
             && forall j' :: 0 <= j' < j ==> Lower(hs[j'].0) != Lower(name);
    assert i == j;
  }

  /** `headers[name] = value` on the plain dict `dict(r.headers)`: the entry
      with exactly that name gets the value, or a new entry is added at the
      end. */
  function Assign(hs: Headers, name: string, value: string): (r: Headers)
    ensures (name, value) in r
    ensures forall p :: p in hs && p.0 != name ==> p in r
    ensures forall p :: p in r && p.0 != name ==> p in hs
    ensures NamesDistinct(hs) ==> NamesDistinct(r) && forall p :: p in r && p.0 == name ==> p.1 == value
    decreases |hs|
  {
    if |hs| == 0 then [(name, value)]
    else if hs[0].0 == name then
      var r := [(name, value)] + hs[1..];
      assert NamesDistinct(hs) ==> forall k :: 1 <= k < |r| ==> r[k] == hs[k] && r[k].0 != name;
      r
    else
      var rest := Assign(hs[1..], name, value);
      var r := [hs[0]] + rest;
      assert forall p :: p in hs ==> p == hs[0] || p in hs[1..];
      if NamesDistinct(hs) then
        AssignKeepsOut(hs, rest, name);
        r
      else r
  }

  /** The first name of a dict stays out of what the assignment makes of
      the others. */
  lemma AssignKeepsOut(hs: Headers, rest: Headers, name: string)
    requires NamesDistinct(hs) && |hs| > 0 && hs[0].0 != name
    requires forall p :: p in rest && p.0 != name ==> p in hs[1..]
    ensures forall k :: 0 <= k < |rest| ==> rest[k].0 != hs[0].0
  {
    forall k | 0 <= k < |rest|
      ensures rest[k].0 != hs[0].0
    {
      if rest[k].0 != name {
        var m :| 0 <= m < |hs[1..]| && hs[1..][m] == rest[k];
        assert hs[m + 1] == rest[k];
      }
    }
  }

  /** After the assignment the name reads back the value, unless the list
      already held the name in another case: the plain dict then has both
      spellings and the case-insensitive reading finds the older one. */
  lemma {:induction false} LookUpAssign(hs: Headers, name: string, value: string)
    requires forall i :: 0 <= i < |hs| && Lower(hs[i].0) == Lower(name) ==> hs[i].0 == name
    ensures LookUp(Assign(hs, name, value), name) == Some(value)
    decreases |hs|
  {
    if |hs| > 0 && hs[0].0 != name {
      assert Lower(hs[0].0) != Lower(name);
      assert forall i :: 0 <= i < |hs[1..]| ==> hs[1..][i] == hs[i + 1];
      LookUpAssign(hs[1..], name, value);
      var r := [hs[0]] + Assign(hs[1..], name, value);
      assert r[1..] == Assign(hs[1..], name, value);
    }
  }

  /** What the handler passes on of the client's request: the method, the
      text of the request URL after the gateway's base URL (the query
      string included), the header dict and the body. */
  datatype Client = Client(httpMethod: string, suffix: string, headers: map<string, string>, data: string)

  /** The request `requests.request` is asked to send. */
  datatype Outbound = Outbound(httpMethod: string, url: string, data: string, headers: map<string, string>, allowRedirects: bool)

  /** What comes back: the upstream status and headers, or a transport error
      with its message. */
  datatype Fetched =
    | Upstream(status: int, headers: Headers)
    | TransportError(message: string)

  /** The reply the gateway sends. */
  datatype Reply =
    | Forbidden(message: string)                  // 403 with a text body
    | Redirect(location: string)                  // `RedirectResponse`: 307
    | Relay(status: int, headers: Headers)        // the upstream body, streamed
    | ServerError(headers: Headers, message: string)  // `JSONResponse`: 500
    | HopLimit                                    // fuel spent following redirects; stands in for the 500 of an endless chase

  /** The status line of a reply. `HopLimit` has none: the source answers an
      endless chase with a 500 whose depth and message depend on the
      interpreter's recursion limit. */
  function Status(r: Reply): Option<int> {
    match r
    case Forbidden(_) => Some(403)
    case Redirect(_) => Some(307)
    case Relay(s, _) => Some(s)
    case ServerError(_, _) => Some(500)
    case HopLimit => None
  }

  /** app.py:91-93: the client's headers without `Host`. The dict is a plain
      one, so only the exact name `Host` is removed. */
  function ForwardedHeaders(h: map<string, string>): (r: map<string, string>)
    ensures forall k :: k in r <==> k in h && k != "Host"
    ensures forall k :: k in r ==> r[k] == h[k]
  {
    if "Host" in h then h - {"Host"} else h
  }

  /** app.py:95-98: the request sent upstream for `u`. */
  function Outgoing(client: Client, u: string, allowRedirects: bool): Outbound {
    Outbound(client.httpMethod, RepairScheme(u + client.suffix), client.data,
             ForwardedHeaders(client.headers), allowRedirects)
  }

  /** The message `str(e)` of the `ValueError` that `int(v)` raises. */
  function IntError(v: string): string {
    "invalid literal for int() with base 10: '" + v + "'"
  }

  /** One step of the forwarder: a final reply, or an upstream redirect to follow. */
  datatype Step = Done(reply: Reply) | Follow(location: string)

  /** app.py:108-115: the `Location` decision once the size check has passed. */
  function LocationStep(status: int, hs: Headers): Step {
    match LookUp(hs, "Location")
    case None => Done(Relay(status, hs))
    case Some(loc) =>
      if Classify(loc).Some? then Done(Relay(status, Assign(hs, "Location", "/" + loc)))
      else Follow(loc)
  }

  /** app.py:99-121 for one upstream answer: the transport error and the
      unreadable length become a 500 whose headers announce HTML, a length
      above `sizeLimit` sends the client to the upstream URL itself, and
      otherwise the `Location` decision applies. */
  function Answer(client: Client, sizeLimit: int, u: string, fetched: Fetched): Step {
    match fetched
    case TransportError(msg) => Done(ServerError([("content-type", HtmlType)], "server error " + msg))
    case Upstream(status, hs) =>
      match LookUp(hs, "Content-length")
      case None => LocationStep(status, hs)
      case Some(v) =>
        match ParseInt(v)
        case None => Done(ServerError(Assign(hs, "content-type", HtmlType), "server error " + IntError(v)))
        case Some(n) => if n > sizeLimit then Done(Redirect(u + client.suffix)) else LocationStep(status, hs)
  }

  /** What one unit of fuel buys: the step for the answer to the request for `u`. */
  function Next(fetch: Outbound -> Fetched, client: Client, sizeLimit: int, u: string, allowRedirects: bool): Step {
    Answer(client, sizeLimit, u, fetch(Outgoing(client, u, allowRedirects)))
  }

  /** Following redirects, whatever one step does: take the step for `u`,
      stop at a reply, or go on to the location with redirects allowed.
      Every step spends one unit of `fuel`. */
  function Chase(next: (string, bool) -> Step, u: string, allowRedirects: bool, fuel: nat): Reply
    decreases fuel
  {
    if fuel == 0 then HopLimit
    else
      match next(u, allowRedirects)
      case Done(r) => r
      case Follow(loc) => Chase(next, loc, true, fuel - 1)
  }

  /** A chase whose every step follows a location reaches no reply, however
      much fuel it has: the endless case the source ends by running out of
      stack. */
  lemma {:induction false} ChaseEndless(next: (string, bool) -> Step, u: string, allowRedirects: bool, fuel: nat)
    requires forall v, a :: next(v, a).Follow?
    ensures Chase(next, u, allowRedirects, fuel) == HopLimit
    decreases fuel
  {
    if fuel > 0 {
      ChaseEndless(next, next(u, allowRedirects).location, true, fuel - 1);
    }
  }

  /** Every reply of the chase other than the fuel artefact is the reply of
      some step. */
  lemma {:induction false} ChaseReplies(next: (string, bool) -> Step, u: string, allowRedirects: bool, fuel: nat)
    ensures Chase(next, u, allowRedirects, fuel).HopLimit?
            || exists v, a :: next(v, a) == Done(Chase(next, u, allowRedirects, fuel))
    decreases fuel
  {
    if fuel > 0 {
      match next(u, allowRedirects)
      case Done(r) =>
      case Follow(loc) => ChaseReplies(next, loc, true, fuel - 1);
    }
  }

  /** More fuel changes nothing once a reply was reached. */
  lemma {:induction false} ChaseFuel(next: (string, bool) -> Step, u: string, allowRedirects: bool, fuel: nat, more: nat)
    requires fuel <= more && !Chase(next, u, allowRedirects, fuel).HopLimit?
    ensures Chase(next, u, allowRedirects, more) == Chase(next, u, allowRedirects, fuel)
    decreases fuel
  {
    match next(u, allowRedirects)
    case Done(r) =>
    case Follow(loc) => ChaseFuel(next, loc, true, fuel - 1, more - 1);
  }

  /** `proxy(u, allow_redirects)`: ask upstream, decide, and follow an
      upstream redirect the classifier rejects with `allow_redirects=True`. */
  function Proxy(fetch: Outbound -> Fetched, client: Client, sizeLimit: int, u: string,
                 allowRedirects: bool, fuel: nat): Reply
  {
    Chase((v: string, a: bool) => Next(fetch, client, sizeLimit, v, a), u, allowRedirects, fuel)
  }

  /** A final decision is neither a refusal nor the fuel artefact: only the
      handler forbids. */
  lemma AnswerFinal(client: Client, sizeLimit: int, u: string, fetched: Fetched)
    ensures Answer(client, sizeLimit, u, fetched).Done? ==>
              var r := Answer(client, sizeLimit, u, fetched).reply;
              !r.HopLimit? && !r.Forbidden?
  {
  }

  /** The forwarder never forbids. */
  lemma ProxyNeverForbids(fetch: Outbound -> Fetched, client: Client, sizeLimit: int, u: string,
                          allowRedirects: bool, fuel: nat)
    ensures !Proxy(fetch, client, sizeLimit, u, allowRedirects, fuel).Forbidden?
  {
    var next := (v: string, a: bool) => Next(fetch, client, sizeLimit, v, a);
    ChaseReplies(next, u, allowRedirects, fuel);
    var r := Chase(next, u, allowRedirects, fuel);
    if !r.HopLimit? {
      var v, a :| next(v, a) == Done(r);
      AnswerFinal(client, sizeLimit, v, fetch(Outgoing(client, v, a)));
    }
  }

  /** The request sent upstream carries the client's method, body and
      headers without `Host`, and its URL is `u` plus the suffix with the
      `https:/` repair. */
  lemma OutgoingRequest(client: Client, u: string, allowRedirects: bool)
    ensures var o := Outgoing(client, u, allowRedirects);
            && o.httpMethod == client.httpMethod && o.data == client.data && o.allowRedirects == allowRedirects
            && "Host" !in o.headers
            && (forall k :: k in client.headers && k != "Host" ==> k in o.headers && o.headers[k] == client.headers[k])
            && (StartsWith(u + client.suffix, "https:/") ==> StartsWith(o.url, "https://"))
            && (!StartsWith(u + client.suffix, "https:/") || StartsWith(u + client.suffix, "https://") ==> o.url == u + client.suffix)
  {
  }

  /** A transport error becomes a 500 whose only header announces HTML. */
  lemma TransportErrorReply(client: Client, sizeLimit: int, u: string, msg: string)
    ensures Answer(client, sizeLimit, u, TransportError(msg)) == Done(ServerError([("content-type", HtmlType)], "server error " + msg))
    ensures Status(Answer(client, sizeLimit, u, TransportError(msg)).reply) == Some(500)
  {
  }

  /** A length `int` rejects becomes a 500 that keeps the upstream headers
      and announces HTML. */
  lemma BadLengthReply(client: Client, sizeLimit: int, u: string, status: int, hs: Headers, v: string)
    requires LookUp(hs, "Content-length") == Some(v) && ParseInt(v).None?
    ensures var s := Answer(client, sizeLimit, u, Upstream(status, hs));
            && s.Done? && s.reply.ServerError? && Status(s.reply) == Some(500)
            && ("content-type", HtmlType) in s.reply.headers
            && forall p :: p in hs && p.0 != "content-type" ==> p in s.reply.headers
  {
    AnswerBadLength(client, sizeLimit, u, status, hs, v);
  }

  /** The step `BadLengthReply` describes. */
  lemma AnswerBadLength(client: Client, sizeLimit: int, u: string, status: int, hs: Headers, v: string)
    requires LookUp(hs, "Content-length") == Some(v) && ParseInt(v).None?
    ensures Answer(client, sizeLimit, u, Upstream(status, hs))
            == Done(ServerError(Assign(hs, "content-type", HtmlType), "server error " + IntError(v)))
  {
  }

  /** The size limit: the client is sent to the upstream URL exactly when the
      announced length is strictly above the limit; at or below it the
      `Location` decision applies. */
  lemma SizeLimit(client: Client, sizeLimit: int, u: string, status: int, hs: Headers, v: string, n: int)
    requires LookUp(hs, "Content-length") == Some(v) && ParseInt(v) == Some(n)
    ensures n > sizeLimit ==> Answer(client, sizeLimit, u, Upstream(status, hs)) == Done(Redirect(u + client.suffix))
    ensures n <= sizeLimit ==> Answer(client, sizeLimit, u, Upstream(status, hs)) == LocationStep(status, hs)
    ensures Answer(client, sizeLimit, u, Upstream(status, hs)) == Done(Redirect(u + client.suffix)) <==> n > sizeLimit
  {
    if n <= sizeLimit {
      match LookUp(hs, "Location") {
        case None =>
        case Some(loc) =>
      }
    }
  }

  /** No `Content-length`, or one within the limit: the upstream status and
      headers are relayed, with an accepted `Location` turned into a path on
      the gateway and a rejected one followed. */
  lemma LocationCases(status: int, hs: Headers)
    ensures LookUp(hs, "Location").None? ==> LocationStep(status, hs) == Done(Relay(status, hs))
    ensures LookUp(hs, "Location").Some? && Classify(LookUp(hs, "Location").value).Some? ==>
              var loc := LookUp(hs, "Location").value;
              && LocationStep(status, hs) == Done(Relay(status, Assign(hs, "Location", "/" + loc)))
              && ("Location", "/" + loc) in LocationStep(status, hs).reply.headers
    ensures LookUp(hs, "Location").Some? && Classify(LookUp(hs, "Location").value).None? ==>
              LocationStep(status, hs) == Follow(LookUp(hs, "Location").value)
  {
  }

  /** A rejected `Location` is fetched next, with redirects allowed and the
      suffix appended again. */
  lemma FollowsRejectedLocation(fetch: Outbound -> Fetched, client: Client, sizeLimit: int, u: string,
                                allowRedirects: bool, fuel: nat, status: int, hs: Headers, loc: string)
    requires fuel >= 1 && fetch(Outgoing(client, u, allowRedirects)) == Upstream(status, hs)
    requires LookUp(hs, "Content-length").None?
    requires LookUp(hs, "Location") == Some(loc) && Classify(loc).None?
    ensures Proxy(fetch, client, sizeLimit, u, allowRedirects, fuel) == Proxy(fetch, client, sizeLimit, loc, true, fuel - 1)
    ensures fuel >= 2 ==> Outgoing(client, loc, true).url == RepairScheme(loc + client.suffix)
  {
  }

  lemma ProxyUnfold(fetch: Outbound -> Fetched, client: Client, sizeLimit: int, u: string,
                    allowRedirects: bool, fuel: nat)
    requires fuel >= 1
    ensures Next(fetch, client, sizeLimit, u, allowRedirects).Done? ==>
              Proxy(fetch, client, sizeLimit, u, allowRedirects, fuel) == Next(fetch, client, sizeLimit, u, allowRedirects).reply
    ensures Next(fetch, client, sizeLimit, u, allowRedirects).Follow? ==>
              Proxy(fetch, client, sizeLimit, u, allowRedirects, fuel)
              == Proxy(fetch, client, sizeLimit, Next(fetch, client, sizeLimit, u, allowRedirects).location, true, fuel - 1)
  {
  }

  /** More fuel changes nothing once a reply was reached: the fuel only
      bounds the recursion of the source, which ends an endless chase by
      running out of stack. */
  lemma ProxyFuel(fetch: Outbound -> Fetched, client: Client, sizeLimit: int, u: string,
                  allowRedirects: bool, fuel: nat, more: nat)
    requires fuel <= more
    requires Proxy(fetch, client, sizeLimit, u, allowRedirects, fuel) != HopLimit
    ensures Proxy(fetch, client, sizeLimit, u, allowRedirects, more) == Proxy(fetch, client, sizeLimit, u, allowRedirects, fuel)
  {
    ChaseFuel((v: string, a: bool) => Next(fetch, client, sizeLimit, v, a), u, allowRedirects, fuel, more);
  }
}
