/**
 * The site-information endpoint (functions/api/site-info.js): it answers a
 * CORS preflight, refuses every method but POST, reads `{ url }` from the
 * JSON body, checks it, sends one HEAD request to that address and answers
 * with the report `SiteReport` assembles, or with a JSON error.
 *
 * What lies outside the handler is given to it: the outcome of
 * `request.json()`, the URL parser, the network (`fetch`) and the time the
 * HEAD request took.
 */
module SiteInfo {
  import opened Wrappers
  import opened JsonValues
  import opened Http
  import opened SiteReport

  /** `corsHeaders`, in order. */
  const CorsHeaders: seq<Header> := [
    ("Access-Control-Allow-Origin", "*"),
    ("Access-Control-Allow-Methods", "GET, POST, OPTIONS"),
    ("Access-Control-Allow-Headers", "Content-Type")]

  /** `{ 'Content-Type': 'application/json', ...corsHeaders }`. */
  const JsonHeaders: seq<Header> := [("Content-Type", "application/json")] + CorsHeaders

  const UserAgent: string := "Mozilla/5.0 (compatible; SiteInfoTool/1.0)"

  /** The message when the thrown error carries none. */
  const FallbackMessage: string := "Failed to fetch site information"

  /** The message of the `TypeError` that destructuring a `null` body throws. */
  const NullBodyMessage: string := "Cannot destructure property 'url' of '(intermediate value)' as it is null."

  /** The HEAD request the handler sends. */
  datatype HeadRequest = HeadRequest(url: string, verb: string, headers: seq<Header>)

  /** What one call of the handler does: the answer, and the request it sent, if any. */
  datatype Exchange = Exchange(response: Response, probe: Option<HeadRequest>)

  /** The outcome of reading and checking the body. */
  datatype Validation = Rejected(response: Response) | Accepted(target: Url)

  /** `new Response(null, { headers: corsHeaders })`. */
  function Preflight(): Response
  {
    Response(DefaultStatus, NoBody, CorsHeaders)
  }

  /** `new Response(JSON.stringify({ error: message }), { status, headers })`. */
  function ErrorResponse(status: int, message: string): Response
  {
    Response(status, JsonBody(JObject([("error", JString(message))])), JsonHeaders)
  }

  /** The `catch (error)` answer: `error.message || 'Failed to fetch site information'`. */
  function ServerError(message: string): (r: Response)
    ensures r.status == 500
    ensures message != "" ==> r == ErrorResponse(500, message)
    ensures message == "" ==> r == ErrorResponse(500, FallbackMessage)
  {
    ErrorResponse(500, if message != "" then message else FallbackMessage)
  }

  /** `new Response(JSON.stringify({ success: true, info }), { status: 200, headers })`. */
  function ReportResponse(info: seq<Member>): Response
  {
    Response(200, JsonBody(JObject([("success", JBool(true)), ("info", JObject(info))])), JsonHeaders)
  }

  /**
   * `const { url } = body`: the last `url` member of an object, and
   * `undefined` (`None`) for any other value; `null` cannot be destructured.
   */
  function UrlField(body: Json): (r: Option<Json>)
    requires body != JNull
    ensures r.Some? <==> body.JObject? && "url" in Keys(body.members)
  {
    if body.JObject? then Get(body.members, "url") else None
  }

  /**
   * The body checks, in order (lines 30-54): `request.json()` may throw
   * (`body` is then a `Failure` with the error's message), a `null` body
   * throws when destructured, a falsy `url` gives 400, and a `url` the
   * parser rejects gives 400.
   */
  function Validate(body: Result<Json, string>, parseUrl: Json -> Option<Url>): (v: Validation)
    ensures v.Accepted? <==>
      body.Success? && body.value != JNull && UrlField(body.value).Some?
      && Truthy(UrlField(body.value).value) && parseUrl(UrlField(body.value).value).Some?
    ensures v.Accepted? ==> Some(v.target) == parseUrl(UrlField(body.value).value)
    ensures v.Rejected? && body.Success? && body.value != JNull ==>
      v.response == ErrorResponse(400, if UrlField(body.value).Some? && Truthy(UrlField(body.value).value)
                                       then "Invalid URL" else "URL is required")
    ensures v.Rejected? && body.Failure? ==> v.response == ServerError(body.error)
    ensures v.Rejected? && body == Success(JNull) ==> v.response == ServerError(NullBodyMessage)
  {
    match body
    case Failure(message) => Rejected(ServerError(message))
    case Success(value) =>
      if value == JNull then Rejected(ServerError(NullBodyMessage))
      else
        var url := UrlField(value);
        if url.None? || !Truthy(url.value) then Rejected(ErrorResponse(400, "URL is required"))
        else
          match parseUrl(url.value)
          case None => Rejected(ErrorResponse(400, "Invalid URL"))
          case Some(target) => Accepted(target)
  }

  /** The request `fetch(targetUrl.toString(), { method: 'HEAD', headers })` sends. */
  function Probe(target: Url): HeadRequest
  {
    HeadRequest(target.href, "HEAD", [("User-Agent", UserAgent)])
  }

  /** Every CORS header is among the response's headers. */
  predicate CarriesCors(r: Response)
  {
    forall k :: 0 <= k < |CorsHeaders| ==> CorsHeaders[k] in r.headers
  }

  /**
   * The whole handler as one function of its inputs: `fetch` answers the
   * HEAD request (a `Failure` when it throws), `elapsed` is the
   * difference of the two `Date.now()` readings around it.
   */
  function Handle(requestMethod: string, body: Result<Json, string>, parseUrl: Json -> Option<Url>,
                  fetch: HeadRequest -> Result<HeadResponse, string>, elapsed: int): (e: Exchange)
    ensures CarriesCors(e.response)
    ensures requestMethod == "OPTIONS" ==> e == Exchange(Preflight(), None)
    ensures requestMethod != "OPTIONS" && requestMethod != "POST" ==>
      e == Exchange(ErrorResponse(405, "Method not allowed"), None)
    ensures e.probe.Some? <==> requestMethod == "POST" && Validate(body, parseUrl).Accepted?
    ensures e.probe.Some? ==> e.probe.value == Probe(Validate(body, parseUrl).target)
    ensures e.response.status == 200 <==>
      requestMethod == "OPTIONS" || (e.probe.Some? && fetch(e.probe.value).Success?)
  {
    if requestMethod == "OPTIONS" then Exchange(Preflight(), None)
    else if requestMethod != "POST" then Exchange(ErrorResponse(405, "Method not allowed"), None)
    else
      match Validate(body, parseUrl)
      case Rejected(response) => Exchange(response, None)
      case Accepted(target) =>
        var request := Probe(target);
        match fetch(request)
        case Failure(message) => Exchange(ServerError(message), Some(request))
        case Success(resp) => Exchange(ReportResponse(Report(target, elapsed, resp)), Some(request))
  }

  /** `onRequest`: the steps of the handler, the report built by `BuildReport`. */
  method OnRequest(requestMethod: string, body: Result<Json, string>, parseUrl: Json -> Option<Url>,
                   fetch: HeadRequest -> Result<HeadResponse, string>, elapsed: int)
    returns (response: Response, probe: Option<HeadRequest>)
    ensures Exchange(response, probe) == Handle(requestMethod, body, parseUrl, fetch, elapsed)
  {
    probe := None;
    if requestMethod == "OPTIONS" {
      response := Preflight();
      return;
    }
    if requestMethod != "POST" {
      response := ErrorResponse(405, "Method not allowed");
      return;
    }
    var checked := Validate(body, parseUrl);
    if checked.Rejected? {
      response := checked.response;
      return;
    }
    var target := checked.target;
    var request := Probe(target);
    probe := Some(request);
    var fetched := fetch(request);
    if fetched.Failure? {
      response := ServerError(fetched.error);
      return;
    }
    var info := BuildReport(target, elapsed, fetched.value);
    response := ReportResponse(info);
  }

  // ---------------------------------------------------------------------
  // Properties of the handler
  // ---------------------------------------------------------------------

  /** The status codes the handler can answer with, and the body each carries. */
  lemma ResponseKinds(requestMethod: string, body: Result<Json, string>, parseUrl: Json -> Option<Url>,
                      fetch: HeadRequest -> Result<HeadResponse, string>, elapsed: int)
    ensures var r := Handle(requestMethod, body, parseUrl, fetch, elapsed).response;
      (r.status == 200 && r.body == NoBody && r.headers == CorsHeaders)
      || (r.status == 200 && r.body.JsonBody? && r.body.value.JObject?
          && Get(r.body.value.members, "success") == Some(JBool(true)) && r.headers == JsonHeaders)
      || (r.status in {400, 405, 500} && r.headers == JsonHeaders
          && exists m :: m != "" && r.body == JsonBody(JObject([("error", JString(m))])))
  {
    var r := Handle(requestMethod, body, parseUrl, fetch, elapsed).response;
    if r.status != 200 {
      var m :| r.body == JsonBody(JObject([("error", JString(m))])) && m != "" by {
        ErrorMessages(requestMethod, body, parseUrl, fetch, elapsed);
      }
    }
  }

  /** Every answer other than a 200 is an `{ error }` object with a non-empty message. */
  lemma ErrorMessages(requestMethod: string, body: Result<Json, string>, parseUrl: Json -> Option<Url>,
                      fetch: HeadRequest -> Result<HeadResponse, string>, elapsed: int)
    ensures var r := Handle(requestMethod, body, parseUrl, fetch, elapsed).response;
      r.status != 200 ==>
        (r.status in {400, 405, 500} && exists m :: m != "" && r == ErrorResponse(r.status, m))
  {
    var r := Handle(requestMethod, body, parseUrl, fetch, elapsed).response;
    if r.status != 200 {
      var m := r.body.value.members[0].1.s;
      assert r == ErrorResponse(r.status, m);
    }
  }

  /**
   * A missing or falsy `url` is refused with 400 before the parser or the
   * network is consulted: the answer is the same whatever they would do.
   */
  lemma UrlRequiredFirst(body: Json, parseUrl: Json -> Option<Url>, parseUrl': Json -> Option<Url>,
                         fetch: HeadRequest -> Result<HeadResponse, string>,
                         fetch': HeadRequest -> Result<HeadResponse, string>, elapsed: int, elapsed': int)
    requires body != JNull
    requires UrlField(body).None? || !Truthy(UrlField(body).value)
    ensures Handle("POST", Success(body), parseUrl, fetch, elapsed)
         == Handle("POST", Success(body), parseUrl', fetch', elapsed')
         == Exchange(ErrorResponse(400, "URL is required"), None)
  {
  }

  /** A `url` the parser rejects is refused with 400, and nothing is fetched. */
  lemma InvalidUrlNotFetched(body: Json, parseUrl: Json -> Option<Url>,
                             fetch: HeadRequest -> Result<HeadResponse, string>,
                             fetch': HeadRequest -> Result<HeadResponse, string>, elapsed: int)
    requires body != JNull && UrlField(body).Some? && Truthy(UrlField(body).value)
    requires parseUrl(UrlField(body).value).None?
    ensures Handle("POST", Success(body), parseUrl, fetch, elapsed)
         == Handle("POST", Success(body), parseUrl, fetch', elapsed)
         == Exchange(ErrorResponse(400, "Invalid URL"), None)
  {
  }

  /**
   * A body whose `url` member `u` parses and whose HEAD request answers
   * gives 200 with the report of that answer; the request went to the
   * parsed address with the tool's user agent.
   */
  lemma ServedReport(body: Json, u: Json, target: Url, parseUrl: Json -> Option<Url>,
                     fetch: HeadRequest -> Result<HeadResponse, string>, elapsed: int, resp: HeadResponse)
    requires body != JNull && UrlField(body) == Some(u)
    requires Truthy(u) && parseUrl(u) == Some(target)
    requires fetch(HeadRequest(target.href, "HEAD", [("User-Agent", UserAgent)])) == Success(resp)
    ensures var e := Handle("POST", Success(body), parseUrl, fetch, elapsed);
      e.probe == Some(HeadRequest(target.href, "HEAD", [("User-Agent", UserAgent)]))
      && e.response == ReportResponse(Report(target, elapsed, resp))
      && DistinctKeys(e.response.body.value.members[1].1.members)
  {
    ReportDistinctKeys(target, elapsed, resp);
  }

  /**
   * The `url` member a body names is the last one of that name, as
   * `JSON.parse` keeps the last of duplicate keys: whatever members come
   * before it, the answer is the one for `{ "url": u }`.
   */
  lemma LastUrlWins(before: seq<Member>, u: Json, parseUrl: Json -> Option<Url>,
                    fetch: HeadRequest -> Result<HeadResponse, string>, elapsed: int)
    ensures Handle("POST", Success(JObject(before + [("url", u)])), parseUrl, fetch, elapsed)
         == Handle("POST", Success(JObject([("url", u)])), parseUrl, fetch, elapsed)
  {
    GetLast(before, "url", u);
    GetLast([], "url", u);
    assert [] + [("url", u)] == [("url", u)];
  }

  /** A failed `fetch` gives 500 with its message, or the fallback when it has none. */
  lemma FetchFailure(body: Json, u: Json, target: Url, parseUrl: Json -> Option<Url>,
                     fetch: HeadRequest -> Result<HeadResponse, string>, elapsed: int, message: string)
    requires body != JNull && UrlField(body) == Some(u)
    requires Truthy(u) && parseUrl(u) == Some(target)
    requires fetch(Probe(target)) == Failure(message)
    ensures var r := Handle("POST", Success(body), parseUrl, fetch, elapsed).response;
      r.status == 500 && r.headers == JsonHeaders
      && r.body == JsonBody(JObject([("error", JString(if message == "" then FallbackMessage else message))]))
  {
  }
}
