/** `createRemixRequest`: an API Gateway v2 (function URL) event becomes a
    Fetch request: URL from scheme, host, path and query; headers from
    `createRemixHeaders`; body by the three-way base64 policy; and a signal
    that the response stream's "close" aborts. */
module RemixRequest {
  import opened Wrappers
  import opened Strings
  import opened RequestHeaders
  import opened Transport

  /** The fields of `APIGatewayProxyEventV2` the handler reads. */
  datatype ApiGatewayEvent = ApiGatewayEvent(
    httpMethod: string,                 // requestContext.http.method
    rawPath: string,
    rawQueryString: string,
    headers: EventHeaderMap,
    cookies: Option<seq<string>>,
    body: Option<string>,
    isBase64Encoded: bool)

  /** The body handed to the Fetch request. */
  datatype RequestBody =
    | NoBody                   // `event.body` undefined
    | Raw(raw: string)         // the event's string as it is
    | Bytes(bytes: seq<byte>)  // a `Buffer` of the base64-decoded bytes
    | Text(text: string)       // those bytes read back as UTF-8

  /** `Buffer.from(s, "base64")` and `Buffer.prototype.toString()`, both
      lenient foreign decoders, taken as given functions. */
  datatype Codec = Codec(base64: string -> seq<byte>, utf8: seq<byte> -> string)

  datatype NodeRequest = NodeRequest(
    httpMethod: string,
    url: string,
    headers: HeaderList,
    body: RequestBody)

  /** `headers[name]` on the event's header object: the value under that
      exact key, or undefined. */
  function Lookup(hs: EventHeaderMap, name: string): Option<string>
  {
    if hs == [] then None
    else if hs[0].0 == name then hs[0].1
    else Lookup(hs[1..], name)
  }

  /** `headers["x-forwarded-host"] || headers.host`. */
  function ResolveHost(hs: EventHeaderMap): Option<string>
  {
    var forwarded := Lookup(hs, "x-forwarded-host");
    if Truthy(forwarded) then forwarded else Lookup(hs, "host")
  }

  /** A template literal prints an undefined host as "undefined". */
  function HostText(host: Option<string>): string
  {
    if host.Some? then host.value else "undefined"
  }

  function Search(rawQueryString: string): string
  {
    if |rawQueryString| > 0 then "?" + rawQueryString else ""
  }

  /** `process.env.ARC_SANDBOX ? "http" : "https"`. */
  function Scheme(arcSandbox: Option<string>): string
  {
    if Truthy(arcSandbox) then "http" else "https"
  }

  /** The string given to `new URL(...)`. */
  function RequestUrl(event: ApiGatewayEvent, arcSandbox: Option<string>): string
  {
    Scheme(arcSandbox) + "://" + HostText(ResolveHost(event.headers))
      + event.rawPath + Search(event.rawQueryString)
  }

  /** `headers["content-type"]?.includes("multipart/form-data")`. */
  predicate IsFormData(hs: EventHeaderMap)
  {
    var contentType := Lookup(hs, "content-type");
    contentType.Some? && Includes(contentType.value, "multipart/form-data")
  }

  function DecodeBody(event: ApiGatewayEvent, codec: Codec): RequestBody
  {
    match event.body
    case None => NoBody
    case Some(b) =>
      if b != "" && event.isBase64Encoded then
        if IsFormData(event.headers) then Bytes(codec.base64(b))
        else Text(codec.utf8(codec.base64(b)))
      else Raw(b)
  }

  function RemixRequest(event: ApiGatewayEvent, arcSandbox: Option<string>, codec: Codec): (r: NodeRequest)
    ensures r.httpMethod == event.httpMethod
    ensures r.headers == RemixHeaders(event.headers, event.cookies)
    ensures UrlScheme(r.url) == (if Truthy(arcSandbox) then "http" else "https")
  {
    UrlSchemeOfRequest(event, arcSandbox);
    NodeRequest(event.httpMethod, RequestUrl(event, arcSandbox),
                RemixHeaders(event.headers, event.cookies), DecodeBody(event, codec))
  }

  /** `createRemixRequest`: the request, plus the abort controller whose signal it
      carries, registered to abort when `res` closes. */
  method CreateRemixRequest(event: ApiGatewayEvent, res: ResponseStream, arcSandbox: Option<string>, codec: Codec)
    returns (request: NodeRequest, controller: AbortController)
    modifies res
    ensures request == RemixRequest(event, arcSandbox, codec)
    ensures fresh(controller) && controller.Valid() && !controller.aborted
    ensures res.closeListeners == old(res.closeListeners) + [controller]
    ensures res.log == old(res.log)
  {
    controller := new AbortController();
    res.OnClose(controller);
    var headers := CreateRemixHeaders(event.headers, event.cookies);
    request := NodeRequest(event.httpMethod, RequestUrl(event, arcSandbox), headers, DecodeBody(event, codec));
  }

  // Readers of a URL string, independent of how `RequestUrl` builds one.

  /** Everything before the first ':'. */
  function UrlScheme(url: string): string
  {
    TakeUntil(url, {':'})
  }

  /** What follows "://" up to the first '/' or '?'. */
  function UrlHost(url: string): string
  {
    var rest := DropUntil(url, {':'});
    if |rest| >= 3 && rest[..3] == "://" then TakeUntil(rest[3..], {'/', '?'}) else ""
  }

  /** What follows the first '?', if there is one. */
  function UrlQuery(url: string): Option<string>
  {
    var rest := DropUntil(url, {'?'});
    if rest == [] then None else Some(rest[1..])
  }

  /** The URL's scheme is "http" exactly when ARC_SANDBOX is set, and
      "https" otherwise. */
  lemma UrlSchemeOfRequest(event: ApiGatewayEvent, arcSandbox: Option<string>)
    ensures UrlScheme(RequestUrl(event, arcSandbox)) == Scheme(arcSandbox)
  {
    var scheme := Scheme(arcSandbox);
    var rest := "://" + HostText(ResolveHost(event.headers)) + event.rawPath + Search(event.rawQueryString);
    assert RequestUrl(event, arcSandbox) == scheme + rest;
    CutAtStop(scheme, rest, {':'});
  }

  /** A host and path that a URL reader can tell apart: the host holds no
      '/' or '?', and the path is empty or starts with '/' (API Gateway's
      `rawPath` always does). */
  predicate Delimited(host: string, rawPath: string)
  {
    && (forall i :: 0 <= i < |host| ==> host[i] != '/' && host[i] != '?')
    && (rawPath == [] || rawPath[0] == '/')
  }

  /** The URL's host is the text of the resolved host header. */
  lemma UrlHostOfRequest(event: ApiGatewayEvent, arcSandbox: Option<string>)
    requires Delimited(HostText(ResolveHost(event.headers)), event.rawPath)
    ensures UrlHost(RequestUrl(event, arcSandbox)) == HostText(ResolveHost(event.headers))
  {
    var scheme := Scheme(arcSandbox);
    var host := HostText(ResolveHost(event.headers));
    var tail := event.rawPath + Search(event.rawQueryString);
    var rest := "://" + host + tail;
    assert RequestUrl(event, arcSandbox) == scheme + rest;
    CutAtStop(scheme, rest, {':'});
    assert rest[..3] == "://" && rest[3..] == host + tail;
    CutAtStop(host, tail, {'/', '?'});
  }

  /** Host preference: a non-empty `x-forwarded-host` wins; otherwise the
      `host` header; with neither, the text "undefined". */
  lemma HostPreference(event: ApiGatewayEvent, arcSandbox: Option<string>)
    requires Delimited(HostText(ResolveHost(event.headers)), event.rawPath)
    ensures var forwarded := Lookup(event.headers, "x-forwarded-host");
      var host := Lookup(event.headers, "host");
      var url := RequestUrl(event, arcSandbox);
      && (Truthy(forwarded) ==> UrlHost(url) == forwarded.value)
      && (!Truthy(forwarded) && host.Some? ==> UrlHost(url) == host.value)
      && (!Truthy(forwarded) && host.None? ==> UrlHost(url) == "undefined")
  {
    UrlHostOfRequest(event, arcSandbox);
  }

  /** The query: "?" and the raw query string when that is non-empty; an
      empty query string adds no '?' at all. */
  lemma UrlQueryOfRequest(event: ApiGatewayEvent, arcSandbox: Option<string>)
    requires '?' !in HostText(ResolveHost(event.headers)) && '?' !in event.rawPath
    ensures UrlQuery(RequestUrl(event, arcSandbox))
         == if event.rawQueryString == "" then None else Some(event.rawQueryString)
    ensures event.rawQueryString == "" <==> '?' !in RequestUrl(event, arcSandbox)
  {
    var front := Scheme(arcSandbox) + "://" + HostText(ResolveHost(event.headers)) + event.rawPath;
    var search := Search(event.rawQueryString);
    assert RequestUrl(event, arcSandbox) == front + search;
    assert forall i :: 0 <= i < |front| ==> front[i] != '?' by {
      forall i | 0 <= i < |front| ensures front[i] != '?' {
        assert front[i] in front;
      }
    }
    CutAtStop(front, search, {'?'});
    if event.rawQueryString != "" {
      assert search[0] == '?' && search[1..] == event.rawQueryString;
      assert (front + search)[|front|] == '?';
    }
  }

  /** The body policy, case by case. */
  lemma BodyPolicy(event: ApiGatewayEvent, codec: Codec)
    ensures var r := DecodeBody(event, codec);
      && (r.NoBody? <==> event.body.None?)
      && (r.Raw? <==> event.body.Some? && (event.body.value == "" || !event.isBase64Encoded))
      && (r.Raw? ==> r.raw == event.body.value)
      && (r.Bytes? <==> Truthy(event.body) && event.isBase64Encoded && IsFormData(event.headers))
      && (r.Bytes? ==> r.bytes == codec.base64(event.body.value))
      && (r.Text? <==> Truthy(event.body) && event.isBase64Encoded && !IsFormData(event.headers))
      && (r.Text? ==> r.text == codec.utf8(codec.base64(event.body.value)))
  {
  }

  /** A multipart content type with a boundary parameter counts as form data,
      wherever the media type stands in the header value. */
  lemma MultipartIsFormData(hs: EventHeaderMap, contentType: string, i: nat)
    requires Lookup(hs, "content-type") == Some(contentType)
    requires OccursAt(contentType, "multipart/form-data", i)
    ensures IsFormData(hs)
  {
    IncludesIffOccurs(contentType, "multipart/form-data");
  }
}
