# Lambda streaming request handler: a Dafny model

This project models the adapter in `lambda/request-handler.ts`. The adapter sits between an AWS Lambda function URL (API Gateway payload v2, with response streaming) and a Remix server build. It has three parts:

- **Request headers** (`createRemixHeaders`). The event's header object becomes a Fetch header list. Every header with a truthy value is appended in input order. Undefined and empty values are skipped. When the event carries a cookie list, one `Cookie` header is appended at the end, holding the cookies joined with `"; "`.
- **Request translation** (`createRemixRequest`). The URL is `scheme://host rawPath ?query`:
  - the scheme is `http` when `ARC_SANDBOX` is set, and `https` otherwise;
  - the host is `x-forwarded-host` when that header is non-empty, and the `host` header otherwise;
  - the `?` appears only when the query string is non-empty.

  The body follows a three-way base64 policy. The request also carries an abort signal that fires when the response stream closes.
- **Response writing** (`sendRemixResponse`). Every value under a `set-cookie` name, in any letter case, moves into the metadata's `cookies` in order. `Set-Cookie` is then deleted from the response headers, but only when at least one cookie was found. The metadata `{statusCode, headers, cookies}` goes to the stream first. After that the body is piped, or, when there is no body, the raw stream is ended at once.

Modules:

- `Wrappers` holds `Option` and JavaScript truthiness of `string | undefined`.
- `Strings` holds `join`, `includes`, ASCII `toLowerCase`, and small string readers. The readers act as independent partners of the code that builds strings.
- `Transport` models the Lambda response stream as a class. Its event log records the metadata prelude, the chunks, and the end or destroy event. The stream's methods only accept a body event after the metadata and before the stream is terminated, so the model checks the metadata-before-body order. `Transport` also holds the one-shot `AbortController`.
- `RequestHeaders`, `RemixRequest` and `RemixResponse` model the three parts above.

The code builds the request and its headers as plain values, so they are functions. Two loops are methods proved against those functions: the header loop and the nested cookie-collecting loops. The response's `Headers` object and the stream are changed in place, so they are classes.

Inputs that come from outside the adapter are parameters:

- `process.env.ARC_SANDBOX` is an `Option<string>`.
- `Buffer.from(..., "base64")` and `Buffer.prototype.toString()` are the two functions of a `Codec` value.

The response body stream is a value: the chunks it delivers, and whether it then fails.

An event with neither host header does not fail. The undefined host is interpolated into the URL, so the URL's host is the text `undefined` (`RemixRequest.HostText`, `RemixRequest.HostPreference`).

## Model

| member | source | states |
|---|---|---|
| `RequestHeaders.EventHeaders` | lambda/request-handler.ts:101-105 | The filtered event headers are never more than the input entries, and none of them has an empty value |
| `RequestHeaders.CreateRemixHeaders` | lambda/request-handler.ts:95-112 | The append loop builds exactly the filtered event headers, followed by the `Cookie` header when a cookie list is supplied |
| `RequestHeaders.EventHeadersAppend` | lambda/request-handler.ts:101-105 | The filter works entry by entry: the headers of a concatenation are the concatenation of the headers, so input order is kept |
| `RequestHeaders.EventHeadersMember` | lambda/request-handler.ts:101-105 | A (name, value) pair is in the result if and only if the map holds that name with that value and the value is non-empty |
| `RequestHeaders.FalsyHeaderOmitted` | lambda/request-handler.ts:102 | With distinct names, as object keys are, an entry whose value is undefined or empty leaves no header under its name |
| `RequestHeaders.RemixHeaders` | lambda/request-handler.ts:95-112 | Definition of `createRemixHeaders`'s result: the filtered event headers, then a `Cookie` header when a list is supplied. Its properties are carried by `EventHeadersMember`, `EventHeadersAppend`, `FalsyHeaderOmitted` and `CookieHeaderAppended` |
| `RequestHeaders.CookieHeaderAppended` | lambda/request-handler.ts:107-111 | For every cookie list, exactly one header follows the event headers: `Cookie` with the cookies joined by `"; "`. An empty list gives the value `""`. A non-empty list whose cookies hold no `;` splits back out of the value |
| `Strings.SplitJoinCookies` | lambda/request-handler.ts:108 | Joining cookies with `"; "` loses nothing: splitting the joined value gives back any non-empty list whose cookies hold no `;` (the empty list joins to `""`, which splits to `[""]`) |
| `Strings.IncludesIffOccurs` | lambda/request-handler.ts:73-75 | `includes` holds if and only if the substring occurs at some position |
| `RemixRequest.ResolveHost` | lambda/request-handler.ts:69 | Definition of the host choice. Characterised by `HostPreference` and `UrlHostOfRequest` |
| `RemixRequest.Search` | lambda/request-handler.ts:70 | Definition of the search part. Characterised by `UrlQueryOfRequest` |
| `RemixRequest.Scheme` | lambda/request-handler.ts:71 | Definition of the scheme choice. Characterised by `UrlSchemeOfRequest` |
| `RemixRequest.RequestUrl` | lambda/request-handler.ts:72 | Definition of the URL string. Read back by `UrlSchemeOfRequest`, `UrlHostOfRequest` and `UrlQueryOfRequest` |
| `RemixRequest.IsFormData` | lambda/request-handler.ts:73-75 | Definition of the multipart test. Characterised by `MultipartIsFormData` and `Strings.IncludesIffOccurs` |
| `RemixRequest.DecodeBody` | lambda/request-handler.ts:86-91 | Definition of the three-way body policy. Characterised by `BodyPolicy` |
| `RemixRequest.RemixRequest` | lambda/request-handler.ts:80-92 | The request has the event's method and the headers of `createRemixHeaders`. The URL's scheme, read back from the URL string, is `http` if and only if `ARC_SANDBOX` is truthy |
| `RemixRequest.CreateRemixRequest` | lambda/request-handler.ts:65-93 | Returns that request and a fresh, unaborted controller. The controller is registered as a close listener on `res`, and nothing is written to `res` |
| `RemixRequest.UrlSchemeOfRequest` | lambda/request-handler.ts:71-72 | Reading the scheme back from the URL string gives `http` under a truthy `ARC_SANDBOX` and `https` otherwise |
| `RemixRequest.UrlHostOfRequest` | lambda/request-handler.ts:69-72 | Reading the host back from the URL gives the text of the resolved host |
| `RemixRequest.HostPreference` | lambda/request-handler.ts:69 | A non-empty `x-forwarded-host` is the URL's host. Otherwise the `host` header is the URL's host. With neither header, the URL's host is the text `undefined` |
| `RemixRequest.UrlQueryOfRequest` | lambda/request-handler.ts:70-72 | Reading the query back from the URL gives the raw query string when it is non-empty, and no query otherwise. The URL contains `?` if and only if the query string is non-empty |
| `RemixRequest.BodyPolicy` | lambda/request-handler.ts:86-91 | The body cases, each as an if-and-only-if. An absent body gives no body. An empty or non-base64 body passes through as it is. A non-empty base64 body gives the decoded bytes for multipart form data, and the UTF-8 text of those bytes otherwise |
| `RemixRequest.MultipartIsFormData` | lambda/request-handler.ts:73-75 | A content type containing `multipart/form-data` anywhere, for example with a boundary parameter, selects the bytes branch |
| `Transport.AbortController.constructor` | lambda/request-handler.ts:77 | A new controller is not aborted and has dispatched nothing |
| `Transport.AbortController.Abort` | lambda/request-handler.ts:78 | After `abort` the controller is aborted. A second call dispatches no further event |
| `Transport.ResponseStream.OnClose` | lambda/request-handler.ts:78 | Registering the listener adds the controller and writes nothing |
| `Transport.ResponseStream.EmitClose` | lambda/request-handler.ts:78 | Closing the stream, once or many times, leaves every registered controller aborted, with exactly one abort event each |
| `Transport.ResponseStream.From` | lambda/request-handler.ts:139-142 | The metadata is the first and only event written by `HttpResponseStream.from`, and the stream is open afterwards |
| `Transport.ResponseStream.Write` | lambda/request-handler.ts:145 | A chunk is appended only to an open stream whose metadata is committed |
| `Transport.ResponseStream.End` | lambda/request-handler.ts:147 | `end()` appends the end event, and only on an open stream whose metadata is committed |
| `Transport.ResponseStream.Destroy` | lambda/request-handler.ts:145 | `destroy()` appends the destroy event, and only on an open stream whose metadata is committed |
| `RemixResponse.SetCookieValues` | lambda/request-handler.ts:118-127 | Definition of the collected cookies. Characterised by `SetCookieValuesAppend`, `NoCookiesIffNoSetCookieName` and `SplitConservesValues` |
| `RemixResponse.HeadersAfterSplit` | lambda/request-handler.ts:129-131 | Definition of the headers after the conditional delete. Characterised by `SplitRemovesOnlySetCookie` |
| `RemixResponse.MetadataOf` | lambda/request-handler.ts:133-137 | Definition of the metadata envelope. Characterised by `MetadataOfResponse` and `TwoCookiesScenario` |
| `RemixResponse.BodyEvents` | lambda/request-handler.ts:139-148 | Definition of what follows the metadata on the stream. Characterised by `ResponseLogShape` and `BodyBytesForwarded` |
| `RemixResponse.CollectSetCookies` | lambda/request-handler.ts:118-127 | The nested loops collect exactly the values under `set-cookie` names, in header order and value order |
| `RemixResponse.WithoutName` | lambda/request-handler.ts:130 | `delete` keeps an entry if and only if it was there and its name differs from the deleted name, ignoring case. Order is stated by `WithoutNameAppend` |
| `RemixResponse.WithoutNameAppend` | lambda/request-handler.ts:130 | `delete` works entry by entry, so the surviving entries keep their order |
| `RemixResponse.ResponseHeaders.Delete` | lambda/request-handler.ts:130 | The headers lose the named entries, and every name keeps a non-empty value list |
| `RemixResponse.JoinedEntries` | lambda/request-handler.ts:135 | One entry per raw name, with names and order kept. A header with a single value keeps that value unchanged |
| `RemixResponse.Pipe` | lambda/request-handler.ts:145 | Every chunk is written in order. Then the stream is ended when the body finishes, or destroyed and the error passed on when the body fails |
| `RemixResponse.SendRemixResponse` | lambda/request-handler.ts:114-149 | The headers become the post-split headers. The stream log is the metadata (status, joined post-split headers, cookies) followed by the body events. The outcome is an error exactly when the body fails |
| `RemixResponse.SetCookieValuesAppend` | lambda/request-handler.ts:121-127 | The cookies of a concatenation are the cookies of each part, in order |
| `RemixResponse.NoCookiesIffNoSetCookieName` | lambda/request-handler.ts:129-131 | The cookie list is empty if and only if no header name is `set-cookie` |
| `RemixResponse.WithoutAbsentName` | lambda/request-handler.ts:129-131 | Deleting a name that is not present leaves the headers unchanged |
| `RemixResponse.SetCookieIsLowerSetCookie` | lambda/request-handler.ts:122-130 | The name `delete` is given and the name the loop compares against are the same name, ignoring case |
| `RemixResponse.SplitRemovesOnlySetCookie` | lambda/request-handler.ts:129-136 | After the split no header is named `set-cookie` and every other header is kept. No header is invented. With no cookie, nothing is removed |
| `RemixResponse.SplitConservesValues` | lambda/request-handler.ts:118-131 | The cookies and the values left in the headers are together, as a multiset, exactly the response's values |
| `RemixResponse.MetadataOfResponse` | lambda/request-handler.ts:133-137 | The metadata's status is the response status and its cookies are all `set-cookie` values. Its headers hold no `set-cookie` name and hold every other header with its values joined. With no cookie, its headers are the response's headers unchanged |
| `RemixResponse.BodyBytesForwarded` | lambda/request-handler.ts:144-145 | The bytes written are the body's chunks concatenated in order, up to the failure if the body fails |
| `RemixResponse.ResponseLogShape` | lambda/request-handler.ts:139-148 | The log has the metadata once and first, then chunks, then one terminal event. With no body the log is exactly metadata then end, carrying zero bytes |
| `RemixResponse.TwoCookiesScenario` | lambda/request-handler.ts:118-137 | A `content-type: text/plain` header with `Set-Cookie: a=1, b=2` gives the cookies `a=1`, `b=2` and the single header `content-type: text/plain` |

## Left out

- `createRequestHandler` (lambda/request-handler.ts:44-63) is not modelled. It only composes Remix's `handleRequest` and the optional `getLoadContext`, both opaque framework calls.
- The `mode` string is not modelled.
- WHATWG URL parsing is not modelled. The model's URL is the string passed to `new URL(...)`, not the normalised `url.href`. The errors `new URL` can raise on an invalid host are not modelled.
- The `NodeRequest` constructor's own checks are not modelled. One example: it rejects a body on GET and HEAD.
- The Fetch `Headers` internals are not modelled: name validation, lower-casing of names, and sorted or combined iteration. The model keeps the header list as the appended (name, value) pairs. Response headers keep the names and order of `raw()`, and `entries()` joins values with `", "`.
- `Object.entries` lists integer-like keys before other keys. The model takes the event's headers as a sequence already in `Object.entries` order.
- `toLowerCase` is modelled on ASCII only, since header names are ASCII tokens.
- Base64 and UTF-8 decoding are given functions, not modelled decoders.
- `process.env` is read as a parameter.
- The internals of `writeReadableStreamToWritable` (the `@remix-run/node` library) are not part of this model. `RemixResponse.Pipe` follows its behaviour: chunks are written in order, the stream is ended when reading is done, and on an error the stream is destroyed and the error is rethrown. Back-pressure, `flush`, and the asynchronous scheduling are not modelled.
- The wrapper returned by `HttpResponseStream.from` is modelled as writing to the same stream as `res`. That is why `end()` on `res` and the writes through the wrapper land in one log.
- The "close" event is modelled as a separate call (`EmitClose`). Its interleaving with writes, and what the handler does with the aborted signal, are not modelled.
- `RemixRequest.UrlHostOfRequest`: stated only when the host holds no `/` or `?` and the path is empty or starts with `/`. Only then can the host be read back from the URL string.
- `RemixRequest.HostPreference`: stated under the same condition as `RemixRequest.UrlHostOfRequest`.
- `RemixRequest.UrlQueryOfRequest`: stated only when the host and path hold no `?`. Otherwise the query cannot be read back from the URL string.
- `cdk/lib/remix-streaming-stack.ts`, `app/routes/_index.tsx`, `lambda/index.ts` and `lambda/awslambda.d.ts` are not modelled. They hold infrastructure declarations, UI, and wiring with no adapter logic.
