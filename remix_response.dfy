/** `sendRemixResponse`: the response's `set-cookie` values move out of its
    headers into the metadata's cookie list, the metadata is committed to the
    stream, and then the body is piped or the stream is ended at once. */
module RemixResponse {
  import opened Wrappers
  import opened Strings
  import opened Transport

  /** `headers.raw()`: each name with all of its values, in order. */
  type RawHeaders = seq<(string, seq<string>)>

  /** A Fetch `Headers` object never holds a name without a value. */
  predicate NonEmptyValues(raw: RawHeaders) {
    forall i :: 0 <= i < |raw| ==> raw[i].1 != []
  }

  predicate IsSetCookie(name: string) {
    Lower(name) == "set-cookie"
  }

  /** Every value under a `set-cookie` name (in any case), in order. */
  function SetCookieValues(raw: RawHeaders): seq<string>
  {
    if raw == [] then []
    else SetCookieValues(raw[..|raw| - 1]) + CookiesOf(raw[|raw| - 1])
  }

  function CookiesOf(entry: (string, seq<string>)): seq<string>
  {
    if IsSetCookie(entry.0) then entry.1 else []
  }

  /** `headers.delete(name)`: drops every entry whose name equals `name`
      ignoring case, and keeps the rest in order. */
  function WithoutName(raw: RawHeaders, name: string): (r: RawHeaders)
    ensures forall e :: e in r <==> e in raw && Lower(e.0) != Lower(name)
  {
    if raw == [] then []
    else
      var last := raw[|raw| - 1];
      WithoutName(raw[..|raw| - 1], name) + (if Lower(last.0) == Lower(name) then [] else [last])
  }

  /** `Object.fromEntries(headers.entries())`: one value per name, the
      values of a name joined with ", ". Names and their order are kept, and
      a header with a single value keeps that value as it is. */
  function JoinedEntries(raw: RawHeaders): (r: seq<(string, string)>)
    ensures |r| == |raw|
    ensures forall i :: 0 <= i < |r| ==> r[i].0 == raw[i].0
    ensures forall i :: 0 <= i < |r| && |raw[i].1| == 1 ==> r[i].1 == raw[i].1[0]
  {
    seq(|raw|, i requires 0 <= i < |raw| => (raw[i].0, Join(raw[i].1, ", ")))
  }

  /** The headers after the split: `Set-Cookie` deleted only when there was
      a cookie to move. */
  function HeadersAfterSplit(raw: RawHeaders): RawHeaders
  {
    if |SetCookieValues(raw)| > 0 then WithoutName(raw, "Set-Cookie") else raw
  }

  function MetadataOf(status: int, raw: RawHeaders): ResponseMetadata
  {
    ResponseMetadata(status, JoinedEntries(HeadersAfterSplit(raw)), SetCookieValues(raw))
  }

  /** The response's `Headers` object, which `sendRemixResponse` changes in
      place. */
  class ResponseHeaders {
    var entries: RawHeaders

    ghost predicate Valid()
      reads this
    {
      NonEmptyValues(entries)
    }

    constructor (entries: RawHeaders)
      requires NonEmptyValues(entries)
      ensures Valid() && this.entries == entries
    {
      this.entries := entries;
    }

    function Raw(): RawHeaders
      reads this
    {
      entries
    }

    function Entries(): seq<(string, string)>
      reads this
    {
      JoinedEntries(entries)
    }

    method Delete(name: string)
      requires Valid()
      modifies this
      ensures Valid()
      ensures entries == WithoutName(old(entries), name)
    {
      entries := WithoutName(entries, name);
      assert NonEmptyValues(entries) by {
        forall i | 0 <= i < |entries| ensures entries[i].1 != [] {
          assert entries[i] in entries;
        }
      }
    }
  }

  /** A readable body stream: the chunks it delivers, and whether it then
      errors instead of finishing. */
  datatype BodyStream = BodyStream(chunks: seq<seq<byte>>, fails: bool)

  /** The Fetch response `sendRemixResponse` receives. */
  class NodeResponse {
    const status: int
    const headers: ResponseHeaders
    const body: Option<BodyStream>

    constructor (status: int, headers: ResponseHeaders, body: Option<BodyStream>)
      ensures this.status == status && this.headers == headers && this.body == body
    {
      this.status := status;
      this.headers := headers;
      this.body := body;
    }
  }

  datatype Outcome = Sent | StreamingWriteError

  function ChunkEvents(chunks: seq<seq<byte>>): seq<StreamEvent>
  {
    seq(|chunks|, i requires 0 <= i < |chunks| => Chunk(chunks[i]))
  }

  /** What follows the metadata on the stream. */
  function BodyEvents(body: Option<BodyStream>): seq<StreamEvent>
  {
    match body
    case None => [Ended]
    case Some(b) => ChunkEvents(b.chunks) + [if b.fails then Destroyed else Ended]
  }

  function Concat(chunks: seq<seq<byte>>): seq<byte>
  {
    if chunks == [] then [] else Concat(chunks[..|chunks| - 1]) + chunks[|chunks| - 1]
  }

  /** The cookie-collecting loops of `sendRemixResponse`. */
  method CollectSetCookies(raw: RawHeaders) returns (cookies: seq<string>)
    ensures cookies == SetCookieValues(raw)
  {
    cookies := [];
    var i := 0;
    while i < |raw|
      invariant 0 <= i <= |raw|
      invariant cookies == SetCookieValues(raw[..i])
    {
      var (key, values) := raw[i];
      assert raw[..i + 1][..i] == raw[..i];
      if Lower(key) == "set-cookie" {
        var j := 0;
        while j < |values|
          invariant 0 <= j <= |values|
          invariant cookies == SetCookieValues(raw[..i]) + values[..j]
        {
          cookies := cookies + [values[j]];
          j := j + 1;
        }
        assert values[..j] == values;
      }
      i := i + 1;
    }
    assert raw[..i] == raw;
  }

  /** `writeReadableStreamToWritable`: each chunk is written in turn; the
      stream is ended when the body finishes, destroyed when it errors, and
      the error is passed on. */
  method Pipe(body: BodyStream, stream: ResponseStream) returns (outcome: Outcome)
    requires stream.Open()
    modifies stream
    ensures stream.log == old(stream.log) + BodyEvents(Some(body))
    ensures stream.closeListeners == old(stream.closeListeners)
    ensures outcome == if body.fails then StreamingWriteError else Sent
  {
    var chunks := body.chunks;
    for k := 0 to |chunks|
      invariant stream.Open()
      invariant stream.log == old(stream.log) + ChunkEvents(chunks[..k])
      invariant stream.closeListeners == old(stream.closeListeners)
    {
      stream.Write(chunks[k]);
      assert ChunkEvents(chunks[..k + 1]) == ChunkEvents(chunks[..k]) + [Chunk(chunks[k])];
    }
    assert chunks[..|chunks|] == chunks;
    if body.fails {
      stream.Destroy();
      outcome := StreamingWriteError;
    } else {
      stream.End();
      outcome := Sent;
    }
  }

  /** `sendRemixResponse`: split the cookies out, commit the metadata, then
      pipe the body or end the stream. */
  method SendRemixResponse(response: NodeResponse, res: ResponseStream) returns (outcome: Outcome)
    requires response.headers.Valid()
    requires res.log == []
    modifies response.headers, res
    ensures response.headers.Valid()
    ensures response.headers.entries == HeadersAfterSplit(old(response.headers.entries))
    ensures res.log == [Metadata(MetadataOf(response.status, old(response.headers.entries)))]
                       + BodyEvents(response.body)
    ensures res.closeListeners == old(res.closeListeners)
    ensures outcome == if response.body.Some? && response.body.value.fails then StreamingWriteError else Sent
  {
    var cookies := CollectSetCookies(response.headers.Raw());
    if |cookies| > 0 {
      response.headers.Delete("Set-Cookie");
    }
    var metadata := ResponseMetadata(response.status, response.headers.Entries(), cookies);
    res.From(metadata);
    if response.body.Some? {
      outcome := Pipe(response.body.value, res);
    } else {
      res.End();
      outcome := Sent;
    }
  }

  // Properties of the split and of the stream log.

  /** Cookies of a concatenation are the cookies of each part, in order. */
  lemma {:induction false} SetCookieValuesAppend(a: RawHeaders, b: RawHeaders)
    ensures SetCookieValues(a + b) == SetCookieValues(a) + SetCookieValues(b)
    decreases |b|
  {
    if b == [] {
      assert a + b == a;
    } else {
      var b' := b[..|b| - 1];
      assert (a + b)[..|a + b| - 1] == a + b';
      assert (a + b)[|a + b| - 1] == b[|b| - 1];
      SetCookieValuesAppend(a, b');
    }
  }

  /** `delete` works entry by entry: it keeps the surviving entries of a
      concatenation in their order. */
  lemma {:induction false} WithoutNameAppend(a: RawHeaders, b: RawHeaders, name: string)
    ensures WithoutName(a + b, name) == WithoutName(a, name) + WithoutName(b, name)
    decreases |b|
  {
    if b == [] {
      assert a + b == a;
    } else {
      var b' := b[..|b| - 1];
      assert (a + b)[..|a + b| - 1] == a + b';
      assert (a + b)[|a + b| - 1] == b[|b| - 1];
      WithoutNameAppend(a, b', name);
    }
  }

  /** The cookie list is empty exactly when no name is `set-cookie`. */
  lemma {:induction false} NoCookiesIffNoSetCookieName(raw: RawHeaders)
    requires NonEmptyValues(raw)
    ensures SetCookieValues(raw) == [] <==> forall i :: 0 <= i < |raw| ==> !IsSetCookie(raw[i].0)
  {
    if raw != [] {
      var init := raw[..|raw| - 1];
      assert NonEmptyValues(init) by {
        forall i | 0 <= i < |init| ensures init[i].1 != [] {
          assert init[i] == raw[i];
        }
      }
      NoCookiesIffNoSetCookieName(init);
      assert forall i :: 0 <= i < |init| ==> init[i] == raw[i];
    }
  }

  lemma SetCookieIsLowerSetCookie()
    ensures Lower("Set-Cookie") == "set-cookie"
  {
    assert Lower("Set-Cookie")[0] == 's';
    assert Lower("Set-Cookie")[4] == 'c';
  }

  /** A header list without the name is left as it is by `delete`. */
  lemma {:induction false} WithoutAbsentName(raw: RawHeaders, name: string)
    requires forall i :: 0 <= i < |raw| ==> Lower(raw[i].0) != Lower(name)
    ensures WithoutName(raw, name) == raw
  {
    if raw != [] {
      var init := raw[..|raw| - 1];
      var last := raw[|raw| - 1];
      assert forall i :: 0 <= i < |init| ==> init[i] == raw[i];
      WithoutAbsentName(init, name);
      assert Lower(last.0) != Lower(name);
      assert WithoutName(raw, name) == WithoutName(init, name) + [last];
      assert raw == init + [last];
    }
  }

  /** After the split no header is named `set-cookie`, every other header is
      still there, and with no cookie nothing was removed. */
  lemma SplitRemovesOnlySetCookie(raw: RawHeaders)
    requires NonEmptyValues(raw)
    ensures var h := HeadersAfterSplit(raw);
      && (forall i :: 0 <= i < |h| ==> !IsSetCookie(h[i].0))
      && (forall e :: e in raw && !IsSetCookie(e.0) ==> e in h)
      && (forall e :: e in h ==> e in raw)
      && (SetCookieValues(raw) == [] ==> h == raw)
  {
    SetCookieIsLowerSetCookie();
    var h := HeadersAfterSplit(raw);
    NoCookiesIffNoSetCookieName(raw);
    forall i | 0 <= i < |h| ensures !IsSetCookie(h[i].0) {
      assert h[i] in h;
    }
  }

  /** All values of the response's headers. */
  function AllValues(raw: RawHeaders): seq<string>
  {
    if raw == [] then [] else AllValues(raw[..|raw| - 1]) + raw[|raw| - 1].1
  }

  /** The split loses and invents no value: the cookies and the values left
      in the headers are together exactly the values the response had. */
  lemma {:induction false} SplitConservesValues(raw: RawHeaders)
    ensures multiset(AllValues(raw))
         == multiset(SetCookieValues(raw)) + multiset(AllValues(WithoutName(raw, "Set-Cookie")))
  {
    if raw != [] {
      var init := raw[..|raw| - 1];
      var last := raw[|raw| - 1];
      var w := WithoutName(init, "Set-Cookie");
      SplitConservesValues(init);
      assert AllValues(raw) == AllValues(init) + last.1;
      assert SetCookieValues(raw) == SetCookieValues(init) + CookiesOf(last);
      if Lower(last.0) == Lower("Set-Cookie") {
        SetCookieIsLowerSetCookie();
        assert CookiesOf(last) == last.1;
        assert WithoutName(raw, "Set-Cookie") == w;
      } else {
        SetCookieIsLowerSetCookie();
        assert CookiesOf(last) == [];
        assert WithoutName(raw, "Set-Cookie") == w + [last];
        assert (w + [last])[..|w + [last]| - 1] == w;
        assert AllValues(w + [last]) == AllValues(w) + last.1;
      }
    }
  }

  /** The metadata carries the response status, the cookies, and every
      other header with its values joined. */
  lemma MetadataOfResponse(status: int, raw: RawHeaders)
    requires NonEmptyValues(raw)
    ensures var m := MetadataOf(status, raw);
      && m.statusCode == status
      && m.cookies == SetCookieValues(raw)
      && (forall i :: 0 <= i < |m.headers| ==> !IsSetCookie(m.headers[i].0))
      && (forall i :: 0 <= i < |raw| && !IsSetCookie(raw[i].0) ==> (raw[i].0, Join(raw[i].1, ", ")) in m.headers)
      && (SetCookieValues(raw) == [] ==> m.headers == JoinedEntries(raw))
  {
    SplitRemovesOnlySetCookie(raw);
    var h := HeadersAfterSplit(raw);
    var m := MetadataOf(status, raw);
    forall i | 0 <= i < |raw| && !IsSetCookie(raw[i].0)
      ensures (raw[i].0, Join(raw[i].1, ", ")) in m.headers
    {
      assert raw[i] in raw;
      var k :| 0 <= k < |h| && h[k] == raw[i];
      assert m.headers[k] == (raw[i].0, Join(raw[i].1, ", "));
    }
  }

  /** The body reaches the stream byte for byte, in order (up to the error,
      if the body fails). */
  lemma {:induction false} BodyBytesForwarded(chunks: seq<seq<byte>>, fails: bool)
    ensures BytesWritten(BodyEvents(Some(BodyStream(chunks, fails)))) == Concat(chunks)
  {
    var events := BodyEvents(Some(BodyStream(chunks, fails)));
    assert events[..|events| - 1] == ChunkEvents(chunks);
    ChunkEventsBytes(chunks);
  }

  lemma {:induction false} ChunkEventsBytes(chunks: seq<seq<byte>>)
    ensures BytesWritten(ChunkEvents(chunks)) == Concat(chunks)
  {
    if chunks != [] {
      var init := chunks[..|chunks| - 1];
      ChunkEventsBytes(init);
      assert ChunkEvents(chunks)[..|chunks| - 1] == ChunkEvents(init);
    }
  }

  /** Every invocation's log: metadata once and first, body chunks, one
      terminal event; with no body the stream is ended right after the
      metadata and carries no byte. */
  lemma ResponseLogShape(metadata: ResponseMetadata, body: Option<BodyStream>)
    ensures WellFormedLog([Metadata(metadata)] + BodyEvents(body))
    ensures body.None? ==> [Metadata(metadata)] + BodyEvents(body) == [Metadata(metadata), Ended]
    ensures body.None? ==> BytesWritten([Metadata(metadata)] + BodyEvents(body)) == []
  {
    var log := [Metadata(metadata)] + BodyEvents(body);
    if body.None? {
      assert log[..1] == [Metadata(metadata)];
      assert log[..1][..0] == [];
      assert BytesWritten(log[..1]) == [];
    }
  }

  /** A plain header and two `Set-Cookie` values: the cookies move into the
      metadata and the plain header stays. */
  lemma TwoCookiesScenario()
    ensures var raw := [("content-type", ["text/plain"]), ("Set-Cookie", ["a=1", "b=2"])];
      var m := MetadataOf(200, raw);
      && m.cookies == ["a=1", "b=2"]
      && m.headers == [("content-type", "text/plain")]
  {
    var raw := [("content-type", ["text/plain"]), ("Set-Cookie", ["a=1", "b=2"])];
    SetCookieIsLowerSetCookie();
    assert Lower("content-type") == "content-type";
    assert raw[..1] == [("content-type", ["text/plain"])];
    assert raw[..1][..0] == [];
    assert SetCookieValues(raw) == ["a=1", "b=2"];
    assert WithoutName(raw, "Set-Cookie") == [("content-type", ["text/plain"])];
  }
}
