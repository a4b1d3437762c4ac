/** `createRemixHeaders`: the event's header map and optional cookie list
    become the request's ordered, multi-value header list. */
module RequestHeaders {
  import opened Wrappers
  import opened Strings

  /** The event's headers in `Object.entries` order; a value may be undefined. */
  type EventHeaderMap = seq<(string, Option<string>)>

  /** A Fetch header list: (name, value) pairs in the order they were appended. */
  type HeaderList = seq<(string, string)>

  /** The part of the header list that comes from the header map: every entry
      whose value is truthy, in input order. */
  function EventHeaders(hs: EventHeaderMap): (r: HeaderList)
    ensures |r| <= |hs|
    ensures forall i :: 0 <= i < |r| ==> r[i].1 != ""
  {
    if hs == [] then []
    else EventHeaders(hs[..|hs| - 1]) + Kept(hs[|hs| - 1])
  }

  /** The header one map entry contributes: itself if its value is truthy. */
  function Kept(h: (string, Option<string>)): HeaderList
  {
    if Truthy(h.1) then [(h.0, h.1.value)] else []
  }

  /** The whole header list: event headers, then one `Cookie` header when a
      cookie list is supplied (an empty list is supplied too). */
  function RemixHeaders(hs: EventHeaderMap, cookies: Option<seq<string>>): HeaderList
  {
    EventHeaders(hs) + (if cookies.Some? then [("Cookie", Join(cookies.value, "; "))] else [])
  }

  /** The loop of `createRemixHeaders`, appending into a fresh header list. */
  method CreateRemixHeaders(requestHeaders: EventHeaderMap, requestCookies: Option<seq<string>>)
    returns (headers: HeaderList)
    ensures headers == RemixHeaders(requestHeaders, requestCookies)
  {
    headers := [];
    var i := 0;
    while i < |requestHeaders|
      invariant 0 <= i <= |requestHeaders|
      invariant headers == EventHeaders(requestHeaders[..i])
    {
      var (header, value) := requestHeaders[i];
      assert requestHeaders[..i + 1][..i] == requestHeaders[..i];
      if Truthy(value) {
        headers := headers + [(header, value.value)];
      }
      i := i + 1;
    }
    assert requestHeaders[..i] == requestHeaders;
    if requestCookies.Some? {
      headers := headers + [("Cookie", Join(requestCookies.value, "; "))];
    }
  }

  /** The filter works entry by entry: the headers of a concatenation are the
      concatenation of the headers, so input order is kept. */
  lemma {:induction false} EventHeadersAppend(a: EventHeaderMap, b: EventHeaderMap)
    ensures EventHeaders(a + b) == EventHeaders(a) + EventHeaders(b)
    decreases |b|
  {
    if b == [] {
      assert a + b == a;
    } else {
      var b' := b[..|b| - 1];
      assert (a + b)[..|a + b| - 1] == a + b';
      assert (a + b)[|a + b| - 1] == b[|b| - 1];
      EventHeadersAppend(a, b');
    }
  }

  /** A (name, value) pair is in the event headers exactly when the map holds
      that name with that value and the value is non-empty. */
  lemma {:induction false} EventHeadersMember(hs: EventHeaderMap, name: string, value: string)
    ensures (name, value) in EventHeaders(hs) <==> value != "" && (name, Some(value)) in hs
  {
    if hs != [] {
      var init := hs[..|hs| - 1];
      EventHeadersMember(init, name, value);
      assert hs == init + [hs[|hs| - 1]];
    }
  }

  /** Names of a header map are distinct, as the keys of an object are. */
  predicate DistinctNames(hs: EventHeaderMap) {
    forall i, j :: 0 <= i < j < |hs| ==> hs[i].0 != hs[j].0
  }

  /** An entry whose value is undefined or empty leaves no header under its
      name. */
  lemma {:induction false} FalsyHeaderOmitted(hs: EventHeaderMap, k: nat)
    requires DistinctNames(hs)
    requires k < |hs| && !Truthy(hs[k].1)
    ensures forall i :: 0 <= i < |EventHeaders(hs)| ==> EventHeaders(hs)[i].0 != hs[k].0
  {
    var r := EventHeaders(hs);
    forall i | 0 <= i < |r| ensures r[i].0 != hs[k].0 {
      assert r[i] in r;
      EventHeadersMember(hs, r[i].0, r[i].1);
      var j :| 0 <= j < |hs| && hs[j] == (r[i].0, Some(r[i].1));
      assert j != k;
    }
  }

  /** With a cookie list, exactly one header follows the event headers: the
      `Cookie` header holding the cookies joined with "; ". An empty list
      gives the value "", and the cookies split back out of the value as
      long as none holds a ';'. */
  lemma CookieHeaderAppended(hs: EventHeaderMap, cookies: seq<string>)
    ensures var r := RemixHeaders(hs, Some(cookies));
      && |r| == |EventHeaders(hs)| + 1
      && r[..|r| - 1] == EventHeaders(hs)
      && r[|r| - 1] == ("Cookie", Join(cookies, "; "))
      && (cookies == [] ==> r[|r| - 1].1 == "")
      && ((cookies != [] && forall i :: 0 <= i < |cookies| ==> ';' !in cookies[i])
          ==> SplitCookieHeader(r[|r| - 1].1) == cookies)
  {
    var r := RemixHeaders(hs, Some(cookies));
    assert r[..|r| - 1] == EventHeaders(hs);
    if cookies != [] && forall i :: 0 <= i < |cookies| ==> ';' !in cookies[i] {
      SplitJoinCookies(cookies);
    }
  }
}
