/** Request construction: the URL of every GET/PUT the session issues and
    the form body of a PUT (`base_url`, the URL building in `get`/`wait`/
    `poll`, `putToURL`, `buildQuerystring`). */
module Requests {
  import opened Wrappers
  import opened Decimal
  import opened Text
  import opened Etcd

  datatype Method = GET | PUT

  /** What is handed to the transport: the curl request verb, URL and, for a
      PUT, the POST fields. */
  datatype Request = Request(verb: Method, url: string, body: Option<string>)

  /** The session calls, one constructor per family of overloads:
      `get(key)` is `Get(key, false)`; `wait(key[, recursive][, waitIndex])`
      is `Wait(key, recursive, waitIndex)`; `put(key, value)` is
      `Put(key, value, -1)`. */
  datatype Call =
    | Get(key: string, recursive: bool)
    | Wait(key: string, recursive: bool, waitIndex: Option<int32>)
    | Put(key: string, value: string, ttl: int32)

  const Scheme := "http://"
  const KeysPath := "/v2/keys"

  /** `base_url`: scheme, host, port, the v2 keys prefix and the key. */
  function BaseUrl(h: Host, key: string): (url: string)
    ensures IsPrefix(Scheme + h.host + ":", url)
    ensures |key| <= |url| && url[|url| - |key|..] == key
  {
    Scheme + h.host + ":" + IntToString(h.port) + KeysPath + key
  }

  /** Reads a base URL back into host, port and key. */
  function ParseBaseUrl(url: string): (r: Option<(string, int, string)>)
  {
    if !IsPrefix(Scheme, url) then None
    else
      var (host, afterColon) := Cut(url[|Scheme|..], ':');
      var (port, afterSlash) := Cut(afterColon, '/');
      if |port| == 0 || !IsPrefix("v2/keys", afterSlash) then None
      else if !(if port[0] == '-' then |port| >= 2 && AllDigits(port[1..]) else AllDigits(port)) then None
      else Some((host, ParseInt(port), afterSlash[7..]))
  }

  lemma BaseUrlPieces(h: Host, key: string)
    ensures BaseUrl(h, key) == Scheme + (h.host + [':'] + (IntToString(h.port) + ['/'] + ("v2/keys" + key)))
  {
    assert KeysPath == ['/'] + "v2/keys";
  }

  /** A rendered port never contains '/'. */
  lemma PortHasNoSlash(port: int)
    ensures NoChar(IntToString(port), '/')
  {
    forall k | 0 <= k < |IntToString(port)|
      ensures IntToString(port)[k] != '/'
    {
      IntToStringChars(port, k);
    }
  }

  /** The base URL determines host, port and key, provided the host name
      has no ':' (an IPv6 literal would not read back). */
  lemma BaseUrlRoundTrip(h: Host, key: string)
    requires NoChar(h.host, ':')
    ensures ParseBaseUrl(BaseUrl(h, key)) == Some((h.host, h.port as int, key))
  {
    var url := BaseUrl(h, key);
    var port := IntToString(h.port);
    var tail := "v2/keys" + key;
    BaseUrlPieces(h, key);
    assert url[|Scheme|..] == h.host + [':'] + (port + ['/'] + tail);
    CutAt(h.host, port + ['/'] + tail, ':');
    PortHasNoSlash(h.port);
    CutAt(port, tail, '/');
    assert tail[7..] == key;
    IntRoundTrip(h.port);
  }

  /** `buildQuerystring` as a value: nothing for no parts, otherwise '?'
      and the parts joined with '&'. */
  function Querystring(parts: seq<string>): (qs: string)
    ensures qs == "" <==> |parts| == 0
    ensures |parts| > 0 ==> qs[0] == '?'
  {
    if |parts| == 0 then "" else "?" + Join(parts, "&")
  }

  /** `buildQuerystring`, with the loop of the source. */
  method BuildQuerystring(parts: seq<string>) returns (qs: string)
    ensures qs == Querystring(parts)
  {
    if |parts| == 0 {
      return "";
    }
    qs := "?";
    var i := 0;
    while i < |parts|
      invariant 0 <= i <= |parts|
      invariant i == 0 ==> qs == "?"
      invariant i > 0 ==> qs == "?" + Join(parts[..i], "&")
    {
      if i != 0 {
        assert parts[..i + 1] == parts[..i] + [parts[i]];
        JoinSnoc(parts[..i], parts[i], "&");
        qs := qs + "&";
      } else {
        assert parts[..1] == [parts[0]];
      }
      qs := qs + parts[i];
      i := i + 1;
    }
    assert parts[..|parts|] == parts;
  }

  /** A server splitting the query at '&' recovers the parts, in order,
      and finds |parts| - 1 separators, when no part contains '&'. */
  lemma QuerystringRoundTrip(parts: seq<string>)
    requires |parts| >= 1
    requires forall i :: 0 <= i < |parts| ==> NoChar(parts[i], '&')
    ensures Split(Querystring(parts)[1..], '&') == parts
    ensures Count(Querystring(parts), '&') == |parts| - 1
  {
    var qs := Querystring(parts);
    assert qs[1..] == Join(parts, "&");
    SplitJoin(parts, '&');
    JoinCount(parts, '&');
    CountAppend("?", Join(parts, "&"), '&');
  }

  /** The URL of a GET (`get`), with `recursive=true` only when asked. */
  function GetUrl(h: Host, key: string, recursive: bool): (u: string)
    ensures IsPrefix(BaseUrl(h, key), u)
    ensures u == BaseUrl(h, key) <==> !recursive
  {
    BaseUrl(h, key) + (if recursive then "?recursive=true" else "")
  }

  /** The URL of a long-poll GET (`wait` and one `poll` round). */
  function WaitUrl(h: Host, key: string, recursive: bool, waitIndex: Option<int32>): (u: string)
    ensures IsPrefix(BaseUrl(h, key) + "?wait=true", u)
    ensures u == BaseUrl(h, key) + "?wait=true" <==> waitIndex.None? && !recursive
  {
    BaseUrl(h, key) + "?wait=true"
      + (if waitIndex.Some? then "&waitIndex=" + IntToString(waitIndex.value) else "")
      + (if recursive then "&recursive=true" else "")
  }

  /** The form body of `putToURL`; the value is sent as is. */
  function PutBody(value: string, ttl: int32): (b: string)
    ensures IsPrefix("value=" + value, b)
    ensures b == "value=" + value <==> ttl <= 0
  {
    "value=" + value + (if ttl > 0 then "&ttl=" + IntToString(ttl) else "")
  }

  /** The request a call turns into, against host `h`. */
  function BuildRequest(h: Host, call: Call): (r: Request)
    ensures IsPrefix(BaseUrl(h, call.key), r.url)
    ensures r.verb == PUT <==> call.Put?
    ensures r.body.Some? <==> call.Put?
    ensures call.Put? ==> r.url == BaseUrl(h, call.key)
  {
    match call
    case Get(key, recursive) => Request(GET, GetUrl(h, key, recursive), None)
    case Wait(key, recursive, waitIndex) => Request(GET, WaitUrl(h, key, recursive, waitIndex), None)
    case Put(key, value, ttl) => Request(PUT, BaseUrl(h, key), Some(PutBody(value, ttl)))
  }

  /** The query parameters each call asks for, in the order they are sent:
      `wait=true` first, then `waitIndex`, then `recursive=true`. */
  function QueryParts(call: Call): (parts: seq<string>)
    ensures call.Wait? ==> |parts| >= 1 && parts[0] == "wait=true"
    ensures call.Wait? ==> |parts| == 1 + (if call.waitIndex.Some? then 1 else 0)
                                      + (if call.recursive then 1 else 0)
    ensures call.Wait? && call.waitIndex.Some? ==>
              parts[1] == "waitIndex=" + IntToString(call.waitIndex.value)
    ensures call.Get? ==> |parts| == if call.recursive then 1 else 0
    ensures call.Put? ==> parts == []
    ensures !call.Put? && call.recursive ==> |parts| >= 1 && parts[|parts| - 1] == "recursive=true"
  {
    match call
    case Get(_, recursive) => if recursive then ["recursive=true"] else []
    case Wait(_, recursive, waitIndex) =>
      ["wait=true"]
        + (if waitIndex.Some? then ["waitIndex=" + IntToString(waitIndex.value)] else [])
        + (if recursive then ["recursive=true"] else [])
    case Put(_, _, _) => []
  }

  lemma JoinTwo(a: string, b: string, sep: string)
    ensures Join([a, b], sep) == a + sep + b
  {
    assert [a, b][1..] == [b];
  }

  lemma JoinThree(a: string, b: string, c: string, sep: string)
    ensures Join([a, b, c], sep) == a + sep + b + sep + c
  {
    assert [a, b, c][1..] == [b, c];
    JoinTwo(b, c, sep);
  }

  /** The query string of a long-poll GET: the four overloads of `wait`. */
  lemma WaitQuery(h: Host, key: string, recursive: bool, waitIndex: Option<int32>)
    ensures WaitUrl(h, key, recursive, waitIndex)
            == BaseUrl(h, key) + Querystring(QueryParts(Wait(key, recursive, waitIndex)))
  {
    var w, r := "wait=true", "recursive=true";
    var wi := if waitIndex.Some? then "waitIndex=" + IntToString(waitIndex.value) else "";
    assert "?wait=true" == "?" + w;
    assert "&recursive=true" == "&" + r;
    assert waitIndex.Some? ==> "&waitIndex=" + IntToString(waitIndex.value) == "&" + wi;
    QueryOptional(BaseUrl(h, key), w, wi, r, waitIndex.Some?, recursive);
  }

  /** A mandatory first part and two optional ones. */
  lemma QueryOptional(base: string, a: string, b: string, c: string, hasB: bool, hasC: bool)
    ensures base + ("?" + a) + (if hasB then "&" + b else "") + (if hasC then "&" + c else "")
            == base + Querystring([a] + (if hasB then [b] else []) + (if hasC then [c] else []))
  {
    if hasB && hasC {
      assert [a] + [b] + [c] == [a, b, c];
      QueryThree(base, a, b, c);
    } else if hasB {
      assert [a] + [b] + [] == [a, b];
      assert base + ("?" + a) + ("&" + b) + "" == base + ("?" + a) + ("&" + b);
      QueryTwo(base, a, b);
    } else if hasC {
      assert [a] + [] + [c] == [a, c];
      assert base + ("?" + a) + "" + ("&" + c) == base + ("?" + a) + ("&" + c);
      QueryTwo(base, a, c);
    } else {
      assert [a] + [] + [] == [a];
      assert base + ("?" + a) + "" + "" == base + ("?" + a);
    }
  }

  lemma QueryTwo(base: string, a: string, b: string)
    ensures base + ("?" + a) + ("&" + b) == base + Querystring([a, b])
  {
    JoinTwo(a, b, "&");
  }

  lemma QueryThree(base: string, a: string, b: string, c: string)
    ensures base + ("?" + a) + ("&" + b) + ("&" + c) == base + Querystring([a, b, c])
  {
    JoinThree(a, b, c, "&");
  }

  /** Every URL is the base URL followed by the query string that
      `buildQuerystring` makes of the call's parameters. */
  lemma UrlIsBasePlusQuery(h: Host, call: Call)
    ensures BuildRequest(h, call).url == BaseUrl(h, call.key) + Querystring(QueryParts(call))
  {
    match call
    case Get(key, recursive) =>
    case Put(_, _, _) =>
    case Wait(key, recursive, waitIndex) => WaitQuery(h, key, recursive, waitIndex);
  }

  /** Splits a form body into (name, value) fields at '&' and then at the
      first '='. */
  function ParseForm(body: string): (fields: seq<(string, string)>)
    ensures |fields| == |Split(body, '&')|
  {
    var raw := Split(body, '&');
    seq(|raw|, i requires 0 <= i < |raw| => Cut(raw[i], '='))
  }

  /** The body carries a `ttl` field exactly when ttl > 0, after the value;
      both read back, provided the value has no '&'. */
  lemma PutBodyRoundTrip(value: string, ttl: int32)
    requires NoChar(value, '&')
    ensures ParseForm(PutBody(value, ttl))
            == [("value", value)] + (if ttl > 0 then [("ttl", IntToString(ttl))] else [])
    ensures ttl > 0 ==> ParseInt(IntToString(ttl)) == ttl
  {
    var v := "value=" + value;
    assert NoChar("value", '=');
    assert v == "value" + ['='] + value;
    CutAt("value", value, '=');
    assert NoChar(v, '&');
    if ttl > 0 {
      var t := "ttl=" + IntToString(ttl);
      assert PutBody(value, ttl) == v + ['&'] + t;
      SplitAt(v, t, '&');
      forall k | 0 <= k < |IntToString(ttl)|
        ensures IntToString(ttl)[k] != '&'
      {
        IntToStringChars(ttl, k);
      }
      assert NoChar(t, '&');
      SplitNoChar(t, '&');
      assert NoChar("ttl", '=');
      assert t == "ttl" + ['='] + IntToString(ttl);
      CutAt("ttl", IntToString(ttl), '=');
      IntRoundTrip(ttl);
    } else {
      assert PutBody(value, ttl) == v;
      SplitNoChar(v, '&');
    }
  }

  /** Because the value is not encoded, a value holding "&ttl=5" and no ttl
      produce the same body as the plain value with ttl 5. */
  lemma UnencodedValueCollides()
    ensures PutBody("a&ttl=5", -1) == PutBody("a", 5)
  {
    assert IntToString(5) == "5";
  }
}
