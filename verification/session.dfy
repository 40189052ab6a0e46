/** The session operations (`Session::get`, `wait`, `put`, `poll`): pick the
    next host, build the request, hand it to the transport, decode the
    reply. The transport (libcurl plus the JSON parser) is a parameter. */
module Client {
  import opened Wrappers
  import opened Decimal
  import opened Json
  import opened Etcd
  import opened HostPool
  import opened Requests
  import opened Decoder

  /** What the transport hands back for a request: the parsed response
      body, or one of the two failures `with_curl` throws. A body the JSON
      collaborator cannot parse arrives as a document that is not an
      object. */
  datatype Reply =
    | Received(doc: Json)
    | CurlFailed(code: int)
    | CurlInitFailed

  /** The three disjoint kinds of failure a call can end in besides a
      store error, which is a successful response carrying the error. */
  datatype ClientError =
    | Transport(code: int)
    | NoCurl
    | Malformed(reason: AccessError)

  /** Lifts a decoder's result over the transport's reply. */
  function OnReply<T>(decoded: Result<T, AccessError>): (r: Result<T, ClientError>)
    ensures decoded.Success? <==> r.Success?
    ensures r.Success? ==> r.value == decoded.value
    ensures r.Failure? ==> r.error == Malformed(decoded.error)
  {
    match decoded
    case Success(v) => Success(v)
    case Failure(e) => Failure(Malformed(e))
  }

  /** `getHelper` after the transfer: transport failures surface as
      themselves, a received document is decoded by `DecodeGet`. */
  function GetHelper(reply: Reply): (r: Result<GetResponse, ClientError>)
    ensures reply.CurlFailed? <==> r.Failure? && r.error.Transport?
    ensures reply.CurlFailed? ==> r.error.code == reply.code
    ensures reply.CurlInitFailed? <==> r.Failure? && r.error.NoCurl?
    ensures r.Success? <==> reply.Received? && DecodeGet(reply.doc).Success?
    ensures r.Success? ==> r.value == DecodeGet(reply.doc).value
  {
    match reply
    case CurlFailed(code) => Failure(Transport(code))
    case CurlInitFailed => Failure(NoCurl)
    case Received(doc) => OnReply(DecodeGet(doc))
  }

  /** `putToURL` after the transfer. */
  function PutHelper(reply: Reply): (r: Result<PutResponse, ClientError>)
    ensures reply.CurlFailed? <==> r.Failure? && r.error.Transport?
    ensures reply.CurlFailed? ==> r.error.code == reply.code
    ensures reply.CurlInitFailed? <==> r.Failure? && r.error.NoCurl?
    ensures r.Success? <==> reply.Received? && DecodePut(reply.doc).Success?
    ensures r.Success? ==> r.value == DecodePut(reply.doc).value
  {
    match reply
    case CurlFailed(code) => Failure(Transport(code))
    case CurlInitFailed => Failure(NoCurl)
    case Received(doc) => OnReply(DecodePut(doc))
  }

  /** `get(key)` and `get(key, recursive)`: one GET to the current host,
      and the pool advanced by one. */
  function Get(p: Pool, key: string, recursive: bool, transport: Request -> Reply)
    : (r: (Result<GetResponse, ClientError>, Pool))
    requires |p.hosts| > 0
    ensures r.1 == NextHost(p).1
    ensures r.0 == GetHelper(transport(Request(GET, GetUrl(HostAt(p, 0), key, recursive), None)))
  {
    var (host, p') := NextHost(p);
    (GetHelper(transport(BuildRequest(host, Requests.Get(key, recursive)))), p')
  }

  /** The four overloads of `wait`: one long-poll GET to the current host. */
  function Wait(p: Pool, key: string, recursive: bool, waitIndex: Option<int32>, transport: Request -> Reply)
    : (r: (Result<GetResponse, ClientError>, Pool))
    requires |p.hosts| > 0
    ensures r.1 == NextHost(p).1
    ensures r.0 == GetHelper(transport(Request(GET, WaitUrl(HostAt(p, 0), key, recursive, waitIndex), None)))
  {
    var (host, p') := NextHost(p);
    (GetHelper(transport(BuildRequest(host, Requests.Wait(key, recursive, waitIndex)))), p')
  }

  /** `put(key, value)` (ttl -1) and `put(key, value, ttl)`: one PUT of the
      form body to the current host's base URL. */
  function Put(p: Pool, key: string, value: string, ttl: int32, transport: Request -> Reply)
    : (r: (Result<PutResponse, ClientError>, Pool))
    requires |p.hosts| > 0
    ensures r.1 == NextHost(p).1
    ensures r.0 == PutHelper(transport(Request(PUT, BaseUrl(HostAt(p, 0), key), Some(PutBody(value, ttl)))))
  {
    var (host, p') := NextHost(p);
    (PutHelper(transport(BuildRequest(host, Requests.Put(key, value, ttl)))), p')
  }

  /** The request every poll round sends, to the round's host: the
      request of `wait(key, recursive)`. */
  function PollRequest(host: Host, key: string, recursive: bool): (req: Request)
    ensures req == BuildRequest(host, Requests.Wait(key, recursive, None))
  {
    Request(GET, WaitUrl(host, key, recursive, None), None)
  }

  /** What `poll` has done after some rounds: the responses passed to the
      callback, in order; the failure that ended it, if one did (the
      thrown transport error, or a document the decoder cannot read);
      and the pool. */
  datatype PollTrace = PollTrace(delivered: seq<GetResponse>, stopped: Option<ClientError>, pool: Pool)

  /** The transport's reply to poll round i, as a function of the round's
      number and its request. */
  type Transport = (nat, Request) -> Reply

  /** The reply to poll round i sent to host h. */
  type Ask = (nat, Host) -> Reply

  /** How a round's reply is decoded (`getHelper`, in `poll`). */
  type Decode = Reply -> Result<GetResponse, ClientError>

  /** Response i of `delivered` is the decoded reply to round done + i,
      which went to the host of call i from pool p. */
  ghost predicate DeliveredBy(p: Pool, done: nat, ask: Ask, decode: Decode, delivered: seq<GetResponse>)
    requires |p.hosts| > 0
    decreases |delivered|
  {
    |delivered| == 0
    || (&& decode(ask(done, HostAt(p, 0))) == Success(delivered[0])
        && DeliveredBy(NextHost(p).1, done + 1, ask, decode, delivered[1..]))
  }

  /** `DeliveredBy`, one response at a time. */
  lemma {:induction false} DeliveredAt(p: Pool, done: nat, ask: Ask, decode: Decode,
                                       delivered: seq<GetResponse>, i: nat)
    requires |p.hosts| > 0 && DeliveredBy(p, done, ask, decode, delivered) && i < |delivered|
    ensures decode(ask(done + i, HostAt(p, i))) == Success(delivered[i])
    decreases i
  {
    if i > 0 {
      DeliveredAt(NextHost(p).1, done + 1, ask, decode, delivered[1..], i - 1);
      HostAtNext(p, i - 1);
    }
  }

  /** The loop of `poll`, bounded to `rounds` rounds, the first of them
      being round `done`: each round asks the next host and decodes the
      reply. A round that fails (the transfer fails, or the reply does not
      decode) ends the loop; every other response is passed to the
      callback. At most one response per round, every round answered
      unless one failed, and one counter step per round run. */
  function PollFrom(p: Pool, done: nat, rounds: nat, ask: Ask, decode: Decode): (t: PollTrace)
    requires |p.hosts| > 0
    ensures |t.delivered| <= rounds
    ensures t.stopped.None? ==> |t.delivered| == rounds
    ensures t.pool.hosts == p.hosts
    ensures t.pool.hostNo == p.hostNo + |t.delivered| + (if t.stopped.Some? then 1 else 0)
    decreases rounds
  {
    if rounds == 0 then PollTrace([], None, p)
    else
      var (host, p') := NextHost(p);
      match decode(ask(done, host))
      case Failure(e) => PollTrace([], Some(e), p')
      case Success(resp) =>
        var rest := PollFrom(p', done + 1, rounds - 1, ask, decode);
        PollTrace([resp] + rest.delivered, rest.stopped, rest.pool)
  }

  /** Each delivered response is the decoded reply to its round. */
  lemma {:induction false} PollDelivers(p: Pool, done: nat, rounds: nat, ask: Ask, decode: Decode)
    requires |p.hosts| > 0
    ensures DeliveredBy(p, done, ask, decode, PollFrom(p, done, rounds, ask, decode).delivered)
    decreases rounds
  {
    if rounds > 0 && decode(ask(done, HostAt(p, 0))).Success? {
      var rest := PollFrom(NextHost(p).1, done + 1, rounds - 1, ask, decode);
      PollDelivers(NextHost(p).1, done + 1, rounds - 1, ask, decode);
      var d := PollFrom(p, done, rounds, ask, decode).delivered;
      assert d[1..] == rest.delivered;
    }
  }

  /** A loop that stopped stopped on the failed round after the delivered
      ones. */
  lemma {:induction false} PollStops(p: Pool, done: nat, rounds: nat, ask: Ask, decode: Decode)
    requires |p.hosts| > 0
    ensures var t := PollFrom(p, done, rounds, ask, decode);
            t.stopped.Some? ==>
              decode(ask(done + |t.delivered|, HostAt(p, |t.delivered|))) == Failure(t.stopped.value)
    decreases rounds
  {
    if rounds > 0 && decode(ask(done, HostAt(p, 0))).Success? {
      var rest := PollFrom(NextHost(p).1, done + 1, rounds - 1, ask, decode);
      PollStops(NextHost(p).1, done + 1, rounds - 1, ask, decode);
      HostAtNext(p, |rest.delivered|);
    }
  }

  /** The whole loop from round 0: response i is the decoded reply to
      round i, sent to the host of call i, and a stopped loop stopped on
      the round after the last delivered one. */
  lemma PollRounds(p: Pool, rounds: nat, ask: Ask, decode: Decode)
    requires |p.hosts| > 0
    ensures var t := PollFrom(p, 0, rounds, ask, decode);
            && (forall i :: 0 <= i < |t.delivered| ==> decode(ask(i, HostAt(p, i))) == Success(t.delivered[i]))
            && (t.stopped.Some? ==> decode(ask(|t.delivered|, HostAt(p, |t.delivered|))) == Failure(t.stopped.value))
  {
    var t := PollFrom(p, 0, rounds, ask, decode);
    PollDelivers(p, 0, rounds, ask, decode);
    PollStops(p, 0, rounds, ask, decode);
    forall i | 0 <= i < |t.delivered|
      ensures decode(ask(i, HostAt(p, i))) == Success(t.delivered[i])
    {
      DeliveredAt(p, 0, ask, decode, t.delivered, i);
    }
  }

  /** `poll(key, recursive, cb)` bounded to `rounds` rounds, `poll(key, cb)`
      being the non-recursive case: response i passed to the callback is
      `getHelper`'s decoding of the reply to round i, whose request is
      `wait(key, recursive)` sent to the host of call i; a loop that stopped
      stopped on the failure of the round after the last delivered one. */
  function Poll(p: Pool, key: string, recursive: bool, rounds: nat, transport: Transport): (t: PollTrace)
    requires |p.hosts| > 0
    ensures |t.delivered| <= rounds
    ensures t.stopped.None? ==> |t.delivered| == rounds
    ensures t.pool.hostNo == p.hostNo + |t.delivered| + (if t.stopped.Some? then 1 else 0)
    ensures forall i :: 0 <= i < |t.delivered| ==>
              GetHelper(transport(i, PollRequest(HostAt(p, i), key, recursive))) == Success(t.delivered[i])
    ensures t.stopped.Some? ==>
              GetHelper(transport(|t.delivered|, PollRequest(HostAt(p, |t.delivered|), key, recursive)))
              == Failure(t.stopped.value)
  {
    var ask := (i: nat, h: Host) => transport(i, PollRequest(h, key, recursive));
    PollRounds(p, rounds, ask, GetHelper);
    PollFrom(p, 0, rounds, ask, GetHelper)
  }

  /** Round i of a poll goes to the host that call i of the round-robin
      hands out. */
  lemma PollRoundHost(p: Pool, k: nat, i: nat)
    requires |p.hosts| > 0 && i < k
    ensures HostAt(p, i) == Served(p, k)[i]
    ensures HostAt(p, i) == p.hosts[(p.hostNo + i) % |p.hosts|]
  {
    ServedAt(p, k, i);
    HostAtIndex(p, i);
  }

  /** A missing key: the store's error document decodes to a store error,
      not to a decode failure. */
  lemma MissingKeyIsStoreError()
    ensures var doc := JObject([Member("errorCode", JNumber(100)),
                                Member("message", JString("Key not found")),
                                Member("cause", JString("/missing")),
                                Member("index", JNumber(7))]);
            GetHelper(Received(doc)) == Success(GetFailure(ResponseError(100, "Key not found", "/missing", 7)))
  {
    var e := ResponseError(100, "Key not found", "/missing", 7);
    assert ErrorNulFree(e);
    ErrorRoundTrip(e);
  }
}
