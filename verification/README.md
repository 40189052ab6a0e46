# etcd v2 client: a Dafny model

A model of the protocol logic of a small C++ client for the etcd v2 key-value
store (`etcdclient/etcdclient.cpp` with the value types of
`etcdclient/etcdclient.h`). A `Session` holds a list of hosts and hands them out
round robin (`nextHost`). It builds the URL of every `get`, `wait`, `poll` and
`put` request from `base_url` and a query string, and builds the form body of a
`put`. It decodes the JSON reply into a typed `GetResponse` or `PutResponse`
with `checkForError`, `isDirectory`, `readNode` and `readChildNodes`, and it
prints nodes with `operator<<`.

The transport (libcurl) and the JSON parser (rapidjson) are not modelled. The
transport is a function parameter from request to reply. The parsed document is
a Dafny `Json` datatype. Where rapidjson's accessors would be undefined (a
missing member, a wrong type, a document that is not an object), the model
returns a decode failure.

Modules, one per file:
- `Wrappers` (`wrappers.dfy`): `Option` and `Result`.
- `Decimal` (`decimal.dfy`): 32-bit `int`, decimal rendering and parsing.
- `Text` (`text.dfy`): join, split, cut and character counts.
- `Json` (`json.dfy`): the document and the member accessors.
- `Etcd` (`types.dfy`): `Host`, `Node`, `ResponseError`, `GetResponse`, `PutResponse`.
- `HostPool` (`hostpool.dfy`): `nextHost`.
- `Requests` (`requests.dfy`): URLs, the query string and the put body.
- `Decoder` (`decoder.dfy`): reply decoding, plus the server-side encoding that the decoder inverts.
- `Client` (`session.dfy`): `get`, `wait`, `put` and a bounded `poll`.
- `Printer` and `Quotes` (`printer.dfy`, `quotes.dfy`): the node printer and its quote balance.

Three facts about the source shape the model:
- `etcdclient.cpp` builds every `Node` with an 8-argument constructor that sets
  `expiration` and `ttl`. The 4-argument constructors in `etcdclient.h` lack
  both. The model's node has both fields.
- The client has no delete, compare-and-swap or queue operation.
- `putDirectory` is declared in `etcdclient.h` but never defined.

## Model

| member | source | states |
|---|---|---|
| HostPool.NextHost | etcdclient/etcdclient.cpp:57-59 | the host handed out is one of the configured hosts; the list is unchanged and the counter goes up by one; an empty list is excluded (the source divides by its size) |
| HostPool.HostAtIndex | etcdclient/etcdclient.cpp:57-59 | call i from now hands out `hosts[(counter + i) % n]` |
| HostPool.HostAtSlot | etcdclient/etcdclient.cpp:57-59 | call i from now hands out the list position that the counter plus i reaches by wrapping around the list |
| HostPool.SlotIsMod | etcdclient/etcdclient.cpp:58 | wrapping the counter around the list is the remainder `hostNo % hosts.size()` |
| HostPool.Served | etcdclient/etcdclient.cpp:57-59 | k consecutive calls hand out exactly k hosts |
| HostPool.After | etcdclient/etcdclient.cpp:57-59 | k calls in a row leave the list unchanged and move the counter on by k |
| HostPool.HostAtAfter | etcdclient/etcdclient.cpp:57-59 | call i hands out the host that the pool left by the first i calls hands out next |
| HostPool.ServedAt | etcdclient/etcdclient.cpp:57-59 | call i of k consecutive calls is the i-th call from the starting pool |
| HostPool.FreshCycle | etcdclient/etcdclient.cpp:57-59 | from a fresh session, n calls hand out the configured list in order, and call n + 1 repeats the first host |
| HostPool.RotationAt | etcdclient/etcdclient.cpp:57-59 | call i of a window of n calls is position i of the list rotated to start at the current counter |
| HostPool.WindowIsRotation | etcdclient/etcdclient.cpp:57-59 | from any counter, n consecutive calls hand out the list rotated to start at `counter % n`, so every host exactly once |
| HostPool.ConsecutiveDiffer | etcdclient/etcdclient.cpp:57-59 | with two or more hosts, two consecutive calls never use the same list position |
| HostPool.Periodic | etcdclient/etcdclient.cpp:57-59 | the host sequence repeats with period n |
| HostPool.NextHostUint32 | etcdclient/etcdclient.h:61-64 | with the source's 32-bit unsigned counter, the host is still one of the configured hosts, and the counter wraps to `(counter + 1) mod 2^32` |
| HostPool.WrapRepeatsHost | etcdclient/etcdclient.h:62 | with three hosts and the 32-bit counter at 2^32 - 1, two consecutive calls both hand out the first host |
| HostPool.NoWrapMovesOn | etcdclient/etcdclient.cpp:57-59 | with the unbounded counter, the same two calls hand out the first and then the second host |
| Requests.BaseUrl | etcdclient/etcdclient.cpp:51-55 | the URL starts with `http://` + host + `:` and ends with the key |
| Requests.BaseUrlRoundTrip | etcdclient/etcdclient.cpp:51-55 | parsing the base URL gives back host, port and key, for a host name without ':' |
| Requests.PortHasNoSlash | etcdclient/etcdclient.cpp:53 | a printed port never contains '/', so the port ends at the first '/' |
| Requests.Querystring | etcdclient/etcdclient.cpp:266-283 | the query string is empty exactly when there are no parts, and otherwise starts with '?' |
| Requests.BuildQuerystring | etcdclient/etcdclient.cpp:266-283 | the source's loop (a '&' before every part but the first) computes '?' followed by the parts joined with '&' |
| Requests.QuerystringRoundTrip | etcdclient/etcdclient.cpp:266-283 | splitting the query at '&' gives back the parts in order, and the query holds exactly `|parts| - 1` '&', when no part contains '&' |
| Requests.BuildRequest | etcdclient/etcdclient.cpp:154-233 | every request's URL starts with the base URL; only a put uses PUT and carries a body, and its URL is the base URL itself |
| Requests.QueryParts | etcdclient/etcdclient.cpp:160-199 | a wait query starts with `wait=true`; `waitIndex=N` comes next when given, and `recursive=true` comes last when set; a get has only `recursive=true`, and only when asked; a put has no query |
| Requests.WaitQuery | etcdclient/etcdclient.cpp:167-199 | each of the four `wait` overloads builds the base URL followed by the query string of its parts |
| Requests.QueryOptional | etcdclient/etcdclient.cpp:187-197 | a mandatory first parameter and two optional ones make '?' + first, then '&' + each present one, in order |
| Requests.QueryThree | etcdclient/etcdclient.cpp:191-198 | three parameters give '?' + a + '&' + b + '&' + c |
| Requests.GetUrl | etcdclient/etcdclient.cpp:160-165 | the get URL starts with the base URL and is exactly the base URL when `recursive` is false; `UrlIsBasePlusQuery` and `QueryParts` give its full content |
| Requests.WaitUrl | etcdclient/etcdclient.cpp:167-199 | the wait (and poll) URL starts with the base URL and `?wait=true`, and is exactly that with no index and no `recursive`; `UrlIsBasePlusQuery` and `QueryParts` give its full content |
| Requests.PutBody | etcdclient/etcdclient.cpp:236-241 | the put body starts with `value=` and the value, and is exactly that when ttl <= 0; `PutBodyRoundTrip` shows what it carries |
| Requests.UrlIsBasePlusQuery | etcdclient/etcdclient.cpp:154-199 | every get and wait URL, written with inline query literals, equals the base URL followed by what `buildQuerystring` would make of its parameters |
| Requests.ParseForm | etcdclient/etcdclient.cpp:237-241 | a form body splits into one (name, value) field per '&'-separated piece |
| Requests.PutBodyRoundTrip | etcdclient/etcdclient.cpp:235-241 | the put body reads back as `value` and then, exactly when ttl > 0, `ttl` with the same number; this needs a value without '&' |
| Requests.UnencodedValueCollides | etcdclient/etcdclient.cpp:236-241 | because the value is not encoded, the value `a&ttl=5` with no ttl gives the same body as `a` with ttl 5 |
| Text.Join | etcdclient/etcdclient.cpp:275-280 | a single part joins to itself |
| Text.JoinSnoc | etcdclient/etcdclient.cpp:275-280 | appending a part to a non-empty list adds one separator and then the part |
| Text.JoinCount | etcdclient/etcdclient.cpp:275-280 | joining parts free of a character with that character gives `|parts| - 1` occurrences of it |
| Text.SplitJoin | etcdclient/etcdclient.cpp:275-280 | splitting a join at its separator character gives the parts back when none contains it |
| Decimal.IntToString | etcdclient/etcdclient.cpp:240 | a printed integer is non-empty, starts with '-' exactly when negative, and is otherwise all digits |
| Decimal.IntRoundTrip | etcdclient/etcdclient.cpp:240 | parsing a printed integer gives it back |
| Decimal.NatRoundTrip | etcdclient/etcdclient.cpp:240 | parsing the digits of a natural number gives it back |
| Decimal.NatToString | etcdclient/etcdclient.cpp:240 | the digits of a natural number have no leading zero |
| Decimal.IntToStringChars | etcdclient/etcdclient.cpp:53 | a printed integer holds only digits and, at the front, a '-' |
| Json.MemberIndex | etcdclient/etcdclient.cpp:62 | the member found is the first with the name; -1 means no member has it |
| Json.Lookup | etcdclient/etcdclient.cpp:62-63 | a member is found exactly when the document is an object with a member of that name |
| Json.CString | etcdclient/etcdclient.cpp:101 | the `std::string` copy of a C string is its longest prefix without NUL: it stops at the first NUL, or takes the whole string |
| Json.GetString | etcdclient/etcdclient.cpp:101 | reading a string succeeds exactly when the member exists and holds a string, and returns that string up to its first NUL |
| Json.GetInt | etcdclient/etcdclient.cpp:102 | reading an int succeeds exactly when the member exists and holds a number that fits in 32 bits |
| Json.OptString | etcdclient/etcdclient.cpp:104-109 | a missing optional string gives the default; a present one is read as a string |
| Json.OptInt | etcdclient/etcdclient.cpp:105-113 | a missing optional int gives the default; a present one is read as an int |
| Etcd.Leaf | etcdclient/etcdclient.cpp:285-300 | a leaf is a well-formed node, not a directory, with no children and the given fields |
| Etcd.Dir | etcdclient/etcdclient.cpp:302-317 | a directory has the empty value and the given children in order, and is well formed exactly when its children are |
| Etcd.GetResponse.GetNode | etcdclient/etcdclient.h:157-165 | a get response has a node exactly when it is a success |
| Etcd.GetResponse.GetError | etcdclient/etcdclient.h:161-166 | a get response has an error exactly when it has no node |
| Etcd.PutResponse.GetNode | etcdclient/etcdclient.h:184-193 | a put response has a node exactly when it is a success |
| Etcd.PutResponse.GetPrevNode | etcdclient/etcdclient.h:184-194 | a previous node occurs only next to a node |
| Etcd.PutResponse.GetError | etcdclient/etcdclient.h:189-195 | a put response has an error exactly when it has no node, and then it has no previous node |
| Decoder.IsDirectory | etcdclient/etcdclient.cpp:61-67 | a directory exactly when `dir` is present and holds boolean true |
| Decoder.CollectAll | etcdclient/etcdclient.cpp:87-97 | the children decode when every element does, in array order and with the same count; otherwise the failure is one of the elements' failures |
| Decoder.ReadChildNodes | etcdclient/etcdclient.cpp:87-97 | no `nodes` member gives no children; otherwise one well-formed child per array element |
| Decoder.ChildrenInOrder | etcdclient/etcdclient.cpp:91-93 | child i is the decoding of element i of `nodes` |
| Decoder.ReadNode | etcdclient/etcdclient.cpp:99-134 | an object decodes exactly when key, indexes, the optional `expiration`/`ttl` and the value (leaf) or children (directory) all read, whatever the member order; a decoded node is well formed and a directory exactly when `isDirectory` holds; key and indexes are read from their members; a missing `expiration` is "" and a missing `ttl` is -1 |
| Decoder.CheckForError | etcdclient/etcdclient.cpp:73-83 | a non-object fails; without `errorCode` there is no error; with it, the result is the error built from `errorCode`, `message`, `cause` and `index` when all four read, and a failure otherwise |
| Decoder.DecodeGet | etcdclient/etcdclient.cpp:136-150 | a store error in the document gives that store error; without one, a missing `node` fails, and otherwise the result is the node read from `node`, or its read failure |
| Decoder.DecodePut | etcdclient/etcdclient.cpp:249-263 | as for a get; a success carries the node read from `prevNode` exactly when that member is present, and a `prevNode` that does not read makes the put fail |
| Decoder.ErrorIgnoresOtherMembers | etcdclient/etcdclient.cpp:141-145 | two error documents that agree on the four error members decode to the same get and put result, whatever else they hold |
| Decoder.SameError | etcdclient/etcdclient.cpp:73-83 | `checkForError` reads only the four error members |
| Decoder.LookupPast | etcdclient/etcdclient.cpp:101-118 | a lookup skips a block of members without the name |
| Decoder.LookupWithin | etcdclient/etcdclient.cpp:101-118 | a lookup stops in the first block that has the name |
| Decoder.Lookup4 | etcdclient/etcdclient.cpp:101-118 | a lookup in four consecutive blocks finds the name in the first block that has it |
| Decoder.EncodeNode | etcdclient/etcdclient.cpp:99-134 | the server's encoding of a node is a JSON object |
| Decoder.EncodedKey | etcdclient/etcdclient.cpp:101 | an encoded node holds its key under `key` |
| Decoder.EncodedIndexes | etcdclient/etcdclient.cpp:102-103 | an encoded node holds its two indexes under their names |
| Decoder.EncodedExpiration | etcdclient/etcdclient.cpp:107-109 | `expiration` is present exactly when it is set |
| Decoder.EncodedTtl | etcdclient/etcdclient.cpp:111-113 | `ttl` is present exactly when it is not -1 |
| Decoder.EncodedDir | etcdclient/etcdclient.cpp:61-67 | `dir: true` is present exactly for a directory |
| Decoder.EncodedValue | etcdclient/etcdclient.cpp:115-122 | `value` is present exactly for a leaf |
| Decoder.EncodedNodes | etcdclient/etcdclient.cpp:87-97 | `nodes` is present exactly for a directory |
| Decoder.EncodedStrings | etcdclient/etcdclient.cpp:101-118 | the key, expiration and value of an encoded node read back as they were, when none holds a NUL |
| Decoder.EncodedNumbers | etcdclient/etcdclient.cpp:102-113 | the indexes, ttl and directory flag of an encoded node read back as they were |
| Decoder.ChildNodesOf | etcdclient/etcdclient.cpp:87-97 | a `nodes` array is decoded element by element |
| Decoder.CollectAllSuccess | etcdclient/etcdclient.cpp:87-97 | children that all decode are collected whole, in order |
| Decoder.EncodedChildren | etcdclient/etcdclient.cpp:87-97 | an encoded directory's children read back in order, given that each child does |
| Decoder.DecodeEncode | etcdclient/etcdclient.cpp:99-134 | decoding inverts the server's encoding: every well-formed node without NUL characters reads back exactly, children in order |
| Decoder.EncodeError | etcdclient/etcdclient.cpp:73-83 | the server's error document is an object of the four error members |
| Decoder.LookupEach | etcdclient/etcdclient.cpp:75-79 | each member of a four-member object with distinct names is found |
| Decoder.ErrorRoundTrip | etcdclient/etcdclient.cpp:73-83 | `checkForError` reads back the store error that the server encoded, when its texts hold no NUL |
| Decoder.GetRoundTrip | etcdclient/etcdclient.cpp:136-150 | the get decoding reads back the response the server encoded: the store error, or the well-formed node |
| Decoder.PutReplyMembers | etcdclient/etcdclient.cpp:249-263 | a successful put reply has no `errorCode`, holds the node under `node`, and holds `prevNode` exactly when a node was replaced |
| Decoder.PutRoundTrip | etcdclient/etcdclient.cpp:249-263 | the put decoding reads back the response the server encoded, previous node included |
| Client.OnReply | etcdclient/etcdclient.cpp:136-150 | a decoding result is passed on as it is; a decode failure becomes a malformed-reply error |
| Client.GetHelper | etcdclient/etcdclient.cpp:136-150 | a curl failure surfaces with its code; a failed curl start surfaces as itself; otherwise the result is the decoded document |
| Client.PutHelper | etcdclient/etcdclient.cpp:235-264 | the same as `getHelper`, with the put decoding |
| Client.Get | etcdclient/etcdclient.cpp:154-165 | one GET of the get URL to the current host; the counter goes up by one |
| Client.Wait | etcdclient/etcdclient.cpp:167-199 | one GET of the wait URL to the current host; the counter goes up by one |
| Client.Put | etcdclient/etcdclient.cpp:223-233 | one PUT of the form body to the current host's base URL; the counter goes up by one |
| Client.PollRequest | etcdclient/etcdclient.cpp:209-215 | a poll round sends the request of `wait(key, recursive)` |
| Client.PollFrom | etcdclient/etcdclient.cpp:208-219 | at most one response per round; every round is answered unless one fails; one counter step per round run |
| Client.DeliveredAt | etcdclient/etcdclient.cpp:208-219 | each delivered response is the decoded reply of its round, sent to that round's host |
| Client.PollDelivers | etcdclient/etcdclient.cpp:208-219 | the loop delivers each round's decoded reply in round order |
| Client.PollStops | etcdclient/etcdclient.cpp:208-219 | a stopped loop stopped on the failure of the round after the delivered ones |
| Client.PollRounds | etcdclient/etcdclient.cpp:208-219 | from round 0: response i is round i's decoded reply from the host of call i, and a stop is the next round's failure |
| Client.Poll | etcdclient/etcdclient.cpp:201-220 | response i is `getHelper`'s decoding of the reply to the `wait(key, recursive)` request sent to the host of call i; a stopped poll stopped on the failure of the next round |
| Client.PollRoundHost | etcdclient/etcdclient.cpp:209 | poll round i goes to list position `(counter + i) % n`, the host of call i of the round robin |
| Client.MissingKeyIsStoreError | etcdclient/etcdclient.cpp:141-145 | the store's "Key not found" document decodes to a store error, not a decode failure |
| Printer.Render | etcdclient/etcdclient.cpp:344-374 | a printed node starts with `Node(key="`, the key and a quote, and ends with `)`; `Children`, `UnsetFieldsOmitted` and `RenderQuotes` give its pieces |
| Printer.ShowNodeAsWritten | etcdclient/etcdclient.cpp:344-374 | the printer as written has the same frame; `AsWrittenLeafUnbalanced` and `AsWrittenExample` show what it writes for a leaf |
| Printer.EmptyDirPrintsAlike | etcdclient/etcdclient.cpp:348-355 | a directory without children prints the same with or without the value's closing quote |
| Printer.Children | etcdclient/etcdclient.cpp:348-355 | a directory prints one entry per child, and entry i is child i printed in full |
| Printer.UnsetFieldsOmitted | etcdclient/etcdclient.cpp:363-369 | `expiration` is omitted exactly when it is "", and `ttl` exactly when it is -1; so the printed node has no trailing fields exactly when both are unset |
| Printer.ShowNodePtr | etcdclient/etcdclient.cpp:376-384 | the pointer printer prints `Node(NULL)` exactly for the null pointer, and otherwise the node as the reference printer writes it, without the value's closing quote |
| Quotes.IntHasNoQuote | etcdclient/etcdclient.cpp:360-368 | a printed integer has no quote characters |
| Quotes.HeadQuotes | etcdclient/etcdclient.cpp:345 | the key field has two quotes when the key has none |
| Quotes.IndexesQuotes | etcdclient/etcdclient.cpp:360-361 | the index fields have no quotes |
| Quotes.ExpirationQuotes | etcdclient/etcdclient.cpp:363-365 | the expiration field has two quotes when set, and none otherwise |
| Quotes.TtlQuotes | etcdclient/etcdclient.cpp:367-369 | the ttl field has no quotes |
| Quotes.ExtrasQuotes | etcdclient/etcdclient.cpp:363-369 | the trailing fields have two quotes exactly when `expiration` is set |
| Quotes.ValueQuotes | etcdclient/etcdclient.cpp:357 | the value field has one quote as written and two when closed |
| Quotes.JoinEvenQuotes | etcdclient/etcdclient.cpp:349-354 | children with an even number of quotes, joined by ", ", have an even number |
| Quotes.NodesQuotes | etcdclient/etcdclient.cpp:348-355 | a directory's children list keeps the parity of its children |
| Quotes.RenderQuotes | etcdclient/etcdclient.cpp:344-374 | a printed node's quotes are two for the key, the body's quotes, and two for a set expiration |
| Quotes.BalancedByBody | etcdclient/etcdclient.cpp:344-374 | a node free of quote characters whose body has balanced quotes prints with balanced quotes |
| Quotes.ChildrenEven | etcdclient/etcdclient.cpp:348-355 | a directory whose children each print with balanced quotes has a balanced children list |
| Quotes.ShowNodeBalanced | etcdclient/etcdclient.cpp:344-374 | with the value's quote closed, every node free of quote characters prints with balanced quotes, at every depth |
| Quotes.AsWrittenLeafUnbalanced | etcdclient/etcdclient.cpp:357 | as written, every leaf free of quote characters prints with an odd number of quotes |
| Quotes.AsWrittenExample | etcdclient/etcdclient.cpp:344-371 | a leaf like the demo's, with key `/message`, value `test message` and both indexes 5, prints as `Node(key="/message", value="test message, modifiedIndex=5, createdIndex=5)` as written, and with the closing quote when corrected |

## Left out

- `writer` and `with_curl` (libcurl) are not modelled. The transport is a parameter that returns a parsed document, a curl error code, or a failed curl start.
- rapidjson parsing and `operator<<` on a JSON `Value` are not modelled. A body that does not parse arrives as a document that is not an object. JSON numbers are integers only; the client reads no floating-point member.
- Client.Poll: the source's `while (1)` loop never ends. The model runs `rounds` rounds. A transport exception, or a reply the decoder cannot read (undefined behaviour in the source), ends the model's loop. The callback is modelled as the sequence of delivered responses.
- HostPool.NextHost: the main model counts with an unbounded counter. The source's `uint` counter is modelled separately, in `NextHostUint32`, and appears under Findings.
- `putDirectory` is declared in the header (lines 53-59) but never defined, so there is nothing to model.
- The header's 4-argument `Node` constructors have no `expiration` or `ttl`. The model uses the source's 8-argument node throughout, and `Leaf`/`Dir` cover both shapes.
- Delete, compare-and-swap and queue operations do not exist in this source.
- Raw-pointer and `unique_ptr` ownership is not modelled. Null pointers are `Option.None`, and the two-way responses are datatypes with one variant per outcome.
- Requests.PutBodyRoundTrip: the value is not percent-encoded, as in the source. So the round trip holds only for values without '&'; `UnencodedValueCollides` shows what happens otherwise.
- Requests.BaseUrlRoundTrip: holds only for host names without ':'. An IPv6 literal would not read back.
- The demo program (`etcdclientdemo/etcdclientdemo.cpp`) is console output only. `Quotes.AsWrittenExample` prints a leaf like the one it writes, with both indexes set to 5.
- Json.GetString: rapidjson's string is copied through `const char*` into a `std::string`, so the copy stops at the first NUL (`CString`). The round trips `DecodeEncode`, `ErrorRoundTrip`, `GetRoundTrip` and `PutRoundTrip` therefore hold only for nodes and errors whose strings contain no NUL.
- `buildQuerystring` (defined at lines 266-283 and declared at line 152) is never called by the source: `get`, `wait` and `poll` write their query literals inline (lines 163, 170-198, 211-215). `Requests.BuildRequest` models those inline literals, and `Requests.UrlIsBasePlusQuery` proves they agree with `buildQuerystring` applied to each call's parameters.
- Requests.BuildRequest: the URL and the put body reach libcurl as C strings (`url.c_str()`, `postData.c_str()`), so a NUL in a key or value would cut the request short there. The model keeps the whole string.

## Findings

| source | as written | input that shows it | evidently intended | confidence | as-written member | corrected member |
|---|---|---|---|---|---|---|
| etcdclient/etcdclient.cpp:357 | a leaf prints `, value="` and the value, but never the closing quote | a leaf with key `/message`, value `test message` and both indexes 5 prints `Node(key="/message", value="test message, modifiedIndex=5, createdIndex=5)` | the value is closed with a quote, like the key and the expiration | high, not executed | Quotes.AsWrittenLeafUnbalanced | Quotes.ShowNodeBalanced |
| etcdclient/etcdclient.h:62 | `uint hostNo` wraps at 2^32, so `hostNo++ % hosts.size()` jumps back to position 0 whenever 2^32 is not a multiple of the list length | three hosts, counter 2^32 - 1: two consecutive calls both hand out the first host | strict round robin, with consecutive calls moving to the next host | medium (needs 2^32 calls), not executed | HostPool.WrapRepeatsHost | HostPool.WindowIsRotation |
