/** Response decoding (`checkForError`, `isDirectory`, `readNode`,
    `readChildNodes` and the error-or-node branching of `getHelper` and
    `putToURL`): from the parsed JSON document to the typed responses. */
module Decoder {
  import opened Wrappers
  import opened Decimal
  import opened Json
  import opened Etcd
  import opened Text

  /** `isDirectory`: the node has a `dir` member holding boolean true. Any
      other `dir` value, or none, means a leaf. */
  function IsDirectory(j: Json): (r: bool)
    ensures r <==> Lookup(j, "dir") == Some(JBool(true))
  {
    match Lookup(j, "dir")
    case Some(JBool(b)) => b
    case _ => false
  }

  /** Gathers decoded children: all of them, in order, or the first failure. */
  function CollectAll(rs: seq<Result<Node, AccessError>>): (r: Result<seq<Node>, AccessError>)
    ensures r.Success? <==> forall i :: 0 <= i < |rs| ==> rs[i].Success?
    ensures r.Success? ==> |r.value| == |rs|
    ensures r.Success? ==> forall i :: 0 <= i < |rs| ==> rs[i] == Success(r.value[i])
    ensures r.Failure? ==> exists i :: 0 <= i < |rs| && rs[i] == Failure(r.error)
    decreases |rs|
  {
    if |rs| == 0 then Success([])
    else match rs[0]
      case Failure(e) => Failure(e)
      case Success(n) =>
        match CollectAll(rs[1..])
        case Failure(e) => Failure(e)
        case Success(ns) => Success([n] + ns)
  }

  /** `readChildNodes`: the `nodes` array decoded element by element, in
      array order; no `nodes` member gives no children. */
  function ReadChildNodes(j: Json): (r: Result<seq<Node>, AccessError>)
    requires j.JObject?
    ensures !HasMember(j, "nodes") ==> r == Success([])
    ensures r.Success? && HasMember(j, "nodes") ==>
              Lookup(j, "nodes").value.JArray? && |r.value| == |Lookup(j, "nodes").value.items|
    ensures r.Success? ==> forall i :: 0 <= i < |r.value| ==> ValidNode(r.value[i])
    decreases j, 0
  {
    var k := MemberIndex(j.members, "nodes");
    if k < 0 then Success([])
    else match j.members[k].value
      case JArray(items) =>
        CollectAll(seq(|items|, i requires 0 <= i < |items| => ReadNode(items[i])))
      case _ => Failure(WrongType("nodes"))
  }

  /** `readNode`: `key`, `modifiedIndex` and `createdIndex` are required;
      `expiration` defaults to "" and `ttl` to -1; a directory takes its
      children from `nodes`, a leaf its `value` (required). */
  function ReadNode(j: Json): (r: Result<Node, AccessError>)
    ensures !j.JObject? ==> r == Failure(NotAnObject)
    ensures r.Success? ==> ValidNode(r.value)
    ensures r.Success? ==> r.value.isDir == IsDirectory(j)
    ensures r.Success? ==> GetString(j, "key") == Success(r.value.key)
    ensures r.Success? ==> GetInt(j, "modifiedIndex") == Success(r.value.modifiedIndex)
    ensures r.Success? ==> GetInt(j, "createdIndex") == Success(r.value.createdIndex)
    ensures r.Success? ==> (if HasMember(j, "expiration")
                            then GetString(j, "expiration") == Success(r.value.expiration)
                            else r.value.expiration == "")
    ensures r.Success? ==> (if HasMember(j, "ttl")
                            then Lookup(j, "ttl") == Some(JNumber(r.value.ttl))
                            else r.value.ttl == -1)
    ensures r.Success? && !r.value.isDir ==> GetString(j, "value") == Success(r.value.value)
    ensures r.Success? && r.value.isDir ==> ReadChildNodes(j) == Success(r.value.nodes)
    ensures (|| GetString(j, "key").Failure?
             || GetInt(j, "modifiedIndex").Failure?
             || GetInt(j, "createdIndex").Failure?) ==> r.Failure?
    ensures (&& j.JObject?
             && GetString(j, "key").Success?
             && GetInt(j, "modifiedIndex").Success? && GetInt(j, "createdIndex").Success?
             && OptString(j, "expiration", "").Success? && OptInt(j, "ttl", -1).Success?
             && (if IsDirectory(j) then ReadChildNodes(j).Success? else GetString(j, "value").Success?))
            ==> r.Success?
    decreases j, 1
  {
    if !j.JObject? then Failure(NotAnObject)
    else
      var key :- GetString(j, "key");
      var modifiedIndex :- GetInt(j, "modifiedIndex");
      var createdIndex :- GetInt(j, "createdIndex");
      var expiration :- OptString(j, "expiration", "");
      var ttl :- OptInt(j, "ttl", -1);
      if !IsDirectory(j) then
        var value :- GetString(j, "value");
        Success(Leaf(key, value, expiration, ttl, modifiedIndex, createdIndex))
      else
        var children :- ReadChildNodes(j);
        Success(Dir(key, children, expiration, ttl, modifiedIndex, createdIndex))
  }

  /** Children come out in array order: child i is the decoding of
      element i of `nodes`. */
  lemma ChildrenInOrder(j: Json, items: seq<Json>)
    requires j.JObject? && Lookup(j, "nodes") == Some(JArray(items))
    requires ReadChildNodes(j).Success?
    ensures |ReadChildNodes(j).value| == |items|
    ensures forall i :: 0 <= i < |items| ==> ReadNode(items[i]) == Success(ReadChildNodes(j).value[i])
  {
  }

  /** `checkForError`: a document with an `errorCode` member is a store
      error built from `errorCode`, `message`, `cause` and `index` (all
      required); without one there is no error. */
  function CheckForError(doc: Json): (r: Result<Option<ResponseError>, AccessError>)
    ensures !doc.JObject? ==> r == Failure(NotAnObject)
    ensures doc.JObject? && !HasMember(doc, "errorCode") ==> r == Success(None)
    ensures HasMember(doc, "errorCode") ==> r.Failure? || r.value.Some?
    ensures r.Success? && r.value.Some? ==>
              && GetInt(doc, "errorCode") == Success(r.value.value.errorCode)
              && GetString(doc, "message") == Success(r.value.value.message)
              && GetString(doc, "cause") == Success(r.value.value.cause)
              && GetInt(doc, "index") == Success(r.value.value.index)
    ensures (&& HasMember(doc, "errorCode")
             && GetInt(doc, "errorCode").Success? && GetString(doc, "message").Success?
             && GetString(doc, "cause").Success? && GetInt(doc, "index").Success?) ==>
              r == Success(Some(ResponseError(GetInt(doc, "errorCode").value, GetString(doc, "message").value,
                                              GetString(doc, "cause").value, GetInt(doc, "index").value)))
  {
    if !doc.JObject? then Failure(NotAnObject)
    else if !HasMember(doc, "errorCode") then Success(None)
    else
      var code :- GetInt(doc, "errorCode");
      var message :- GetString(doc, "message");
      var cause :- GetString(doc, "cause");
      var index :- GetInt(doc, "index");
      Success(Some(ResponseError(code, message, cause, index)))
  }

  /** The decoding half of `getHelper`: the store's error if there is
      one, otherwise the node under `node`. */
  function DecodeGet(doc: Json): (r: Result<GetResponse, AccessError>)
    ensures HasMember(doc, "errorCode") ==> r.Failure? || r.value.GetFailure?
    ensures r.Success? && r.value.GetFailure? ==> CheckForError(doc) == Success(Some(r.value.error))
    ensures r.Success? && r.value.GetSuccess? ==>
              && !HasMember(doc, "errorCode")
              && Lookup(doc, "node").Some?
              && ReadNode(Lookup(doc, "node").value) == Success(r.value.node)
              && ValidNode(r.value.node)
    ensures CheckForError(doc).Failure? ==> r == Failure(CheckForError(doc).error)
    ensures CheckForError(doc).Success? && CheckForError(doc).value.Some? ==>
              r == Success(GetFailure(CheckForError(doc).value.value))
    ensures CheckForError(doc) == Success(None) && Lookup(doc, "node").None? ==>
              r == Failure(MissingMember("node"))
    ensures CheckForError(doc) == Success(None) && Lookup(doc, "node").Some? ==>
              var node := ReadNode(Lookup(doc, "node").value);
              && (node.Failure? ==> r == Failure(node.error))
              && (node.Success? ==> r == Success(GetSuccess(node.value)))
  {
    var err :- CheckForError(doc);
    if err.Some? then Success(GetFailure(err.value))
    else match Lookup(doc, "node")
      case None => Failure(MissingMember("node"))
      case Some(n) =>
        var node :- ReadNode(n);
        Success(GetSuccess(node))
  }

  /** The decoding half of `putToURL`: the store's error if there is one,
      otherwise the node under `node` and, when the document has a
      `prevNode` member, the replaced node decoded from it. */
  function DecodePut(doc: Json): (r: Result<PutResponse, AccessError>)
    ensures HasMember(doc, "errorCode") ==> r.Failure? || r.value.PutFailure?
    ensures r.Success? && r.value.PutFailure? ==> CheckForError(doc) == Success(Some(r.value.error))
    ensures r.Success? && r.value.PutSuccess? ==>
              && !HasMember(doc, "errorCode")
              && Lookup(doc, "node").Some?
              && ReadNode(Lookup(doc, "node").value) == Success(r.value.node)
              && ValidNode(r.value.node)
              && (r.value.prevNode.Some? <==> HasMember(doc, "prevNode"))
              && (r.value.prevNode.Some? ==>
                    ReadNode(Lookup(doc, "prevNode").value) == Success(r.value.prevNode.value))
    ensures CheckForError(doc).Failure? ==> r == Failure(CheckForError(doc).error)
    ensures CheckForError(doc).Success? && CheckForError(doc).value.Some? ==>
              r == Success(PutFailure(CheckForError(doc).value.value))
    ensures CheckForError(doc) == Success(None) && Lookup(doc, "node").None? ==>
              r == Failure(MissingMember("node"))
    ensures CheckForError(doc) == Success(None) && Lookup(doc, "node").Some? ==>
              var node := ReadNode(Lookup(doc, "node").value);
              && (node.Failure? ==> r == Failure(node.error))
              && (node.Success? && !HasMember(doc, "prevNode") ==> r == Success(PutSuccess(node.value, None)))
              && (node.Success? && HasMember(doc, "prevNode") ==>
                    var prev := ReadNode(Lookup(doc, "prevNode").value);
                    && (prev.Failure? ==> r == Failure(prev.error))
                    && (prev.Success? ==> r == Success(PutSuccess(node.value, Some(prev.value)))))
  {
    var err :- CheckForError(doc);
    if err.Some? then Success(PutFailure(err.value))
    else match Lookup(doc, "node")
      case None => Failure(MissingMember("node"))
      case Some(n) =>
        var node :- ReadNode(n);
        match Lookup(doc, "prevNode")
        case None => Success(PutSuccess(node, None))
        case Some(p) =>
          var prev :- ReadNode(p);
          Success(PutSuccess(node, Some(prev)))
  }

  /** An error document decodes the same whatever else it holds: only
      the four error members are read. */
  lemma ErrorIgnoresOtherMembers(d1: Json, d2: Json)
    requires d1.JObject? && d2.JObject? && HasMember(d1, "errorCode")
    requires Lookup(d1, "errorCode") == Lookup(d2, "errorCode")
    requires Lookup(d1, "message") == Lookup(d2, "message")
    requires Lookup(d1, "cause") == Lookup(d2, "cause")
    requires Lookup(d1, "index") == Lookup(d2, "index")
    ensures DecodeGet(d1) == DecodeGet(d2)
    ensures DecodePut(d1) == DecodePut(d2)
  {
    SameError(d1, d2);
    var e := CheckForError(d1);
    if e.Success? {
      assert DecodeGet(d1) == Success(GetFailure(e.value.value)) == DecodeGet(d2);
      assert DecodePut(d1) == Success(PutFailure(e.value.value)) == DecodePut(d2);
    }
  }

  /** Only the four error members decide `checkForError`. */
  lemma SameError(d1: Json, d2: Json)
    requires d1.JObject? && d2.JObject? && HasMember(d1, "errorCode")
    requires Lookup(d1, "errorCode") == Lookup(d2, "errorCode")
    requires Lookup(d1, "message") == Lookup(d2, "message")
    requires Lookup(d1, "cause") == Lookup(d2, "cause")
    requires Lookup(d1, "index") == Lookup(d2, "index")
    ensures HasMember(d2, "errorCode")
    ensures CheckForError(d1) == CheckForError(d2)
  {
  }

  // ---------------------------------------------------------------------
  // The server side of the schema: the encoding that the decoder inverts.

  predicate NoName(ms: seq<Member>, name: string)
  {
    forall i :: 0 <= i < |ms| ==> ms[i].name != name
  }

  /** Looking past a block of members none of which has the name. */
  lemma {:induction false} LookupPast(a: seq<Member>, b: seq<Member>, name: string)
    requires NoName(a, name)
    ensures Lookup(JObject(a + b), name) == Lookup(JObject(b), name)
    decreases |a|
  {
    if |a| == 0 {
      assert a + b == b;
    } else {
      assert a + b == [a[0]] + (a[1..] + b);
      LookupSkip(a[0], a[1..] + b, name);
      LookupPast(a[1..], b, name);
    }
  }

  /** Looking up a name found in the first block ignores what follows. */
  lemma {:induction false} LookupWithin(a: seq<Member>, b: seq<Member>, name: string)
    requires !NoName(a, name)
    ensures Lookup(JObject(a + b), name) == Lookup(JObject(a), name)
    decreases |a|
  {
    if a[0].name == name {
      assert a + b == [a[0]] + (a[1..] + b);
      assert a == [a[0]] + a[1..];
      LookupFirst(a[0], a[1..] + b);
      LookupFirst(a[0], a[1..]);
    } else {
      assert a + b == [a[0]] + (a[1..] + b);
      assert a == [a[0]] + a[1..];
      LookupSkip(a[0], a[1..] + b, name);
      LookupSkip(a[0], a[1..], name);
      LookupWithin(a[1..], b, name);
    }
  }

  /** The JSON an etcd v2 server sends for a node: `key`, then `value` for
      a leaf or `dir` and `nodes` for a directory, then `expiration` and
      `ttl` only when set, then the two indexes. */
  function EncodeNode(n: Node): (j: Json)
    ensures j.JObject?
    decreases n, 1
  {
    JObject(KeyBlock(n) + ShapeBlock(n) + ExpiryBlock(n) + IndexBlock(n))
  }

  function KeyBlock(n: Node): seq<Member> { [Member("key", JString(n.key))] }

  function ShapeBlock(n: Node): (ms: seq<Member>)
    decreases n, 0
  {
    if n.isDir
    then [Member("dir", JBool(true)),
          Member("nodes", JArray(seq(|n.nodes|, i requires 0 <= i < |n.nodes| => EncodeNode(n.nodes[i]))))]
    else [Member("value", JString(n.value))]
  }

  function ExpiryBlock(n: Node): seq<Member>
  {
    (if n.expiration != "" then [Member("expiration", JString(n.expiration))] else [])
    + (if n.ttl != -1 then [Member("ttl", JNumber(n.ttl))] else [])
  }

  function IndexBlock(n: Node): seq<Member>
  {
    [Member("modifiedIndex", JNumber(n.modifiedIndex)), Member("createdIndex", JNumber(n.createdIndex))]
  }

  /** A lookup in four consecutive blocks finds the name in the first
      block that has it. */
  lemma Lookup4(a: seq<Member>, b: seq<Member>, c: seq<Member>, d: seq<Member>, name: string)
    ensures Lookup(JObject(a + b + c + d), name)
            == if !NoName(a, name) then Lookup(JObject(a), name)
               else if !NoName(b, name) then Lookup(JObject(b), name)
               else if !NoName(c, name) then Lookup(JObject(c), name)
               else Lookup(JObject(d), name)
  {
    assert a + b + c + d == a + (b + (c + d));
    if !NoName(a, name) {
      LookupWithin(a, b + (c + d), name);
    } else {
      LookupPast(a, b + (c + d), name);
      if !NoName(b, name) {
        LookupWithin(b, c + d, name);
      } else {
        LookupPast(b, c + d, name);
        if !NoName(c, name) {
          LookupWithin(c, d, name);
        } else {
          LookupPast(c, d, name);
        }
      }
    }
  }

  /** What a lookup finds in an encoded node: each member is where
      `EncodeNode` put it, and the optional ones are absent when unset. */
  lemma EncodedKey(n: Node)
    ensures Lookup(EncodeNode(n), "key") == Some(JString(n.key))
  {
    Lookup4(KeyBlock(n), ShapeBlock(n), ExpiryBlock(n), IndexBlock(n), "key");
    assert !NoName(KeyBlock(n), "key");
  }

  lemma EncodedIndexes(n: Node)
    ensures Lookup(EncodeNode(n), "modifiedIndex") == Some(JNumber(n.modifiedIndex))
    ensures Lookup(EncodeNode(n), "createdIndex") == Some(JNumber(n.createdIndex))
  {
    var k, sh, e, ix := KeyBlock(n), ShapeBlock(n), ExpiryBlock(n), IndexBlock(n);
    assert NoName(k, "modifiedIndex") && NoName(sh, "modifiedIndex") && NoName(e, "modifiedIndex");
    assert NoName(k, "createdIndex") && NoName(sh, "createdIndex") && NoName(e, "createdIndex");
    Lookup4(k, sh, e, ix, "modifiedIndex");
    Lookup4(k, sh, e, ix, "createdIndex");
    assert ix == [ix[0]] + [ix[1]];
    LookupFirst(ix[0], [ix[1]]);
    LookupSkip(ix[0], [ix[1]], "createdIndex");
  }

  lemma EncodedExpiration(n: Node)
    ensures Lookup(EncodeNode(n), "expiration") == (if n.expiration != "" then Some(JString(n.expiration)) else None)
  {
    var k, sh, e, ix := KeyBlock(n), ShapeBlock(n), ExpiryBlock(n), IndexBlock(n);
    assert NoName(k, "expiration") && NoName(sh, "expiration") && NoName(ix, "expiration");
    Lookup4(k, sh, e, ix, "expiration");
    var ex := if n.expiration != "" then [Member("expiration", JString(n.expiration))] else [];
    var tt := if n.ttl != -1 then [Member("ttl", JNumber(n.ttl))] else [];
    assert e == ex + tt;
    if n.expiration != "" {
      assert ex[0].name == "expiration";
      LookupWithin(ex, tt, "expiration");
    } else {
      assert NoName(tt, "expiration");
      LookupPast(ex, tt, "expiration");
    }
  }

  lemma EncodedTtl(n: Node)
    ensures Lookup(EncodeNode(n), "ttl") == (if n.ttl != -1 then Some(JNumber(n.ttl)) else None)
  {
    var k, sh, e, ix := KeyBlock(n), ShapeBlock(n), ExpiryBlock(n), IndexBlock(n);
    assert NoName(k, "ttl") && NoName(sh, "ttl") && NoName(ix, "ttl");
    Lookup4(k, sh, e, ix, "ttl");
    var ex := if n.expiration != "" then [Member("expiration", JString(n.expiration))] else [];
    var tt := if n.ttl != -1 then [Member("ttl", JNumber(n.ttl))] else [];
    assert e == ex + tt;
    assert NoName(ex, "ttl");
    LookupPast(ex, tt, "ttl");
  }

  lemma EncodedDir(n: Node)
    ensures Lookup(EncodeNode(n), "dir") == (if n.isDir then Some(JBool(true)) else None)
  {
    var k, sh, e, ix := KeyBlock(n), ShapeBlock(n), ExpiryBlock(n), IndexBlock(n);
    assert NoName(k, "dir") && NoName(e, "dir") && NoName(ix, "dir");
    Lookup4(k, sh, e, ix, "dir");
    if n.isDir {
      assert sh == [sh[0]] + [sh[1]];
      LookupFirst(sh[0], [sh[1]]);
    }
  }

  lemma EncodedValue(n: Node)
    ensures Lookup(EncodeNode(n), "value") == (if n.isDir then None else Some(JString(n.value)))
  {
    var k, sh, e, ix := KeyBlock(n), ShapeBlock(n), ExpiryBlock(n), IndexBlock(n);
    assert NoName(k, "value") && NoName(e, "value") && NoName(ix, "value");
    Lookup4(k, sh, e, ix, "value");
    if n.isDir {
      assert NoName(sh, "value");
      assert ix + [] == ix;
      LookupPast(ix, [], "value");
    } else {
      assert sh == [sh[0]] + [];
      LookupFirst(sh[0], []);
    }
  }

  lemma EncodedNodes(n: Node)
    ensures Lookup(EncodeNode(n), "nodes") == (if n.isDir then Some(ShapeBlock(n)[1].value) else None)
  {
    var k, sh, e, ix := KeyBlock(n), ShapeBlock(n), ExpiryBlock(n), IndexBlock(n);
    assert NoName(k, "nodes") && NoName(e, "nodes") && NoName(ix, "nodes");
    Lookup4(k, sh, e, ix, "nodes");
    if n.isDir {
      assert sh == [sh[0]] + [sh[1]];
      LookupFirst(sh[1], []);
      assert [sh[1]] + [] == [sh[1]];
      LookupSkip(sh[0], [sh[1]], "nodes");
    }
  }

  /** The string members of an encoded node read back as they were, as
      long as none of them holds a NUL. */
  lemma EncodedStrings(n: Node)
    requires NoChar(n.key, '\0') && NoChar(n.value, '\0') && NoChar(n.expiration, '\0')
    ensures var j := EncodeNode(n);
      && GetString(j, "key") == Success(n.key)
      && OptString(j, "expiration", "") == Success(n.expiration)
      && (!n.isDir ==> GetString(j, "value") == Success(n.value))
  {
    CStringNoNul(n.key);
    CStringNoNul(n.value);
    CStringNoNul(n.expiration);
    EncodedKey(n);
    EncodedExpiration(n);
    EncodedValue(n);
  }

  /** The numeric and boolean members of an encoded node read back as
      they were. */
  lemma EncodedNumbers(n: Node)
    ensures var j := EncodeNode(n);
      && GetInt(j, "modifiedIndex") == Success(n.modifiedIndex)
      && GetInt(j, "createdIndex") == Success(n.createdIndex)
      && OptInt(j, "ttl", -1) == Success(n.ttl)
      && IsDirectory(j) == n.isDir
  {
    EncodedIndexes(n);
    EncodedTtl(n);
    EncodedDir(n);
  }

  /** `readChildNodes` of a document whose `nodes` member is an array. */
  lemma ChildNodesOf(j: Json, items: seq<Json>)
    requires j.JObject? && Lookup(j, "nodes") == Some(JArray(items))
    ensures ReadChildNodes(j) == CollectAll(seq(|items|, i requires 0 <= i < |items| => ReadNode(items[i])))
  {
  }

  /** Children that all decode are collected whole. */
  lemma CollectAllSuccess(rs: seq<Result<Node, AccessError>>, ns: seq<Node>)
    requires |rs| == |ns| && forall i :: 0 <= i < |rs| ==> rs[i] == Success(ns[i])
    ensures CollectAll(rs) == Success(ns)
  {
    var r := CollectAll(rs);
    assert r.Success?;
    assert r.value == ns;
  }

  /** The `nodes` array of an encoded directory reads back as its
      children, given that each child does. */
  lemma EncodedChildren(n: Node)
    requires n.isDir
    requires forall i :: 0 <= i < |n.nodes| ==> ReadNode(EncodeNode(n.nodes[i])) == Success(n.nodes[i])
    ensures ReadChildNodes(EncodeNode(n)) == Success(n.nodes)
  {
    EncodedNodes(n);
    var items := seq(|n.nodes|, i requires 0 <= i < |n.nodes| => EncodeNode(n.nodes[i]));
    ChildNodesOf(EncodeNode(n), items);
    var rs := seq(|items|, i requires 0 <= i < |items| => ReadNode(items[i]));
    CollectAllSuccess(rs, n.nodes);
  }

  /** No string of the node or of any descendant holds a NUL: the strings
      the `std::string` copies of the decoder keep whole. */
  ghost predicate NulFree(n: Node)
    decreases n
  {
    && NoChar(n.key, '\0') && NoChar(n.value, '\0') && NoChar(n.expiration, '\0')
    && forall i :: 0 <= i < |n.nodes| ==> NulFree(n.nodes[i])
  }

  /** Decoding inverts the server's encoding: every well-shaped node
      without NUL characters is read back exactly, children in order. */
  lemma {:induction false} DecodeEncode(n: Node)
    requires ValidNode(n) && NulFree(n)
    ensures ReadNode(EncodeNode(n)) == Success(n)
    decreases n
  {
    var j := EncodeNode(n);
    EncodedStrings(n);
    EncodedNumbers(n);
    if n.isDir {
      forall i | 0 <= i < |n.nodes|
        ensures ReadNode(EncodeNode(n.nodes[i])) == Success(n.nodes[i])
      {
        DecodeEncode(n.nodes[i]);
      }
      EncodedChildren(n);
      assert ReadNode(j) == Success(Dir(n.key, n.nodes, n.expiration, n.ttl, n.modifiedIndex, n.createdIndex));
    } else {
      assert ReadNode(j) == Success(Leaf(n.key, n.value, n.expiration, n.ttl, n.modifiedIndex, n.createdIndex));
    }
  }

  /** The error document an etcd v2 server sends: `errorCode`, `message`,
      `cause`, `index`. */
  function EncodeError(e: ResponseError): (j: Json)
    ensures j.JObject? && |j.members| == 4
  {
    JObject([Member("errorCode", JNumber(e.errorCode)), Member("message", JString(e.message)),
              Member("cause", JString(e.cause)), Member("index", JNumber(e.index))])
  }

  /** The reply to a GET: the error document, or the action and the node. */
  function EncodeGet(r: GetResponse): (j: Json)
    ensures j.JObject?
  {
    match r
    case GetFailure(e) => EncodeError(e)
    case GetSuccess(n) => JObject([Member("action", JString("get")), Member("node", EncodeNode(n))])
  }

  /** The reply to a PUT: the error document, or the action, the node and,
      when a node was replaced, `prevNode`. */
  function EncodePut(r: PutResponse): (j: Json)
    ensures j.JObject?
  {
    match r
    case PutFailure(e) => EncodeError(e)
    case PutSuccess(n, prev) =>
      JObject([Member("action", JString("set")), Member("node", EncodeNode(n))]
              + (if prev.Some? then [Member("prevNode", EncodeNode(prev.value))] else []))
  }

  /** A store error whose texts hold no NUL. */
  predicate ErrorNulFree(e: ResponseError)
  {
    NoChar(e.message, '\0') && NoChar(e.cause, '\0')
  }

  /** Each member of a four-member object with distinct names is found. */
  lemma LookupEach(m0: Member, m1: Member, m2: Member, m3: Member)
    requires m0.name != m1.name && m0.name != m2.name && m0.name != m3.name
    requires m1.name != m2.name && m1.name != m3.name && m2.name != m3.name
    ensures var j := JObject([m0, m1, m2, m3]);
      && Lookup(j, m0.name) == Some(m0.value) && Lookup(j, m1.name) == Some(m1.value)
      && Lookup(j, m2.name) == Some(m2.value) && Lookup(j, m3.name) == Some(m3.value)
  {
    assert [m0, m1, m2, m3] == [m0] + [m1, m2, m3];
    assert [m1, m2, m3] == [m1] + [m2, m3];
    assert [m2, m3] == [m2] + [m3];
    assert [m3] == [m3] + [];
    LookupFirst(m0, [m1, m2, m3]);
    LookupSkip(m0, [m1, m2, m3], m1.name);
    LookupFirst(m1, [m2, m3]);
    LookupSkip(m0, [m1, m2, m3], m2.name);
    LookupSkip(m1, [m2, m3], m2.name);
    LookupFirst(m2, [m3]);
    LookupSkip(m0, [m1, m2, m3], m3.name);
    LookupSkip(m1, [m2, m3], m3.name);
    LookupSkip(m2, [m3], m3.name);
    LookupFirst(m3, []);
  }

  /** `checkForError` inverts the error document. */
  lemma ErrorRoundTrip(e: ResponseError)
    requires ErrorNulFree(e)
    ensures CheckForError(EncodeError(e)) == Success(Some(e))
  {
    var ms := EncodeError(e).members;
    CStringNoNul(e.message);
    CStringNoNul(e.cause);
    LookupEach(ms[0], ms[1], ms[2], ms[3]);
    assert ms == [ms[0], ms[1], ms[2], ms[3]];
  }

  /** A GET reply decodes to the response it encodes. */
  lemma GetRoundTrip(r: GetResponse)
    requires r.GetFailure? ==> ErrorNulFree(r.error)
    requires r.GetSuccess? ==> ValidNode(r.node) && NulFree(r.node)
    ensures DecodeGet(EncodeGet(r)) == Success(r)
  {
    var j := EncodeGet(r);
    if r.GetFailure? {
      ErrorRoundTrip(r.error);
    } else {
      var ms := j.members;
      assert ms == [ms[0]] + [ms[1]];
      LookupSkip(ms[0], [ms[1]], "errorCode");
      LookupSkip(ms[0], [ms[1]], "node");
      LookupFirst(ms[1], []);
      assert [ms[1]] + [] == [ms[1]];
      assert CheckForError(j) == Success(None);
      DecodeEncode(r.node);
    }
  }

  /** What a lookup finds in a successful PUT reply. */
  lemma PutReplyMembers(n: Node, prev: Option<Node>)
    ensures var j := EncodePut(PutSuccess(n, prev));
      && Lookup(j, "errorCode").None?
      && Lookup(j, "node") == Some(EncodeNode(n))
      && Lookup(j, "prevNode") == (if prev.Some? then Some(EncodeNode(prev.value)) else None)
  {
    var head := [Member("action", JString("set")), Member("node", EncodeNode(n))];
    var tail := if prev.Some? then [Member("prevNode", EncodeNode(prev.value))] else [];
    assert NoName(head, "errorCode") && NoName(tail, "errorCode");
    LookupPast(head, tail, "errorCode");
    assert head[1].name == "node";
    LookupWithin(head, tail, "node");
    assert head == [head[0]] + [head[1]];
    LookupSkip(head[0], [head[1]], "node");
    LookupFirst(head[1], []);
    assert [head[1]] + [] == [head[1]];
    assert NoName(head, "prevNode");
    LookupPast(head, tail, "prevNode");
    if prev.Some? {
      assert tail == [tail[0]] + [];
      LookupFirst(tail[0], []);
    }
  }

  /** A PUT reply decodes to the response it encodes, `prevNode` included. */
  lemma PutRoundTrip(r: PutResponse)
    requires r.PutFailure? ==> ErrorNulFree(r.error)
    requires r.PutSuccess? ==> ValidNode(r.node) && NulFree(r.node)
    requires r.PutSuccess? && r.prevNode.Some? ==> ValidNode(r.prevNode.value) && NulFree(r.prevNode.value)
    ensures DecodePut(EncodePut(r)) == Success(r)
  {
    if r.PutFailure? {
      ErrorRoundTrip(r.error);
    } else {
      PutReplyMembers(r.node, r.prevNode);
      DecodeEncode(r.node);
      if r.prevNode.Some? {
        DecodeEncode(r.prevNode.value);
      }
    }
  }
}
