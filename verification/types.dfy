/** The value types of the client library (etcdclient.h), with the node
    carrying the expiration and ttl that etcdclient.cpp gives it. */
module Etcd {
  import opened Wrappers
  import opened Decimal

  /** One backend endpoint; `getHost`/`getPort` are the destructors. */
  datatype Host = Host(host: string, port: int32)

  /** A node of the key tree. One record for both shapes, as in the source:
      `isDir` selects the shape, `value` is meaningful for a leaf and
      `nodes` for a directory. `ttl` is -1 and `expiration` is "" when the
      node does not expire. */
  datatype Node = Node(
    key: string,
    value: string,
    nodes: seq<Node>,
    isDir: bool,
    expiration: string,
    ttl: int32,
    modifiedIndex: int32,
    createdIndex: int32)

  /** The shape invariant: a leaf has no children, a directory has no value,
      all the way down. */
  ghost predicate ValidNode(n: Node)
    decreases n
  {
    && (n.isDir ==> n.value == "")
    && (!n.isDir ==> n.nodes == [])
    && forall i :: 0 <= i < |n.nodes| ==> ValidNode(n.nodes[i])
  }

  /** `Node::leaf`. */
  function Leaf(key: string, value: string, expiration: string, ttl: int32,
                modifiedIndex: int32, createdIndex: int32): (n: Node)
    ensures ValidNode(n)
    ensures !n.isDir && n.nodes == []
    ensures n.key == key && n.value == value && n.expiration == expiration
    ensures n.ttl == ttl && n.modifiedIndex == modifiedIndex && n.createdIndex == createdIndex
  {
    Node(key, value, [], false, expiration, ttl, modifiedIndex, createdIndex)
  }

  /** `Node::dir`: children are kept in the order given. */
  function Dir(key: string, nodes: seq<Node>, expiration: string, ttl: int32,
               modifiedIndex: int32, createdIndex: int32): (n: Node)
    ensures (forall i :: 0 <= i < |nodes| ==> ValidNode(nodes[i])) <==> ValidNode(n)
    ensures n.isDir && n.value == ""
    ensures n.key == key && n.nodes == nodes && n.expiration == expiration
    ensures n.ttl == ttl && n.modifiedIndex == modifiedIndex && n.createdIndex == createdIndex
  {
    Node(key, "", nodes, true, expiration, ttl, modifiedIndex, createdIndex)
  }

  /** An error reported by the store; the getters are the destructors. */
  datatype ResponseError = ResponseError(errorCode: int32, message: string, cause: string, index: int32)

  /** Result of a GET: the retrieved node or the store's error, never both. */
  datatype GetResponse = GetSuccess(node: Node) | GetFailure(error: ResponseError) {

    /** `getNode()`: None plays the null pointer. */
    function GetNode(): (r: Option<Node>)
      ensures r.Some? <==> GetSuccess?
      ensures r.Some? ==> r.value == node
    {
      if GetSuccess? then Some(node) else None
    }

    /** `getError()`: present exactly when there is no node. */
    function GetError(): (r: Option<ResponseError>)
      ensures r.Some? <==> GetNode().None?
      ensures r.Some? ==> r.value == error
    {
      if GetFailure? then Some(error) else None
    }
  }

  /** Result of a PUT: the written node and, if one was replaced, its prior
      state; or the store's error with neither node. */
  datatype PutResponse =
    | PutSuccess(node: Node, prevNode: Option<Node>)
    | PutFailure(error: ResponseError)
  {
    function GetNode(): (r: Option<Node>)
      ensures r.Some? <==> PutSuccess?
      ensures r.Some? ==> r.value == node
    {
      if PutSuccess? then Some(node) else None
    }

    function GetPrevNode(): (r: Option<Node>)
      ensures r.Some? ==> GetNode().Some?
      ensures PutSuccess? ==> r == prevNode
    {
      if PutSuccess? then prevNode else None
    }

    function GetError(): (r: Option<ResponseError>)
      ensures r.Some? <==> GetNode().None?
      ensures r.Some? ==> r.value == error && GetPrevNode().None?
    {
      if PutFailure? then Some(error) else None
    }
  }
}
