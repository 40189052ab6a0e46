/** The node printer, `operator<<(ostream&, const Node&)` and its pointer
    overload, as a string-valued function. */
module Printer {
  import opened Wrappers
  import opened Decimal
  import opened Text
  import opened Etcd

  const Quote: char := '"'

  /** The printer, with the closing quote after a leaf's value written
      when `closeValue` holds. The source never writes it; `ShowNode`
      is the printer with the quote, `ShowNodeAsWritten` the one without. */
  function Render(n: Node, closeValue: bool): (s: string)
    ensures IsPrefix(Head(n), s) && |s| > |Head(n)| && s[|s| - 1] == ')'
    decreases n, 2
  {
    Framed(Head(n), Body(n, closeValue), Indexes(n), Extras(n));
    Head(n) + Body(n, closeValue) + Indexes(n) + Extras(n) + ")"
  }

  /** A string built as a head, three more pieces and ")" starts with the
      head and ends with ")". */
  lemma Framed(a: string, b: string, c: string, d: string)
    ensures var s := a + b + c + d + ")"; IsPrefix(a, s) && |s| > |a| && s[|s| - 1] == ')'
  {
    var s := a + b + c + d + ")";
    assert s[..|a|] == a;
  }

  function Head(n: Node): string { "Node(key=\"" + n.key + "\"" }

  /** A directory's children, printed recursively and separated by ", ";
      or a leaf's value. */
  function Body(n: Node, closeValue: bool): string
    decreases n, 1
  {
    if n.isDir
    then ", nodes=[" + Join(Children(n, closeValue), ", ") + "]"
    else ValueField(n.value, closeValue)
  }

  /** A directory's children, each printed in full. */
  function Children(n: Node, closeValue: bool): (r: seq<string>)
    ensures |r| == |n.nodes|
    ensures forall i {:trigger Render(n.nodes[i], closeValue)} :: 0 <= i < |r| ==> r[i] == Render(n.nodes[i], closeValue)
    decreases n, 0
  {
    seq(|n.nodes|, i requires 0 <= i < |n.nodes| => Render(n.nodes[i], closeValue))
  }

  function ValueField(value: string, closeValue: bool): string
  {
    ", value=\"" + value + (if closeValue then "\"" else "")
  }

  function Indexes(n: Node): string
  {
    IntField(", modifiedIndex=", n.modifiedIndex) + IntField(", createdIndex=", n.createdIndex)
  }

  /** A label followed by a printed integer. */
  function IntField(name: string, i: int): string
  {
    name + IntToString(i)
  }

  /** The optional fields: `expiration` unless it is "", `ttl` unless it
      is -1. */
  function Extras(n: Node): string
  {
    ExpirationField(n.expiration) + TtlField(n.ttl)
  }

  function ExpirationField(expiration: string): string
  {
    if expiration != "" then ", expiration=\"" + expiration + "\"" else ""
  }

  function TtlField(ttl: int): string
  {
    if ttl != -1 then IntField(", ttl=", ttl) else ""
  }

  /** Unset optional fields print nothing, set ones print something:
      `expiration` is omitted exactly when it is "", `ttl` exactly when it
      is -1, so the printed node has no trailing fields exactly when both
      are unset. */
  lemma UnsetFieldsOmitted(n: Node)
    ensures ExpirationField(n.expiration) == "" <==> n.expiration == ""
    ensures TtlField(n.ttl) == "" <==> n.ttl == -1
    ensures Extras(n) == "" <==> n.expiration == "" && n.ttl == -1
  {
  }

  function ShowNode(n: Node): string { Render(n, true) }

  /** The printer as the source writes it. */
  function ShowNodeAsWritten(n: Node): (s: string)
    ensures IsPrefix(Head(n), s) && s[|s| - 1] == ')'
  {
    Render(n, false)
  }

  /** The two printers differ only at a leaf's value: a directory without
      children prints the same with either. */
  lemma EmptyDirPrintsAlike(n: Node)
    requires n.isDir && n.nodes == []
    ensures ShowNodeAsWritten(n) == ShowNode(n)
  {
    assert Children(n, false) == [] == Children(n, true);
    assert Body(n, false) == Body(n, true);
    assert Render(n, false) == Render(n, true);
  }

  /** `operator<<(ostream&, const Node*)`: "Node(NULL)" for the null
      pointer, otherwise the node through the reference overload as it is
      written. */
  function ShowNodePtr(n: Option<Node>): (s: string)
    ensures s == "Node(NULL)" <==> n.None?
    ensures n.Some? ==> s == ShowNodeAsWritten(n.value)
  {
    match n
    case None => "Node(NULL)"
    case Some(node) =>
      var s := ShowNodeAsWritten(node);
      assert s[5] == 'k';
      s
  }
}
