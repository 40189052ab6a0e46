/** Quote balance of the node printer's output. */
module Quotes {
  import opened Decimal
  import opened Text
  import opened Etcd
  import opened Printer

  /** No quote character in any of the node's printed strings. */
  ghost predicate QuoteFree(n: Node)
    decreases n
  {
    && NoChar(n.key, Quote) && NoChar(n.value, Quote) && NoChar(n.expiration, Quote)
    && forall i :: 0 <= i < |n.nodes| ==> QuoteFree(n.nodes[i])
  }

  lemma IntHasNoQuote(i: int)
    ensures Count(IntToString(i), Quote) == 0
  {
    forall k | 0 <= k < |IntToString(i)|
      ensures IntToString(i)[k] != Quote
    {
      IntToStringChars(i, k);
    }
    CountZero(IntToString(i), Quote);
  }

  /** `s` holds exactly one quote, as its last character. */
  ghost predicate Closing(s: string)
  {
    |s| > 0 && s[|s| - 1] == Quote && NoChar(s[..|s| - 1], Quote)
  }

  lemma ClosingCount(s: string)
    requires Closing(s)
    ensures Count(s, Quote) == 1
  {
    var a := s[..|s| - 1];
    assert s == a + [Quote];
    CountZero(a, Quote);
    CountAppend(a, [Quote], Quote);
  }

  /** The printer's fixed pieces: the labels without a quote, and those
      that end in the quote opening a string field. */
  lemma Labels()
    ensures NoChar(", modifiedIndex=", Quote) && NoChar(", createdIndex=", Quote)
    ensures NoChar(", ttl=", Quote) && NoChar(", nodes=[", Quote)
    ensures NoChar(", ", Quote) && NoChar("]", Quote) && NoChar(")", Quote)
    ensures Closing("Node(key=\"") && Closing(", value=\"")
    ensures Closing(", expiration=\"") && Closing("\"")
  {
  }

  /** A quote-free string between two closing pieces has two quotes. */
  lemma Wrapped(a: string, x: string, b: string)
    requires Closing(a) && NoChar(x, Quote) && Closing(b)
    ensures Count(a + x + b, Quote) == 2
  {
    ClosingCount(a);
    ClosingCount(b);
    CountZero(x, Quote);
    CountAppend3(a, x, b, Quote);
  }

  /** A quote-free string after a closing piece has one quote. */
  lemma Opened(a: string, x: string)
    requires Closing(a) && NoChar(x, Quote)
    ensures Count(a + x + "", Quote) == 1
  {
    ClosingCount(a);
    CountZero(x, Quote);
    assert a + x + "" == a + x;
    CountAppend(a, x, Quote);
  }

  /** A quote-free label followed by a printed integer has no quote. */
  lemma Labelled(a: string, i: int)
    requires NoChar(a, Quote)
    ensures Count(IntField(a, i), Quote) == 0
  {
    CountZero(a, Quote);
    IntHasNoQuote(i);
    CountAppend(a, IntToString(i), Quote);
  }

  lemma HeadQuotes(n: Node)
    requires NoChar(n.key, Quote)
    ensures Count(Head(n), Quote) == 2
  {
    Labels();
    Wrapped("Node(key=\"", n.key, "\"");
  }

  lemma IndexesQuotes(n: Node)
    ensures Count(Indexes(n), Quote) == 0
  {
    Labels();
    Labelled(", modifiedIndex=", n.modifiedIndex);
    Labelled(", createdIndex=", n.createdIndex);
    CountAppend(IntField(", modifiedIndex=", n.modifiedIndex), IntField(", createdIndex=", n.createdIndex), Quote);
  }

  lemma ExpirationQuotes(expiration: string)
    requires NoChar(expiration, Quote)
    ensures Count(ExpirationField(expiration), Quote) == if expiration != "" then 2 else 0
  {
    if expiration != "" {
      Labels();
      Wrapped(", expiration=\"", expiration, "\"");
    }
  }

  lemma TtlQuotes(ttl: int)
    ensures Count(TtlField(ttl), Quote) == 0
  {
    if ttl != -1 {
      Labels();
      Labelled(", ttl=", ttl);
    }
  }

  lemma ExtrasQuotes(n: Node)
    requires NoChar(n.expiration, Quote)
    ensures Count(Extras(n), Quote) == if n.expiration != "" then 2 else 0
  {
    ExpirationQuotes(n.expiration);
    TtlQuotes(n.ttl);
    CountAppend(ExpirationField(n.expiration), TtlField(n.ttl), Quote);
  }

  lemma ValueQuotes(value: string, closeValue: bool)
    requires NoChar(value, Quote)
    ensures Count(ValueField(value, closeValue), Quote) == if closeValue then 2 else 1
  {
    Labels();
    if closeValue {
      Wrapped(", value=\"", value, "\"");
    } else {
      Opened(", value=\"", value);
    }
  }

  /** Joining strings with an even number of quotes each, with a
      quote-free separator, gives an even number of quotes. */
  lemma {:induction false} JoinEvenQuotes(parts: seq<string>, sep: string)
    requires NoChar(sep, Quote)
    requires forall i :: 0 <= i < |parts| ==> Count(parts[i], Quote) % 2 == 0
    ensures Count(Join(parts, sep), Quote) % 2 == 0
    decreases |parts|
  {
    if |parts| > 1 {
      CountZero(sep, Quote);
      JoinEvenQuotes(parts[1..], sep);
      CountAppend(parts[0], sep, Quote);
      CountAppend(parts[0] + sep, Join(parts[1..], sep), Quote);
    }
  }

  /** Quote-free brackets around a quote-free-separated list keep the
      parity of its items. */
  lemma Bracketed(a: string, parts: seq<string>, sep: string, b: string)
    requires NoChar(sep, Quote) && NoChar(a, Quote) && NoChar(b, Quote)
    requires forall i :: 0 <= i < |parts| ==> Count(parts[i], Quote) % 2 == 0
    ensures Count(a + Join(parts, sep) + b, Quote) % 2 == 0
  {
    JoinEvenQuotes(parts, sep);
    CountZero(a, Quote);
    CountZero(b, Quote);
    CountAppend3(a, Join(parts, sep), b, Quote);
  }

  /** A directory's children list keeps the parity of its children. */
  lemma NodesQuotes(parts: seq<string>)
    requires forall i :: 0 <= i < |parts| ==> Count(parts[i], Quote) % 2 == 0
    ensures Count(", nodes=[" + Join(parts, ", ") + "]", Quote) % 2 == 0
  {
    Labels();
    Bracketed(", nodes=[", parts, ", ", "]");
  }

  /** The quotes of a rendered node, piece by piece. */
  lemma RenderQuotes(n: Node, closeValue: bool)
    requires QuoteFree(n)
    ensures Count(Render(n, closeValue), Quote)
            == 2 + Count(Body(n, closeValue), Quote) + (if n.expiration != "" then 2 else 0)
  {
    var h, b, ix, ex := Head(n), Body(n, closeValue), Indexes(n), Extras(n);
    Labels();
    CountZero(")", Quote);
    CountAppend(h, b, Quote);
    CountAppend(h + b, ix, Quote);
    CountAppend(h + b + ix, ex, Quote);
    CountAppend(h + b + ix + ex, ")", Quote);
    HeadQuotes(n);
    IndexesQuotes(n);
    ExtrasQuotes(n);
  }

  /** A node whose body has balanced quotes prints with balanced quotes. */
  lemma BalancedByBody(n: Node)
    requires QuoteFree(n) && Count(Body(n, true), Quote) % 2 == 0
    ensures Count(ShowNode(n), Quote) % 2 == 0
  {
    RenderQuotes(n, true);
  }

  /** The children list of such a directory is balanced. */
  lemma ChildrenEven(n: Node)
    requires n.isDir
    requires forall i :: 0 <= i < |n.nodes| ==> Count(ShowNode(n.nodes[i]), Quote) % 2 == 0
    ensures Count(Body(n, true), Quote) % 2 == 0
  {
    var parts := Children(n, true);
    assert forall i :: 0 <= i < |parts| ==> Count(parts[i], Quote) % 2 == 0;
    NodesQuotes(parts);
  }

  /** With the closing quote written, a node free of quote characters
      prints with balanced quotes, at every depth. */
  lemma {:induction false} ShowNodeBalanced(n: Node)
    requires QuoteFree(n)
    ensures Count(ShowNode(n), Quote) % 2 == 0
    decreases n
  {
    if n.isDir {
      forall i | 0 <= i < |n.nodes|
        ensures Count(ShowNode(n.nodes[i]), Quote) % 2 == 0
      {
        ShowNodeBalanced(n.nodes[i]);
      }
      ChildrenEven(n);
      BalancedByBody(n);
    } else {
      RenderQuotes(n, true);
      ValueQuotes(n.value, true);
    }
  }

  /** As written, a leaf free of quote characters prints with an odd
      number of quotes: the value's opening quote is never closed. */
  lemma AsWrittenLeafUnbalanced(n: Node)
    requires QuoteFree(n) && !n.isDir
    ensures Count(ShowNodeAsWritten(n), Quote) % 2 == 1
  {
    RenderQuotes(n, false);
    ValueQuotes(n.value, false);
  }

  /** A leaf like the demo's, with both indexes 5, as the source prints it
      and as intended: the value's quote is closed only by the corrected
      printer. */
  lemma AsWrittenExample()
    ensures ShowNodeAsWritten(Leaf("/message", "test message", "", -1, 5, 5))
            == "Node(key=\"/message\"" + ", value=\"test message" + ", modifiedIndex=5, createdIndex=5" + ")"
    ensures ShowNode(Leaf("/message", "test message", "", -1, 5, 5))
            == "Node(key=\"/message\"" + ", value=\"test message\"" + ", modifiedIndex=5, createdIndex=5" + ")"
  {
    var n := Leaf("/message", "test message", "", -1, 5, 5);
    ExampleHead(n);
    ExampleIndexes(n);
    ExampleValue(n);
    assert Extras(n) == "";
  }

  lemma ExampleHead(n: Node)
    requires n.key == "/message"
    ensures Head(n) == "Node(key=\"/message\""
  {
  }

  lemma ExampleIndexes(n: Node)
    requires n.modifiedIndex == 5 && n.createdIndex == 5
    ensures Indexes(n) == ", modifiedIndex=5, createdIndex=5"
  {
    assert IntToString(5) == "5";
  }

  lemma ExampleValue(n: Node)
    requires n.value == "test message" && !n.isDir
    ensures Body(n, false) == ", value=\"test message"
    ensures Body(n, true) == ", value=\"test message\""
  {
  }
}
