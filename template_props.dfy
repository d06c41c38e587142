/**
 * Properties of parsing and rendering together: every token is non-empty and is
 * either a text of the template or a string from the data.
 */
module TemplateProps {
  import opened TinjaTypes
  import opened ParseSpec
  import opened ParseProps
  import opened RenderSpec

  /** Every token of a successful render is non-empty. */
  predicate AllNonEmpty(r: Tokens)
  {
    r.Success? ==> forall i :: 0 <= i < |r.value| ==> r.value[i] != ""
  }

  lemma ThenNonEmpty(a: Tokens, b: Tokens)
    requires AllNonEmpty(a) && AllNonEmpty(b)
    ensures AllNonEmpty(Then(a, b))
  {
    if a.Success? && b.Success? {
      var v := a.value + b.value;
      assert forall i :: 0 <= i < |v| ==> v[i] == if i < |a.value| then a.value[i] else b.value[i - |a.value|];
    }
  }

  /** Without empty texts in the tree, rendering yields no empty token. */
  lemma {:induction false} RenderedNonEmpty(nodes: seq<Node>, data: DataMap, index: nat)
    requires NoEmptyNodes(nodes)
    ensures AllNonEmpty(Rendered(nodes, data, index))
    decreases nodes, 1
  {
    if nodes != [] {
      var init := nodes[..|nodes| - 1];
      assert NoEmptyNodes(init) by {
        assert forall k :: 0 <= k < |init| ==> init[k] == nodes[k];
      }
      RenderedNonEmpty(init, data, index);
      NodeNonEmptyTokens(nodes[|nodes| - 1], data, index);
      ThenNonEmpty(Rendered(init, data, index), NodeTokens(nodes[|nodes| - 1], data, index));
    }
  }

  lemma {:induction false} NodeNonEmptyTokens(node: Node, data: DataMap, index: nat)
    requires NoEmptyNode(node)
    ensures AllNonEmpty(NodeTokens(node, data, index))
    decreases node, 0
  {
    match node
    case Text(_) =>
    case Variable(_) =>
    case Section(body) =>
      RepeatedNonEmpty(body, data, LoopLen(body, data));
  }

  lemma {:induction false} RepeatedNonEmpty(body: seq<Node>, data: DataMap, n: nat)
    requires NoEmptyNodes(body)
    ensures AllNonEmpty(Repeated(body, data, n))
    decreases body, n + 2
  {
    if n > 0 {
      RepeatedNonEmpty(body, data, n - 1);
      RenderedNonEmpty(body, data, n - 1);
      ThenNonEmpty(Repeated(body, data, n - 1), Rendered(body, data, n - 1));
    }
  }

  /** Rendering a parsed template never yields an empty token, whatever the data. */
  lemma ParsedRendersNonEmptyTokens(str: string, data: DataMap)
    ensures AllNonEmpty(Rendered(Parsed(str), data, 0))
  {
    ParsedNoEmpty(str);
    RenderedNonEmpty(Parsed(str), data, 0);
  }

  /** The texts of a node list, sections included. */
  function TextsOf(nodes: seq<Node>): set<string>
    decreases nodes, 0
  {
    if nodes == [] then {} else TextsOf(nodes[..|nodes| - 1]) + NodeTexts(nodes[|nodes| - 1])
  }

  function NodeTexts(node: Node): set<string>
    decreases node, 1
  {
    match node
    case Text(t) => {t}
    case Variable(_) => {}
    case Section(body) => TextsOf(body)
  }

  /** `s` is a string bound in the data, on its own or as an element of a vector. */
  ghost predicate FromData(s: string, data: DataMap)
  {
    exists name :: name in data &&
      match data[name]
      case String(v) => v == s
      case StringRef(v) => v == s
      case Strings(items) => s in items
      case StringRefs(items) => s in items
  }

  /** Every token of a successful render is a text of `texts` or a string of the data. */
  ghost predicate Borrowed(r: Tokens, texts: set<string>, data: DataMap)
  {
    r.Success? ==> forall i :: 0 <= i < |r.value| ==> r.value[i] in texts || FromData(r.value[i], data)
  }

  lemma ThenBorrowed(a: Tokens, b: Tokens, texts: set<string>, data: DataMap)
    requires Borrowed(a, texts, data) && Borrowed(b, texts, data)
    ensures Borrowed(Then(a, b), texts, data)
  {
    if a.Success? && b.Success? {
      var v := a.value + b.value;
      assert forall i :: 0 <= i < |v| ==> v[i] == if i < |a.value| then a.value[i] else b.value[i - |a.value|];
    }
  }

  lemma BorrowedWider(r: Tokens, texts: set<string>, more: set<string>, data: DataMap)
    requires Borrowed(r, texts, data) && texts <= more
    ensures Borrowed(r, more, data)
  {
  }

  /**
   * Rendering copies nothing new: every token is a text of the template or a string
   * bound in the data.
   */
  lemma {:induction false} RenderedBorrowed(nodes: seq<Node>, data: DataMap, index: nat)
    ensures Borrowed(Rendered(nodes, data, index), TextsOf(nodes), data)
    decreases nodes, 1
  {
    if nodes != [] {
      var init, last := nodes[..|nodes| - 1], nodes[|nodes| - 1];
      RenderedBorrowed(init, data, index);
      NodeBorrowed(last, data, index);
      BorrowedWider(Rendered(init, data, index), TextsOf(init), TextsOf(nodes), data);
      BorrowedWider(NodeTokens(last, data, index), NodeTexts(last), TextsOf(nodes), data);
      ThenBorrowed(Rendered(init, data, index), NodeTokens(last, data, index), TextsOf(nodes), data);
    }
  }

  lemma {:induction false} NodeBorrowed(node: Node, data: DataMap, index: nat)
    ensures Borrowed(NodeTokens(node, data, index), NodeTexts(node), data)
    decreases node, 0
  {
    match node
    case Text(_) =>
    case Variable(name) =>
      var r := NodeTokens(node, data, index);
      if r.Success? && |r.value| > 0 {
        assert name in data;
      }
    case Section(body) =>
      RepeatedBorrowed(body, data, LoopLen(body, data));
  }

  lemma {:induction false} RepeatedBorrowed(body: seq<Node>, data: DataMap, n: nat)
    ensures Borrowed(Repeated(body, data, n), TextsOf(body), data)
    decreases body, n + 2
  {
    if n > 0 {
      RepeatedBorrowed(body, data, n - 1);
      RenderedBorrowed(body, data, n - 1);
      ThenBorrowed(Repeated(body, data, n - 1), Rendered(body, data, n - 1), TextsOf(body), data);
    }
  }
}
