/** Properties of rendering: how results compose, which calls fail, what a render yields. */
module RenderProps {
  import opened Wrappers
  import opened TinjaTypes
  import opened RenderSpec

  /** Sequencing renders is associative. */
  lemma ThenAssoc(a: Tokens, b: Tokens, c: Tokens)
    ensures Then(Then(a, b), c) == Then(a, Then(b, c))
  {
    if a.Success? && b.Success? && c.Success? {
      assert a.value + b.value + c.value == a.value + (b.value + c.value);
    }
  }

  /** Starting from an empty buffer adds nothing to a render. */
  lemma ThenSuccessEmpty(r: Tokens)
    ensures Then(Success([]), r) == r
  {
    if r.Success? {
      assert [] + r.value == r.value;
    }
  }

  /** Rendering one more node extends the rendering of the nodes before it. */
  lemma RenderedSnoc(nodes: seq<Node>, data: DataMap, index: nat, k: nat)
    requires k < |nodes|
    ensures Rendered(nodes[..k + 1], data, index)
         == Then(Rendered(nodes[..k], data, index), NodeTokens(nodes[k], data, index))
  {
    assert nodes[..k + 1][..k] == nodes[..k];
  }

  /**
   * `MinSeqSize` is the minimum: absent exactly when no direct variable is bound to a
   * vector, otherwise no larger than any such vector's size and equal to one of them.
   */
  lemma {:induction false} MinSeqSizeIsLeast(nodes: seq<Node>, data: DataMap)
    ensures MinSeqSize(nodes, data).None? <==> forall k :: 0 <= k < |nodes| ==> SeqSize(nodes[k], data).None?
    ensures MinSeqSize(nodes, data).Some? ==>
      forall k :: 0 <= k < |nodes| && SeqSize(nodes[k], data).Some? ==>
        MinSeqSize(nodes, data).value <= SeqSize(nodes[k], data).value
    ensures MinSeqSize(nodes, data).Some? ==>
      exists k :: 0 <= k < |nodes| && SeqSize(nodes[k], data) == MinSeqSize(nodes, data)
  {
    if nodes != [] {
      var n := |nodes| - 1;
      var init := nodes[..n];
      MinSeqSizeIsLeast(init, data);
      assert forall k :: 0 <= k < n ==> init[k] == nodes[k];
      var r := MinSeqSize(nodes, data);
      var a, b := MinSeqSize(init, data), SeqSize(nodes[n], data);
      if a.Some? {
        var i :| 0 <= i < n && SeqSize(init[i], data) == a;
        assert SeqSize(nodes[i], data) == a;
      }
      if r.Some? && b.Some? && r == b {
        assert SeqSize(nodes[n], data) == r;
      }
    }
  }

  /** Taking one more node into the least vector size. */
  lemma MinSeqSizeSnoc(nodes: seq<Node>, data: DataMap, k: nat)
    requires k < |nodes|
    ensures var init, last := MinSeqSize(nodes[..k], data), SeqSize(nodes[k], data);
      MinSeqSize(nodes[..k + 1], data)
        == if init.None? then last
           else if last.None? then init
           else Some(if last.value < init.value then last.value else init.value)
  {
    assert nodes[..k + 1][..k] == nodes[..k];
  }

  /** Once a prefix of the nodes fails, rendering all of them fails the same way. */
  lemma {:induction false} RenderedPrefixFailure(nodes: seq<Node>, data: DataMap, index: nat, j: nat)
    requires j <= |nodes| && Rendered(nodes[..j], data, index).Failure?
    ensures Rendered(nodes, data, index) == Rendered(nodes[..j], data, index)
    decreases |nodes| - j
  {
    if j == |nodes| {
      assert nodes[..j] == nodes;
    } else {
      RenderedSnoc(nodes, data, index, j);
      RenderedPrefixFailure(nodes, data, index, j + 1);
    }
  }

  /** Once the first `i` iterations of a section fail, the first `n >= i` fail the same way. */
  lemma {:induction false} RepeatedFailure(body: seq<Node>, data: DataMap, i: nat, n: nat)
    requires i <= n && Repeated(body, data, i).Failure?
    ensures Repeated(body, data, n) == Repeated(body, data, i)
    decreases n - i
  {
    if i < n {
      RepeatedFailure(body, data, i + 1, n);
    }
  }

  /**
   * The loop length is the zip length: 0 when a direct variable is unbound; otherwise
   * at most the size of every vector a direct variable is bound to and equal to one
   * of them; 1 when no direct variable is bound to a vector.
   */
  lemma LoopLenIsZipLength(nodes: seq<Node>, data: DataMap)
    ensures (exists k :: 0 <= k < |nodes| && Unbound(nodes[k], data)) ==> LoopLen(nodes, data) == 0
    ensures (forall k :: 0 <= k < |nodes| ==> !Unbound(nodes[k], data)) ==>
      && (forall k :: 0 <= k < |nodes| && SeqSize(nodes[k], data).Some? ==> LoopLen(nodes, data) <= SeqSize(nodes[k], data).value)
      && ((exists k :: 0 <= k < |nodes| && SeqSize(nodes[k], data).Some?) ==>
            exists k :: 0 <= k < |nodes| && SeqSize(nodes[k], data) == Some(LoopLen(nodes, data)))
      && ((forall k :: 0 <= k < |nodes| ==> SeqSize(nodes[k], data).None?) ==> LoopLen(nodes, data) == 1)
  {
    MinSeqSizeIsLeast(nodes, data);
  }

  /** No vector a direct variable is bound to is shorter than the loop length. */
  lemma LoopLenWithinEverySequence(nodes: seq<Node>, data: DataMap, k: nat)
    requires k < |nodes| && SeqSize(nodes[k], data).Some?
    ensures LoopLen(nodes, data) <= SeqSize(nodes[k], data).value
  {
    LoopLenIsZipLength(nodes, data);
  }

  /** The sizes of the vectors the direct variables are bound to. */
  ghost function SeqSizes(nodes: seq<Node>, data: DataMap): set<nat>
  {
    set k | 0 <= k < |nodes| && SeqSize(nodes[k], data).Some? :: SeqSize(nodes[k], data).value
  }

  /** The least vector size depends only on which sizes occur. */
  lemma MinSeqSizeBySizes(a: seq<Node>, b: seq<Node>, data: DataMap)
    requires SeqSizes(a, data) == SeqSizes(b, data)
    ensures MinSeqSize(a, data) == MinSeqSize(b, data)
  {
    MinSeqSizeIsLeast(a, data);
    MinSeqSizeIsLeast(b, data);
    var x, y := MinSeqSize(a, data), MinSeqSize(b, data);
    if x.Some? {
      var i :| 0 <= i < |a| && SeqSize(a[i], data) == x;
      assert x.value in SeqSizes(b, data);
      var j :| 0 <= j < |b| && SeqSize(b[j], data).Some? && SeqSize(b[j], data).value == x.value;
      assert y.Some? && y.value <= x.value;
    }
    if y.Some? {
      var j :| 0 <= j < |b| && SeqSize(b[j], data) == y;
      assert y.value in SeqSizes(a, data);
      var i :| 0 <= i < |a| && SeqSize(a[i], data).Some? && SeqSize(a[i], data).value == y.value;
      assert x.Some? && x.value <= y.value;
    }
  }

  /** The children without child `k`. */
  function Without(nodes: seq<Node>, k: nat): (r: seq<Node>)
    requires k < |nodes|
    ensures |r| == |nodes| - 1
    ensures forall j :: 0 <= j < |r| ==> r[j] == nodes[if j < k then j else j + 1]
  {
    nodes[..k] + nodes[k + 1..]
  }

  /** Removing a child that is not an unbound variable keeps whether one is unbound. */
  lemma RemoveKeepsUnbound(nodes: seq<Node>, data: DataMap, k: nat)
    requires k < |nodes| && !Unbound(nodes[k], data)
    ensures (exists j :: 0 <= j < |nodes| && Unbound(nodes[j], data))
       <==> (exists j :: 0 <= j < |nodes| - 1 && Unbound(Without(nodes, k)[j], data))
  {
    var rest := Without(nodes, k);
    if j :| 0 <= j < |nodes| && Unbound(nodes[j], data) {
      var j' := if j < k then j else j - 1;
      assert rest[j'] == nodes[j];
    }
  }

  /** Removing a child not bound to a vector keeps the set of vector sizes. */
  lemma RemoveKeepsSizes(nodes: seq<Node>, data: DataMap, k: nat)
    requires k < |nodes| && SeqSize(nodes[k], data).None?
    ensures SeqSizes(nodes, data) == SeqSizes(Without(nodes, k), data)
  {
    var rest := Without(nodes, k);
    forall n | n in SeqSizes(nodes, data) ensures n in SeqSizes(rest, data) {
      var i :| 0 <= i < |nodes| && SeqSize(nodes[i], data).Some? && SeqSize(nodes[i], data).value == n;
      var i' := if i < k then i else i - 1;
      assert rest[i'] == nodes[i];
    }
    forall n | n in SeqSizes(rest, data) ensures n in SeqSizes(nodes, data) {
      var i :| 0 <= i < |rest| && SeqSize(rest[i], data).Some? && SeqSize(rest[i], data).value == n;
      var i' := if i < k then i else i + 1;
      assert rest[i] == nodes[i'];
    }
  }

  /**
   * Texts, sections and variables bound to a single string do not take part in the
   * loop length: removing such a child leaves it unchanged.
   */
  lemma LoopLenIgnoresOtherChildren(nodes: seq<Node>, data: DataMap, k: nat)
    requires k < |nodes| && !Unbound(nodes[k], data) && SeqSize(nodes[k], data).None?
    ensures LoopLen(Without(nodes, k), data) == LoopLen(nodes, data)
  {
    RemoveKeepsUnbound(nodes, data, k);
    RemoveKeepsSizes(nodes, data, k);
    MinSeqSizeBySizes(nodes, Without(nodes, k), data);
  }

  /** A direct variable bound to a vector no longer than `index`: `at(index)` throws for it. */
  predicate IndexesPastEnd(node: Node, data: DataMap, index: nat)
  {
    SeqSize(node, data).Some? && SeqSize(node, data).value <= index
  }

  /**
   * Rendering fails exactly when a direct variable is bound to a vector that has no
   * element at the current loop index; what happens inside sections never fails.
   */
  lemma {:induction false} RenderedFailsIff(nodes: seq<Node>, data: DataMap, index: nat)
    ensures Rendered(nodes, data, index).Failure?
        <==> exists k :: 0 <= k < |nodes| && IndexesPastEnd(nodes[k], data, index)
    decreases nodes, 1
  {
    if nodes != [] {
      var init, last := nodes[..|nodes| - 1], nodes[|nodes| - 1];
      RenderedFailsIff(init, data, index);
      NodeFailsIff(last, data, index);
      assert forall k :: 0 <= k < |init| ==> init[k] == nodes[k];
      if exists k :: 0 <= k < |nodes| && IndexesPastEnd(nodes[k], data, index) {
        var k :| 0 <= k < |nodes| && IndexesPastEnd(nodes[k], data, index);
        if k < |init| { assert IndexesPastEnd(init[k], data, index); }
      }
    }
  }

  /** One node fails to render exactly when it is a variable indexing a vector past its end. */
  lemma {:induction false} NodeFailsIff(node: Node, data: DataMap, index: nat)
    ensures NodeTokens(node, data, index).Failure? <==> IndexesPastEnd(node, data, index)
    decreases node, 0
  {
    match node
    case Text(_) =>
    case Variable(_) =>
    case Section(body) =>
      RepeatedSucceeds(body, data, LoopLen(body, data));
  }

  /** Every iteration of a section, up to its loop length, renders without failure. */
  lemma {:induction false} RepeatedSucceeds(body: seq<Node>, data: DataMap, n: nat)
    requires n <= LoopLen(body, data)
    ensures Repeated(body, data, n).Success?
    decreases body, n + 2
  {
    if n > 0 {
      RepeatedSucceeds(body, data, n - 1);
      RenderedFailsIff(body, data, n - 1);
      forall k | 0 <= k < |body| && SeqSize(body[k], data).Some?
        ensures !IndexesPastEnd(body[k], data, n - 1)
      {
        LoopLenWithinEverySequence(body, data, k);
      }
    }
  }

  /** A section never fails to render, whatever the data. */
  lemma SectionNeverFails(body: seq<Node>, data: DataMap, index: nat)
    ensures NodeTokens(Section(body), data, index).Success?
  {
    NodeFailsIff(Section(body), data, index);
  }

  /**
   * A whole template, rendered at loop index 0, fails exactly when one of its
   * top-level variables is bound to an empty vector.
   */
  lemma RenderFailsIffEmptyTopLevelVector(nodes: seq<Node>, data: DataMap)
    ensures Rendered(nodes, data, 0).Failure?
        <==> exists k :: 0 <= k < |nodes| && SeqSize(nodes[k], data) == Some(0)
  {
    RenderedFailsIff(nodes, data, 0);
  }
}
