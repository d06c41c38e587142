/**
 * The `Template` class: the parser state machine that fills `nodes`, and the
 * renderer that walks them against a data map.
 */
module Tinja {
  import opened Wrappers
  import opened StringSearch
  import opened TinjaTypes
  import opened ParseSpec
  import opened RenderSpec
  import opened RenderProps

  class Template {
    /** The parsed node list, in source order. */
    var nodes: seq<Node>
    /** The node count of the last parse: a capacity hint for the next one. */
    var lastNodeCount: nat

    /** An empty template; `reserveNodes` only sizes the first parse's storage. */
    constructor (reserveNodes: nat)
      ensures nodes == [] && lastNodeCount == reserveNodes
    {
      nodes := [];
      lastNodeCount := reserveNodes;
    }

    /** A template parsed from `str`; this is also how a section's body becomes a nested template. */
    constructor FromString(str: string, reserveNodes: nat)
      decreases |str|, 3
      ensures nodes == Parsed(str) && lastNodeCount == |nodes|
    {
      nodes := [];
      lastNodeCount := reserveNodes;
      new;
      var _ := Parse(str);
    }

    /**
     * Replaces the node list by the nodes of `str` and returns their number. The
     * previous nodes and the capacity hint play no part in the result.
     */
    method Parse(str: string) returns (count: nat)
      modifies this
      decreases |str|, 2
      ensures nodes == Parsed(str)
      ensures count == |nodes| && lastNodeCount == count
    {
      nodes := [];
      // the source reserves lastNodeCount slots here, which affects allocation only
      var state := TextState;
      var pos: Option<nat> := Some(0);
      var nextPos: Option<nat> := Some(0);
      while pos.Some?
        invariant pos.Some? ==> pos.value <= |str| && nextPos == pos
        invariant nodes + Run(str, state, pos) == Parsed(str)
        decreases if pos.Some? then |str| - pos.value + 1 else 0
      {
        RunUnfold(nodes, str, state, pos.value);
        match state {
          case TextState =>
            state, nextPos := ParseText(str, pos.value, nextPos.value);
          case VariableState =>
            state, nextPos := ParseUntil(str, pos.value, "}}", VariableKind);
          case ArrayState =>
            state, nextPos := ParseUntil(str, pos.value, "]}", SectionKind);
        }
        pos := nextPos;
      }
      lastNodeCount := |nodes|;
      count := |nodes|;
    }

    /**
     * `parseText`: scans for the next `{` from `nextPos`, appends the pending text and
     * returns the state the opener selects with the position after it; a `{` followed
     * by anything else sends the scan one position further, after which the level ends.
     */
    method ParseText(str: string, startPos: nat, nextPos: nat) returns (state: State, nextPos': Option<nat>)
      modifies this
      decreases |str|, 1, |str| - nextPos
      ensures nodes == old(nodes) + TextStep(str, startPos, nextPos).pushed
      ensures state == TextStep(str, startPos, nextPos).state && nextPos' == TextStep(str, startPos, nextPos).next
      ensures lastNodeCount == old(lastNodeCount)
    {
      var found := Find(str, "{", nextPos);
      if found.Some? && found.value + 3 < |str| {
        var p := found.value;
        if str[p + 1] == '{' {
          TextStepAtOpener(str, startPos, nextPos, p);
          PushNode(str, startPos, Some(p), TextKind);
          return VariableState, Some(p + 2);
        } else if str[p + 1] == '[' {
          TextStepAtOpener(str, startPos, nextPos, p);
          PushNode(str, startPos, Some(p), TextKind);
          return ArrayState, Some(p + 2);
        } else {
          TextStepAtOtherBrace(str, startPos, nextPos, p);
          var _, _ := ParseText(str, startPos, p + 1);
        }
      } else {
        TextStepAtEnd(str, startPos, nextPos);
      }
      PushNode(str, startPos, None, TextKind);
      return TextState, None;
    }

    /**
     * `parseUntil<S>`: appends the text from `startPos` to the first `until` as a node
     * of kind `kind` and continues after the closer when anything follows it.
     */
    method ParseUntil(str: string, startPos: nat, until: string, kind: Kind) returns (state: State, nextPos: Option<nat>)
      requires |until| > 0
      modifies this
      decreases |str|, 1, 0
      ensures nodes == old(nodes) + UntilStep(str, startPos, until, kind).pushed
      ensures state == TextState && nextPos == UntilStep(str, startPos, until, kind).next
      ensures lastNodeCount == old(lastNodeCount)
    {
      var found := Find(str, until, startPos);
      if found.Some? {
        PushNode(str, startPos, found, kind);
      }
      nextPos := if found.Some? && found.value + |until| < |str| then Some(found.value + |until|) else None;
      state := TextState;
    }

    /** `pushNode<S>`: appends the node over `str[from..to]` unless that range is empty. */
    method PushNode(str: string, from: nat, to: Option<nat>, kind: Kind)
      requires kind == SectionKind ==> to.Some? && to.value < |str|
      modifies this
      decreases |str|, 0
      ensures nodes == old(nodes) + Candidate(str, from, to, kind)
      ensures lastNodeCount == old(lastNodeCount)
    {
      if (to.Some? && from >= to.value) || |str| <= from {
        return;
      }
      var piece := if to.Some? && to.value < |str| then str[from..to.value] else str[from..];
      if kind == TextKind {
        nodes := nodes + [Text(piece)];
      } else if kind == VariableKind {
        nodes := nodes + [Variable(piece)];
      } else {
        var nested := new Template.FromString(piece, 0);
        nodes := nodes + [Section(nested.nodes)];
      }
    }

    /**
     * The public `renderTo`: clears the caller's buffer, then renders the nodes at
     * loop index 0. What the buffer held before has no influence on the result.
     */
    method RenderTo(data: DataMap, tokens: seq<string>) returns (result: Tokens)
      ensures result == Rendered(nodes, data, 0)
    {
      var cleared: seq<string> := [];
      result := RenderInto(nodes, data, 0, cleared);
      ThenSuccessEmpty(Rendered(nodes, data, 0));
    }

    /**
     * The private `renderTo`: appends the tokens of `nodes` at loop index `index` to
     * `tokens`, or fails when a vector is indexed past its end. The three node kinds
     * are the three cases of the source's `switch`.
     */
    static method RenderInto(nodes: seq<Node>, data: DataMap, index: nat, tokens: seq<string>) returns (result: Tokens)
      decreases nodes, 0
      ensures result == Then(Success(tokens), Rendered(nodes, data, index))
    {
      var out := tokens;
      var k := 0;
      assert tokens + [] == tokens;
      while k < |nodes|
        invariant 0 <= k <= |nodes|
        invariant Then(Success(tokens), Rendered(nodes[..k], data, index)) == Success(out)
      {
        RenderedSnoc(nodes, data, index, k);
        ThenAssoc(Success(tokens), Rendered(nodes[..k], data, index), NodeTokens(nodes[k], data, index));
        var r: Tokens;
        match nodes[k] {
          case Text(t) =>
            r := Success(out + [t]);
          case Variable(name) =>
            r := RenderVariable(name, data, index, out);
          case Section(body) =>
            r := RenderSection(body, data, out);
        }
        if r.Failure? {
          RenderedPrefixFailure(nodes, data, index, k + 1);
          return r;
        }
        out := r.value;
        k := k + 1;
      }
      assert nodes[..k] == nodes;
      result := Success(out);
    }

    /**
     * A variable node: nothing when the name is unbound; otherwise the bound string,
     * or element `index` of the bound vector (`at`, which throws past the end), unless
     * it is empty.
     */
    static method RenderVariable(name: string, data: DataMap, index: nat, tokens: seq<string>) returns (result: Tokens)
      ensures result == Then(Success(tokens), VariableTokens(name, data, index))
    {
      result := Success(tokens);
      if name in data {
        match data[name] {
          case String(s) =>
            if s != "" { result := Success(tokens + [s]); }
          case StringRef(s) =>
            if s != "" { result := Success(tokens + [s]); }
          case Strings(v) =>
            if index >= |v| { return Failure(OutOfRange); }
            if v[index] != "" { result := Success(tokens + [v[index]]); }
          case StringRefs(v) =>
            if index >= |v| { return Failure(OutOfRange); }
            if v[index] != "" { result := Success(tokens + [v[index]]); }
        }
      }
      assert tokens + [] == tokens;
    }

    /** A section node: its body rendered at indices 0 up to its loop length. */
    static method RenderSection(body: seq<Node>, data: DataMap, tokens: seq<string>) returns (result: Tokens)
      decreases body, 1
      ensures result == Then(Success(tokens), Repeated(body, data, LoopLen(body, data)))
    {
      var length := LoopLength(body, data);
      var out := tokens;
      var i := 0;
      assert tokens + [] == tokens;
      while i < length
        invariant 0 <= i <= length
        invariant Then(Success(tokens), Repeated(body, data, i)) == Success(out)
      {
        ThenAssoc(Success(tokens), Repeated(body, data, i), Rendered(body, data, i));
        var r := RenderInto(body, data, i, out);
        if r.Failure? {
          RepeatedFailure(body, data, i + 1, length);
          return r;
        }
        out := r.value;
        i := i + 1;
      }
      result := Success(out);
    }

    /**
     * `loopLength`: the least size over the vectors the direct variable children are
     * bound to, 1 when there is none, 0 as soon as one of them is unbound.
     */
    static method LoopLength(nodes: seq<Node>, data: DataMap) returns (length: nat)
      ensures length == LoopLen(nodes, data)
    {
      var least: Option<nat> := None;  // the numeric_limits<size_t>::max() sentinel: no vector seen
      var k := 0;
      while k < |nodes|
        invariant 0 <= k <= |nodes|
        invariant forall j :: 0 <= j < k ==> !Unbound(nodes[j], data)
        invariant least == MinSeqSize(nodes[..k], data)
      {
        MinSeqSizeSnoc(nodes, data, k);
        if nodes[k].Variable? {
          var name := nodes[k].name;
          if name in data {
            match data[name]
            case String(_) =>
            case StringRef(_) =>
            case Strings(v) =>
              least := Some(if least.Some? && least.value < |v| then least.value else |v|);
            case StringRefs(v) =>
              least := Some(if least.Some? && least.value < |v| then least.value else |v|);
          } else {
            least := Some(0);
            break;
          }
        }
        k := k + 1;
      }
      assert k == |nodes| ==> nodes[..k] == nodes;
      length := if least.None? then 1 else least.value;
    }
  }
}
