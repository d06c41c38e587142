/**
 * What rendering computes: the tokens a node list yields against a data map at a
 * loop index, with `std::out_of_range` as the one failure, and a section's loop length.
 */
module RenderSpec {
  import opened Wrappers
  import opened TinjaTypes

  /** A render outcome: the appended tokens, or the exception that aborted the call. */
  type Tokens = Result<seq<string>, RenderError>

  /** Rendering `a` and then `b`: the first failure aborts, otherwise the tokens concatenate. */
  function Then(a: Tokens, b: Tokens): (r: Tokens)
  {
    if a.Failure? then a else if b.Failure? then b else Success(a.value + b.value)
  }

  /** A variable child whose name has no binding. */
  predicate Unbound(node: Node, data: DataMap)
  {
    node.Variable? && node.name !in data
  }

  /** The size of the vector a variable child is bound to; `None` for anything else. */
  function SeqSize(node: Node, data: DataMap): (r: Option<nat>)
  {
    if node.Variable? && node.name in data && data[node.name].IsSequence()
    then Some(|data[node.name].items|)
    else None
  }

  /** The least vector size over the variable children bound to a vector, if there is one. */
  function MinSeqSize(nodes: seq<Node>, data: DataMap): (r: Option<nat>)
  {
    if nodes == [] then None
    else
      var init := MinSeqSize(nodes[..|nodes| - 1], data);
      var last := SeqSize(nodes[|nodes| - 1], data);
      if init.None? then last
      else if last.None? then init
      else Some(if last.value < init.value then last.value else init.value)
  }

  /**
   * How often a section body is rendered: 0 when a variable child is unbound, else
   * the least size of the vectors its variable children are bound to, else 1.
   * Only direct children count; nested sections are not looked into.
   */
  function LoopLen(nodes: seq<Node>, data: DataMap): (r: nat)
  {
    if exists k :: 0 <= k < |nodes| && Unbound(nodes[k], data) then 0
    else if MinSeqSize(nodes, data).None? then 1
    else MinSeqSize(nodes, data).value
  }

  /** The tokens one non-empty string contributes: itself, or nothing when it is empty. */
  function NonEmpty(s: string): (r: seq<string>)
  {
    if s == "" then [] else [s]
  }

  /**
   * A variable at loop index `index`: nothing when unbound, a scalar as it is,
   * element `index` of a vector (`at(index)`, which throws past the end).
   */
  function VariableTokens(name: string, data: DataMap, index: nat): (r: Tokens)
  {
    if name !in data then Success([])
    else
      match data[name]
      case String(s) => Success(NonEmpty(s))
      case StringRef(s) => Success(NonEmpty(s))
      case Strings(v) => if index < |v| then Success(NonEmpty(v[index])) else Failure(OutOfRange)
      case StringRefs(v) => if index < |v| then Success(NonEmpty(v[index])) else Failure(OutOfRange)
  }

  /** The tokens one node contributes at loop index `index`. */
  function NodeTokens(node: Node, data: DataMap, index: nat): (r: Tokens)
    decreases node, 0
  {
    match node
    case Text(t) => Success([t])
    case Variable(name) => VariableTokens(name, data, index)
    case Section(body) => Repeated(body, data, LoopLen(body, data))
  }

  /** A section body rendered at loop indices 0, 1, ..., n - 1, in that order. */
  function Repeated(body: seq<Node>, data: DataMap, n: nat): (r: Tokens)
    decreases body, n + 1
  {
    if n == 0 then Success([])
    else Then(Repeated(body, data, n - 1), Rendered(body, data, n - 1))
  }

  /** A node list rendered at loop index `index`, node by node, left to right. */
  function Rendered(nodes: seq<Node>, data: DataMap, index: nat): (r: Tokens)
    decreases nodes, 0
  {
    if nodes == [] then Success([])
    else Then(Rendered(nodes[..|nodes| - 1], data, index), NodeTokens(nodes[|nodes| - 1], data, index))
  }
}
