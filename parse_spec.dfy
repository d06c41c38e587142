/**
 * What the parser computes, as functions that follow the scanner step by step:
 * `TextStep` is one call of `parseText`, `UntilStep` one call of `parseUntil`,
 * `Candidate` what `pushNode` appends, `Run` the loop in `parse`.
 */
module ParseSpec {
  import opened Wrappers
  import opened StringSearch
  import opened TinjaTypes

  /** The scanner's states. */
  datatype State = TextState | VariableState | ArrayState

  /** The node alternative `pushNode<S>` builds: S = 0 (text), 1 (variable), 2 (nested template). */
  datatype Kind = TextKind | VariableKind | SectionKind

  /** One scanner call: the nodes it appended, the state it returned and the new `nextPos`. */
  datatype Step = Step(pushed: seq<Node>, state: State, next: Option<nat>)

  /**
   * The nodes `pushNode<S>(str, from, to)` appends: none when `from >= to` or `from`
   * is past the end, otherwise one node over `str.substr(from, to - from)`
   * (up to the end of `str` when `to` is `npos`). A section's text is parsed on its own.
   */
  function Candidate(str: string, from: nat, to: Option<nat>, kind: Kind): (r: seq<Node>)
    requires kind == SectionKind ==> to.Some? && to.value < |str|
    decreases |str|, 0
    ensures |r| <= 1
    ensures r != [] <==> from < |str| && (to.None? || from < to.value)
  {
    if (to.Some? && from >= to.value) || |str| <= from then []
    else
      var piece := if to.Some? && to.value < |str| then str[from..to.value] else str[from..];
      match kind
      case TextKind => [Text(piece)]
      case VariableKind => [Variable(piece)]
      case SectionKind => [Section(Parsed(piece))]
  }

  /**
   * `parseText(str, startPos, nextPos)` entered with `nextPos == from`. A `{` with at
   * least three characters after it opens a variable (`{{`) or a section (`{[`) and
   * ends the pending text there; after any other character the scan recurses one
   * position further, keeps what the recursion appended but drops its state and
   * position, and then ends the level like a missing `{`: the text from `startPos`
   * to the end is appended and `nextPos` becomes `npos`.
   */
  function TextStep(str: string, startPos: nat, from: nat): (r: Step)
    decreases |str|, 1, |str| - from
    ensures r.next.Some? ==> from < r.next.value < |str|
    ensures r.next.Some? ==> r.state != TextState
    ensures r.next.None? ==> r.state == TextState
  {
    var found := Find(str, "{", from);
    if found.Some? && found.value + 3 < |str| then
      var p := found.value;
      if str[p + 1] == '{' then
        Step(Candidate(str, startPos, Some(p), TextKind), VariableState, Some(p + 2))
      else if str[p + 1] == '[' then
        Step(Candidate(str, startPos, Some(p), TextKind), ArrayState, Some(p + 2))
      else
        var inner := TextStep(str, startPos, p + 1);
        Step(inner.pushed + Candidate(str, startPos, None, TextKind), TextState, None)
    else
      Step(Candidate(str, startPos, None, TextKind), TextState, None)
  }

  /**
   * `parseUntil<S>(str, startPos, until, nextPos)`: the text from `startPos` to the first
   * `until` becomes a node of kind `kind`; scanning resumes after the closer, or stops
   * when there is no closer or nothing follows it.
   */
  function UntilStep(str: string, startPos: nat, until: string, kind: Kind): (r: Step)
    requires |until| > 0
    decreases |str|, 1, 0
    ensures r.state == TextState
    ensures r.next.Some? ==> startPos < r.next.value < |str|
  {
    var found := Find(str, until, startPos);
    var pushed := if found.Some? then Candidate(str, startPos, found, kind) else [];
    var next := if found.Some? && found.value + |until| < |str| then Some(found.value + |until|) else None;
    Step(pushed, TextState, next)
  }

  /** The nodes the loop of `parse` appends from `pos` on, starting in `state`. */
  function Run(str: string, state: State, pos: Option<nat>): (r: seq<Node>)
    requires pos.Some? ==> pos.value <= |str|
    decreases |str|, 2, if pos.Some? then |str| - pos.value + 1 else 0
  {
    if pos.None? then []
    else
      var step := LoopStep(str, state, pos.value);
      step.pushed + Run(str, step.state, step.next)
  }

  /** The step the loop of `parse` takes at `pos` in `state` (with `nextPos == pos`). */
  function LoopStep(str: string, state: State, pos: nat): (r: Step)
    decreases |str|, 2, 0
    ensures r.next.Some? ==> pos < r.next.value < |str|
  {
    match state
    case TextState => TextStep(str, pos, pos)
    case VariableState => UntilStep(str, pos, "}}", VariableKind)
    case ArrayState => UntilStep(str, pos, "]}", SectionKind)
  }

  /** `TextStep` when the `{` at `p` opens a variable or a section. */
  lemma TextStepAtOpener(str: string, startPos: nat, from: nat, p: nat)
    requires Find(str, "{", from) == Some(p) && p + 3 < |str|
    requires str[p + 1] == '{' || str[p + 1] == '['
    ensures TextStep(str, startPos, from)
         == Step(Candidate(str, startPos, Some(p), TextKind),
                 if str[p + 1] == '{' then VariableState else ArrayState, Some(p + 2))
  {
  }

  /** `TextStep` when the `{` at `p` is followed by anything else. */
  lemma TextStepAtOtherBrace(str: string, startPos: nat, from: nat, p: nat)
    requires Find(str, "{", from) == Some(p) && p + 3 < |str|
    requires str[p + 1] != '{' && str[p + 1] != '['
    ensures TextStep(str, startPos, from)
         == Step(TextStep(str, startPos, p + 1).pushed + Candidate(str, startPos, None, TextKind), TextState, None)
  {
  }

  /** `TextStep` when no `{` with three characters after it is left. */
  lemma TextStepAtEnd(str: string, startPos: nat, from: nat)
    requires Find(str, "{", from).None? || Find(str, "{", from).value + 3 >= |str|
    ensures TextStep(str, startPos, from) == Step(Candidate(str, startPos, None, TextKind), TextState, None)
  {
  }

  /** `UntilStep` when the first closer is at `q`. */
  lemma UntilStepAtCloser(str: string, startPos: nat, until: string, kind: Kind, q: nat)
    requires |until| > 0 && Find(str, until, startPos) == Some(q)
    ensures UntilStep(str, startPos, until, kind)
         == Step(Candidate(str, startPos, Some(q), kind), TextState,
                 if q + |until| < |str| then Some(q + |until|) else None)
  {
  }

  /** One turn of the loop of `parse`, after the nodes `done` appended so far. */
  lemma RunUnfold(done: seq<Node>, str: string, state: State, pos: nat)
    requires pos <= |str|
    ensures done + Run(str, state, Some(pos))
         == (done + LoopStep(str, state, pos).pushed)
            + Run(str, LoopStep(str, state, pos).state, LoopStep(str, state, pos).next)
  {
    var step := LoopStep(str, state, pos);
    assert done + (step.pushed + Run(str, step.state, step.next))
        == (done + step.pushed) + Run(str, step.state, step.next);
  }

  /** The node list `parse(str)` builds. */
  function Parsed(str: string): (r: seq<Node>)
    decreases |str|, 3
  {
    Run(str, TextState, Some(0))
  }
}
