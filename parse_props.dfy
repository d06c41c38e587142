/**
 * Properties of the parser: where each node comes from in the template string,
 * that no node is empty, that sections are one level deep, how short or
 * unmatched openers degrade to text, and what a lone `{` does.
 */
module ParseProps {
  import opened Wrappers
  import opened StringSearch
  import opened TinjaTypes
  import opened ParseSpec

  /** In `state`, the two characters before `pos` are the opener that selected it. */
  predicate Opened(str: string, state: State, pos: nat)
  {
    match state
    case TextState => true
    case VariableState => 2 <= pos <= |str| && str[pos - 2] == '{' && str[pos - 1] == '{'
    case ArrayState => 2 <= pos <= |str| && str[pos - 2] == '{' && str[pos - 1] == '['
  }

  /**
   * `node` was cut out of `str`: a text is a non-empty slice; a variable name and a
   * section body are the non-empty text between their opener and the first closer
   * after it, and the section holds that body parsed on its own.
   */
  ghost predicate CutFrom(str: string, node: Node)
  {
    match node
    case Text(t) =>
      exists a, b :: 0 <= a < b <= |str| && t == str[a..b]
    case Variable(name) =>
      exists a :: 2 <= a < a + |name| <= |str|
        && str[a - 2] == '{' && str[a - 1] == '{'
        && Find(str, "}}", a) == Some(a + |name|) && name == str[a..a + |name|]
    case Section(nested) =>
      exists a, b :: 2 <= a < b <= |str|
        && str[a - 2] == '{' && str[a - 1] == '['
        && Find(str, "]}", a) == Some(b) && nested == Parsed(str[a..b])
  }

  /** Every node of the list was cut out of `str`. */
  ghost predicate AllCutFrom(str: string, nodes: seq<Node>)
  {
    forall k :: 0 <= k < |nodes| ==> CutFrom(str, nodes[k])
  }

  lemma AllCutFromAppend(str: string, a: seq<Node>, b: seq<Node>)
    requires AllCutFrom(str, a) && AllCutFrom(str, b)
    ensures AllCutFrom(str, a + b)
  {
    forall k | 0 <= k < |a + b| ensures CutFrom(str, (a + b)[k]) {
      if k < |a| { assert (a + b)[k] == a[k]; } else { assert (a + b)[k] == b[k - |a|]; }
    }
  }

  /** Every node is a non-empty text that starts at `start`. */
  predicate TextsFrom(str: string, start: nat, nodes: seq<Node>)
  {
    forall k :: 0 <= k < |nodes| ==>
      nodes[k].Text? && nodes[k].text != "" && start <= |str| && nodes[k].text <= str[start..]
  }

  lemma TextsFromAppend(str: string, start: nat, a: seq<Node>, b: seq<Node>)
    requires TextsFrom(str, start, a) && TextsFrom(str, start, b)
    ensures TextsFrom(str, start, a + b)
  {
    forall k | 0 <= k < |a + b|
      ensures (a + b)[k].Text? && (a + b)[k].text != "" && start <= |str| && (a + b)[k].text <= str[start..]
    {
      if k < |a| { assert (a + b)[k] == a[k]; } else { assert (a + b)[k] == b[k - |a|]; }
    }
  }

  /** The text `pushNode<0>(str, startPos, to)` may append. */
  lemma TextCandidateFrom(str: string, startPos: nat, to: Option<nat>)
    requires to.Some? ==> to.value <= |str|
    ensures TextsFrom(str, startPos, Candidate(str, startPos, to, TextKind))
  {
    var c := Candidate(str, startPos, to, TextKind);
    if c != [] {
      var end := if to.Some? then to.value else |str|;
      assert c[0].text == str[startPos..end];
      assert str[startPos..end] <= str[startPos..] by {
        assert str[startPos..] == str[startPos..end] + str[end..];
      }
    }
  }

  /** The position `Find` returns for a one-character pattern holds that character. */
  lemma FindChar(str: string, c: char, from: nat)
    requires Find(str, [c], from).Some?
    ensures str[Find(str, [c], from).value] == c
  {
    var p := Find(str, [c], from).value;
    assert str[p..p + 1][0] == str[p];
  }

  /** One call of `parseText` appends only non-empty texts that run from `startPos`. */
  lemma {:induction false} TextStepTexts(str: string, startPos: nat, from: nat)
    ensures TextsFrom(str, startPos, TextStep(str, startPos, from).pushed)
    decreases |str| - from
  {
    var found := Find(str, "{", from);
    TextCandidateFrom(str, startPos, None);
    if found.Some? && found.value + 3 < |str| {
      var p := found.value;
      TextCandidateFrom(str, startPos, Some(p));
      if str[p + 1] != '{' && str[p + 1] != '[' {
        TextStepTexts(str, startPos, p + 1);
        TextsFromAppend(str, startPos, TextStep(str, startPos, p + 1).pushed, Candidate(str, startPos, None, TextKind));
      }
    }
  }

  /** When `parseText` hands over to another state, that state's opener sits right before the new position. */
  lemma TextStepOpens(str: string, startPos: nat, from: nat)
    ensures TextStep(str, startPos, from).next.Some? ==>
              Opened(str, TextStep(str, startPos, from).state, TextStep(str, startPos, from).next.value)
  {
    var found := Find(str, "{", from);
    if found.Some? {
      FindChar(str, '{', from);
    }
  }

  /** The texts a call of `parseText` appends were cut out of the string. */
  lemma TextsFromCut(str: string, start: nat, nodes: seq<Node>)
    requires TextsFrom(str, start, nodes)
    ensures AllCutFrom(str, nodes)
  {
    forall k | 0 <= k < |nodes| ensures CutFrom(str, nodes[k]) {
      var t := nodes[k].text;
      assert t == str[start..start + |t|];
      assert 0 <= start < start + |t| <= |str| && t == str[start..start + |t|];
    }
  }

  /** One call of `parseUntil` entered right after its opener appends a node cut out of the string. */
  lemma UntilStepCut(str: string, pos: nat, state: State)
    requires state != TextState && Opened(str, state, pos)
    ensures var r := LoopStep(str, state, pos); AllCutFrom(str, r.pushed)
  {
    var until := if state == VariableState then "}}" else "]}";
    var kind := if state == VariableState then VariableKind else SectionKind;
    var found := Find(str, until, pos);
    if found.Some? {
      var f := found.value;
      var pushed := Candidate(str, pos, found, kind);
      if pushed != [] {
        assert f < |str|;
        if state == VariableState {
          assert pushed[0] == Variable(str[pos..f]);
          assert CutFrom(str, pushed[0]) by {
            var a := pos;
            assert 2 <= a < a + |str[pos..f]| <= |str|;
          }
        } else {
          assert pushed[0] == Section(Parsed(str[pos..f]));
          assert CutFrom(str, pushed[0]) by {
            var a, b := pos, f;
            assert 2 <= a < b <= |str|;
          }
        }
      }
    }
  }

  /** Every node the loop of `parse` appends was cut out of the string. */
  lemma {:induction false} RunCut(str: string, state: State, pos: Option<nat>)
    requires pos.Some? ==> pos.value <= |str| && Opened(str, state, pos.value)
    ensures AllCutFrom(str, Run(str, state, pos))
    decreases if pos.Some? then |str| - pos.value + 1 else 0
  {
    if pos.Some? {
      var step := LoopStep(str, state, pos.value);
      if state == TextState {
        TextStepTexts(str, pos.value, pos.value);
        TextStepOpens(str, pos.value, pos.value);
        TextsFromCut(str, pos.value, step.pushed);
      } else {
        UntilStepCut(str, pos.value, state);
      }
      RunCut(str, step.state, step.next);
      AllCutFromAppend(str, step.pushed, Run(str, step.state, step.next));
    }
  }

  /** Every node of `parse(str)` was cut out of `str` at the place its delimiters say. */
  lemma ParsedCut(str: string)
    ensures AllCutFrom(str, Parsed(str))
  {
    RunCut(str, TextState, Some(0));
  }

  /** No text, no variable name, no text or name inside a section, is empty. */
  predicate NoEmptyNode(node: Node)
    decreases node, 1
  {
    match node
    case Text(t) => t != ""
    case Variable(name) => name != ""
    case Section(nested) => NoEmptyNodes(nested)
  }

  predicate NoEmptyNodes(nodes: seq<Node>)
    decreases nodes, 0
  {
    forall k :: 0 <= k < |nodes| ==> NoEmptyNode(nodes[k])
  }

  /** `parse` never builds an empty text or an empty variable name, at any depth. */
  lemma {:induction false} ParsedNoEmpty(str: string)
    ensures NoEmptyNodes(Parsed(str))
    decreases |str|
  {
    var nodes := Parsed(str);
    ParsedCut(str);
    forall k | 0 <= k < |nodes| ensures NoEmptyNode(nodes[k]) {
      assert CutFrom(str, nodes[k]);
      match nodes[k]
      case Text(t) =>
      case Variable(name) =>
      case Section(nested) =>
        var a, b :| 2 <= a < b <= |str| && Find(str, "]}", a) == Some(b) && nested == Parsed(str[a..b]);
        ParsedNoEmpty(str[a..b]);
    }
  }

  /** No node of the list is a section. */
  predicate NoSection(nodes: seq<Node>)
  {
    forall k :: 0 <= k < |nodes| ==> !nodes[k].Section?
  }

  /** Between an offset and the first `pat` after it, `pat` does not occur. */
  lemma BeforeFirstMatch(str: string, pat: string, a: nat, b: nat)
    requires |pat| > 0 && Find(str, pat, a) == Some(b)
    ensures !Contains(str[a..b], pat)
  {
    forall i: nat | i <= |str[a..b]| && MatchAt(str[a..b], pat, i) ensures false {
      assert str[a..b][i..i + |pat|] == str[a + i..a + i + |pat|];
      assert MatchAt(str, pat, a + i);
    }
  }

  /** Without a `]}` anywhere, the loop of `parse` builds no section. */
  lemma {:induction false} RunNoSection(str: string, state: State, pos: Option<nat>)
    requires pos.Some? ==> pos.value <= |str|
    requires !Contains(str, "]}")
    ensures NoSection(Run(str, state, pos))
    decreases if pos.Some? then |str| - pos.value + 1 else 0
  {
    if pos.Some? {
      var step := LoopStep(str, state, pos.value);
      match state {
        case TextState =>
          TextStepTexts(str, pos.value, pos.value);
          assert NoSection(step.pushed);
        case VariableState =>
          var found := Find(str, "}}", pos.value);
          assert step == UntilStep(str, pos.value, "}}", VariableKind);
          if found.Some? {
            var c := Candidate(str, pos.value, found, VariableKind);
            assert c != [] ==> c[0].Variable?;
            assert NoSection(c);
          }
          assert NoSection(step.pushed);
        case ArrayState =>
          assert Find(str, "]}", pos.value).None?;
          assert step == UntilStep(str, pos.value, "]}", SectionKind);
          assert step.pushed == [];
      }
      assert NoSection(step.pushed);
      RunNoSection(str, step.state, step.next);
      RunUnfold([], str, state, pos.value);
      var rest := Run(str, step.state, step.next);
      assert forall k :: 0 <= k < |step.pushed + rest| ==>
        (step.pushed + rest)[k] == if k < |step.pushed| then step.pushed[k] else rest[k - |step.pushed|];
    }
  }

  /**
   * Sections do not nest: a section body ends at the first `]}`, so it holds no `]}`
   * and its own parse has no section in it.
   */
  lemma SectionsDoNotNest(str: string)
    ensures forall k :: 0 <= k < |Parsed(str)| && Parsed(str)[k].Section? ==> NoSection(Parsed(str)[k].body)
  {
    var nodes := Parsed(str);
    ParsedCut(str);
    forall k | 0 <= k < |nodes| && nodes[k].Section? ensures NoSection(nodes[k].body) {
      assert CutFrom(str, nodes[k]);
      var a, b :| 2 <= a < b <= |str| && Find(str, "]}", a) == Some(b) && nodes[k].body == Parsed(str[a..b]);
      BeforeFirstMatch(str, "]}", a, b);
      RunNoSection(str[a..b], TextState, Some(0));
    }
  }

  /** A variable name holds no `}}`: it ends at the first one after the opener. */
  lemma VariableNamesHaveNoCloser(str: string)
    ensures forall k :: 0 <= k < |Parsed(str)| && Parsed(str)[k].Variable? ==> !Contains(Parsed(str)[k].name, "}}")
  {
    var nodes := Parsed(str);
    ParsedCut(str);
    forall k | 0 <= k < |nodes| && nodes[k].Variable? ensures !Contains(nodes[k].name, "}}") {
      assert CutFrom(str, nodes[k]);
      var name := nodes[k].name;
      var a :| 2 <= a < a + |name| <= |str| && Find(str, "}}", a) == Some(a + |name|) && name == str[a..a + |name|];
      BeforeFirstMatch(str, "}}", a, a + |name|);
    }
  }

  /**
   * An opener without its closer ends the parse: nothing is appended for it and the
   * loop stops.
   */
  lemma MissingCloserEndsParse(str: string, state: State, pos: nat)
    requires state != TextState && pos <= |str|
    requires Find(str, if state == VariableState then "}}" else "]}", pos).None?
    ensures Run(str, state, Some(pos)) == []
  {
    var closer := if state == VariableState then "}}" else "]}";
    var kind := if state == VariableState then VariableKind else SectionKind;
    assert LoopStep(str, state, pos) == UntilStep(str, pos, closer, kind);
    assert UntilStep(str, pos, closer, kind) == Step([], TextState, None);
    RunUnfold([], str, state, pos);
  }

  /**
   * Without a `{` that has three more characters after it, the whole string is one
   * text node (none when it is empty): short and unmatched openers stay text.
   */
  lemma PlainText(str: string)
    requires Find(str, "{", 0).None? || Find(str, "{", 0).value + 3 >= |str|
    ensures Parsed(str) == if str == "" then [] else [Text(str)]
  {
    assert str[0..] == str;
    TextStepAtEnd(str, 0, 0);
    RunUnfold([], str, TextState, 0);
    assert Parsed(str) == TextStep(str, 0, 0).pushed + [];
  }

  /**
   * A `{` followed by anything but `{` or `[` ends the level: the loop stops after this
   * call, which appends what the rescan from the next position appended (a prefix of
   * the string, all of it, or several copies when the rescan meets another lone `{`)
   * and then all of the string from `startPos`, as text.
   */
  lemma LoneBraceEndsLevel(str: string, startPos: nat, q: nat)
    requires Find(str, "{", startPos) == Some(q) && q + 3 < |str|
    requires str[q + 1] != '{' && str[q + 1] != '['
    ensures Run(str, TextState, Some(startPos)) == TextStep(str, startPos, q + 1).pushed + [Text(str[startPos..])]
  {
    var pushed := TextStep(str, startPos, q + 1).pushed + [Text(str[startPos..])];
    assert LoopStep(str, TextState, startPos) == Step(pushed, TextState, None) by {
      TextStepAtOtherBrace(str, startPos, startPos, q);
    }
    RunUnfold([], str, TextState, startPos);
    assert [] + pushed + [] == pushed;
  }

  /** What a level ended by a lone `{` appended is all text. */
  lemma LoneBraceAppendsTexts(str: string, startPos: nat, q: nat)
    requires Find(str, "{", startPos) == Some(q) && q + 3 < |str|
    requires str[q + 1] != '{' && str[q + 1] != '['
    ensures forall k :: 0 <= k < |Run(str, TextState, Some(startPos))| ==> Run(str, TextState, Some(startPos))[k].Text?
  {
    LoneBraceEndsLevel(str, startPos, q);
    TextStepTexts(str, startPos, q + 1);
  }

}
