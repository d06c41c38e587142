/**
 * What the parser recognizes: a `{{name}}` after plain text becomes a variable, a
 * `{[body]}` becomes a section holding the parse of its body, and every canonical
 * node list is given back by parsing its printed form.
 */
module ParseRoundTrip {
  import opened Wrappers
  import opened StringSearch
  import opened TinjaTypes
  import opened ParseSpec

  /** The text node, if any, for the text pending before an opener. */
  function PendingText(t: string): (r: seq<Node>)
    ensures |r| <= 1 && (r == [] <==> t == "")
  {
    if t == "" then [] else [Text(t)]
  }

  /** The first occurrence from `a` is at `b` when `pat` occurs at `b` and nowhere in between. */
  lemma {:induction false} FindExact(s: string, pat: string, a: nat, b: nat)
    requires a <= b && MatchAt(s, pat, b)
    requires forall j: nat :: a <= j < b ==> !MatchAt(s, pat, j)
    ensures Find(s, pat, a) == Some(b)
  {
  }

  /** The loop of `parse` appends nothing once the scan reaches the end in the text state. */
  lemma {:induction false} RunAtEnd(str: string)
    ensures Run(str, TextState, Some(|str|)) == []
  {
    assert str[|str|..] == [];
    FindNone(str, "{", |str|);
    TextStepAtEnd(str, |str|, |str|);
  }

  /** Text without `{` up to the end of the input is one last text node. */
  lemma {:induction false} TextRecognized(str: string, k: nat, t: string)
    requires k <= |str| && str[k..] == t
    requires t != "" && '{' !in t
    ensures Run(str, TextState, Some(k)) == [Text(t)]
  {
    FindNone(str, "{", k);
    TextStepAtEnd(str, k, k);
    assert Candidate(str, k, None, TextKind) == [Text(t)];
  }

  /** Where the pieces of `t + o + n + c + rest` lie in `str` from `k`. */
  lemma {:induction false} Pieces(str: string, k: nat, t: string, o: string, n: string, c: string, rest: string)
    requires |o| == 2 && |c| == 2 && k <= |str| && str[k..] == t + o + n + c + rest
    ensures k + |t| + |n| + 4 + |rest| == |str|
    ensures str[k..k + |t|] == t && str[k + |t|] == o[0] && str[k + |t| + 1] == o[1]
    ensures str[k + |t| + 2..k + |t| + 2 + |n|] == n
    ensures str[k + |t| + 2 + |n|..k + |t| + 4 + |n|] == c
  {
    var w := str[k..];
    assert str[k..k + |t|] == w[..|t|];
    assert str[k + |t|] == w[|t|] && str[k + |t| + 1] == w[|t| + 1];
    assert str[k + |t| + 2..k + |t| + 2 + |n|] == w[|t| + 2..|t| + 2 + |n|];
    assert str[k + |t| + 2 + |n|..k + |t| + 4 + |n|] == w[|t| + 2 + |n|..|t| + 4 + |n|];
  }

  /** The text step at `k` when the text `t` (without `{`) runs up to an opener at `p`. */
  lemma {:induction false} OpenerStep(str: string, k: nat, t: string, p: nat)
    requires p == k + |t| && p + 3 < |str| && str[k..p] == t && '{' !in t
    requires str[p] == '{' && (str[p + 1] == '{' || str[p + 1] == '[')
    ensures LoopStep(str, TextState, k)
         == Step(PendingText(t), if str[p + 1] == '{' then VariableState else ArrayState, Some(p + 2))
  {
    assert str[p..p + 1] == "{";
    FindFirst(str, "{", k, p);
    TextStepAtOpener(str, k, k, p);
  }

  /** Scanning resumes at `e` in the text state, or not at all once `e` is the end. */
  function Resume(str: string, e: nat): (r: Option<nat>)
    requires e <= |str|
    ensures r.Some? <==> e < |str|
  {
    if e < |str| then Some(e) else None
  }

  /** Resuming at the end appends what the loop appends at the end: nothing. */
  lemma {:induction false} RunResume(str: string, e: nat)
    requires e <= |str|
    ensures Run(str, TextState, Resume(str, e)) == Run(str, TextState, Some(e))
  {
    RunAtEnd(str);
  }

  /** The variable step at `a` when the name `n` (without `}`) runs up to `}}` at `q`. */
  lemma {:induction false} VariableStep(str: string, a: nat, n: string, q: nat)
    requires q == a + |n| && q + 2 <= |str| && str[a..q] == n && n != "" && '}' !in n
    requires str[q..q + 2] == "}}"
    ensures LoopStep(str, VariableState, a) == Step([Variable(n)], TextState, Resume(str, q + 2))
  {
    FindFirst(str, "}}", a, q);
    UntilStepAtCloser(str, a, "}}", VariableKind, q);
  }

  /** No `]}` starts in `[a, q)` when `str[a..q]` holds none and `str[q]` is `]`. */
  lemma {:induction false} NoCloserBefore(str: string, a: nat, q: nat)
    requires a <= q < |str| && str[q] == ']' && !Contains(str[a..q], "]}")
    ensures forall j: nat :: a <= j < q ==> !MatchAt(str, "]}", j)
  {
    forall j: nat | a <= j < q && MatchAt(str, "]}", j)
      ensures false
    {
      var s := str[a..q];
      assert str[j] == str[j..j + 2][0] == ']' && str[j + 1] == str[j..j + 2][1] == '}';
      if j + 2 <= q {
        assert s[j - a] == str[j] && s[j - a + 1] == str[j + 1];
        assert s[j - a..j - a + 2] == "]}";
        assert MatchAt(s, "]}", j - a);
      }
    }
  }

  /** The array step at `a` when the body `b` (holding no `]}`) runs up to `]}` at `q`. */
  lemma {:induction false} SectionStep(str: string, a: nat, b: string, q: nat)
    requires q == a + |b| && q + 2 <= |str| && str[a..q] == b && b != "" && !Contains(b, "]}")
    requires str[q..q + 2] == "]}"
    ensures LoopStep(str, ArrayState, a) == Step([Section(Parsed(b))], TextState, Resume(str, q + 2))
  {
    assert str[q] == str[q..q + 2][0];
    NoCloserBefore(str, a, q);
    FindExact(str, "]}", a, q);
    UntilStepAtCloser(str, a, "]}", SectionKind, q);
  }

  /** Two turns of the loop of `parse`: an opener, then a closer that appends one node. */
  lemma {:induction false} TwoSteps(str: string, k: nat, a: nat, e: nat, lead: seq<Node>, node: Node, s: State)
    requires k <= |str| && a <= |str| && e <= |str|
    requires LoopStep(str, TextState, k) == Step(lead, s, Some(a))
    requires LoopStep(str, s, a) == Step([node], TextState, Resume(str, e))
    ensures Run(str, TextState, Some(k)) == lead + [node] + Run(str, TextState, Some(e))
  {
    RunResume(str, e);
    assert Run(str, s, Some(a)) == [node] + Run(str, TextState, Some(e));
  }

  /** The two steps over `t{{n}}` with the pieces located by offset. */
  lemma {:induction false} VariableAt(str: string, k: nat, t: string, n: string, q: nat)
    requires q == k + |t| + 2 + |n| && q + 2 <= |str|
    requires str[k..k + |t|] == t && str[k + |t|] == '{' && str[k + |t| + 1] == '{'
    requires str[k + |t| + 2..q] == n && str[q..q + 2] == "}}"
    requires '{' !in t && n != "" && '}' !in n
    ensures LoopStep(str, TextState, k) == Step(PendingText(t), VariableState, Some(k + |t| + 2))
    ensures LoopStep(str, VariableState, k + |t| + 2) == Step([Variable(n)], TextState, Resume(str, q + 2))
  {
    OpenerStep(str, k, t, k + |t|);
    VariableStep(str, k + |t| + 2, n, q);
  }

  /** The two steps over `t{[b]}` with the pieces located by offset. */
  lemma {:induction false} SectionAt(str: string, k: nat, t: string, b: string, q: nat)
    requires q == k + |t| + 2 + |b| && q + 2 <= |str|
    requires str[k..k + |t|] == t && str[k + |t|] == '{' && str[k + |t| + 1] == '['
    requires str[k + |t| + 2..q] == b && str[q..q + 2] == "]}"
    requires '{' !in t && b != "" && !Contains(b, "]}")
    ensures LoopStep(str, TextState, k) == Step(PendingText(t), ArrayState, Some(k + |t| + 2))
    ensures LoopStep(str, ArrayState, k + |t| + 2) == Step([Section(Parsed(b))], TextState, Resume(str, q + 2))
  {
    OpenerStep(str, k, t, k + |t|);
    SectionStep(str, k + |t| + 2, b, q);
  }

  /**
   * After the text `t` (without `{`), `{{n}}` with a non-empty name `n` without `}`
   * becomes the variable `n`, and the scan resumes in the text state after `}}`.
   */
  lemma {:induction false} VariableRecognized(str: string, k: nat, t: string, n: string, rest: string)
    requires k <= |str| && str[k..] == t + "{{" + n + "}}" + rest
    requires '{' !in t && n != "" && '}' !in n
    ensures Run(str, TextState, Some(k))
         == PendingText(t) + [Variable(n)] + Run(str, TextState, Some(|str| - |rest|))
  {
    var q := k + |t| + 2 + |n|;
    Pieces(str, k, t, "{{", n, "}}", rest);
    VariableAt(str, k, t, n, q);
    TwoSteps(str, k, k + |t| + 2, q + 2, PendingText(t), Variable(n), VariableState);
  }

  /**
   * After the text `t` (without `{`), `{[b]}` with a non-empty body `b` that holds no
   * `]}` becomes a section holding the parse of `b`, and the scan resumes after `]}`.
   */
  lemma {:induction false} SectionRecognized(str: string, k: nat, t: string, b: string, rest: string)
    requires k <= |str| && str[k..] == t + "{[" + b + "]}" + rest
    requires '{' !in t && b != "" && !Contains(b, "]}")
    ensures Run(str, TextState, Some(k))
         == PendingText(t) + [Section(Parsed(b))] + Run(str, TextState, Some(|str| - |rest|))
  {
    var q := k + |t| + 2 + |b|;
    Pieces(str, k, t, "{[", b, "]}", rest);
    SectionAt(str, k, t, b, q);
    TwoSteps(str, k, k + |t| + 2, q + 2, PendingText(t), Section(Parsed(b)), ArrayState);
  }

  /** The template text a node stands for: the inverse of what the parser builds. */
  function UnparseNode(n: Node): (r: string)
    decreases n, 1
    ensures n.Section? ==> |r| == |Unparse(n.body)| + 4
  {
    match n
    case Text(t) => t
    case Variable(v) => "{{" + v + "}}"
    case Section(b) => "{[" + Unparse(b) + "]}"
  }

  /** The template text a node list stands for, node after node. */
  function Unparse(ns: seq<Node>): (r: string)
    decreases ns, 0
  {
    if ns == [] then "" else UnparseNode(ns[0]) + Unparse(ns[1..])
  }

  /**
   * A node the parser gives back from its printed form: a text is non-empty and holds
   * no `{`, a name is non-empty and holds no `}`, a section body is a non-empty
   * canonical list whose printed form holds no `]}`.
   */
  predicate CanonicalNode(n: Node)
    decreases n, 1
  {
    match n
    case Text(t) => t != "" && '{' !in t
    case Variable(v) => v != "" && '}' !in v
    case Section(b) => b != [] && Canonical(b) && !Contains(Unparse(b), "]}")
  }

  /** A list of canonical nodes in which no two texts are adjacent. */
  predicate Canonical(ns: seq<Node>)
    decreases ns, 0
  {
    ns == [] || (CanonicalNode(ns[0]) && (|ns| > 1 && ns[0].Text? ==> !ns[1].Text?) && Canonical(ns[1..]))
  }

  /** The text after a prefix of the scanned tail. */
  lemma {:induction false} SuffixAt(str: string, k: nat, x: string, rest: string)
    requires k <= |str| && str[k..] == x + rest
    ensures |rest| <= |str| && str[|str| - |rest|..] == rest
  {
    assert str[|str| - |rest|..] == str[k..][|x|..];
  }

  /**
   * A canonical list that is not a single text: the text `t` pending before its first
   * variable or section `node`, and the nodes `tail` after it.
   */
  lemma {:induction false} Decompose(ns: seq<Node>) returns (t: string, node: Node, tail: seq<Node>)
    requires Canonical(ns) && ns != [] && !(ns[0].Text? && |ns| == 1)
    ensures ns == PendingText(t) + [node] + tail
    ensures '{' !in t && CanonicalNode(node) && !node.Text? && Canonical(tail)
    ensures Unparse(ns) == t + UnparseNode(node) + Unparse(tail)
  {
    if ns[0].Text? {
      t, node, tail := ns[0].text, ns[1], ns[2..];
      assert ns[1..][1..] == tail;
    } else {
      t, node, tail := "", ns[0], ns[1..];
      assert Unparse(ns) == "" + UnparseNode(node) + Unparse(tail);
    }
  }

  /** A variable or section after the text `t`: what the loop of `parse` appends for them. */
  lemma {:induction false} NodeRecognized(str: string, k: nat, t: string, node: Node, rest: string)
    requires k <= |str| && str[k..] == t + UnparseNode(node) + rest
    requires '{' !in t && CanonicalNode(node) && !node.Text?
    ensures |rest| <= |str| && str[|str| - |rest|..] == rest
    ensures node.Variable? ==>
              Run(str, TextState, Some(k)) == PendingText(t) + [node] + Run(str, TextState, Some(|str| - |rest|))
    ensures node.Section? ==>
              Run(str, TextState, Some(k))
              == PendingText(t) + [Section(Parsed(Unparse(node.body)))] + Run(str, TextState, Some(|str| - |rest|))
  {
    SuffixAt(str, k, t + UnparseNode(node), rest);
    match node
    case Variable(n) =>
      assert str[k..] == t + "{{" + n + "}}" + rest;
      VariableRecognized(str, k, t, n, rest);
    case Section(b) =>
      assert str[k..] == t + "{[" + Unparse(b) + "]}" + rest;
      assert CanonicalNode(b[0]) && |Unparse(b)| >= |UnparseNode(b[0])| > 0;
      SectionRecognized(str, k, t, Unparse(b), rest);
  }

  /** The loop of `parse` from `k` gives back a canonical list from its printed form. */
  lemma {:induction false} RunUnparse(str: string, k: nat, ns: seq<Node>)
    requires k <= |str| && str[k..] == Unparse(ns) && Canonical(ns)
    ensures Run(str, TextState, Some(k)) == ns
    decreases |Unparse(ns)|
  {
    if ns == [] {
      RunAtEnd(str);
    } else if ns[0].Text? && |ns| == 1 {
      assert Unparse(ns) == ns[0].text;
      TextRecognized(str, k, ns[0].text);
    } else {
      var t, node, tail := Decompose(ns);
      var rest := Unparse(tail);
      NodeRecognized(str, k, t, node, rest);
      if node.Section? {
        RunUnparse(Unparse(node.body), 0, node.body);
      }
      RunUnparse(str, |str| - |rest|, tail);
    }
  }

  /** Parsing the printed form of a canonical node list gives the list back. */
  lemma {:induction false} ParseUnparse(ns: seq<Node>)
    requires Canonical(ns)
    ensures Parsed(Unparse(ns)) == ns
  {
    RunUnparse(Unparse(ns), 0, ns);
  }
}
