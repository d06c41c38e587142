# tinja in Dafny

A model of `tinja::Template`, the single class of the tinja header-only templating
library, with proofs about it.

A template string holds three kinds of piece:

- literal text;
- variables `{{name}}`;
- array sections `{[ ... ]}`.

A section's body is parsed on its own into a nested template.

**Parsing** is a three-state scanner (text, variable, array) over byte offsets. It
fills the template's node list, and it uses `std::string::find` for the openers and
the closers `}}` and `]}`.

**Rendering** walks the node list against a data map. A name is bound to one of four
kinds of value:

- a string;
- a string reference;
- a vector of strings;
- a vector of string references.

Rendering appends tokens to a buffer at a current loop index. A section is rendered
once per loop index, from 0 up to its loop length. The loop length is:

- 0 when a direct variable child is unbound;
- otherwise the least size of the vectors its direct variables are bound to;
- 1 when no direct variable is bound to a vector.

Reading a vector element past its end (`at(index)`) throws `std::out_of_range`. The
model turns this into a `Failure(OutOfRange)` result.

## Layout

| file | module | contents |
|---|---|---|
| `wrappers.dfy` | `Wrappers` | `Option`, `Result` |
| `find.dfy` | `StringSearch` | `Find` (`std::string::find`, `None` for `npos`) with one lemma that locates the first match and one that rules a match out |
| `types.dfy` | `TinjaTypes` | `Data`, `DataMap`, `Node` (`Text`, `Variable`, `Section`), `RenderError` |
| `parse_spec.dfy` | `ParseSpec` | the parser as functions: `Candidate` (what `pushNode` appends), `TextStep`, `UntilStep`, `Run` (the loop of `parse`), `Parsed` |
| `parse_props.dfy` | `ParseProps` | what every parse produces |
| `parse_roundtrip.dfy` | `ParseRoundTrip` | what the parser recognizes: `{{name}}` and `{[body]}` after plain text, and `Unparse`, the printed form of a node list, which parsing inverts on canonical lists |
| `render_spec.dfy` | `RenderSpec` | the renderer as functions: `LoopLen`, `NodeTokens`, `Repeated`, `Rendered` |
| `render_props.dfy` | `RenderProps` | loop length and failure properties |
| `template.dfy` | `Tinja` | `class Template` with the fields `nodes` and `lastNodeCount`, and the source's methods, each proved against the functions above |
| `template_props.dfy` | `TemplateProps` | where rendered tokens come from |
| `test_examples.dfy` | `TestExamples` | the scenarios of the library's test file |

Two behaviours of the code are easy to miss, and the model keeps both as written:

- **Lone `{`.** A `{` with at least three characters after it, followed by neither
  `{` nor `[`, starts a rescan one position later (`include/tinja.hpp:92-93`). The
  call keeps what the rescan appended. That is the text from the level's start up
  to a later opener, or the whole text. If the rescan meets another lone `{`, it is
  that rescan's nodes followed by the whole text, so each lone `{` in a chain adds
  one more copy. The call drops the rescan's state and position. It then appends the
  whole text from the level's start and ends the level (`include/tinja.hpp:96-98`). A `{` closer to the end is plain text
  (`include/tinja.hpp:82`): `"a{b}"` parses to the one node `Text("a{b}")`.
  - `"a{bcdef"` parses to two copies of itself.
  - `"a{b{cdefg"` parses to three copies of itself.
  - `"a{b{{V}}"` parses to `Text("a{b")` and `Text("a{b{{V}}")`: the variable is
    never parsed.
- **Where `out_of_range` can happen.** It never happens inside a section. The loop
  length is the minimum over all the section's direct vectors
  (`include/tinja.hpp:162-186`), so every index a section reads is in range.
  - Rendering fails exactly when a top-level variable is bound to an empty vector.
  - `RenderProps.SectionNeverFails` and
    `RenderProps.RenderFailsIffEmptyTopLevelVector` state this.

The test file calls `render(data)`, which the header does not define. It is read as
the public `renderTo` into a fresh buffer.

## Model

| member | source | states |
|---|---|---|
| Tinja.Template.constructor | include/tinja.hpp:29-31 | an empty template keeps the node-count hint it is given |
| Tinja.Template.FromString | include/tinja.hpp:33-36 | constructing from a string leaves exactly the nodes `parse` builds for it, and records their number as the new hint |
| Tinja.Template.Parse | include/tinja.hpp:39-62 | the node list becomes `Parsed(str)`, whatever the previous nodes or the hint; the result is the node count, and the hint is updated to it; proved by a loop invariant over the scanner's steps |
| Tinja.Template.ParseText | include/tinja.hpp:80-99 | appends exactly the nodes of one `TextStep`, and returns its state and next position, including the fall-through after a lone `{`; the node-count hint is unchanged |
| Tinja.Template.ParseUntil | include/tinja.hpp:101-109 | appends the node up to the first closer, if there is one; resumes after the closer only when something follows it; always returns the text state; the node-count hint is unchanged |
| Tinja.Template.PushNode | include/tinja.hpp:111-116 | appends at most one node, and does so exactly when `from < to` and `from < size`; the node-count hint is unchanged |
| Tinja.Template.RenderTo | include/tinja.hpp:64-67 | the result is `Rendered(nodes, data, 0)`, so whatever the buffer held before has no influence |
| Tinja.Template.RenderInto | include/tinja.hpp:118-158 | appends the tokens of the node list at the loop index to the buffer, or fails with the first out-of-range access |
| Tinja.Template.RenderVariable | include/tinja.hpp:124-143 | an unbound name adds nothing; a bound string adds itself unless empty; a vector adds element `index` unless empty, and fails past its end |
| Tinja.Template.RenderSection | include/tinja.hpp:146-152 | renders the body at indices 0 up to the loop length, in order, stopping at a failure |
| Tinja.Template.LoopLength | include/tinja.hpp:161-186 | the result is `LoopLen`: 0 after an unbound direct variable (the early `break`), else the least vector size, else 1 |
| StringSearch.Find | include/tinja.hpp:81 | the result is the first offset at or after `from` where the pattern occurs, or `None` (`npos`) when there is none |
| StringSearch.FindFirst | include/tinja.hpp:103 | `find` returns `b` when the pattern occurs at `b` and its first character does not appear before it |
| StringSearch.FindNone | include/tinja.hpp:81 | `find` returns `npos` when the pattern's first character does not appear from `from` on |
| ParseSpec.Candidate | include/tinja.hpp:111-116 | at most one node, and one exactly when `from` lies before both `to` and the end |
| ParseSpec.TextStep | include/tinja.hpp:80-99 | the next position, when there is one, lies strictly after `from` and before the end, and the state is then variable or array; without one, the state is text |
| ParseSpec.UntilStep | include/tinja.hpp:101-109 | the state is text, and the next position lies strictly after `startPos` and before the end |
| ParseSpec.LoopStep | include/tinja.hpp:46-58 | each turn of the loop moves the position strictly forward or ends the loop, which is why `parse` terminates |
| ParseSpec.Run | include/tinja.hpp:46-59 | defines the nodes the loop of `parse` appends from a position in a state: one `LoopStep` (the `switch` at lines 47-57), then the rest from the step's state and next position, nothing once the position is `npos`; its properties are `ParseProps.RunCut`, `ParseProps.RunNoSection` and `ParseRoundTrip.RunUnparse` |
| ParseSpec.Parsed | include/tinja.hpp:39-62 | defines the node list `parse` builds: the loop run from position 0 in the text state (lines 42-44); its properties are `ParseProps.ParsedCut`, `ParseProps.ParsedNoEmpty` and `ParseRoundTrip.ParseUnparse` |
| ParseProps.ParsedCut | include/tinja.hpp:101-115 | every parsed node is cut from the input: a text is a non-empty substring; a name is the text right after a `{{` up to the first `}}` after it; a section is the parse of the text right after a `{[` up to the first `]}` |
| ParseProps.ParsedNoEmpty | include/tinja.hpp:111-113 | no parsed node, at any depth, holds an empty text or name |
| ParseProps.SectionsDoNotNest | include/tinja.hpp:103 | a section body never holds a section, since it ends at the first `]}` |
| ParseProps.VariableNamesHaveNoCloser | include/tinja.hpp:103 | no variable name contains `}}` |
| ParseProps.MissingCloserEndsParse | include/tinja.hpp:101-108 | an opener without its closer appends nothing and ends the parse |
| ParseProps.PlainText | include/tinja.hpp:81-82 | when the input has no `{`, or its first `{` has fewer than four characters from it to the end, the whole input is one text node, or none when the input is empty |
| ParseProps.LoneBraceEndsLevel | include/tinja.hpp:92-98 | after a lone `{`, the level appends what the rescan appended (a prefix, the whole text, or several copies of it), then the whole text from its start, and stops |
| ParseProps.LoneBraceAppendsTexts | include/tinja.hpp:92-98 | a level ended by a lone `{` appends only text nodes |
| ParseRoundTrip.RunAtEnd | include/tinja.hpp:80-98 | at the end of the input the text state finds no `{`, appends nothing and ends the loop |
| ParseRoundTrip.OpenerStep | include/tinja.hpp:80-91 | plain text without `{` up to a `{{` or `{[` with at least three characters after the `{`: the step appends that text, if any, and resumes two positions later in the variable or array state |
| ParseRoundTrip.VariableStep | include/tinja.hpp:101-108 | in the variable state, a non-empty name without `}` followed by `}}` becomes that variable, and the scan resumes after `}}`, or ends when nothing follows |
| ParseRoundTrip.SectionStep | include/tinja.hpp:101-116 | in the array state, a non-empty body holding no `]}` and followed by `]}` becomes a section holding the parse of that body, and the scan resumes after `]}`, or ends when nothing follows |
| ParseRoundTrip.TextRecognized | include/tinja.hpp:80-98 | a non-empty tail without `{` is one last text node, and the loop ends |
| ParseRoundTrip.VariableRecognized | include/tinja.hpp:46-59 | from a position where text `t` without `{` is followed by `{{n}}` with `n` non-empty and without `}`, the loop appends `Text(t)` (nothing when `t` is empty), then `Variable(n)`, then what it appends from right after `}}` |
| ParseRoundTrip.SectionRecognized | include/tinja.hpp:46-59 | the same with `{[b]}`, `b` non-empty and holding no `]}`: the appended node is `Section(Parsed(b))` |
| ParseRoundTrip.RunUnparse | include/tinja.hpp:46-59 | from any position where the printed form of a canonical node list runs to the end, the loop appends exactly that list |
| ParseRoundTrip.ParseUnparse | include/tinja.hpp:39-116 | parsing the printed form of a canonical node list gives the list back. Canonical: every text non-empty and without `{`; no two texts adjacent; every name non-empty and without `}`; every section body a non-empty canonical list whose printed form holds no `]}` |
| RenderSpec.LoopLen | include/tinja.hpp:162-186 | defines the loop length: 0 once a direct variable is unbound (the `break` at line 181), else the least vector size over the direct variables, else 1 when none is bound to a vector (line 185); its properties are `RenderProps.LoopLenIsZipLength`, `RenderProps.LoopLenWithinEverySequence` and `RenderProps.LoopLenIgnoresOtherChildren` |
| RenderSpec.VariableTokens | include/tinja.hpp:124-143 | defines one variable's tokens: nothing when unbound (line 127), a bound string unless empty (130-133), element `index` of a vector unless empty, and `OutOfRange` past its end (`at` at 135-142); `RenderProps.NodeFailsIff` states when it fails |
| RenderSpec.NodeTokens | include/tinja.hpp:121-153 | defines one node's tokens: a text itself (122-124), a variable its `VariableTokens` (125-146), a section its body repeated `LoopLen` times (147-153); its properties are `RenderProps.NodeFailsIff`, `TemplateProps.NodeBorrowed` and `TemplateProps.NodeNonEmptyTokens` |
| RenderSpec.Repeated | include/tinja.hpp:147-152 | defines a section's iterations: the body rendered at indices 0 up to a count, in order, the first failure aborting the rest; its properties are `RenderProps.RepeatedFailure`, `RenderProps.RepeatedSucceeds`, `TemplateProps.RepeatedNonEmpty` and `TemplateProps.RepeatedBorrowed` |
| RenderSpec.Rendered | include/tinja.hpp:119-158 | defines a node list's tokens at a loop index: node by node, left to right (the `for` at line 120), the first failure aborting the rest; its properties are `RenderProps.RenderedFailsIff`, `RenderProps.RenderedPrefixFailure`, `TemplateProps.RenderedBorrowed` and `TemplateProps.RenderedNonEmpty` |
| RenderProps.MinSeqSizeIsLeast | include/tinja.hpp:162-175 | the running minimum is absent exactly when no direct variable is bound to a vector; otherwise it is no larger than any such vector's size and equal to one of them |
| RenderProps.LoopLenIsZipLength | include/tinja.hpp:162-186 | the loop length is 0 with an unbound direct variable; otherwise it is at most every vector size and equal to one, or 1 when there is no vector |
| RenderProps.LoopLenWithinEverySequence | include/tinja.hpp:166-176 | no vector a direct variable is bound to is shorter than the loop length |
| RenderProps.LoopLenIgnoresOtherChildren | include/tinja.hpp:164-170 | removing a text, a section or a string-bound variable from a section body leaves its loop length unchanged |
| RenderProps.RenderedPrefixFailure | include/tinja.hpp:119-158 | once a prefix of the nodes fails, rendering all of them fails the same way |
| RenderProps.RepeatedFailure | include/tinja.hpp:150-152 | once an iteration of a section fails, the remaining iterations change nothing |
| RenderProps.RenderedFailsIff | include/tinja.hpp:119-158 | a node list fails to render exactly when a direct variable is bound to a vector with no element at the loop index |
| RenderProps.NodeFailsIff | include/tinja.hpp:119-153 | one node fails exactly when it is a variable indexing a vector past its end |
| RenderProps.RepeatedSucceeds | include/tinja.hpp:147-152 | every iteration of a section, up to its loop length, succeeds |
| RenderProps.SectionNeverFails | include/tinja.hpp:146-152 | a section never fails to render, whatever the data |
| RenderProps.RenderFailsIffEmptyTopLevelVector | include/tinja.hpp:64-67 | a template rendered through the public `renderTo` fails exactly when a top-level variable is bound to an empty vector |
| TemplateProps.RenderedNonEmpty | include/tinja.hpp:119-145 | with no empty text in the tree, no rendered token is empty |
| TemplateProps.NodeNonEmptyTokens | include/tinja.hpp:121-152 | one node without empty texts yields no empty token |
| TemplateProps.RepeatedNonEmpty | include/tinja.hpp:150-152 | a section's iterations yield no empty token |
| TemplateProps.ParsedRendersNonEmptyTokens | include/tinja.hpp:111-145 | rendering a parsed template never yields an empty token |
| TemplateProps.RenderedBorrowed | include/tinja.hpp:119-158 | every token is a text of the template or a string bound in the data |
| TemplateProps.NodeBorrowed | include/tinja.hpp:121-152 | one node's tokens are its own texts or strings from the data |
| TemplateProps.RepeatedBorrowed | include/tinja.hpp:150-152 | a section's tokens are texts of its body or strings from the data |
| TestExamples.ShortTemplate | test/source/test.cpp:5-30 | a template of at most three characters, such as `""`, `T`, `{}}` or `{{}`, is one text node, or none, and renders as itself |
| TestExamples.EmptyVariable | test/source/test.cpp:33-38 | `{{}}` has no nodes and renders nothing |
| TestExamples.OneVariable | test/source/test.cpp:40-49 | `{{V}}` is one variable; it renders nothing while unbound, and `V1` when bound to it |
| TestExamples.TwoVariables | test/source/test.cpp:51-59 | `{{V}} {{V2}}` is three nodes and renders `V1`, a space and `V2` |
| TestExamples.EmptySection | test/source/test.cpp:65-70 | `{[]}` has no nodes and renders nothing |
| TestExamples.TextSection | test/source/test.cpp:72-76 | `{[D]}` is one section and renders `D` once, whatever the data |
| TestExamples.VariableSection | test/source/test.cpp:78-87 | `{[{{V}}]}` renders nothing while `V` is unbound, and `Va`, `Vb` for a two-element vector |
| TestExamples.TwoVariableSection | test/source/test.cpp:89-101 | with vectors of 4 and 3 elements, the section runs 3 times: `Va Va Vb Vb Vc Vc` |
| TestExamples.LoneBraceDuplicates | include/tinja.hpp:92-98 | `a{bcdef` parses to two copies of itself and renders both |
| TestExamples.LoneBraceChain | include/tinja.hpp:81-98 | `a{b{cdefg` parses to three copies of itself, one per level, and renders all three |
| TestExamples.LoneBraceHidesVariable | include/tinja.hpp:92-98 | in `a{b{{V}}` the variable is never parsed: the nodes are `Text("a{b")` and the whole input as text |

## Left out

- `StringRef` and `StringRefs` hold strings by value. Tokens are strings rather than references, so a token cannot show a later change to the string it refers to (test/source/test.cpp:53-61).
- Tinja.Template.RenderTo: on `std::out_of_range` the model returns only the failure. It does not model the tokens left in the caller's buffer by the partial render.
- Tinja.Template.LoopLength: a vector of exactly `numeric_limits<size_t>::max()` elements cannot exist in the model. In the source, such a vector would make the sentinel turn into a loop length of 1. The sentinel is modelled as `None`.
- Strings are byte strings: one `char` stands for one byte of `std::string`. The model does not decode UTF-8, so on non-ASCII text its offsets, the `nextPos+3 < size` opener rule and every `substr` match the source only under that reading.
- Offsets are unbounded integers. `nextPos + 3` and `nextPos + until.size()` cannot overflow for a string that fits in memory.
- `reserve` and the capacity behaviour of `lastNodeCount` are modelled only as the stored number. The hint affects allocation, never the nodes.
- The `Overload` visitor helper is C++ metaprogramming. `match` on the data's alternatives takes its place.
- The exception is modelled as the single error value `OutOfRange`. Its message is not modelled.
- The files under `test/` (test/source/util.hpp, test/source/benchmark.cpp, test/third_party/micro_mustache.hpp and test/source/bustache_model.hpp) are file I/O, regular expressions, benchmarks and adapters for other libraries, and are not part of this model. The scenarios of test/source/test.cpp are stated as lemmas.
