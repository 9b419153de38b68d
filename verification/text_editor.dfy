/** The text node with an input selector (`nodes/ComplexNodes/textNode.js`): typing `{{`
    opens a list of the flow's input nodes, further typing filters it, and picking one
    inserts `name}}` at the remembered position. */
module TextEditor {
  import opened Js
  import opened Seqs
  import VariableScan
  import NodeFactory
  import TextNode

  /** The node type that marks an input node of the flow. */
  const InputNodeType := "customInput"

  /** What the selector reads of a flow node: its id, its type and its `data` strings
      (`name`, `type`), when it has `data`. */
  datatype FlowNode = FlowNode(id: string, kind: string, data: Option<map<string, string>>)

  /** An entry of the selector's list, `{ id, type }`. */
  datatype AvailableInput = AvailableInput(id: string, kind: string)

  /** `node.data?.[key] || fallback` for a string-valued `data`. */
  function DataOr(n: FlowNode, key: string, fallback: string): (r: string)
    ensures n.data.Some? && key in n.data.value && n.data.value[key] != "" ==> r == n.data.value[key]
    ensures n.data.None? || key !in n.data.value || n.data.value[key] == "" ==> r == fallback
  {
    if n.data.Some? && key in n.data.value && n.data.value[key] != "" then n.data.value[key] else fallback
  }

  /** The entry an input node contributes: its `data.name`, else its node id; its
      `data.type`, else `'text'`. */
  function ToAvailable(n: FlowNode): AvailableInput {
    AvailableInput(DataOr(n, "name", n.id), DataOr(n, "type", "text"))
  }

  /** `getAvailableInputs()`: the input nodes of the flow, in flow order, as entries. */
  function GetAvailableInputs(nodes: seq<FlowNode>): (r: seq<AvailableInput>)
    ensures |r| <= |nodes|
    decreases |nodes|
  {
    if nodes == [] then []
    else (if nodes[0].kind == InputNodeType then [ToAvailable(nodes[0])] else []) + GetAvailableInputs(nodes[1..])
  }

  predicate IsInputNode(n: FlowNode) {
    n.kind == InputNodeType
  }

  /** The entries of `ns`, one per node, in the same order. */
  function Entries(ns: seq<FlowNode>): (r: seq<AvailableInput>)
    ensures |r| == |ns| && forall i :: 0 <= i < |ns| ==> r[i] == ToAvailable(ns[i])
  {
    seq(|ns|, i requires 0 <= i < |ns| => ToAvailable(ns[i]))
  }

  /** The selector lists exactly the entries of the flow's input nodes, one per input
      node and in flow order (two input nodes with the same name give two entries): an
      entry is listed when some input node contributes it, and only then. */
  lemma {:induction false} AvailableInputsSpec(nodes: seq<FlowNode>, a: AvailableInput)
    ensures GetAvailableInputs(nodes) == Entries(Filter(nodes, IsInputNode))
    ensures a in GetAvailableInputs(nodes) <==>
              exists j :: 0 <= j < |nodes| && nodes[j].kind == InputNodeType && a == ToAvailable(nodes[j])
    decreases |nodes|
  {
    if nodes != [] {
      var tail := nodes[1..];
      AvailableInputsSpec(tail, a);
      if a in GetAvailableInputs(nodes) && !(nodes[0].kind == InputNodeType && a == ToAvailable(nodes[0])) {
        var j :| 0 <= j < |tail| && tail[j].kind == InputNodeType && a == ToAvailable(tail[j]);
        assert nodes[j + 1] == tail[j];
      }
      if exists j :: 0 <= j < |nodes| && nodes[j].kind == InputNodeType && a == ToAvailable(nodes[j]) {
        var j :| 0 <= j < |nodes| && nodes[j].kind == InputNodeType && a == ToAvailable(nodes[j]);
        if j > 0 {
          assert tail[j - 1] == nodes[j];
        }
      }
    }
    AvailableInputsInOrder(nodes);
  }

  /** The list is the input nodes, filtered in flow order, each mapped to its entry. */
  lemma {:induction false} AvailableInputsInOrder(nodes: seq<FlowNode>)
    ensures GetAvailableInputs(nodes) == Entries(Filter(nodes, IsInputNode))
    decreases |nodes|
  {
    if nodes != [] {
      var tail := nodes[1..];
      AvailableInputsInOrder(tail);
      if IsInputNode(nodes[0]) {
        var f := Filter(tail, IsInputNode);
        assert Filter(nodes, IsInputNode) == [nodes[0]] + f;
        assert Entries([nodes[0]] + f) == [ToAvailable(nodes[0])] + Entries(f);
      }
    }
  }

  /** With no input node in the flow the selector's list is empty, and only then. */
  lemma NoInputNodesNoEntries(nodes: seq<FlowNode>)
    ensures GetAvailableInputs(nodes) == [] <==> forall j :: 0 <= j < |nodes| ==> nodes[j].kind != InputNodeType
  {
    if GetAvailableInputs(nodes) != [] {
      AvailableInputsSpec(nodes, GetAvailableInputs(nodes)[0]);
    }
    forall j | 0 <= j < |nodes| && nodes[j].kind == InputNodeType ensures GetAvailableInputs(nodes) != [] {
      AvailableInputsSpec(nodes, ToAvailable(nodes[j]));
    }
  }

  /** The selector's part of the component state: whether it is shown, the remembered
      caret position (`null` until the first `{{`), and the entries listed. */
  datatype Selector = Selector(show: bool, position: Option<int>, available: seq<AvailableInput>)

  const InitialSelector := Selector(false, None, [])

  /** The entries whose id contains the typed query, ignoring ASCII case. */
  function FilterInputs(inputs: seq<AvailableInput>, query: string): (r: seq<AvailableInput>)
    ensures forall a :: a in r <==> a in inputs && Includes(Lower(a.id), Lower(query))
    ensures IsSubsequence(r, inputs)
    ensures forall a :: Occurrences(r, a) ==
              (if Includes(Lower(a.id), Lower(query)) then Occurrences(inputs, a) else 0)
  {
    Filter(inputs, (a: AvailableInput) => Includes(Lower(a.id), Lower(query)))
  }

  /** An entry survives filtering exactly when the lower-cased query occurs in its
      lower-cased id. */
  lemma FilterInputsIff(inputs: seq<AvailableInput>, query: string, a: AvailableInput)
    ensures a in FilterInputs(inputs, query) <==>
              a in inputs && exists k :: OccursAt(Lower(query), Lower(a.id), k)
  {
    IncludesIffOccurs(Lower(a.id), Lower(query));
  }

  /** Nothing typed yet after `{{`: every entry is listed. */
  lemma EmptyQueryKeepsAll(inputs: seq<AvailableInput>)
    ensures FilterInputs(inputs, "") == inputs
  {
    forall a | a in inputs ensures Includes(Lower(a.id), Lower("")) {
      IncludesEmpty(Lower(a.id));
    }
    FilterKeepsAll(inputs, (a: AvailableInput) => Includes(Lower(a.id), Lower("")));
  }

  /** Case does not matter: a query and its lower-cased form select the same entries. */
  lemma FilterIgnoresCase(inputs: seq<AvailableInput>, query: string)
    ensures FilterInputs(inputs, Lower(query)) == FilterInputs(inputs, query)
  {
    LowerIdempotent(query);
  }

  /** The number `slice` reads for the remembered position (`null` reads as 0). */
  function PositionOr0(p: Option<int>): int {
    if p.Some? then p.value else 0
  }

  /** The selector part of the effect that runs after the text changes, with the caret
      at `caret` (`None` when the textarea is not mounted) and `nodes` the flow's nodes. */
  function OnTextChange(sel: Selector, text: string, caret: Option<int>, nodes: seq<FlowNode>): Selector {
    if caret.None? then sel
    else if Slice(text, caret.value - 2, caret.value) == "{{" then
      Selector(true, caret, GetAvailableInputs(nodes))
    else if sel.show then
      sel.(available := FilterInputs(GetAvailableInputs(nodes), Slice(text, PositionOr0(sel.position), caret.value)))
    else sel
  }

  /** The two characters before the caret are `{{` exactly when the caret is at least
      two characters in and the text there reads `{{`; near the start, `slice`'s
      negative indices count from the end and never produce `{{`. */
  lemma TriggerIff(text: string, p: int)
    requires 0 <= p <= |text|
    ensures Slice(text, p - 2, p) == "{{" <==> 2 <= p && text[p - 2..p] == "{{"
  {
  }

  /** Typing `{{` opens the selector at the caret with every input node listed; any
      other edit leaves a closed selector closed. */
  lemma SelectorOpens(sel: Selector, text: string, p: int, nodes: seq<FlowNode>)
    requires 0 <= p <= |text|
    ensures 2 <= p && text[p - 2..p] == "{{" ==>
              OnTextChange(sel, text, Some(p), nodes) == Selector(true, Some(p), GetAvailableInputs(nodes))
    ensures !(2 <= p && text[p - 2..p] == "{{") && !sel.show ==>
              OnTextChange(sel, text, Some(p), nodes) == sel
  {
    TriggerIff(text, p);
  }

  /** While the selector is open, the list is the input nodes' entries filtered by the
      text typed since the remembered position (every copy of a matching entry kept),
      and nothing else changes. */
  lemma SelectorFilters(sel: Selector, text: string, p: int, nodes: seq<FlowNode>, a: AvailableInput)
    requires 0 <= p <= |text| && sel.show && sel.position.Some?
    requires 0 <= sel.position.value <= p
    requires !(2 <= p && text[p - 2..p] == "{{")
    ensures OnTextChange(sel, text, Some(p), nodes).show
    ensures OnTextChange(sel, text, Some(p), nodes).position == sel.position
    ensures a in OnTextChange(sel, text, Some(p), nodes).available <==>
              a in GetAvailableInputs(nodes) && Includes(Lower(a.id), Lower(text[sel.position.value..p]))
    ensures OnTextChange(sel, text, Some(p), nodes).available ==
              FilterInputs(GetAvailableInputs(nodes), text[sel.position.value..p])
  {
    TriggerIff(text, p);
  }

  /** After the caret moved back before the remembered position (text deleted past the
      `{{` while the selector is open), the typed query is `slice(position, caret) == ''`,
      which every id includes: the whole list is shown again. */
  lemma SelectorShowsAllBeforePosition(sel: Selector, text: string, p: int, nodes: seq<FlowNode>)
    requires 0 <= p <= |text| && sel.show && sel.position.Some?
    requires p < sel.position.value
    requires !(2 <= p && text[p - 2..p] == "{{")
    ensures OnTextChange(sel, text, Some(p), nodes)
              == sel.(available := GetAvailableInputs(nodes))
  {
    TriggerIff(text, p);
    assert Slice(text, sel.position.value, p) == "";
    EmptyQueryKeepsAll(GetAvailableInputs(nodes));
  }

  /** `handleInputSelection(inputId)`: with a truthy remembered position `p`, the text
      becomes `text.slice(0, p) + inputId + '}}' + text.slice(p)` and the selector closes;
      otherwise nothing happens.  The result is the new text and selector. */
  function HandleInputSelection(text: string, sel: Selector, inputId: string): (r: (string, Selector))
    ensures sel.position.Some? && 0 < sel.position.value <= |text| ==>
              |r.0| == |text| + |inputId| + 2
    ensures sel.position.Some? && 0 < sel.position.value <= |text| ==>
              r.0[..sel.position.value] == text[..sel.position.value]
              && r.0[sel.position.value..sel.position.value + |inputId| + 2] == inputId + "}}"
              && r.0[sel.position.value + |inputId| + 2..] == text[sel.position.value..]
    ensures sel.position.Some? && sel.position.value != 0 ==> !r.1.show && r.1.position.None?
    ensures sel.position.Some? && sel.position.value > |text| ==> r.0 == text + inputId + "}}"
    ensures sel.position.None? || sel.position.value == 0 ==> r == (text, sel)
  {
    if sel.position.Some? && sel.position.value != 0 then
      var p := sel.position.value;
      (Slice(text, 0, p) + inputId + "}}" + SliceFrom(text, p), sel.(show := false, position := None))
    else (text, sel)
  }

  /** Picking an identifier right after a typed `{{` makes it a variable of the new text,
      and so one of the node's input handles. */
  lemma PickedInputBecomesVariable(text: string, sel: Selector, inputId: string)
    requires sel.position.Some? && 2 <= sel.position.value <= |text|
    requires text[sel.position.value - 2..sel.position.value] == "{{"
    requires VariableScan.IsIdentifier(inputId)
    ensures inputId in VariableScan.Extract(HandleInputSelection(text, sel, inputId).0)
  {
    var p := sel.position.value;
    var t := HandleInputSelection(text, sel, inputId).0;
    assert t == text[..p] + inputId + "}}" + text[p..];
    assert t[p - 2..p + |inputId| + 2] == VariableScan.Placeholder(inputId);
    assert OccursAt(VariableScan.Placeholder(inputId), t, p - 2);
    VariableScan.ExtractIff(t, inputId);
  }

  /** The text node of `nodes/ComplexNodes/textNode.js`: empty text, no variables. */
  const Config := NodeFactory.NodeConfig(
    "text", "Text", TextNode.TextInputs, TextNode.TextOutputs,
    map["text" := Str(""), "variables" := TextNode.NamesValue([])])

  /** A fresh node has no input handles and starts settled. */
  lemma FreshNodeHasNoInputs()
    ensures TextNode.Settled(NodeFactory.InitialState(Config.defaults, None))
    ensures NodeFactory.CurrentPorts(Config.inputs, NodeFactory.InitialState(Config.defaults, None)) == []
  {
    var s := NodeFactory.InitialState(Config.defaults, None);
    assert s["text"] == Str("");
    assert TextNode.TextOf(s) == "";
  }
}
