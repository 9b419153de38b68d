/** The text node: its text is scanned for `{{name}}` placeholders, the names are kept in
    the `variables` field, and the node's input handles are derived from the same text. */
module TextNode {
  import opened Js
  import opened Seqs
  import VariableScan
  import NodeFactory

  /** `extractVariables(text)` as written: `exec` the global pattern again and again from
      `lastIndex`, adding each captured name to a `Set`, until `exec` finds nothing.  It
      agrees with the factory's `extractVariableInputs`: same names, same order. */
  method ExtractVariables(text: string) returns (vars: seq<string>)
    ensures vars == NodeFactory.PortIds(NodeFactory.ExtractVariableInputs(text))
    ensures Distinct(vars)
    ensures forall name :: name in vars <==>
              VariableScan.IsIdentifier(name) && VariableScan.Occurs(VariableScan.Placeholder(name), text)
  {
    var lastIndex: nat := 0;
    var found: seq<string> := [];
    vars := [];
    while lastIndex < |text|
      invariant lastIndex <= |text|
      invariant found + VariableScan.Matches(text, lastIndex) == VariableScan.Matches(text, 0)
      invariant vars == Dedup(found)
      decreases |text| - lastIndex
    {
      var m := VariableScan.MatchEnd(text, lastIndex);
      if m.Some? {
        var name := text[lastIndex + 2..m.value];
        CaptureStep(text, lastIndex, found);
        DedupSnoc(found, name);
        vars := SetAdd(vars, name);
        found := found + [name];
        lastIndex := m.value + 2;
      } else {
        SkipStep(text, lastIndex);
        lastIndex := lastIndex + 1;
      }
    }
    assert found == VariableScan.Matches(text, 0);
    ScanResult(text);
  }

  /** One successful `exec`: the captured name joins the names found so far. */
  lemma CaptureStep(text: string, i: nat, found: seq<string>)
    requires i < |text| && VariableScan.MatchEnd(text, i).Some?
    ensures var k := VariableScan.MatchEnd(text, i).value;
            found + VariableScan.Matches(text, i)
              == (found + [text[i + 2..k]]) + VariableScan.Matches(text, k + 2)
  {
  }

  /** The names of the whole scan, deduplicated, are the factory's input ids. */
  lemma ScanResult(text: string)
    ensures Dedup(VariableScan.Matches(text, 0)) == NodeFactory.PortIds(NodeFactory.ExtractVariableInputs(text))
  {
    NodeFactory.VariableInputsOrder(text);
  }

  /** One failed attempt: the scan moves on by one character. */
  lemma SkipStep(text: string, i: nat)
    requires i < |text| && VariableScan.MatchEnd(text, i).None?
    ensures VariableScan.Matches(text, i) == VariableScan.Matches(text, i + 1)
  {
  }

  /** `state.text`, read as a string (a node whose text is not a string reads as empty). */
  function TextOf(s: NodeFactory.State): string {
    if "text" in s && s["text"].Str? then s["text"].s else ""
  }

  /** A list of names as the array value stored in `variables`. */
  function NamesValue(names: seq<string>): (v: Value)
    ensures v.Arr? && |v.items| == |names|
    ensures forall i :: 0 <= i < |names| ==> v.items[i] == Str(names[i])
  {
    Arr(seq(|names|, i requires 0 <= i < |names| => Str(names[i])))
  }

  lemma NamesValueInjective(a: seq<string>, b: seq<string>)
    ensures NamesValue(a) == NamesValue(b) ==> a == b
  {
    if NamesValue(a) == NamesValue(b) {
      assert |a| == |b|;
      forall i | 0 <= i < |a| ensures a[i] == b[i] {
        assert NamesValue(a).items[i] == NamesValue(b).items[i];
      }
    }
  }

  /** The effect run whenever `state.text` changes:
      `updateState('variables')(extractVariables(state.text))`. */
  function SyncVariables(s: NodeFactory.State): (r: NodeFactory.State)
    ensures TextOf(r) == TextOf(s)
    ensures "variables" in r && r["variables"] == NamesValue(VariableScan.Extract(TextOf(s)))
    ensures forall k :: k in s && k != "variables" ==> k in r && r[k] == s[k]
  {
    NodeFactory.Update(s, "variables", NamesValue(VariableScan.Extract(TextOf(s))))
  }

  /** The stored `variables` are those of the current text. */
  predicate Settled(s: NodeFactory.State) {
    "variables" in s && s["variables"] == NamesValue(VariableScan.Extract(TextOf(s)))
  }

  /** The effect settles the state, and running it again changes nothing. */
  lemma SyncSettles(s: NodeFactory.State)
    ensures Settled(SyncVariables(s))
    ensures SyncVariables(SyncVariables(s)) == SyncVariables(s)
    ensures Settled(s) ==> SyncVariables(s) == s
  {
  }

  /** The inputs a text node derives: `createVariableInputs({ textField: 'text' })`. */
  const TextInputs := NodeFactory.Dynamic(NodeFactory.CreateVariableInputs(NodeFactory.DefaultTextField))

  /** The single static output. */
  const TextOutputs := NodeFactory.Static([NodeFactory.Port("output")])

  /** In a settled state the node's input handles are exactly its stored variables, in
      the same order. */
  lemma InputsAreVariables(s: NodeFactory.State)
    requires Settled(s)
    ensures s["variables"] == NamesValue(NodeFactory.PortIds(NodeFactory.CurrentPorts(TextInputs, s)))
  {
    NodeFactory.VariableInputsOrder(TextOf(s));
    assert NodeFactory.FieldText(s, "text") == TextOf(s);
  }

  /** The text node of `nodes/textNode.js`. */
  const Config := NodeFactory.NodeConfig(
    "text", "Text", TextInputs, TextOutputs,
    map["text" := Str("{{input}}"), "variables" := NamesValue(["input"])])

  lemma DefaultTextVariables()
    ensures VariableScan.Extract("{{input}}") == ["input"]
  {
    var t := "{{input}}";
    assert VariableScan.Placeholder("input") == t;
    assert OccursAt(VariableScan.Placeholder("input"), t, 0);
    VariableScan.CapturePlaceholder(t, 0, "input");
    assert VariableScan.Matches(t, 0) == ["input"];
    assert Dedup(["input"]) == ["input"] by { assert ["input"][..0] == []; }
  }

  /** A fresh node of this kind starts settled, with one input handle `input` and one
      output handle `output`. */
  lemma FreshNodeSettled()
    ensures Settled(NodeFactory.InitialState(Config.defaults, None))
    ensures NodeFactory.CurrentPorts(Config.inputs, NodeFactory.InitialState(Config.defaults, None))
              == [NodeFactory.Port("input")]
    ensures NodeFactory.CurrentPorts(Config.outputs, NodeFactory.InitialState(Config.defaults, None))
              == [NodeFactory.Port("output")]
  {
    var s := NodeFactory.InitialState(Config.defaults, None);
    assert s["text"] == Str("{{input}}");
    assert TextOf(s) == "{{input}}";
    DefaultTextVariables();
    NodeFactory.VariableInputsOrder("{{input}}");
    var r := NodeFactory.CurrentPorts(Config.inputs, s);
    assert NodeFactory.FieldText(s, "text") == "{{input}}";
    assert NodeFactory.PortIds(r) == ["input"];
  }
}
