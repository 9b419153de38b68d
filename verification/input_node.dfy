/** The input node (`nodes/ComplexNodes/inputNode.js`): a name, a type (`text` or `file`)
    and a default value, with a module-level counter feeding the default name. */
module InputNode {
  import opened Js
  import NodeFactory

  /** The configuration built when the module is loaded with `inputCount == count`: the
      default name reads `input${inputCount++}`, so it carries the counter's value before
      the increment, and the counter moves on by one. */
  function LoadModule(count: nat): (r: (NodeFactory.NodeConfig, nat))
    ensures r.1 == count + 1
    ensures r.0.defaults.Keys == {"name", "type", "defaultValue"}
    ensures r.0.defaults["name"] == Str("input" + NatToString(count))
    ensures r.0.defaults["type"] == Str("text") && r.0.defaults["defaultValue"] == Str("")
    ensures r.0.inputs == NodeFactory.Static([]) && r.0.outputs == NodeFactory.Static([NodeFactory.Port("output")])
  {
    var defaults := map[
      "name" := Str("input" + NatToString(count)),
      "type" := Str("text"),
      "defaultValue" := Str("")];
    (NodeFactory.NodeConfig("input", "Input",
       NodeFactory.Static([]), NodeFactory.Static([NodeFactory.Port("output")]), defaults),
     count + 1)
  }

  /** The configuration the application uses: the module is loaded once, with the counter
      at 0. */
  const Config := LoadModule(0).0

  /** The counter is read once, at load time: every input node created without data gets
      the same name `input0`. */
  lemma EveryNodeIsInput0(data1: Option<NodeFactory.State>, data2: Option<NodeFactory.State>)
    requires NodeFactory.DataField(data1, "name") == Undefined
    requires NodeFactory.DataField(data2, "name") == Undefined
    ensures NodeFactory.InitialState(Config.defaults, data1)["name"] == Str("input0")
    ensures NodeFactory.InitialState(Config.defaults, data1)["name"]
              == NodeFactory.InitialState(Config.defaults, data2)["name"]
  {
    assert NatToString(0) == "0";
  }

  /** Which optional field the node shows. */
  datatype Field = DefaultValueField | FileField

  /** The default-value box is shown for type `text`, the file picker for type `file`,
      neither for anything else. */
  function VisibleFields(s: NodeFactory.State): (r: set<Field>)
    ensures DefaultValueField in r <==> "type" in s && s["type"] == Str("text")
    ensures FileField in r <==> "type" in s && s["type"] == Str("file")
  {
    (if "type" in s && s["type"] == Str("text") then {DefaultValueField} else {})
    + (if "type" in s && s["type"] == Str("file") then {FileField} else {})
  }

  /** The two fields are never shown together. */
  lemma FieldsExclusive(s: NodeFactory.State)
    ensures !(DefaultValueField in VisibleFields(s) && FileField in VisibleFields(s))
  {
  }

  /** A text edit of one field (`name`, `type` or `defaultValue`). */
  function Edit(s: NodeFactory.State, field: string, text: string): (r: NodeFactory.State)
    ensures field in r && r[field] == Str(text)
    ensures forall k :: k in s && k != field ==> k in r && r[k] == s[k]
  {
    NodeFactory.Update(s, field, Str(text))
  }

  /** Picking a file stores its name as the default value; an empty pick changes nothing. */
  function PickFile(s: NodeFactory.State, file: Option<string>): (r: NodeFactory.State)
    ensures file.None? ==> r == s
    ensures file.Some? ==> r == Edit(s, "defaultValue", file.value)
  {
    if file.Some? then Edit(s, "defaultValue", file.value) else s
  }
}
