/** The toggle node (`nodes/SimpleNodes/toggleNode.js`): one button that flips `value`
    and reads `ON` or `OFF`. */
module ToggleNode {
  import opened Js
  import NodeFactory

  const Defaults: NodeFactory.State := map["value" := Bool(false)]

  const Config := NodeFactory.NodeConfig(
    "toggle", "Toggle",
    NodeFactory.Static([NodeFactory.Port("input")]),
    NodeFactory.Static([NodeFactory.Port("value")]),
    Defaults)

  /** `state.value`, `undefined` when absent. */
  function ValueOf(s: NodeFactory.State): Value {
    if "value" in s then s["value"] else Undefined
  }

  /** The button's label: `state.value ? 'ON' : 'OFF'`. */
  function Label(s: NodeFactory.State): (t: string)
    ensures t == "ON" <==> Truthy(ValueOf(s))
    ensures t == "ON" || t == "OFF"
  {
    if Truthy(ValueOf(s)) then "ON" else "OFF"
  }

  /** A click: `updateState('value')(!state.value)`. */
  function Click(s: NodeFactory.State): (r: NodeFactory.State)
    ensures ValueOf(r).Bool? && ValueOf(r).b == !Truthy(ValueOf(s))
    ensures forall k :: k in s && k != "value" ==> k in r && r[k] == s[k]
  {
    NodeFactory.Update(s, "value", Not(ValueOf(s)))
  }

  /** Every click flips the label. */
  lemma ClickFlipsLabel(s: NodeFactory.State)
    ensures Label(Click(s)) != Label(s)
  {
  }

  /** Two clicks restore a boolean value; any other value comes back as a boolean of the
      same truthiness (a stored `'yes'` becomes `true`). */
  lemma TwoClicks(s: NodeFactory.State)
    ensures ValueOf(s).Bool? ==> Click(Click(s)) == NodeFactory.Update(s, "value", ValueOf(s))
    ensures ValueOf(Click(Click(s))) == Bool(Truthy(ValueOf(s)))
  {
  }

  /** A fresh toggle holds `false` and reads `OFF`, and one click turns it `ON`; it takes
      `input` in and gives `value` out, whatever its state. */
  lemma FreshToggle(s: NodeFactory.State)
    ensures ValueOf(NodeFactory.InitialState(Defaults, None)) == Bool(false)
    ensures NodeFactory.CurrentPorts(Config.inputs, s) == [NodeFactory.Port("input")]
    ensures NodeFactory.CurrentPorts(Config.outputs, s) == [NodeFactory.Port("value")]
    ensures Label(NodeFactory.InitialState(Defaults, None)) == "OFF"
    ensures Label(Click(NodeFactory.InitialState(Defaults, None))) == "ON"
  {
    assert ValueOf(NodeFactory.InitialState(Defaults, None)) == Bool(false);
  }
}
