/** The simple counter node (`nodes/SimpleNodes/simpleCounterNode.js`): a name, a value
    moved by `-` and `+`, and a step size. */
module SimpleCounterNode {
  import opened Js
  import NodeFactory

  const Defaults: NodeFactory.State := map["name" := Str("Counter"), "value" := Num(0.0), "step" := Num(1.0)]

  const Config := NodeFactory.NodeConfig(
    "counter", "Counter",
    NodeFactory.Static([NodeFactory.Port("input")]),
    NodeFactory.Static([NodeFactory.Port("value")]),
    Defaults)

  /** A fresh node is named `Counter`, at value 0 with step 1; it takes `input` in and
      gives `value` out, whatever its state. */
  lemma FreshSimpleCounter(s: NodeFactory.State)
    ensures NodeFactory.InitialState(Config.defaults, None) == Defaults
    ensures NodeFactory.CurrentPorts(Config.inputs, s) == [NodeFactory.Port("input")]
    ensures NodeFactory.CurrentPorts(Config.outputs, s) == [NodeFactory.Port("value")]
  {
    var s0 := NodeFactory.InitialState(Config.defaults, None);
    assert s0.Keys == Defaults.Keys;
    assert forall k :: k in s0 ==> s0[k] == Defaults[k];
  }

  predicate HasValue(s: NodeFactory.State) {
    "value" in s && s["value"].Num?
  }

  /** The name field: `updateState('name')(e.target.value)`. */
  function SetName(s: NodeFactory.State, name: string): (r: NodeFactory.State)
    ensures "name" in r && r["name"] == Str(name)
    ensures forall k :: k in s && k != "name" ==> k in r && r[k] == s[k]
  {
    NodeFactory.Update(s, "name", Str(name))
  }

  /** The `-` button: the value drops by one, whatever the step. */
  function Minus(s: NodeFactory.State): (r: NodeFactory.State)
    requires HasValue(s)
    ensures HasValue(r) && r["value"].n == s["value"].n - 1.0
    ensures forall k :: k in s && k != "value" ==> k in r && r[k] == s[k]
  {
    NodeFactory.Update(s, "value", Num(s["value"].n - 1.0))
  }

  /** The `+` button: the value rises by one, whatever the step. */
  function Plus(s: NodeFactory.State): (r: NodeFactory.State)
    requires HasValue(s)
    ensures HasValue(r) && r["value"].n == s["value"].n + 1.0
    ensures forall k :: k in s && k != "value" ==> k in r && r[k] == s[k]
  {
    NodeFactory.Update(s, "value", Num(s["value"].n + 1.0))
  }

  /** The step field: `updateState('step')(Number(e.target.value) || 1)`, where `number`
      is what `Number` made of the typed text (a number or NaN).  Zero and NaN fall back
      to 1; any other number, negative or fractional, is kept. */
  function SetStep(s: NodeFactory.State, number: Value): (r: NodeFactory.State)
    requires number.Num? || number.NaN?
    ensures "step" in r && r["step"].Num? && r["step"].n != 0.0
    ensures number.Num? && number.n != 0.0 ==> r["step"] == number
    ensures number.NaN? || number == Num(0.0) ==> r["step"] == Num(1.0)
    ensures forall k :: k in s && k != "step" ==> k in r && r[k] == s[k]
  {
    NodeFactory.Update(s, "step", Or(number, Num(1.0)))
  }

  /** The step size is stored but never used: the buttons move the value by one for any
      two states that differ only in their step. */
  lemma StepIsIgnored(s: NodeFactory.State, number: Value)
    requires HasValue(s) && (number.Num? || number.NaN?)
    ensures Plus(SetStep(s, number))["value"] == Plus(s)["value"]
    ensures Minus(SetStep(s, number))["value"] == Minus(s)["value"]
  {
  }
}
