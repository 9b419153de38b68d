/** The counter node (`nodes/ComplexNodes/counterNode.js`): a count shown between a `-`
    and a `+` button. */
module CounterNode {
  import opened Js
  import NodeFactory

  const Defaults: NodeFactory.State := map["count" := Num(0.0)]

  /** One input handle `reset`, one output handle `value`.  Nothing reads `reset`: no
      operation of the node sets the count back. */
  const Config := NodeFactory.NodeConfig(
    "counter", "Counter",
    NodeFactory.Static([NodeFactory.Port("reset")]),
    NodeFactory.Static([NodeFactory.Port("value")]),
    Defaults)

  /** A fresh counter shows 0, takes `reset` in and gives `value` out, whatever its state. */
  lemma FreshCounter(s: NodeFactory.State)
    ensures NodeFactory.InitialState(Config.defaults, None) == map["count" := Num(0.0)]
    ensures NodeFactory.CurrentPorts(Config.inputs, s) == [NodeFactory.Port("reset")]
    ensures NodeFactory.CurrentPorts(Config.outputs, s) == [NodeFactory.Port("value")]
  {
    var s0 := NodeFactory.InitialState(Config.defaults, None);
    assert s0.Keys == {"count"};
    assert s0["count"] == Num(0.0);
  }

  /** The count as a number, when the state holds one. */
  predicate HasCount(s: NodeFactory.State) {
    "count" in s && s["count"].Num?
  }

  /** The `-` button: `updateState('count')(state.count - 1)`. */
  function Decrement(s: NodeFactory.State): (r: NodeFactory.State)
    requires HasCount(s)
    ensures HasCount(r) && r["count"].n == s["count"].n - 1.0
    ensures r.Keys == s.Keys
    ensures forall k :: k in s && k != "count" ==> r[k] == s[k]
  {
    NodeFactory.Update(s, "count", Num(s["count"].n - 1.0))
  }

  /** The `+` button: `updateState('count')(state.count + 1)`. */
  function Increment(s: NodeFactory.State): (r: NodeFactory.State)
    requires HasCount(s)
    ensures HasCount(r) && r["count"].n == s["count"].n + 1.0
    ensures r.Keys == s.Keys
    ensures forall k :: k in s && k != "count" ==> r[k] == s[k]
  {
    NodeFactory.Update(s, "count", Num(s["count"].n + 1.0))
  }

  /** The two buttons undo each other, in either order. */
  lemma ButtonsAreInverse(s: NodeFactory.State)
    requires HasCount(s)
    ensures Decrement(Increment(s)) == s
    ensures Increment(Decrement(s)) == s
  {
  }

  /** `k` presses of `+` followed by `k` presses of `-`. */
  function PressPlus(s: NodeFactory.State, k: nat): (r: NodeFactory.State)
    requires HasCount(s)
    ensures HasCount(r) && r["count"].n == s["count"].n + k as real
    ensures r.Keys == s.Keys
    decreases k
  {
    if k == 0 then s else Increment(PressPlus(s, k - 1))
  }

  function PressMinus(s: NodeFactory.State, k: nat): (r: NodeFactory.State)
    requires HasCount(s)
    ensures HasCount(r) && r["count"].n == s["count"].n - k as real
    ensures r.Keys == s.Keys
    decreases k
  {
    if k == 0 then s else Decrement(PressMinus(s, k - 1))
  }

  /** The count is not bounded below: from a fresh node, `k` presses of `-` show `-k`. */
  lemma CountGoesNegative(k: nat)
    ensures HasCount(NodeFactory.InitialState(Defaults, None))
    ensures PressMinus(NodeFactory.InitialState(Defaults, None), k)["count"] == Num(-(k as real))
  {
    assert NodeFactory.InitialState(Defaults, None)["count"] == Num(0.0);
  }
}
