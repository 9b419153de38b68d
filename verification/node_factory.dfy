/** `NodeFactory.createNode`'s state mechanics (initial state, field updates, write-back
    to `data`, static or dynamic ports) and the variable-input helpers that derive a
    text node's input ports from its text. */
module NodeFactory {
  import opened Js
  import opened Seqs
  import VariableScan

  /** A node's state object, field name to value. */
  type State = map<string, Value>

  /** A handle configuration `{ id }`. */
  datatype Port = Port(id: string)

  /** A configuration's `inputs` or `outputs`: a fixed list, or a function of the state. */
  datatype PortSpec = Static(ports: seq<Port>) | Dynamic(derive: State -> seq<Port>)

  /** The configuration `createNode` receives (the render function left out). */
  datatype NodeConfig = NodeConfig(
    kind: string,
    title: string,
    inputs: PortSpec,
    outputs: PortSpec,
    defaults: State)

  function PortIds(ports: seq<Port>): (ids: seq<string>)
    ensures |ids| == |ports|
    ensures forall i :: 0 <= i < |ports| ==> ids[i] == ports[i].id
  {
    seq(|ports|, i requires 0 <= i < |ports| => ports[i].id)
  }

  // ---------------------------------------------------------------------------
  // State

  /** `data?.[key]` */
  function DataField(data: Option<State>, key: string): Value {
    if data.Some? && key in data.value then data.value[key] else Undefined
  }

  /** The state a node mounts with: one entry per key of `defaultData`, holding
      `data[key] ?? defaultData[key]`.  Only `null` and `undefined` fall back to the
      default; `0`, `''`, `false` and NaN given in `data` are kept. */
  function InitialState(defaults: State, data: Option<State>): (s: State)
    ensures s.Keys == defaults.Keys
    ensures forall k :: k in s && !IsNullish(DataField(data, k)) ==> s[k] == DataField(data, k)
    ensures forall k :: k in s && IsNullish(DataField(data, k)) ==> s[k] == defaults[k]
  {
    map k | k in defaults :: Coalesce(DataField(data, k), defaults[k])
  }

  /** `updateState(field)(value)`, once React has applied
      `setState(prev => ({ ...prev, [field]: value }))`. */
  function Update(s: State, field: string, v: Value): (r: State)
    ensures field in r && r[field] == v
    ensures r.Keys == s.Keys + {field}
    ensures forall k :: k in s && k != field ==> r[k] == s[k]
  {
    s[field := v]
  }

  /** The effect that copies every state entry into the node's `data` object (when
      there is one), overwriting what `data` held under the same keys. */
  function WriteBack(data: Option<State>, s: State): (r: Option<State>)
    ensures data.None? ==> r.None?
    ensures data.Some? ==> r.Some? && r.value.Keys == data.value.Keys + s.Keys
    ensures data.Some? ==> forall k :: k in s ==> r.value[k] == s[k]
    ensures data.Some? ==> forall k :: k in data.value && k !in s ==> r.value[k] == data.value[k]
  {
    if data.Some? then Some(data.value + s) else None
  }

  /** Mounting again from the state's own result changes nothing. */
  lemma InitialStateIdempotent(defaults: State, data: Option<State>)
    ensures InitialState(defaults, Some(InitialState(defaults, data))) == InitialState(defaults, data)
  {
    var s := InitialState(defaults, data);
    var s' := InitialState(defaults, Some(s));
    assert forall k :: k in s ==> s'[k] == s[k];
  }

  /** A node remounted from the `data` its state was written back to gets that state
      again, provided no entry of it is `null` or `undefined`. */
  lemma RemountRestoresState(defaults: State, data: Option<State>, s: State)
    requires data.Some?
    requires s.Keys == defaults.Keys
    requires forall k :: k in s ==> !IsNullish(s[k])
    ensures InitialState(defaults, WriteBack(data, s)) == s
  {
    var r := InitialState(defaults, WriteBack(data, s));
    assert forall k :: k in s ==> DataField(WriteBack(data, s), k) == s[k];
    assert forall k :: k in r ==> r[k] == s[k];
  }

  /** A `null` written back is not restored: the remounted node takes the default. */
  lemma RemountDropsNull(defaults: State, data: Option<State>, s: State, k: string)
    requires data.Some? && k in defaults && k in s && s[k] == Null
    ensures InitialState(defaults, WriteBack(data, s))[k] == defaults[k]
  {
  }

  // ---------------------------------------------------------------------------
  // Ports

  /** The ports in force for state `s`: `typeof spec === 'function' ? spec(s) : spec`. */
  function CurrentPorts(spec: PortSpec, s: State): seq<Port> {
    match spec
    case Static(ports) => ports
    case Dynamic(derive) => derive(s)
  }

  /** A static list is used as given, whatever the state. */
  lemma StaticPortsIgnoreState(ports: seq<Port>, s1: State, s2: State)
    ensures CurrentPorts(Static(ports), s1) == ports
    ensures CurrentPorts(Static(ports), s1) == CurrentPorts(Static(ports), s2)
  {
  }

  /** A dynamic list follows the state: the deriving function applied to it. */
  lemma DynamicPortsFollowState(derive: State -> seq<Port>, s: State)
    ensures CurrentPorts(Dynamic(derive), s) == derive(s)
  {
  }

  // ---------------------------------------------------------------------------
  // Variable inputs

  lemma ExtractIffAll(text: string)
    ensures forall name :: name in VariableScan.Extract(text) <==>
              VariableScan.IsIdentifier(name) && VariableScan.Occurs(VariableScan.Placeholder(name), text)
  {
    forall name | true
      ensures name in VariableScan.Extract(text) <==>
              VariableScan.IsIdentifier(name) && VariableScan.Occurs(VariableScan.Placeholder(name), text)
    {
      VariableScan.ExtractIff(text, name);
    }
  }

  /** `extractVariableInputs(text)`: one `{ id }` per variable of the text.  Every id is
      an identifier, no id repeats, and a name is an id exactly when `{{name}}` appears
      in the text. */
  function ExtractVariableInputs(text: string): (r: seq<Port>)
    ensures forall i :: 0 <= i < |r| ==> VariableScan.IsIdentifier(r[i].id)
    ensures Distinct(PortIds(r))
    ensures forall name :: name in PortIds(r) <==>
              VariableScan.IsIdentifier(name) && VariableScan.Occurs(VariableScan.Placeholder(name), text)
  {
    var names := VariableScan.Extract(text);
    ExtractIffAll(text);
    DedupSpec(VariableScan.Matches(text, 0));
    var r := seq(|names|, i requires 0 <= i < |names| => Port(names[i]));
    assert PortIds(r) == names;
    r
  }

  /** The ids of `extractVariableInputs` are the scanner's names, in the order in which
      each was first captured. */
  lemma VariableInputsOrder(text: string)
    ensures PortIds(ExtractVariableInputs(text)) == VariableScan.Extract(text)
    ensures forall i :: 0 <= i < |ExtractVariableInputs(text)| ==>
              ExtractVariableInputs(text)[i].id in VariableScan.Matches(text, 0)
    ensures forall i, j :: 0 <= i < j < |ExtractVariableInputs(text)| ==>
              FirstIndex(VariableScan.Matches(text, 0), ExtractVariableInputs(text)[i].id)
                < FirstIndex(VariableScan.Matches(text, 0), ExtractVariableInputs(text)[j].id)
  {
    var r := ExtractVariableInputs(text);
    assert PortIds(r) == VariableScan.Extract(text);
    VariableScan.ExtractOrder(text);
    forall i, j | 0 <= i < j < |r|
      ensures FirstIndex(VariableScan.Matches(text, 0), r[i].id)
                < FirstIndex(VariableScan.Matches(text, 0), r[j].id)
    {
      assert r[i].id == VariableScan.Extract(text)[i];
      assert r[j].id == VariableScan.Extract(text)[j];
    }
  }

  /** A worked example: `{{a}}` twice and `{{b}}` once give the inputs
      `a` then `b`. */
  lemma HelloExample()
    ensures ExtractVariableInputs(Hello) == [Port("a"), Port("b")]
  {
    HelloMatches();
    var ms := ["a", "b", "a"];
    assert ms[..2][..1] == ["a"];
    assert ms[..2] == ["a", "b"];
    assert Dedup(["a"]) == ["a"] by { assert ["a"][..0] == []; }
    assert VariableScan.Extract(Hello) == ["a", "b"];
    assert PortIds(ExtractVariableInputs(Hello)) == ["a", "b"];
  }

  const Hello := "Hello {{a}} and {{b}}, {{a}} again"

  lemma HelloMatches()
    ensures VariableScan.Matches(Hello, 0) == ["a", "b", "a"]
  {
    HelloSkip(0, 6);
    HelloFirstA();
    HelloSkip(11, 16);
    HelloB();
    HelloSkip(21, 23);
    HelloSecondA();
    HelloSkip(28, 34);
  }

  /** The scan walks over the plain stretches of the example. */
  lemma HelloSkip(i: nat, j: nat)
    requires (i, j) in {(0, 6), (11, 16), (21, 23), (28, 34)}
    ensures j <= |Hello| && VariableScan.Matches(Hello, i) == VariableScan.Matches(Hello, j)
  {
    var t := Hello;
    assert |t| == 34;
    forall m | i <= m < j ensures t[m] != '{' {
      assert t[m] == Hello[m];
    }
    VariableScan.SkipPlainText(t, i, j);
  }

  lemma HelloFirstA()
    ensures VariableScan.Matches(Hello, 6) == ["a"] + VariableScan.Matches(Hello, 11)
  {
    var t := Hello;
    assert VariableScan.Placeholder("a") == "{{a}}";
    assert t[6] == '{' && t[7] == '{' && t[8] == 'a' && t[9] == '}' && t[10] == '}';
    assert t[6..11] == "{{a}}";
    VariableScan.CapturePlaceholder(t, 6, "a");
  }

  lemma HelloB()
    ensures VariableScan.Matches(Hello, 16) == ["b"] + VariableScan.Matches(Hello, 21)
  {
    var t := Hello;
    assert VariableScan.Placeholder("b") == "{{b}}";
    assert t[16] == '{' && t[17] == '{' && t[18] == 'b' && t[19] == '}' && t[20] == '}';
    assert t[16..21] == "{{b}}";
    VariableScan.CapturePlaceholder(t, 16, "b");
  }

  lemma HelloSecondA()
    ensures VariableScan.Matches(Hello, 23) == ["a"] + VariableScan.Matches(Hello, 28)
  {
    var t := Hello;
    assert VariableScan.Placeholder("a") == "{{a}}";
    assert t[23] == '{' && t[24] == '{' && t[25] == 'a' && t[26] == '}' && t[27] == '}';
    assert t[23..28] == "{{a}}";
    VariableScan.CapturePlaceholder(t, 23, "a");
  }

  /** The field `createVariableInputs` reads when the configuration names none. */
  const DefaultTextField := "text"

  /** `state[textField] || ''` as the text to scan.  (A truthy value that is not a
      string would be converted by `exec`; the model reads it as empty text.) */
  function FieldText(s: State, field: string): string {
    var v := if field in s then s[field] else Undefined;
    if Truthy(v) && v.Str? then v.s else ""
  }

  /** The inputs `createVariableInputs({ textField })` derives from a state: those of the
      field's text, and none when the field is missing, `null`, `undefined` or `''`. */
  function VariableInputs(s: State, textField: string): (r: seq<Port>)
    ensures textField !in s || !Truthy(s[textField]) ==> r == []
    ensures textField in s && s[textField].Str? ==> r == ExtractVariableInputs(s[textField].s)
  {
    ExtractVariableInputs(FieldText(s, textField))
  }

  /** `createVariableInputs({ textField })`: the deriving function of a dynamic input list. */
  function CreateVariableInputs(textField: string): State -> seq<Port> {
    s => VariableInputs(s, textField)
  }
}
