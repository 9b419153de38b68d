/** The shared node frame (`BaseNode`): its colour by node type, the connection handles
    it draws for the input and output ports, and the two-step delete. */
module BaseNode {
  import opened Js

  // ---------------------------------------------------------------------------
  // Node type and colour

  /** `id.split('-')[0]`: the id up to its first `-`, or the whole id. */
  function NodeTypeOf(id: string): (r: string)
    ensures IsPrefix(r, id)
    ensures forall i :: 0 <= i < |r| ==> r[i] != '-'
    ensures r == id || id[|r|] == '-'
    decreases |id|
  {
    if id == [] || id[0] == '-' then ""
    else [id[0]] + NodeTypeOf(id[1..])
  }

  /** The names an object literal inherits from `Object.prototype`; each looks up to a
      function (or, for `__proto__`, the prototype object), so it is truthy. */
  const PrototypeNames: set<string> := {
    "constructor", "hasOwnProperty", "isPrototypeOf", "propertyIsEnumerable",
    "toLocaleString", "toString", "valueOf", "__proto__",
    "__defineGetter__", "__defineSetter__", "__lookupGetter__", "__lookupSetter__"
  }

  /** The colour table's own entries. */
  const Colors: map<string, string> := map[
    "customInput" := "#6366f1",
    "llm" := "#8b5cf6",
    "customOutput" := "#ec4899",
    "text" := "#14b8a6",
    "counter" := "#f59e0b",
    "math" := "#ef4444",
    "color" := "#10b981",
    "date" := "#3b82f6",
    "json" := "#f97316"
  ]

  const DefaultColor := "#64748b"

  /** What `colors[type] || '#64748b'` evaluates to: a colour string, or an inherited
      member of the object literal. */
  datatype NodeColor = Hex(code: string) | Inherited(name: string)

  /** `getNodeColor(type)`. */
  function GetNodeColor(kind: string): (c: NodeColor)
    ensures kind in Colors ==> c == Hex(Colors[kind])
    ensures kind !in Colors && kind !in PrototypeNames ==> c == Hex(DefaultColor)
    ensures kind in PrototypeNames ==> c == Inherited(kind)
  {
    if kind in Colors then Hex(Colors[kind])
    else if kind in PrototypeNames then Inherited(kind)
    else Hex(DefaultColor)
  }

  /** No table key is an inherited name, so the table entries always win. */
  lemma TableAndPrototypeDisjoint()
    ensures forall k :: k in Colors ==> k !in PrototypeNames
  {
  }

  /** The frame colour of node `id`: the colour of its type prefix.  A node whose id
      starts with `constructor-` gets a function, not a colour. */
  lemma ColorOfNode(id: string, kind: string, rest: string)
    requires id == kind + "-" + rest && '-' !in kind
    ensures GetNodeColor(NodeTypeOf(id)) == GetNodeColor(kind)
  {
    var r := NodeTypeOf(id);
    assert id[|kind|] == '-';
    assert forall i :: 0 <= i < |kind| ==> id[i] == kind[i];
    assert r == id[..|r|] == kind;
  }

  // ---------------------------------------------------------------------------
  // Handles

  datatype Side = Input | Output

  function SideName(side: Side): string {
    match side
    case Input => "input"
    case Output => "output"
  }

  /** `${id}-input-${index}` or `${id}-output-${index}`. */
  function HandleId(nodeId: string, side: Side, index: nat): string {
    nodeId + "-" + SideName(side) + "-" + NatToString(index)
  }

  /** Handle ids of one node never collide: different sides or different positions give
      different ids. */
  lemma HandleIdsDistinct(nodeId: string, s1: Side, i: nat, s2: Side, j: nat)
    requires s1 != s2 || i != j
    ensures HandleId(nodeId, s1, i) != HandleId(nodeId, s2, j)
  {
    var a := HandleId(nodeId, s1, i);
    var b := HandleId(nodeId, s2, j);
    if s1 != s2 {
      assert a[|nodeId| + 1] == SideName(s1)[0];
      assert b[|nodeId| + 1] == SideName(s2)[0];
    } else {
      var n := |nodeId| + |SideName(s1)| + 2;
      assert a[n..] == NatToString(i);
      assert b[n..] == NatToString(j);
      NatToStringInjective(i, j);
    }
  }

  /** The vertical offset `((index + 1) * 100) / (count + 1)` percent, as an exact real. */
  function HandleOffset(index: nat, count: nat): real
    requires index < count
  {
    ((index + 1) as real * 100.0) / ((count + 1) as real)
  }

  /** The handles are spread strictly inside the frame, top to bottom in list order. */
  lemma HandleOffsetsOrdered(i: nat, j: nat, count: nat)
    requires i < j < count
    ensures 0.0 < HandleOffset(i, count) < HandleOffset(j, count) < 100.0
  {
    var d := (count + 1) as real;
    assert (i + 1) as real * 100.0 < (j + 1) as real * 100.0;
    assert (j + 1) as real * 100.0 < d * 100.0;
  }

  /** A drawn handle: its id and its offset from the top, in percent. */
  datatype Handle = Handle(id: string, top: real)

  /** The handles drawn for one side's port list. */
  function Handles<P>(nodeId: string, side: Side, ports: seq<P>): (r: seq<Handle>)
    ensures |r| == |ports|
    ensures forall i :: 0 <= i < |r| ==>
              r[i] == Handle(HandleId(nodeId, side, i), HandleOffset(i, |ports|))
  {
    seq(|ports|, i requires 0 <= i < |ports| => Handle(HandleId(nodeId, side, i), HandleOffset(i, |ports|)))
  }

  /** Handles are identified by position, not by the port's own id: two port lists of
      the same length give the same handles. */
  lemma HandlesIgnorePortIds<P, Q>(nodeId: string, side: Side, a: seq<P>, b: seq<Q>)
    requires |a| == |b|
    ensures Handles(nodeId, side, a) == Handles(nodeId, side, b)
  {
  }

  /** So when a port is removed from the middle (a text variable deleted), each later
      port takes over the handle id of the port before it. */
  lemma RemovalShiftsHandles<P>(nodeId: string, side: Side, ports: seq<P>, k: nat, m: nat)
    requires k <= m && m + 1 < |ports|
    ensures (ports[..k] + ports[k + 1..])[m] == ports[m + 1]
    ensures Handles(nodeId, side, ports[..k] + ports[k + 1..])[m].id
              == Handles(nodeId, side, ports)[m].id
              == HandleId(nodeId, side, m)
  {
  }

  // ---------------------------------------------------------------------------
  // Delete

  /** A change handed to the flow store's `onNodesChange`. */
  datatype NodeChange = Remove(id: string)

  /** The frame's delete state: whether the confirmation dialog is open. */
  datatype DeleteDialog = DeleteDialog(open: bool)

  /** `handleDelete`: the delete button only opens the dialog. */
  function HandleDelete(d: DeleteDialog): (r: (DeleteDialog, seq<NodeChange>))
    ensures r.0.open && r.1 == []
  {
    (DeleteDialog(true), [])
  }

  /** `confirmDelete`: one removal of this node, and the dialog closes. */
  function ConfirmDelete(nodeId: string, d: DeleteDialog): (r: (DeleteDialog, seq<NodeChange>))
    ensures !r.0.open && r.1 == [Remove(nodeId)]
  {
    (DeleteDialog(false), [Remove(nodeId)])
  }

  /** The dialog's `onClose`: closes without removing anything. */
  function CancelDelete(d: DeleteDialog): (r: (DeleteDialog, seq<NodeChange>))
    ensures !r.0.open && r.1 == []
  {
    (DeleteDialog(false), [])
  }

  /** A node is removed only through the dialog: pressing delete then confirming emits
      exactly one removal, of this node; pressing delete then cancelling emits none. */
  lemma DeleteNeedsConfirmation(nodeId: string, d: DeleteDialog)
    ensures HandleDelete(d).1 + ConfirmDelete(nodeId, HandleDelete(d).0).1 == [Remove(nodeId)]
    ensures HandleDelete(d).1 + CancelDelete(HandleDelete(d).0).1 == []
    ensures !CancelDelete(HandleDelete(d).0).0.open
  {
  }
}
