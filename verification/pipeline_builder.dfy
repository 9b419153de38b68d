/** The pipeline builder screen: adding a node of the selected type, clearing the
    pipeline, and saving it under a non-blank name. */
module PipelineBuilder {
  import opened Js

  datatype Point = Point(x: int, y: int)

  /** A node as the builder creates it: id, type, position and `data.label`. */
  datatype FlowNode = FlowNode(id: string, kind: string, position: Point, dataLabel: string)

  /** An edge of the flow; the builder only stores and clears them. */
  datatype Edge = Edge(source: string, target: string)

  /** The builder's component state. */
  datatype Builder = Builder(
    nodes: seq<FlowNode>,
    edges: seq<Edge>,
    name: string,
    description: string,
    selectedType: string)

  const InitialBuilder := Builder([], [], "", "", "text")

  /** `${type}-${n}` */
  function NodeId(kind: string, n: nat): string {
    kind + "-" + NatToString(n)
  }

  /** The node `addNode` creates when the builder holds `count` nodes. */
  function NewNode(kind: string, count: nat): FlowNode {
    FlowNode(NodeId(kind, count + 1), kind, Point(100, 100 + count * 100), kind + " node")
  }

  /** `addNode()`: appends a node of the selected type, numbered one past the current
      node count and placed 100 below the previous slot; nothing else changes. */
  function AddNode(b: Builder): (r: Builder)
    ensures |r.nodes| == |b.nodes| + 1 && r.nodes[..|b.nodes|] == b.nodes
    ensures r.nodes[|b.nodes|].kind == b.selectedType
    ensures r.nodes[|b.nodes|].id == NodeId(b.selectedType, |b.nodes| + 1)
    ensures r.nodes[|b.nodes|].position == Point(100, 100 + 100 * |b.nodes|)
    ensures r.nodes[|b.nodes|].dataLabel == b.selectedType + " node"
    ensures r.(nodes := b.nodes) == b
  {
    b.(nodes := b.nodes + [NewNode(b.selectedType, |b.nodes|)])
  }

  /** Two ids built from hyphen-free types are equal only for the same type and number. */
  lemma NodeIdInjective(k1: string, n1: nat, k2: string, n2: nat)
    requires '-' !in k1 && '-' !in k2
    ensures NodeId(k1, n1) == NodeId(k2, n2) ==> k1 == k2 && n1 == n2
  {
    var a := NodeId(k1, n1);
    var b := NodeId(k2, n2);
    if a == b {
      assert a[|k1|] == '-' && b[|k2|] == '-';
      assert k1 == a[..|k1|] == b[..|k2|] == k2;
      assert a[|k1| + 1..] == NatToString(n1);
      assert b[|k2| + 1..] == NatToString(n2);
      NatToStringInjective(n1, n2);
    }
  }

  /** Nodes that were only ever added (never removed): the node at index `i` is numbered
      `i + 1`, and types carry no hyphen. */
  predicate OnlyAdded(nodes: seq<FlowNode>) {
    forall i :: 0 <= i < |nodes| ==> '-' !in nodes[i].kind && nodes[i].id == NodeId(nodes[i].kind, i + 1)
  }

  predicate DistinctIds(nodes: seq<FlowNode>) {
    forall i, j :: 0 <= i < j < |nodes| ==> nodes[i].id != nodes[j].id
  }

  /** Adding keeps the numbering, and as long as nothing is removed no id repeats. */
  lemma AddNodeKeepsIdsDistinct(b: Builder)
    requires OnlyAdded(b.nodes) && '-' !in b.selectedType
    ensures OnlyAdded(AddNode(b).nodes)
    ensures DistinctIds(AddNode(b).nodes)
  {
    var ns := AddNode(b).nodes;
    forall i, j | 0 <= i < j < |ns| ensures ns[i].id != ns[j].id {
      NodeIdInjective(ns[i].kind, i + 1, ns[j].kind, j + 1);
    }
  }

  /** Once a node has been removed, the numbering can repeat: remove `text-1` from
      `[text-1, text-2]` and the next text node is `text-2` again. */
  lemma AddAfterRemovalRepeatsId()
    ensures var b := Builder([NewNode("text", 1)], [], "", "", "text");
            AddNode(b).nodes[0].id == AddNode(b).nodes[1].id
  {
  }

  /** `clearPipeline()`: no nodes, no edges, empty name and description; the selected
      node type is kept. */
  function ClearPipeline(b: Builder): (r: Builder)
    ensures r.nodes == [] && r.edges == [] && r.name == "" && r.description == ""
    ensures r.selectedType == b.selectedType
  {
    Builder([], [], "", "", b.selectedType)
  }

  /** Clearing returns the builder to its initial state, up to the selected type, and
      clearing twice is clearing once. */
  lemma ClearResets(b: Builder)
    ensures ClearPipeline(b) == InitialBuilder.(selectedType := b.selectedType)
    ensures ClearPipeline(ClearPipeline(b)) == ClearPipeline(b)
  {
  }

  // ---------------------------------------------------------------------------
  // Saving

  /** The characters `String.prototype.trim` removes: white space and line terminators. */
  predicate IsJsSpace(c: char) {
    var n := c as int;
    n == 0x09 || n == 0x0A || n == 0x0B || n == 0x0C || n == 0x0D || n == 0x20
    || n == 0xA0 || n == 0x1680 || (0x2000 <= n <= 0x200A) || n == 0x2028 || n == 0x2029
    || n == 0x202F || n == 0x205F || n == 0x3000 || n == 0xFEFF
  }

  function TrimStart(s: string): (r: string)
    ensures |r| <= |s| && r == s[|s| - |r|..]
    ensures r == [] || !IsJsSpace(r[0])
    ensures forall i :: 0 <= i < |s| - |r| ==> IsJsSpace(s[i])
    decreases |s|
  {
    if s != [] && IsJsSpace(s[0]) then TrimStart(s[1..]) else s
  }

  function TrimEnd(s: string): (r: string)
    ensures |r| <= |s| && r == s[..|r|]
    ensures r == [] || !IsJsSpace(r[|r| - 1])
    ensures forall i :: |r| <= i < |s| ==> IsJsSpace(s[i])
    decreases |s|
  {
    if s != [] && IsJsSpace(s[|s| - 1]) then TrimEnd(s[..|s| - 1]) else s
  }

  /** `s.trim()` */
  function Trim(s: string): (r: string)
    ensures |r| <= |s|
    ensures r == [] || (!IsJsSpace(r[0]) && !IsJsSpace(r[|r| - 1]))
  {
    TrimEnd(TrimStart(s))
  }

  /** A name trims to nothing exactly when every character of it is white space. */
  lemma TrimEmptyIff(s: string)
    ensures Trim(s) == "" <==> forall i :: 0 <= i < |s| ==> IsJsSpace(s[i])
  {
    var t := TrimStart(s);
    if Trim(s) == "" {
      forall i | 0 <= i < |s| ensures IsJsSpace(s[i]) {
        if i >= |s| - |t| {
          assert s[i] == t[i - (|s| - |t|)];
        }
      }
    } else {
      assert !IsJsSpace(Trim(s)[0]);
      assert Trim(s)[0] == t[0] == s[|s| - |t|];
    }
  }

  /** What a save hands on: the name as typed, the description, nodes and edges. */
  datatype Pipeline = Pipeline(name: string, description: string, nodes: seq<FlowNode>, edges: seq<Edge>)

  /** The outcome of `savePipeline()`: an error toast, or the pipeline saved. */
  datatype SaveOutcome = Rejected(message: string) | Saved(pipeline: Pipeline)

  const BlankNameMessage := "Please enter a pipeline name"

  /** `savePipeline()`: refuses a blank name, otherwise saves the current pipeline. */
  function SavePipeline(b: Builder): (r: SaveOutcome)
    ensures r.Rejected? <==> forall i :: 0 <= i < |b.name| ==> IsJsSpace(b.name[i])
    ensures r.Rejected? ==> r.message == BlankNameMessage
    ensures r.Saved? ==> r.pipeline == Pipeline(b.name, b.description, b.nodes, b.edges)
  {
    TrimEmptyIff(b.name);
    if Trim(b.name) == "" then Rejected(BlankNameMessage)
    else Saved(Pipeline(b.name, b.description, b.nodes, b.edges))
  }

  /** A cleared pipeline cannot be saved until it is named again. */
  lemma ClearedCannotBeSaved(b: Builder)
    ensures SavePipeline(ClearPipeline(b)) == Rejected(BlankNameMessage)
  {
  }
}
