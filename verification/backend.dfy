/** The backend's `/pipelines/parse` endpoint: decode the submitted pipeline, count its
    nodes and edges, and report whether its edges form a DAG; every failure becomes an
    `error` message instead. */
module Backend {
  import opened Js
  import Dag

  /** A computation that either answers or raises an exception with a message. */
  datatype Result<+T> = Ok(value: T) | Err(error: string)

  /** A node object as decoded: its `id`, when the key is present. */
  datatype NodeRec = NodeRec(id: Option<string>)

  /** An edge object as decoded: its `source` and `target`, when the keys are present. */
  datatype EdgeRec = EdgeRec(source: Option<string>, target: Option<string>)

  /** The decoded JSON value: something other than an object (named by its Python type,
      e.g. `list` or `NoneType`), or an object whose `nodes` and `edges` keys may be
      missing. */
  datatype Body = NotAnObject(typeName: string) | Object(nodes: Option<seq<NodeRec>>, edges: Option<seq<EdgeRec>>)

  /** The `pipeline` form field: text that is not JSON, or a decoded JSON value. */
  datatype Request = InvalidJson | Json(body: Body)

  /** The endpoint's JSON answer. */
  datatype Response = Summary(numNodes: nat, numEdges: nat, isDag: bool) | Error(message: string)

  const InvalidJsonMessage := "Invalid JSON format"

  /** `str(KeyError(key))`: the key in single quotes. */
  function KeyMessage(key: string): string {
    "'" + key + "'"
  }

  /** `str(AttributeError)` for `.get` on a value of another type. */
  function NoGetMessage(typeName: string): string {
    "'" + typeName + "' object has no attribute 'get'"
  }

  /** `data.get(key, [])` */
  function OrEmpty<T>(o: Option<seq<T>>): (r: seq<T>)
    ensures o.Some? ==> r == o.value
    ensures o.None? ==> r == []
  {
    if o.Some? then o.value else []
  }

  predicate Complete(e: EdgeRec) {
    e.source.Some? && e.target.Some?
  }

  /** The message of the `KeyError` an incomplete edge raises: `source` is read first. */
  function EdgeKeyMessage(e: EdgeRec): string {
    if e.source.None? then KeyMessage("source") else KeyMessage("target")
  }

  /** The edge loop fails first at edge `k`: all edges before it have both keys. */
  predicate FirstIncompleteEdge(edges: seq<EdgeRec>, k: int) {
    0 <= k < |edges| && !Complete(edges[k]) && forall i :: 0 <= i < k ==> Complete(edges[i])
  }

  /** The error the edge loop of `is_dag` raises, if any. */
  function EdgeError(edges: seq<EdgeRec>): (r: Option<string>)
    ensures r.None? <==> forall i :: 0 <= i < |edges| ==> Complete(edges[i])
    ensures r.Some? ==> exists k :: FirstIncompleteEdge(edges, k) && r.value == EdgeKeyMessage(edges[k])
    decreases |edges|
  {
    if edges == [] then None
    else if !Complete(edges[0]) then
      assert FirstIncompleteEdge(edges, 0);
      Some(EdgeKeyMessage(edges[0]))
    else
      var r := EdgeError(edges[1..]);
      assert forall i :: 1 <= i < |edges| ==> edges[i] == edges[1..][i - 1];
      if r.Some? then
        var k :| FirstIncompleteEdge(edges[1..], k) && r.value == EdgeKeyMessage(edges[1..][k]);
        assert FirstIncompleteEdge(edges, k + 1);
        r
      else r
  }

  /** The error the queue comprehension raises, if any: a node without `id`. */
  function NodeError(nodes: seq<NodeRec>): (r: Option<string>)
    ensures r.None? <==> forall i :: 0 <= i < |nodes| ==> nodes[i].id.Some?
    ensures r.Some? ==> r.value == KeyMessage("id")
  {
    if forall i :: 0 <= i < |nodes| ==> nodes[i].id.Some? then None else Some(KeyMessage("id"))
  }

  function Ids(nodes: seq<NodeRec>): (r: seq<string>)
    requires forall i :: 0 <= i < |nodes| ==> nodes[i].id.Some?
    ensures |r| == |nodes| && forall i :: 0 <= i < |r| ==> r[i] == nodes[i].id.value
  {
    seq(|nodes|, i requires 0 <= i < |nodes| => nodes[i].id.value)
  }

  function Edges(edges: seq<EdgeRec>): (r: seq<Dag.Edge>)
    requires forall i :: 0 <= i < |edges| ==> edges[i].source.Some? && edges[i].target.Some?
    ensures |r| == |edges|
    ensures forall i :: 0 <= i < |r| ==> r[i] == (edges[i].source.value, edges[i].target.value)
  {
    seq(|edges|, i requires 0 <= i < |edges| => (edges[i].source.value, edges[i].target.value))
  }

  /** Every node and edge object carries the keys `is_dag` reads. */
  predicate Readable(nodes: seq<NodeRec>, edges: seq<EdgeRec>) {
    (forall i :: 0 <= i < |nodes| ==> nodes[i].id.Some?)
    && (forall i :: 0 <= i < |edges| ==> Complete(edges[i]))
  }

  /** `is_dag(nodes, edges)` with its failures: the edge loop's `KeyError` first, then the
      queue comprehension's, otherwise the answer. */
  function CheckDag(nodes: seq<NodeRec>, edges: seq<EdgeRec>): (r: Result<bool>)
    ensures r.Ok? <==> Readable(nodes, edges)
    ensures r.Ok? ==> r.value == Dag.AllProcessed(Ids(nodes), Edges(edges))
    ensures EdgeError(edges).Some? ==> r == Err(EdgeError(edges).value)
    ensures EdgeError(edges).None? && NodeError(nodes).Some? ==> r == Err(KeyMessage("id"))
  {
    match EdgeError(edges)
    case Some(msg) => Err(msg)
    case None =>
      match NodeError(nodes)
      case Some(msg) => Err(msg)
      case None => Ok(Dag.AllProcessed(Ids(nodes), Edges(edges)))
  }

  /** `parse_pipeline(pipeline)`. */
  function ParsePipeline(req: Request): (r: Response)
    ensures req.InvalidJson? <==> r == Error(InvalidJsonMessage)
    ensures req.Json? && req.body.NotAnObject? ==> r == Error(NoGetMessage(req.body.typeName))
    ensures r.Summary? <==>
              req.Json? && req.body.Object?
              && Readable(OrEmpty(req.body.nodes), OrEmpty(req.body.edges))
    ensures r.Summary? ==>
              r.numNodes == |OrEmpty(req.body.nodes)| && r.numEdges == |OrEmpty(req.body.edges)|
              && r.isDag == Dag.AllProcessed(Ids(OrEmpty(req.body.nodes)), Edges(OrEmpty(req.body.edges)))
  {
    match req
    case InvalidJson => Error(InvalidJsonMessage)
    case Json(NotAnObject(t)) =>
      assert NoGetMessage(t)[0] == '\'' != InvalidJsonMessage[0];
      Error(NoGetMessage(t))
    case Json(Object(n, e)) =>
      var nodes := OrEmpty(n);
      var edges := OrEmpty(e);
      match CheckDag(nodes, edges)
      case Ok(b) => Summary(|nodes|, |edges|, b)
      case Err(msg) =>
        ErrorMessageIsKey(nodes, edges);
        Error(msg)
  }

  /** Every failure of `is_dag` names a missing key, so it cannot be taken for the
      decoding error. */
  lemma ErrorMessageIsKey(nodes: seq<NodeRec>, edges: seq<EdgeRec>)
    requires CheckDag(nodes, edges).Err?
    ensures CheckDag(nodes, edges).error in {KeyMessage("source"), KeyMessage("target"), KeyMessage("id")}
    ensures CheckDag(nodes, edges).error != InvalidJsonMessage
  {
    var msg := CheckDag(nodes, edges).error;
    assert msg in {KeyMessage("source"), KeyMessage("target"), KeyMessage("id")};
    assert msg[0] == '\'' != InvalidJsonMessage[0];
  }

  // ---------------------------------------------------------------------------
  // What the endpoint promises

  /** On a well-formed pipeline (distinct node ids, every edge between listed nodes) the
      endpoint reports a DAG exactly when the edges form no cycle. */
  lemma ParseReportsCycles(nodes: seq<NodeRec>, edges: seq<EdgeRec>)
    requires Readable(nodes, edges) && Dag.WellFormed(Ids(nodes), Edges(edges))
    ensures ParsePipeline(Json(Object(Some(nodes), Some(edges))))
              == Summary(|nodes|, |edges|, !Dag.HasCycle(Edges(edges)))
  {
    Dag.IsDagCorrect(Ids(nodes), Edges(edges));
  }

  /** An object without `nodes` and `edges` is the empty pipeline: no nodes, no edges, a
      DAG. */
  lemma MissingKeysAreEmpty()
    ensures ParsePipeline(Json(Object(None, None))) == Summary(0, 0, true)
  {
    Dag.NoNodesIsDag([]);
  }

  /** The edges are read before the nodes: with an incomplete edge, the error names the
      edge's missing key even when a node lacks its `id` too. */
  lemma EdgesAreReadFirst(nodes: seq<NodeRec>, edges: seq<EdgeRec>, k: nat)
    requires FirstIncompleteEdge(edges, k)
    ensures ParsePipeline(Json(Object(Some(nodes), Some(edges)))) == Error(EdgeKeyMessage(edges[k]))
  {
    var r := EdgeError(edges);
    var k' :| FirstIncompleteEdge(edges, k') && r.value == EdgeKeyMessage(edges[k']);
    assert !(k' < k) && !(k < k');
  }
}
