/** The backend's acyclicity test `is_dag` (Kahn's algorithm): count the nodes that can be
    taken in an order where every edge's source comes first, and compare the count with
    the number of listed nodes. */
module Dag {
  import opened Seqs

  /** An edge `(source, target)` between node ids. */
  type Edge = (string, string)

  predicate IsEdge(es: seq<Edge>, u: string, v: string) {
    (u, v) in es
  }

  /** `c` is a closed walk: each node has an edge to the next, and the last to the first. */
  predicate IsCycle(es: seq<Edge>, c: seq<string>) {
    |c| >= 1
    && (forall t :: 0 <= t < |c| - 1 ==> IsEdge(es, c[t], c[t + 1]))
    && IsEdge(es, c[|c| - 1], c[0])
  }

  ghost predicate HasCycle(es: seq<Edge>) {
    exists c :: IsCycle(es, c)
  }

  /** The input the test is meant for: node ids listed once each, and every edge between
      listed nodes. */
  predicate WellFormed(ids: seq<string>, es: seq<Edge>) {
    Distinct(ids) && forall e :: e in es ==> e.0 in ids && e.1 in ids
  }

  // ---------------------------------------------------------------------------
  // The algorithm, step by step

  /** A `defaultdict(int)` read: missing keys read as 0. */
  function Get(m: map<string, int>, k: string): int {
    if k in m then m[k] else 0
  }

  /** `graph[u]` once the edge loop is done: the targets of `u`'s edges, in edge order. */
  function Succ(es: seq<Edge>, u: string): seq<string>
    decreases |es|
  {
    if es == [] then []
    else
      var e := es[|es| - 1];
      Succ(es[..|es| - 1], u) + (if e.0 == u then [e.1] else [])
  }

  /** `in_degree` once the edge loop is done. */
  function InDegrees(es: seq<Edge>): map<string, int>
    decreases |es|
  {
    if es == [] then map[]
    else
      var m := InDegrees(es[..|es| - 1]);
      var t := es[|es| - 1].1;
      m[t := Get(m, t) + 1]
  }

  /** The inner loop over `graph[node]`: each neighbour loses one from its in-degree and
      joins the queue when that reaches exactly 0. */
  function Release(m: map<string, int>, nbrs: seq<string>, q: seq<string>): (r: (map<string, int>, seq<string>))
    decreases |nbrs|
  {
    if nbrs == [] then (m, q)
    else
      var n := nbrs[0];
      var d := Get(m, n) - 1;
      Release(m[n := d], nbrs[1..], if d == 0 then q + [n] else q)
  }

  /** The keys whose in-degree is still positive. */
  function Positive(m: map<string, int>): set<string> {
    set k | k in m && m[k] > 0
  }

  /** The outer loop: pop the queue's head, count it as processed, release its
      neighbours.  The result is the processing order; its length is `processed`. */
  function Drain(es: seq<Edge>, m: map<string, int>, q: seq<string>, done: seq<string>): seq<string>
    decreases |q| + |Positive(m)|
  {
    if q == [] then done
    else
      var u := q[0];
      var r := Release(m, Succ(es, u), q[1..]);
      DrainMeasure(m, Succ(es, u), q[1..]);
      Drain(es, r.0, r.1, done + [u])
  }

  /** The initial queue: the listed ids whose in-degree is 0, in list order (an id listed
      twice is queued twice). */
  function InitialQueue(ids: seq<string>, es: seq<Edge>): seq<string> {
    Filter(ids, (v: string) => Get(InDegrees(es), v) == 0)
  }

  /** The nodes `is_dag(nodes, edges)` processes, in processing order. */
  function ProcessingOrder(ids: seq<string>, es: seq<Edge>): seq<string> {
    Drain(es, InDegrees(es), InitialQueue(ids, es), [])
  }

  /** What `is_dag(nodes, edges)` returns: every listed node was processed. */
  function AllProcessed(ids: seq<string>, es: seq<Edge>): bool {
    |ProcessingOrder(ids, es)| == |ids|
  }

  // ---------------------------------------------------------------------------
  // Counting edges

  /** The number of edges `u -> v`. */
  function EdgeCount(es: seq<Edge>, u: string, v: string): nat
    decreases |es|
  {
    if es == [] then 0
    else EdgeCount(es[..|es| - 1], u, v) + (if es[|es| - 1] == (u, v) then 1 else 0)
  }

  /** The number of edges into `v` whose source has not been processed yet. */
  function Remaining(es: seq<Edge>, done: seq<string>, v: string): nat
    decreases |es|
  {
    if es == [] then 0
    else
      var e := es[|es| - 1];
      Remaining(es[..|es| - 1], done, v) + (if e.1 == v && e.0 !in done then 1 else 0)
  }

  lemma {:induction false} SuccCountsEdges(es: seq<Edge>, u: string, v: string)
    ensures Occurrences(Succ(es, u), v) == EdgeCount(es, u, v)
    decreases |es|
  {
    if es != [] {
      var e := es[|es| - 1];
      SuccCountsEdges(es[..|es| - 1], u, v);
      if e.0 == u {
        OccurrencesSnoc(Succ(es[..|es| - 1], u), e.1, v);
      } else {
        assert Succ(es, u) == Succ(es[..|es| - 1], u);
      }
    }
  }

  lemma {:induction false} InDegreesCount(es: seq<Edge>, v: string)
    ensures Get(InDegrees(es), v) == Remaining(es, [], v)
    decreases |es|
  {
    if es != [] {
      InDegreesCount(es[..|es| - 1], v);
    }
  }

  /** Processing `u` takes its edges out of the remaining count. */
  lemma {:induction false} RemainingStep(es: seq<Edge>, done: seq<string>, u: string, v: string)
    requires u !in done
    ensures Remaining(es, done, v) == Remaining(es, done + [u], v) + EdgeCount(es, u, v)
    decreases |es|
  {
    if es != [] {
      RemainingStep(es[..|es| - 1], done, u, v);
    }
  }

  /** No edge into `v` remains exactly when all of its sources have been processed. */
  lemma {:induction false} RemainingZero(es: seq<Edge>, done: seq<string>, v: string)
    ensures Remaining(es, done, v) == 0 <==> forall w :: IsEdge(es, w, v) ==> w in done
    decreases |es|
  {
    if es != [] {
      var init := es[..|es| - 1];
      var e := es[|es| - 1];
      RemainingZero(init, done, v);
      assert es == init + [e];
      assert forall w :: IsEdge(es, w, v) <==> IsEdge(init, w, v) || e == (w, v);
    }
  }

  // ---------------------------------------------------------------------------
  // Release and termination

  lemma {:induction false} ReleaseSpec(m: map<string, int>, nbrs: seq<string>, q: seq<string>)
    ensures forall x :: Get(Release(m, nbrs, q).0, x) == Get(m, x) - Occurrences(nbrs, x)
    ensures |q| <= |Release(m, nbrs, q).1| && Release(m, nbrs, q).1[..|q|] == q
    ensures forall x :: x in Release(m, nbrs, q).1[|q|..] <==> 1 <= Get(m, x) <= Occurrences(nbrs, x)
    ensures Distinct(Release(m, nbrs, q).1[|q|..])
    decreases |nbrs|
  {
    if nbrs != [] {
      var n := nbrs[0];
      var d := Get(m, n) - 1;
      var m1 := m[n := d];
      var q1 := if d == 0 then q + [n] else q;
      ReleaseSpec(m1, nbrs[1..], q1);
      var r := Release(m, nbrs, q).1;
      assert r == Release(m1, nbrs[1..], q1).1;
      assert r[..|q1|] == q1;
      assert r[..|q|] == q by { assert q1[..|q|] == q; }
      var extra := r[|q1|..];
      if d == 0 {
        assert r[|q|..] == [n] + extra;
        assert n !in extra;
      } else {
        assert r[|q|..] == extra;
      }
    }
  }

  /** Each pop shrinks `|queue| + |keys with positive in-degree|`: a neighbour joins the
      queue only as its in-degree drops from 1 to 0, and in-degrees never rise. */
  lemma DrainMeasure(m: map<string, int>, nbrs: seq<string>, q: seq<string>)
    ensures |Release(m, nbrs, q).1| + |Positive(Release(m, nbrs, q).0)| <= |q| + |Positive(m)|
  {
    ReleaseSpec(m, nbrs, q);
    var r := Release(m, nbrs, q);
    var extra := r.1[|q|..];
    var xs := set x | x in extra;
    DistinctCardinality(extra);
    assert r.1 == q + extra;
    forall x | x in Positive(r.0) ensures x in Positive(m) {
      assert Get(r.0, x) > 0;
    }
    forall x | x in xs ensures x in Positive(m) && x !in Positive(r.0) {
      assert Get(m, x) >= 1;
    }
    SubsetCardinality(Positive(r.0) + xs, Positive(m));
  }

  // ---------------------------------------------------------------------------
  // Correctness

  /** The in-degree map counts, for each listed node, the edges into it from unprocessed
      sources. */
  ghost predicate Counted(ids: seq<string>, es: seq<Edge>, m: map<string, int>, done: seq<string>) {
    forall v :: v in ids ==> Get(m, v) == Remaining(es, done, v)
  }

  /** Processed and queued nodes are listed nodes, none of them twice. */
  predicate Listed(ids: seq<string>, dq: seq<string>) {
    Distinct(dq) && forall x :: x in dq ==> x in ids
  }

  /** Every listed node whose in-degree reached 0 has been processed or queued. */
  predicate ZerosQueued(ids: seq<string>, m: map<string, int>, dq: seq<string>) {
    forall v :: v in ids && Get(m, v) == 0 ==> v in dq
  }

  /** Processed and queued nodes have no edge left from an unprocessed source. */
  ghost predicate Cleared(es: seq<Edge>, done: seq<string>, dq: seq<string>) {
    forall x :: x in dq ==> Remaining(es, done, x) == 0
  }

  /** Every processed node comes after all of its sources. */
  ghost predicate Topological(es: seq<Edge>, done: seq<string>) {
    forall i, w :: 0 <= i < |done| && IsEdge(es, w, done[i]) ==> w in done[..i]
  }

  /** What holds between two pops, for a well-formed input. */
  ghost predicate Inv(ids: seq<string>, es: seq<Edge>, m: map<string, int>, q: seq<string>, done: seq<string>) {
    && Counted(ids, es, m, done)
    && Listed(ids, done + q)
    && ZerosQueued(ids, m, done + q)
    && Cleared(es, done, done + q)
    && Topological(es, done)
  }

  lemma InvInit(ids: seq<string>, es: seq<Edge>)
    requires WellFormed(ids, es)
    ensures Inv(ids, es, InDegrees(es), InitialQueue(ids, es), [])
  {
    var m := InDegrees(es);
    var q := InitialQueue(ids, es);
    forall v ensures Get(m, v) == Remaining(es, [], v) {
      InDegreesCount(es, v);
    }
    FilterDistinct(ids, (v: string) => Get(InDegrees(es), v) == 0);
    assert [] + q == q;
  }

  /** One pop: the queue loses its head and gains the neighbours whose in-degree the
      head's edges bring down to exactly 0. */
  lemma StepShape(ids: seq<string>, es: seq<Edge>, m: map<string, int>, q: seq<string>, done: seq<string>)
    requires Listed(ids, done + q) && q != []
    ensures var r := Release(m, Succ(es, q[0]), q[1..]);
            |q| - 1 <= |r.1| && r.1 == q[1..] + r.1[|q| - 1..]
            && (done + [q[0]]) + r.1 == (done + q) + r.1[|q| - 1..]
            && q[0] !in done
            && (forall x :: Get(r.0, x) == Get(m, x) - EdgeCount(es, q[0], x))
            && (forall x :: x in r.1[|q| - 1..] <==> 1 <= Get(m, x) <= EdgeCount(es, q[0], x))
            && Distinct(r.1[|q| - 1..])
  {
    var u := q[0];
    var nbrs := Succ(es, u);
    var r := Release(m, nbrs, q[1..]);
    ReleaseSpec(m, nbrs, q[1..]);
    PopShape(done, q, r.1);
    HeadNotDone(done, q);
    forall x ensures Get(r.0, x) == Get(m, x) - EdgeCount(es, u, x) {
      SuccCountsEdges(es, u, x);
    }
  }

  /** The queue after a pop is its tail followed by what was appended. */
  lemma PopShape(done: seq<string>, q: seq<string>, q': seq<string>)
    requires q != [] && |q| - 1 <= |q'| && q'[..|q| - 1] == q[1..]
    ensures q' == q[1..] + q'[|q| - 1..]
    ensures (done + [q[0]]) + q' == (done + q) + q'[|q| - 1..]
  {
    assert q' == q[1..] + q'[|q| - 1..];
    assert q == [q[0]] + q[1..];
  }

  /** The head of the queue has not been processed yet. */
  lemma HeadNotDone(done: seq<string>, q: seq<string>)
    requires Distinct(done + q) && q != []
    ensures q[0] !in done
  {
    forall i | 0 <= i < |done| ensures done[i] != q[0] {
      assert (done + q)[i] == done[i] && (done + q)[|done|] == q[0];
    }
  }

  lemma StepCounted(ids: seq<string>, es: seq<Edge>, m: map<string, int>, u: string, rest: seq<string>, done: seq<string>)
    requires Counted(ids, es, m, done) && u !in done
    requires forall x :: Get(Release(m, Succ(es, u), rest).0, x) == Get(m, x) - EdgeCount(es, u, x)
    ensures Counted(ids, es, Release(m, Succ(es, u), rest).0, done + [u])
  {
    forall v | v in ids ensures Get(Release(m, Succ(es, u), rest).0, v) == Remaining(es, done + [u], v) {
      RemainingStep(es, done, u, v);
    }
  }

  /** A released neighbour is a listed node that was neither processed nor queued. */
  lemma StepNewcomer(ids: seq<string>, es: seq<Edge>, m: map<string, int>, q: seq<string>, done: seq<string>, x: string)
    requires WellFormed(ids, es) && Counted(ids, es, m, done) && Cleared(es, done, done + q) && q != []
    requires 1 <= Get(m, x) <= EdgeCount(es, q[0], x)
    ensures x in ids && x !in done + q
  {
    EdgeCountPositive(es, q[0], x);
  }

  lemma StepListed(ids: seq<string>, es: seq<Edge>, m: map<string, int>, q: seq<string>, done: seq<string>)
    requires WellFormed(ids, es) && Inv(ids, es, m, q, done) && q != []
    ensures var r := Release(m, Succ(es, q[0]), q[1..]);
            Listed(ids, (done + [q[0]]) + r.1)
  {
    StepShape(ids, es, m, q, done);
    var r := Release(m, Succ(es, q[0]), q[1..]);
    var extra := r.1[|q| - 1..];
    forall x | x in extra ensures x in ids && x !in done + q {
      StepNewcomer(ids, es, m, q, done, x);
    }
    DistinctConcat(done + q, extra);
  }

  lemma StepZerosQueued(ids: seq<string>, es: seq<Edge>, m: map<string, int>, q: seq<string>, done: seq<string>)
    requires Inv(ids, es, m, q, done) && q != []
    ensures var r := Release(m, Succ(es, q[0]), q[1..]);
            ZerosQueued(ids, r.0, (done + [q[0]]) + r.1)
  {
    StepShape(ids, es, m, q, done);
  }

  lemma StepCleared(ids: seq<string>, es: seq<Edge>, m: map<string, int>, q: seq<string>, done: seq<string>)
    requires WellFormed(ids, es) && Inv(ids, es, m, q, done) && q != []
    ensures var r := Release(m, Succ(es, q[0]), q[1..]);
            Cleared(es, done + [q[0]], (done + [q[0]]) + r.1)
  {
    StepShape(ids, es, m, q, done);
    var u := q[0];
    var r := Release(m, Succ(es, u), q[1..]);
    forall x | x in (done + [u]) + r.1 ensures Remaining(es, done + [u], x) == 0 {
      RemainingStep(es, done, u, x);
      if x !in done + q {
        StepNewcomer(ids, es, m, q, done, x);
      }
    }
  }

  lemma StepTopological(ids: seq<string>, es: seq<Edge>, m: map<string, int>, q: seq<string>, done: seq<string>)
    requires Inv(ids, es, m, q, done) && q != []
    ensures Topological(es, done + [q[0]])
  {
    var u := q[0];
    var done' := done + [u];
    assert u in done + q;
    forall i, w | 0 <= i < |done'| && IsEdge(es, w, done'[i]) ensures w in done'[..i] {
      if i < |done| {
        assert done'[i] == done[i] && done'[..i] == done[..i];
      } else {
        RemainingZero(es, done, u);
        assert done'[..i] == done;
      }
    }
  }

  lemma InvStep(ids: seq<string>, es: seq<Edge>, m: map<string, int>, q: seq<string>, done: seq<string>)
    requires WellFormed(ids, es) && Inv(ids, es, m, q, done) && q != []
    ensures var r := Release(m, Succ(es, q[0]), q[1..]);
            Inv(ids, es, r.0, r.1, done + [q[0]])
  {
    StepShape(ids, es, m, q, done);
    StepCounted(ids, es, m, q[0], q[1..], done);
    StepListed(ids, es, m, q, done);
    StepZerosQueued(ids, es, m, q, done);
    StepCleared(ids, es, m, q, done);
    StepTopological(ids, es, m, q, done);
  }

  lemma {:induction false} EdgeCountPositive(es: seq<Edge>, u: string, v: string)
    requires EdgeCount(es, u, v) > 0
    ensures IsEdge(es, u, v)
    decreases |es|
  {
    var init := es[..|es| - 1];
    assert es == init + [es[|es| - 1]];
    if es[|es| - 1] != (u, v) {
      EdgeCountPositive(init, u, v);
    }
  }

  /** The invariant carries through the whole loop. */
  lemma {:induction false} InvDrain(ids: seq<string>, es: seq<Edge>, m: map<string, int>, q: seq<string>, done: seq<string>)
    requires WellFormed(ids, es) && Inv(ids, es, m, q, done)
    ensures exists m' :: Inv(ids, es, m', [], Drain(es, m, q, done))
    decreases |q| + |Positive(m)|
  {
    if q == [] {
      assert Drain(es, m, q, done) == done;
      assert Inv(ids, es, m, [], done) by { assert done + q == done; assert done + [] == done; }
    } else {
      var u := q[0];
      var r := Release(m, Succ(es, u), q[1..]);
      DrainMeasure(m, Succ(es, u), q[1..]);
      InvStep(ids, es, m, q, done);
      InvDrain(ids, es, r.0, r.1, done + [u]);
      assert Drain(es, m, q, done) == Drain(es, r.0, r.1, done + [u]);
    }
  }

  /** An order in which every edge's source comes before its target admits no cycle. */
  lemma RankedNoCycle(es: seq<Edge>, d: seq<string>)
    requires forall w, v :: IsEdge(es, w, v) ==> w in d && v in d && FirstIndex(d, w) < FirstIndex(d, v)
    ensures !HasCycle(es)
  {
    if HasCycle(es) {
      var c :| IsCycle(es, c);
      ChainRises(es, d, c, |c| - 1);
    }
  }

  lemma {:induction false} ChainRises(es: seq<Edge>, d: seq<string>, c: seq<string>, t: nat)
    requires forall w, v :: IsEdge(es, w, v) ==> w in d && v in d && FirstIndex(d, w) < FirstIndex(d, v)
    requires IsCycle(es, c) && t < |c|
    ensures c[0] in d && c[t] in d && FirstIndex(d, c[0]) <= FirstIndex(d, c[t])
  {
    assert IsEdge(es, c[|c| - 1], c[0]);
    if t > 0 {
      ChainRises(es, d, c, t - 1);
      assert IsEdge(es, c[t - 1], c[t]);
    }
  }

  /** Some edge into `v` starts in `r`. */
  ghost predicate HasPredecessorIn(es: seq<Edge>, r: set<string>, v: string) {
    exists w :: w in r && IsEdge(es, w, v)
  }

  /** A finite set in which every node has a predecessor inside the set holds a cycle. */
  lemma CycleFromPredecessors(es: seq<Edge>, r: set<string>)
    requires r != {}
    requires forall v {:trigger HasPredecessorIn(es, r, v)} :: v in r ==> HasPredecessorIn(es, r, v)
    ensures HasCycle(es)
  {
    var v :| v in r;
    var walk := BackWalk(es, r, v, |r|);
    var xs := set x | x in walk;
    assert xs <= r;
    SubsetCardinality(xs, r);
    if Distinct(walk) {
      DistinctCardinality(walk);
      assert false;
    }
    var i, j :| 0 <= i < j < |walk| && walk[i] == walk[j];
    var c := seq(j - i, t requires 0 <= t < j - i => walk[j - t]);
    assert IsEdge(es, walk[i + 1], walk[i]);
    assert IsCycle(es, c);
  }

  /** A walk against the edges: `walk[k + 1] -> walk[k]` is an edge for every `k`. */
  lemma {:induction false} BackWalk(es: seq<Edge>, r: set<string>, v: string, n: nat) returns (walk: seq<string>)
    requires v in r
    requires forall v {:trigger HasPredecessorIn(es, r, v)} :: v in r ==> HasPredecessorIn(es, r, v)
    ensures |walk| == n + 1 && walk[0] == v
    ensures forall k :: 0 <= k < |walk| ==> walk[k] in r
    ensures forall k :: 0 <= k < |walk| - 1 ==> IsEdge(es, walk[k + 1], walk[k])
    decreases n
  {
    if n == 0 {
      walk := [v];
    } else {
      assert HasPredecessorIn(es, r, v);
      var w :| w in r && IsEdge(es, w, v);
      var rest := BackWalk(es, r, w, n - 1);
      walk := [v] + rest;
    }
  }

  /** `is_dag` answers correctly on well-formed input: it returns true exactly when the
      edges form no cycle. */
  lemma IsDagCorrect(ids: seq<string>, es: seq<Edge>)
    requires WellFormed(ids, es)
    ensures AllProcessed(ids, es) <==> !HasCycle(es)
  {
    InvInit(ids, es);
    InvDrain(ids, es, InDegrees(es), InitialQueue(ids, es), []);
    var d := ProcessingOrder(ids, es);
    var m :| Inv(ids, es, m, [], d);
    if |d| == |ids| {
      AllProcessedNoCycle(ids, es, m, d);
    } else {
      UnprocessedCycle(ids, es, m, d);
    }
  }

  /** When the loop ends with every node processed, the processing order ranks every
      edge's source first, so there is no cycle. */
  lemma AllProcessedNoCycle(ids: seq<string>, es: seq<Edge>, m: map<string, int>, d: seq<string>)
    requires WellFormed(ids, es) && Inv(ids, es, m, [], d) && |d| == |ids|
    ensures !HasCycle(es)
  {
    assert d + [] == d;
    var ds := set x | x in d;
    var vs := set x | x in ids;
    DistinctCardinality(d);
    DistinctCardinality(ids);
    assert ds <= vs;
    if vs - ds != {} {
      var x :| x in vs - ds;
      SubsetCardinality(ds, vs - {x});
      assert false;
    }
    forall w, v | IsEdge(es, w, v)
      ensures w in d && v in d && FirstIndex(d, w) < FirstIndex(d, v)
    {
      assert v in vs && w in vs;
      var i := FirstIndex(d, v);
      assert w in d[..i];
      var k :| 0 <= k < i && d[k] == w;
      assert FirstIndex(d, w) <= k;
    }
    RankedNoCycle(es, d);
  }

  /** When the loop ends with some node unprocessed, every unprocessed node still has an
      unprocessed predecessor, so the unprocessed nodes hold a cycle. */
  lemma UnprocessedCycle(ids: seq<string>, es: seq<Edge>, m: map<string, int>, d: seq<string>)
    requires WellFormed(ids, es) && Inv(ids, es, m, [], d) && |d| != |ids|
    ensures HasCycle(es)
  {
    assert d + [] == d;
    var ds := set x | x in d;
    var vs := set x | x in ids;
    DistinctCardinality(d);
    DistinctCardinality(ids);
    var r := vs - ds;
    assert r != {} by {
      assert ds <= vs;
      SubsetCardinality(ds, vs);
      if r == {} {
        forall x | x in vs ensures x in ds {
          assert x !in r;
        }
        SubsetCardinality(vs, ds);
      }
    }
    forall v | v in r ensures HasPredecessorIn(es, r, v) {
      assert Get(m, v) != 0;
      RemainingZero(es, d, v);
      var w :| IsEdge(es, w, v) && w !in d;
      assert w in r;
    }
    CycleFromPredecessors(es, r);
  }

  // ---------------------------------------------------------------------------
  // The loops as written

  /** `graph[u]` read from a `defaultdict(list)`. */
  function Targets(graph: map<string, seq<string>>, u: string): seq<string> {
    if u in graph then graph[u] else []
  }

  /** The edge loop of `is_dag`: append each edge's target to its source's list and count
      it into the target's in-degree. */
  method BuildGraph(es: seq<Edge>) returns (graph: map<string, seq<string>>, inDegree: map<string, int>)
    ensures forall u :: Targets(graph, u) == Succ(es, u)
    ensures inDegree == InDegrees(es)
  {
    graph, inDegree := map[], map[];
    var i := 0;
    while i < |es|
      invariant 0 <= i <= |es|
      invariant forall u :: Targets(graph, u) == Succ(es[..i], u)
      invariant inDegree == InDegrees(es[..i])
    {
      var source := es[i].0;
      var target := es[i].1;
      assert es[..i + 1][..i] == es[..i];
      graph := graph[source := Targets(graph, source) + [target]];
      inDegree := inDegree[target := Get(inDegree, target) + 1];
      i := i + 1;
    }
    assert es[..|es|] == es;
  }

  /** The inner loop of `is_dag` over one popped node's neighbours. */
  method ReleaseNeighbors(inDegree: map<string, int>, neighbors: seq<string>, queue: seq<string>)
    returns (inDegree': map<string, int>, queue': seq<string>)
    ensures (inDegree', queue') == Release(inDegree, neighbors, queue)
  {
    inDegree', queue' := inDegree, queue;
    var j := 0;
    while j < |neighbors|
      invariant 0 <= j <= |neighbors|
      invariant Release(inDegree', neighbors[j..], queue') == Release(inDegree, neighbors, queue)
    {
      var neighbor := neighbors[j];
      assert neighbors[j..][1..] == neighbors[j + 1..];
      inDegree' := inDegree'[neighbor := Get(inDegree', neighbor) - 1];
      if Get(inDegree', neighbor) == 0 {
        queue' := queue' + [neighbor];
      }
      j := j + 1;
    }
  }

  /** `is_dag(nodes, edges)`: build the adjacency lists and in-degrees, queue the listed
      nodes with in-degree 0, then pop from the front, counting, and release each popped
      node's targets. */
  method IsDag(ids: seq<string>, es: seq<Edge>) returns (result: bool)
    ensures result == AllProcessed(ids, es)
    ensures WellFormed(ids, es) ==> (result <==> !HasCycle(es))
  {
    var graph, inDegree := BuildGraph(es);
    var queue := Filter(ids, (v: string) => Get(inDegree, v) == 0);
    var processed := 0;
    ghost var done: seq<string> := [];
    while queue != []
      invariant Drain(es, inDegree, queue, done) == ProcessingOrder(ids, es)
      invariant processed == |done|
      decreases |queue| + |Positive(inDegree)|
    {
      var node := queue[0];
      DrainMeasure(inDegree, Targets(graph, node), queue[1..]);
      inDegree, queue := ReleaseNeighbors(inDegree, Targets(graph, node), queue[1..]);
      processed := processed + 1;
      done := done + [node];
    }
    result := processed == |ids|;
    if WellFormed(ids, es) {
      IsDagCorrect(ids, es);
    }
  }

  // ---------------------------------------------------------------------------
  // Consequences

  /** A node with an edge to itself is a cycle, so a well-formed pipeline with one is
      never reported as a DAG. */
  lemma SelfLoopIsNotDag(ids: seq<string>, es: seq<Edge>, v: string)
    requires WellFormed(ids, es) && (v, v) in es
    ensures !AllProcessed(ids, es)
  {
    assert IsCycle(es, [v]);
    IsDagCorrect(ids, es);
  }

  /** Without edges every list of distinct ids is a DAG. */
  lemma NoEdgesIsDag(ids: seq<string>)
    requires Distinct(ids)
    ensures AllProcessed(ids, [])
  {
    IsDagCorrect(ids, []);
  }

  /** An empty pipeline is a DAG, whatever the edges. */
  lemma NoNodesIsDag(es: seq<Edge>)
    ensures AllProcessed([], es)
  {
    assert InitialQueue([], es) == [];
  }

  /** A self-loop on a listed node that no listed node reaches is missed when an edge
      leads to an unlisted node: the unlisted node is processed in its place and the
      count still matches. */
  lemma UnlistedTargetHidesCycle()
    ensures HasCycle([("v", "v"), ("a", "x")])
    ensures AllProcessed(["v", "a"], [("v", "v"), ("a", "x")])
  {
    var es := [("v", "v"), ("a", "x")];
    assert IsCycle(es, ["v"]);
    assert es[..1] == [("v", "v")] && es[..1][..0] == [];
    assert InDegrees(es[..1]) == map["v" := 1];
    var m := InDegrees(es);
    assert m == map["v" := 1][("a", "x").1 := Get(map["v" := 1], "x") + 1];
    assert m == map["v" := 1, "x" := 1];
    assert InitialQueue(["v", "a"], es) == ["a"];
    assert Succ(es, "a") == ["x"];
    assert Succ(es, "x") == [];
    assert Drain(es, m, ["a"], []) == Drain(es, Release(m, ["x"], []).0, Release(m, ["x"], []).1, ["a"]);
    var r := Release(m, ["x"], []);
    assert r.1 == ["x"];
    assert Drain(es, r.0, ["x"], ["a"]) == ["a", "x"];
  }

  /** A node listed twice is queued twice; the extra pop can hide a self-loop. */
  lemma DuplicateIdHidesCycle()
    ensures HasCycle([("a", "v"), ("v", "v")])
    ensures AllProcessed(["a", "a", "v"], [("a", "v"), ("v", "v")])
  {
    var es := [("a", "v"), ("v", "v")];
    assert IsCycle(es, ["v"]);
    DuplicateIdStart();
    var m := InDegrees(es);
    var r1 := Release(m, ["v"], ["a"]);
    assert r1.1 == ["a"] && Get(r1.0, "v") == 1;
    var r2 := Release(r1.0, ["v"], []);
    assert r2.1 == ["v"] && Get(r2.0, "v") == 0;
    var r3 := Release(r2.0, ["v"], []);
    assert r3.1 == [];
    assert ["a", "a"][1..] == ["a"] && [] + ["a"] == ["a"];
    assert Drain(es, m, ["a", "a"], []) == Drain(es, r1.0, ["a"], ["a"]);
    assert Drain(es, r1.0, ["a"], ["a"]) == Drain(es, r2.0, ["v"], ["a", "a"]);
    assert Drain(es, r2.0, ["v"], ["a", "a"]) == Drain(es, r3.0, [], ["a", "a", "v"]);
  }

  /** The state `is_dag` starts from on the edges `a -> v`, `v -> v` with `a` listed
      twice. */
  lemma DuplicateIdStart()
    ensures var es := [("a", "v"), ("v", "v")];
            InDegrees(es) == map["v" := 2] && InitialQueue(["a", "a", "v"], es) == ["a", "a"]
            && Succ(es, "a") == ["v"] && Succ(es, "v") == ["v"]
  {
    var es := [("a", "v"), ("v", "v")];
    assert es[..1] == [("a", "v")] && es[..1][..0] == [];
    assert InDegrees(es[..1]) == map["v" := 1];
  }

  /** An edge from an unlisted node can make an acyclic pipeline read as not a DAG: here
      the unlisted source is never processed, so its target's in-degree stays positive
      for ever. */
  lemma UnlistedSourceReadsAsCycle()
    ensures !HasCycle([("x", "a")])
    ensures !AllProcessed(["a"], [("x", "a")])
  {
    var es := [("x", "a")];
    RankedNoCycle(es, ["x", "a"]);
    assert Get(InDegrees(es), "a") == 1;
    assert InitialQueue(["a"], es) == [];
  }

  /** An edge to an unlisted node is released like any other, so the unlisted node can
      be processed too: here the count overshoots and an acyclic pipeline is reported as
      not a DAG. */
  lemma UnlistedTargetOvershoots()
    ensures !HasCycle([("a", "x")])
    ensures ProcessingOrder(["a"], [("a", "x")]) == ["a", "x"]
    ensures !AllProcessed(["a"], [("a", "x")])
  {
    var es := [("a", "x")];
    RankedNoCycle(es, ["a", "x"]);
    assert es[..0] == [];
    var m := InDegrees(es);
    assert m == map["x" := 1];
    assert InitialQueue(["a"], es) == ["a"];
    assert Succ(es, "a") == ["x"];
    assert Succ(es, "x") == [];
    var r := Release(m, ["x"], []);
    assert r.1 == ["x"];
    assert Drain(es, m, ["a"], []) == Drain(es, r.0, ["x"], ["a"]);
  }

  /** The two effects can cancel: an edge from an unlisted node leaves `a` unprocessed,
      an edge to an unlisted node adds `y` to the count, and the acyclic pipeline reads
      as a DAG, for the wrong reason. */
  lemma UnlistedEndpointsCancel()
    ensures !HasCycle([("x", "a"), ("c", "y")])
    ensures ProcessingOrder(["a", "c"], [("x", "a"), ("c", "y")]) == ["c", "y"]
    ensures AllProcessed(["a", "c"], [("x", "a"), ("c", "y")])
  {
    var es := [("x", "a"), ("c", "y")];
    RankedNoCycle(es, ["x", "a", "c", "y"]);
    assert es[..1] == [("x", "a")] && es[..1][..0] == [];
    assert InDegrees(es[..1]) == map["a" := 1];
    var m := InDegrees(es);
    assert m == map["a" := 1, "y" := 1];
    assert InitialQueue(["a", "c"], es) == ["c"];
    assert Succ(es, "c") == ["y"];
    assert Succ(es, "y") == [];
    var r := Release(m, ["y"], []);
    assert r.1 == ["y"];
    assert Drain(es, m, ["c"], []) == Drain(es, r.0, ["y"], ["c"]);
    assert Drain(es, r.0, ["y"], ["c"]) == ["c", "y"];
  }

  /** On well-formed input no node is processed twice, so `processed` never exceeds the
      number of nodes. */
  lemma ProcessedAtMostOnce(ids: seq<string>, es: seq<Edge>)
    requires WellFormed(ids, es)
    ensures Distinct(ProcessingOrder(ids, es))
    ensures forall x :: x in ProcessingOrder(ids, es) ==> x in ids
    ensures |ProcessingOrder(ids, es)| <= |ids|
  {
    InvInit(ids, es);
    InvDrain(ids, es, InDegrees(es), InitialQueue(ids, es), []);
    var d := ProcessingOrder(ids, es);
    var m :| Inv(ids, es, m, [], d);
    assert d + [] == d;
    var ds := set x | x in d;
    var vs := set x | x in ids;
    DistinctCardinality(d);
    DistinctCardinality(ids);
    SubsetCardinality(ds, vs);
  }

  /** A second copy of an edge does not change the answer on well-formed input: the
      cycles are those of the edge set. */
  lemma ParallelEdgeIrrelevant(ids: seq<string>, es: seq<Edge>, e: Edge)
    requires WellFormed(ids, es) && e in es
    ensures AllProcessed(ids, es + [e]) == AllProcessed(ids, es)
  {
    var es2 := es + [e];
    assert forall u, v :: IsEdge(es2, u, v) <==> IsEdge(es, u, v);
    assert forall c :: IsCycle(es2, c) <==> IsCycle(es, c);
    IsDagCorrect(ids, es);
    IsDagCorrect(ids, es2);
  }
}
