/** Dijkstra's single-source shortest paths, as graph/dijkstra.go and
    src/gogve/dijkstra.go implement it: per-vertex attributes holding an
    estimate and a predecessor, edge relaxation, and a loop that takes the
    vertex of lowest estimate from a MinPriorityQueue whose items point at
    the estimates themselves. */
module Dijkstra {
  import opened Results
  import opened Graph
  import opened PriorityQueue

  /** A WeightedDigraph: a graph plus a weight per edge object. */
  datatype WeightedDigraph = WeightedDigraph(graph: DirectedGraph, weights: map<Edge, int>)

  /** `Weights()[edge]`: a missing edge weighs the zero value. */
  function Weight(g: WeightedDigraph, e: Edge): int
  {
    if e in g.weights then g.weights[e] else 0
  }

  /** DijkstraAttribute: the estimate lives in its own cell because queue
      items hold a pointer to it. */
  class DijkstraAttribute {
    const shortestEstimate: Cell
    var predecessor: Option<Vertex>

    constructor ()
      ensures fresh(shortestEstimate) && shortestEstimate.value == Infinity
      ensures predecessor.None?
    {
      shortestEstimate := new Cell(Infinity);
      predecessor := None;
    }

    function ShortestEstimateFromSource(): Estimate
      reads shortestEstimate
    {
      shortestEstimate.value
    }

    method SetShortestEstimateFromSource(est: Estimate)
      modifies shortestEstimate
      ensures ShortestEstimateFromSource() == est
    {
      shortestEstimate.value := est;
    }

    function Predecessor(): Option<Vertex>
      reads this
    {
      predecessor
    }

    method SetPredecessor(v: Option<Vertex>)
      modifies this
      ensures Predecessor() == v
    {
      predecessor := v;
    }
  }

  /** RelaxableAttributes. */
  type Attributes = map<Vertex, DijkstraAttribute>

  /** Different vertices have different attribute objects and cells. */
  ghost predicate Separate(attrs: Attributes)
  {
    forall u, v :: u in attrs && v in attrs && u != v ==>
      attrs[u] != attrs[v] && attrs[u].shortestEstimate != attrs[v].shortestEstimate
  }

  ghost function Objs(attrs: Attributes): set<object>
  {
    set v | v in attrs :: attrs[v]
  }

  ghost function Cells(attrs: Attributes): set<object>
  {
    set v | v in attrs :: attrs[v].shortestEstimate
  }

  /** The current estimate of every vertex. */
  ghost function Ests(attrs: Attributes): (e: map<Vertex, Estimate>)
    reads Cells(attrs)
    ensures e.Keys == attrs.Keys
  {
    map v | v in attrs :: attrs[v].shortestEstimate.value
  }

  /** `a <= b` on estimates. */
  predicate EstLe(a: Estimate, b: Estimate)
  {
    !EstLess(b, a)
  }

  /** initSingleSource: every vertex of the graph gets a fresh attribute
      with estimate +Inf, then the source's estimate is set to 0; a source
      that is not a vertex is a nil attribute, and calling its setter
      panics. */
  method InitSingleSource(g: DirectedGraph, source: Vertex) returns (r: Result<Attributes, string>)
    ensures r.Err? <==> source !in g.vertices
    ensures r.Ok? ==> r.value.Keys == set v | v in g.vertices
    ensures r.Ok? ==> Separate(r.value)
    ensures r.Ok? ==> forall v :: v in r.value ==> fresh(r.value[v]) && fresh(r.value[v].shortestEstimate)
    ensures r.Ok? ==> forall v :: v in r.value ==> r.value[v].predecessor.None?
    ensures r.Ok? ==> Ests(r.value) == map v | v in r.value :: if v == source then Finite(0) else Infinity
  {
    var dt: Attributes := map[];
    var i := 0;
    while i < |g.vertices|
      invariant 0 <= i <= |g.vertices|
      invariant dt.Keys == set v | v in g.vertices[..i]
      invariant Separate(dt)
      invariant forall v :: v in dt ==> fresh(dt[v]) && fresh(dt[v].shortestEstimate)
      invariant forall v :: v in dt ==> dt[v].predecessor.None? && dt[v].shortestEstimate.value == Infinity
    {
      var a := new DijkstraAttribute();
      dt := dt[g.vertices[i] := a];
      assert g.vertices[..i + 1] == g.vertices[..i] + [g.vertices[i]];
      i := i + 1;
    }
    assert g.vertices[..i] == g.vertices;
    if source !in dt {
      return Err("invalid memory address or nil pointer dereference");
    }
    dt[source].SetShortestEstimateFromSource(Finite(0));
    return Ok(dt);
  }

  /** Relax(edge): if going through the edge's source improves the
      estimate of its target, the target takes the new estimate and the
      edge's source as predecessor. A missing attribute for either end is
      a nil interface, and calling it panics. */
  method Relax(g: WeightedDigraph, edge: Edge, attrs: Attributes) returns (r: Result<bool, string>)
    requires Separate(attrs)
    modifies if edge.to in attrs then {attrs[edge.to], attrs[edge.to].shortestEstimate} else {}
    ensures r.Err? <==> edge.from !in attrs || edge.to !in attrs
    ensures r.Err? ==> Ests(attrs) == old(Ests(attrs))
    ensures r.Ok? ==> var before := old(Ests(attrs));
      (r.value <==> EstLess(Plus(before[edge.from], Weight(g, edge)), before[edge.to]))
    ensures r.Ok? && r.value ==>
      Ests(attrs) == old(Ests(attrs))[edge.to := Plus(old(Ests(attrs))[edge.from], Weight(g, edge))]
    ensures r.Ok? && r.value ==> attrs[edge.to].predecessor == Some(edge.from)
    ensures r.Ok? && !r.value ==> Ests(attrs) == old(Ests(attrs))
    ensures r.Ok? && !r.value ==> attrs[edge.to].predecessor == old(attrs[edge.to].predecessor)
    ensures r.Ok? ==> EstLe(Ests(attrs)[edge.to], old(Ests(attrs))[edge.to])
  {
    if edge.from !in attrs || edge.to !in attrs {
      return Err("invalid memory address or nil pointer dereference");
    }
    ghost var before := Ests(attrs);
    var fromAttr := attrs[edge.from];
    var toAttr := attrs[edge.to];
    var changed := false;
    var fromSEFS := Plus(fromAttr.ShortestEstimateFromSource(), Weight(g, edge));
    if EstLess(fromSEFS, toAttr.ShortestEstimateFromSource()) {
      toAttr.SetShortestEstimateFromSource(fromSEFS);
      toAttr.SetPredecessor(Some(edge.From()));
      changed := true;
    }
    forall v | v in attrs && v != edge.to
      ensures Ests(attrs)[v] == before[v]
    {
      assert attrs[v].shortestEstimate != toAttr.shortestEstimate;
    }
    return Ok(changed);
  }

  /** The vertices of a list of queue items. */
  function VerticesOf(items: seq<Item>): (vs: seq<Vertex>)
    ensures |vs| == |items| && forall k :: 0 <= k < |items| ==> vs[k] == items[k].vertex
  {
    seq(|items|, k requires 0 <= k < |items| => items[k].vertex)
  }

  /** Each queue item stands for a vertex with an attribute and points at
      that attribute's estimate. */
  ghost predicate ItemsPoint(items: seq<Item>, attrs: Attributes)
  {
    forall k :: 0 <= k < |items| ==>
      items[k].vertex in attrs && items[k].priority == attrs[items[k].vertex].shortestEstimate
  }

  /** initDijkstraQueue: one fresh item per listed vertex, at its own
      position and pointing at that vertex's estimate, and a map from each
      vertex to its item. A vertex without an attribute fails the type
      assertion and panics. */
  method InitDijkstraQueue(g: DirectedGraph, attrs: Attributes)
    returns (r: Result<(MinPriorityQueue, map<Vertex, Item>), string>)
    ensures r.Err? <==> exists v :: v in g.vertices && v !in attrs
    ensures r.Ok? ==> var (q, vvpm) := r.value;
      fresh(q) && q.Valid() && VerticesOf(q.items) == g.vertices && ItemsPoint(q.items, attrs)
    ensures r.Ok? ==> var (q, vvpm) := r.value;
      forall k :: 0 <= k < |q.items| ==> fresh(q.items[k])
    ensures r.Ok? ==> var (q, vvpm) := r.value;
      vvpm.Keys == (set v | v in g.vertices) &&
      forall v :: v in vvpm ==> vvpm[v] in q.items && vvpm[v].vertex == v
  {
    var items: seq<Item> := [];
    var vvpm: map<Vertex, Item> := map[];
    var i := 0;
    while i < |g.vertices|
      invariant 0 <= i <= |g.vertices| && |items| == i
      invariant forall k :: 0 <= k < i ==> g.vertices[k] in attrs
      invariant forall k :: 0 <= k < i ==> items[k].index == k && fresh(items[k])
      invariant VerticesOf(items) == g.vertices[..i]
      invariant ItemsPoint(items, attrs)
      invariant vvpm.Keys == set v | v in g.vertices[..i]
      invariant forall v :: v in vvpm ==> vvpm[v] in items && vvpm[v].vertex == v
    {
      var v := g.vertices[i];
      if v !in attrs {
        return Err("interface conversion: nil is not a DijkstraAttribute");
      }
      var attr := attrs[v];
      var item := new Item(v, attr.shortestEstimate, i);
      items := items + [item];
      vvpm := vvpm[v := item];
      assert g.vertices[..i + 1] == g.vertices[..i] + [v];
      i := i + 1;
    }
    assert g.vertices[..i] == g.vertices;
    var queue := new MinPriorityQueue();
    queue.items := items;
    return Ok((queue, vvpm));
  }

  /** The edges of the graph come out of the vertex that lists them. */
  ghost predicate EdgesFromOwner(g: DirectedGraph)
  {
    forall v, e :: v in g.edges && e in g.edges[v] ==> e.from == v
  }

  ghost predicate NonNegative(g: WeightedDigraph)
  {
    forall e :: e in g.weights ==> g.weights[e] >= 0
  }

  /** No edge out of a settled vertex can improve its target. */
  ghost predicate Settled(g: WeightedDigraph, est: map<Vertex, Estimate>, done: seq<Vertex>)
  {
    forall i, e :: 0 <= i < |done| && e in g.graph.EdgesOf(done[i]) ==> Tight(g, est, e)
  }

  ghost predicate Tight(g: WeightedDigraph, est: map<Vertex, Estimate>, e: Edge)
  {
    e.from in est && e.to in est && EstLe(est[e.to], Plus(est[e.from], Weight(g, e)))
  }

  /** Settled vertices come out in order of estimate. */
  ghost predicate Ordered(est: map<Vertex, Estimate>, done: seq<Vertex>)
  {
    (forall i :: 0 <= i < |done| ==> done[i] in est) &&
    forall i, j :: 0 <= i < j < |done| ==> EstLe(est[done[i]], est[done[j]])
  }

  /** No queued vertex is below a settled one. */
  ghost predicate Below(est: map<Vertex, Estimate>, done: seq<Vertex>, queued: seq<Vertex>)
  {
    forall i, k :: 0 <= i < |done| && 0 <= k < |queued| ==>
      done[i] in est && queued[k] in est && EstLe(est[done[i]], est[queued[k]])
  }

  /** One relaxation out of the last settled vertex keeps the ordering
      facts: the target only drops, and not below that vertex. */
  lemma RelaxKeeps(g: WeightedDigraph, est: map<Vertex, Estimate>, est2: map<Vertex, Estimate>,
                   done: seq<Vertex>, queued: seq<Vertex>, t: Vertex)
    requires Ordered(est, done) && Below(est, done, queued) && |done| > 0
    requires t in est && t in est2 && est2 == est[t := est2[t]]
    requires est2[t] == est[t] || (EstLess(est2[t], est[t]) && EstLe(est[done[|done| - 1]], est2[t]))
    requires EdgesFromOwner(g.graph) && Settled(g, est, done[..|done| - 1])
    ensures Ordered(est2, done) && Below(est2, done, queued)
    ensures Settled(g, est2, done[..|done| - 1])
    ensures forall i :: 0 <= i < |done| ==> est2[done[i]] == est[done[i]]
  {
    var x := done[|done| - 1];
    if est2[t] != est[t] {
      forall i | 0 <= i < |done|
        ensures done[i] != t
      {
        assert EstLe(est[done[i]], est[x]);
      }
      var settled := done[..|done| - 1];
      forall i, e | 0 <= i < |settled| && e in g.graph.EdgesOf(settled[i])
        ensures Tight(g, est2, e)
      {
        assert Tight(g, est, e);
        assert settled[i] in g.graph.edges && e.from == settled[i] == done[i];
      }
    } else {
      assert est2 == est;
    }
  }

  /** Relaxing edge j out of the last settled vertex x: afterwards the
      ordering facts still hold, x keeps its estimate and edges 0..j are
      tight. */
  lemma RelaxStep(g: WeightedDigraph, est: map<Vertex, Estimate>, est2: map<Vertex, Estimate>,
                  done: seq<Vertex>, queued: seq<Vertex>, edges: seq<Edge>, j: int, changed: bool)
    requires NonNegative(g) && EdgesFromOwner(g.graph)
    requires |done| > 0 && RelaxProgress(g, est, done, queued, edges, j)
    requires edges == g.graph.EdgesOf(done[|done| - 1]) && 0 <= j < |edges|
    requires edges[j].from in est && edges[j].to in est
    requires changed <==> EstLess(Plus(est[edges[j].from], Weight(g, edges[j])), est[edges[j].to])
    requires changed ==> est2 == est[edges[j].to := Plus(est[edges[j].from], Weight(g, edges[j]))]
    requires !changed ==> est2 == est
    ensures RelaxProgress(g, est2, done, queued, edges, j + 1)
    ensures est2[done[|done| - 1]] == est[done[|done| - 1]]
  {
    var x := done[|done| - 1];
    var e := edges[j];
    assert x in g.graph.edges && e in g.graph.edges[x];
    assert e.from == x;
    assert Weight(g, e) >= 0;
    RelaxKeeps(g, est, est2, done, queued, e.to);
    forall k | 0 <= k <= j
      ensures Tight(g, est2, edges[k])
    {
      if k < j {
        assert Tight(g, est, edges[k]);
        assert edges[k].from == x;
      }
    }
  }

  /** While relaxing the edges out of the last settled vertex: the ordering
      facts hold, the vertices settled before it are settled still, and the
      first j of its edges are tight. */
  ghost predicate RelaxProgress(g: WeightedDigraph, est: map<Vertex, Estimate>, done: seq<Vertex>,
                                queued: seq<Vertex>, edges: seq<Edge>, j: int)
  {
    Frontier(g, est, done, queued) && 0 <= j <= |edges| &&
    forall k :: 0 <= k < j ==> Tight(g, est, edges[k])
  }

  /** Settled vertices come out in order of estimate and before every queued
      one; the edges out of all but the last settled vertex are tight. */
  ghost predicate Frontier(g: WeightedDigraph, est: map<Vertex, Estimate>, done: seq<Vertex>, queued: seq<Vertex>)
  {
    |done| > 0 && Ordered(est, done) && Below(est, done, queued) && Settled(g, est, done[..|done| - 1])
  }

  /** Once every edge out of the last settled vertex is tight, all settled
      vertices are. */
  lemma SettleLast(g: WeightedDigraph, est: map<Vertex, Estimate>, done: seq<Vertex>, edges: seq<Edge>)
    requires |done| > 0 && Settled(g, est, done[..|done| - 1])
    requires edges == g.graph.EdgesOf(done[|done| - 1])
    requires forall k :: 0 <= k < |edges| ==> Tight(g, est, edges[k])
    ensures Settled(g, est, done)
  {
    forall i, e | 0 <= i < |done| && e in g.graph.EdgesOf(done[i])
      ensures Tight(g, est, e)
    {
      if i < |done| - 1 {
        assert done[i] == done[..|done| - 1][i];
      } else {
        var k :| 0 <= k < |edges| && edges[k] == e;
      }
    }
  }

  /** Taking a lowest queued vertex settles it after every vertex settled
      before. */
  lemma PopKeeps(est: map<Vertex, Estimate>, done: seq<Vertex>, queued: seq<Vertex>,
                 rest: seq<Vertex>, at: int)
    requires 0 <= at < |queued| && rest == queued[at := queued[|queued| - 1]][..|queued| - 1]
    requires forall k :: 0 <= k < |queued| ==> queued[k] in est
    requires Ordered(est, done) && Below(est, done, queued)
    requires forall k :: 0 <= k < |rest| ==> EstLe(est[queued[at]], est[rest[k]])
    ensures Ordered(est, done + [queued[at]]) && Below(est, done + [queued[at]], rest)
  {
    var d := done + [queued[at]];
    forall i, k | 0 <= i < |d| && 0 <= k < |rest|
      ensures EstLe(est[d[i]], est[rest[k]])
    {
      if i < |done| {
        assert rest[k] == queued[if k == at then |queued| - 1 else k];
      }
    }
  }

  /** The inner loop of dijkstraLoop: relax every edge out of the vertex x
      just taken from the queue (heap.Fix after each one when `fixHeap`,
      which panics for a target without an item). The result says whether
      some estimate dropped. With non-negative weights every edge out of x
      is tight afterwards, and the facts about the settled vertices hold. */
  method RelaxEdges(g: WeightedDigraph, x: Vertex, attrs: Attributes, fixHeap: bool,
                    vvpm: map<Vertex, Item>, ghost done: seq<Vertex>, ghost queued: seq<Vertex>)
    returns (r: Result<bool, string>)
    requires Separate(attrs)
    requires |done| > 0 && done[|done| - 1] == x && x in attrs
    modifies Objs(attrs), Cells(attrs)
    ensures (forall e :: e in g.graph.EdgesOf(x) ==>
      e.from in attrs && e.to in attrs && (fixHeap ==> e.to in vvpm)) ==> r.Ok?
    ensures r.Ok? && !r.value ==> Ests(attrs) == old(Ests(attrs))
    ensures r.Ok? && r.value ==> exists v :: v in attrs && EstLess(Ests(attrs)[v], old(Ests(attrs))[v])
    ensures forall v :: v in attrs ==> EstLe(Ests(attrs)[v], old(Ests(attrs))[v])
    ensures (NonNegative(g) && EdgesFromOwner(g.graph) && Frontier(g, old(Ests(attrs)), done, queued)) ==>
      Frontier(g, Ests(attrs), done, queued) && (r.Ok? ==> Settled(g, Ests(attrs), done))
  {
    ghost var start := Ests(attrs);
    ghost var good := NonNegative(g) && EdgesFromOwner(g.graph) && Frontier(g, start, done, queued);
    ghost var ex := start[x];
    var edges := g.graph.EdgesOf(x);
    var relaxed := false;
    ghost var cur := start;
    var j := 0;
    while j < |edges|
      invariant 0 <= j <= |edges| && cur == Ests(attrs)
      invariant Lowered(start, cur, relaxed)
      invariant good ==> RelaxProgress(g, cur, done, queued, edges, j) && cur[x] == ex
    {
      var edge := edges[j];
      var res := Relax(g, edge, attrs);
      if res.Err? {
        return Err(res.error);
      }
      ghost var next := Ests(attrs);
      LowerStep(start, cur, next, edge.to, relaxed, res.value);
      if good {
        RelaxStep(g, cur, next, done, queued, edges, j, res.value);
      }
      relaxed := res.value || relaxed;
      cur := next;
      if fixHeap && edge.to !in vvpm {
        return Err("invalid memory address or nil pointer dereference");
      }
      j := j + 1;
    }
    if good {
      SettleLast(g, cur, done, edges);
    }
    return Ok(relaxed);
  }

  /** From `start` to `est` no estimate went up; when `dropped`, some went
      down, and otherwise none changed. */
  ghost predicate Lowered(start: map<Vertex, Estimate>, est: map<Vertex, Estimate>, dropped: bool)
  {
    est.Keys == start.Keys && (forall v :: v in est && v in start ==> EstLe(est[v], start[v])) &&
    (dropped ==> exists v :: v in est && v in start && EstLess(est[v], start[v])) &&
    (!dropped ==> est == start)
  }

  /** `<=` on estimates is transitive, and so is `<` after `<=`. */
  lemma EstTrans(a: Estimate, b: Estimate, c: Estimate)
    ensures EstLe(a, b) && EstLe(b, c) ==> EstLe(a, c)
    ensures EstLess(a, b) && EstLe(b, c) ==> EstLess(a, c)
  {
  }

  /** One relaxation either leaves the estimates alone or lowers the one
      of `to`. */
  lemma LowerStep(start: map<Vertex, Estimate>, est: map<Vertex, Estimate>, next: map<Vertex, Estimate>,
                  to: Vertex, dropped: bool, changed: bool)
    requires Lowered(start, est, dropped) && to in est
    requires changed ==> to in next && next == est[to := next[to]] && EstLess(next[to], est[to])
    requires !changed ==> next == est
    ensures Lowered(start, next, changed || dropped)
  {
    if changed {
      EstTrans(next[to], est[to], start[to]);
      forall v | v in next
        ensures EstLe(next[v], start[v])
      {
        EstTrans(next[v], est[v], start[v]);
      }
      assert next[to] != est[to];
    }
  }

  /** The extraction step of dijkstraLoop: heap.Pop hands back an item of
      lowest estimate, whose vertex is settled next. */
  method TakeNext(queue: MinPriorityQueue, attrs: Attributes, ghost done: seq<Vertex>)
    returns (x: Vertex)
    requires queue.Valid() && |queue.items| > 0 && ItemsPoint(queue.items, attrs)
    modifies queue, queue.items
    ensures queue.Valid() && ItemsPoint(queue.items, attrs)
    ensures forall k :: 0 <= k < |queue.items| ==> queue.items[k] in old(queue.items)
    ensures multiset(VerticesOf(queue.items)) + multiset{x} == multiset(VerticesOf(old(queue.items)))
    ensures Ests(attrs) == old(Ests(attrs))
    ensures old(Ordered(Ests(attrs), done) && Below(Ests(attrs), done, VerticesOf(queue.items))) ==>
      Ordered(Ests(attrs), done + [x]) && Below(Ests(attrs), done + [x], VerticesOf(queue.items))
  {
    ghost var vb := VerticesOf(queue.items);
    ghost var est := Ests(attrs);
    ghost var wasGood := Ordered(est, done) && Below(est, done, vb);
    var next, at := queue.ExtractMin();
    x := next.vertex;
    ghost var va := VerticesOf(queue.items);
    assert va == vb[at := vb[|vb| - 1]][..|vb| - 1];
    SwapPop(vb, at, va, x);
    if wasGood {
      forall k | 0 <= k < |va|
        ensures EstLe(est[x], est[va[k]])
      {
        assert !EstLess(queue.items[k].priority.value, next.priority.value);
      }
      PopKeeps(est, done, vb, va, at);
    }
  }

  /** What holds between rounds of dijkstraLoop: the queue is a valid heap
      of items pointing at their vertices' estimates, every vertex is
      either settled or queued, and (with non-negative weights) the settled
      vertices are ordered, below the queued ones, and tight. */
  ghost predicate LoopInv(g: WeightedDigraph, attrs: Attributes, queue: MinPriorityQueue, done: seq<Vertex>)
    reads queue, queue.items, Cells(attrs)
  {
    queue.Valid() && ItemsPoint(queue.items, attrs) &&
    multiset(done) + multiset(VerticesOf(queue.items)) == multiset(g.graph.vertices) &&
    (NonNegative(g) && EdgesFromOwner(g.graph) ==>
      Ordered(Ests(attrs), done) && Below(Ests(attrs), done, VerticesOf(queue.items)) &&
      Settled(g, Ests(attrs), done))
  }

  /** Every vertex has an attribute, and so does each end of every edge
      out of a vertex; with `fixHeap`, every edge also leads to a vertex
      (one with a queue item). Under this the loop cannot panic. */
  ghost predicate Complete(g: WeightedDigraph, attrs: Attributes, fixHeap: bool)
  {
    (forall v :: v in g.graph.vertices ==> v in attrs) &&
    (forall v, e :: v in g.graph.vertices && e in g.graph.EdgesOf(v) ==>
      e.from in attrs && e.to in attrs && (fixHeap ==> e.to in g.graph.vertices))
  }

  /** One round of dijkstraLoop: take a vertex of lowest estimate and relax
      the edges out of it. */
  method Round(g: WeightedDigraph, attrs: Attributes, fixHeap: bool, queue: MinPriorityQueue,
               vvpm: map<Vertex, Item>, ghost done: seq<Vertex>)
    returns (x: Vertex, r: Result<bool, string>)
    requires Separate(attrs) && LoopInv(g, attrs, queue, done) && |queue.items| > 0
    requires vvpm.Keys == set v | v in g.graph.vertices
    modifies queue, queue.items, Objs(attrs), Cells(attrs)
    ensures x in g.graph.vertices && x in attrs
    ensures |queue.items| == old(|queue.items|) - 1
    ensures forall k :: 0 <= k < |queue.items| ==> queue.items[k] in old(queue.items)
    ensures r.Ok? ==> LoopInv(g, attrs, queue, done + [x])
    ensures r.Err? ==> !Complete(g, attrs, fixHeap)
  {
    ghost var vb := VerticesOf(queue.items);
    x := TakeNext(queue, attrs, done);
    assert x in multiset(vb);
    assert x in multiset(g.graph.vertices);
    var order := done + [x];
    assert order[..|order| - 1] == done;
    assert multiset(order) + multiset(VerticesOf(queue.items)) == multiset(g.graph.vertices);
    r := RelaxEdges(g, x, attrs, fixHeap, vvpm, order, VerticesOf(queue.items));
    if Complete(g, attrs, fixHeap) {
      CompleteAt(g, attrs, fixHeap, vvpm, x);
    }
  }

  /** Under Complete, the edges out of any one vertex can all be relaxed. */
  lemma CompleteAt(g: WeightedDigraph, attrs: Attributes, fixHeap: bool, vvpm: map<Vertex, Item>, x: Vertex)
    requires Complete(g, attrs, fixHeap) && x in g.graph.vertices
    requires vvpm.Keys == set v | v in g.graph.vertices
    ensures forall e :: e in g.graph.EdgesOf(x) ==>
      e.from in attrs && e.to in attrs && (fixHeap ==> e.to in vvpm)
  {
  }

  /** A map holding exactly the settled vertices, when every vertex is
      settled once, holds exactly the vertices. */
  lemma KeysOfSettled(outs: Attributes, done: seq<Vertex>, vertices: seq<Vertex>)
    requires forall v :: v in outs <==> v in done
    requires multiset(done) == multiset(vertices)
    ensures outs.Keys == set v | v in vertices
  {
    forall v
      ensures v in outs <==> v in vertices
    {
      assert v in done <==> v in multiset(done);
      assert v in vertices <==> v in multiset(vertices);
    }
  }

  /** dijkstraLoop: while the queue has items, take one of lowest estimate,
      relax every edge out of its vertex and record its attribute in the
      result. In graph/dijkstra.go (`fixHeap`) each relaxation is followed
      by heap.Fix on the target's item; in src/gogve/dijkstra.go the queue
      is re-sorted after a round that relaxed something. Either way the
      next extraction takes a lowest estimate, which is what ExtractMin
      models. The result: every vertex once, in order of final estimate,
      and with non-negative weights no edge out of a vertex can improve
      its target. */
  method DijkstraLoop(g: WeightedDigraph, attrs: Attributes, fixHeap: bool)
    returns (r: Result<Attributes, string>, ghost order: seq<Vertex>)
    requires Separate(attrs)
    modifies Objs(attrs), Cells(attrs)
    ensures r.Ok? ==> r.value.Keys == (set v | v in g.graph.vertices)
    ensures r.Ok? ==> forall v :: v in r.value ==> v in attrs && r.value[v] == attrs[v]
    ensures r.Ok? ==> multiset(order) == multiset(g.graph.vertices)
    ensures r.Ok? && NonNegative(g) && EdgesFromOwner(g.graph) ==> Ordered(Ests(attrs), order)
    ensures r.Ok? && NonNegative(g) && EdgesFromOwner(g.graph) ==> Settled(g, Ests(attrs), order)
    ensures Complete(g, attrs, fixHeap) ==> r.Ok?
  {
    order := [];
    var init := InitDijkstraQueue(g.graph, attrs);
    if init.Err? {
      return Err(init.error), order;
    }
    var (queue, vvpm) := init.value;
    assert multiset(order) + multiset(VerticesOf(queue.items)) == multiset(g.graph.vertices);
    r, order := Drain(g, attrs, fixHeap, queue, vvpm);
  }

  /** The loop of dijkstraLoop, on a queue holding every vertex. */
  method Drain(g: WeightedDigraph, attrs: Attributes, fixHeap: bool, queue: MinPriorityQueue,
               vvpm: map<Vertex, Item>)
    returns (r: Result<Attributes, string>, ghost order: seq<Vertex>)
    requires Separate(attrs) && LoopInv(g, attrs, queue, [])
    requires vvpm.Keys == set v | v in g.graph.vertices
    modifies queue, queue.items, Objs(attrs), Cells(attrs)
    ensures r.Ok? ==> Drained(g, attrs, r.value, order)
    ensures Complete(g, attrs, fixHeap) ==> r.Ok?
  {
    order := [];
    var outs: Attributes := map[];
    while queue.Len() > 0
      invariant forall k :: 0 <= k < |queue.items| ==> queue.items[k] in old(queue.items)
      invariant LoopInv(g, attrs, queue, order)
      invariant forall v :: v in outs <==> v in order
      invariant forall v :: v in outs ==> v in attrs && outs[v] == attrs[v]
      decreases |queue.items|
    {
      var x, res := Round(g, attrs, fixHeap, queue, vvpm, order);
      if res.Err? {
        return Err(res.error), order;
      }
      order := order + [x];
      outs := outs[x := attrs[x]];
    }
    DrainedWhenEmpty(g, attrs, queue, outs, order);
    return Ok(outs), order;
  }

  /** Once the queue is empty, the settled vertices are all the vertices. */
  lemma DrainedWhenEmpty(g: WeightedDigraph, attrs: Attributes, queue: MinPriorityQueue,
                         outs: Attributes, order: seq<Vertex>)
    requires LoopInv(g, attrs, queue, order) && |queue.items| == 0
    requires forall v :: v in outs <==> v in order
    requires forall v :: v in outs ==> v in attrs && outs[v] == attrs[v]
    ensures Drained(g, attrs, outs, order)
  {
    assert multiset(VerticesOf(queue.items)) == multiset{};
    KeysOfSettled(outs, order, g.graph.vertices);
  }

  /** What dijkstraLoop hands back: the attribute of every vertex, each
      vertex settled once, and (with non-negative weights) settled in order
      of estimate with every edge tight. */
  ghost predicate Drained(g: WeightedDigraph, attrs: Attributes, outs: Attributes, order: seq<Vertex>)
    reads Cells(attrs)
  {
    outs.Keys == (set v | v in g.graph.vertices) &&
    (forall v :: v in outs ==> v in attrs && outs[v] == attrs[v]) &&
    multiset(order) == multiset(g.graph.vertices) &&
    (NonNegative(g) && EdgesFromOwner(g.graph) ==> Ordered(Ests(attrs), order) && Settled(g, Ests(attrs), order))
  }

  /** Dijkstra: initSingleSource, then dijkstraLoop. A source that is not
      a vertex panics; with non-negative weights every vertex comes out
      once, in order of estimate, and every edge is tight. */
  method Dijkstra(g: WeightedDigraph, source: Vertex, fixHeap: bool)
    returns (r: Result<Attributes, string>, ghost order: seq<Vertex>)
    ensures source !in g.graph.vertices ==> r.Err?
    ensures r.Ok? ==> r.value.Keys == (set v | v in g.graph.vertices)
    ensures r.Ok? ==> multiset(order) == multiset(g.graph.vertices)
    ensures r.Ok? && NonNegative(g) && EdgesFromOwner(g.graph) ==>
      var est := Ests(r.value); Ordered(est, order) && Settled(g, est, order)
    ensures (source in g.graph.vertices &&
      forall v, e :: v in g.graph.vertices && e in g.graph.EdgesOf(v) ==>
        e.from in g.graph.vertices && e.to in g.graph.vertices) ==> r.Ok?
  {
    order := [];
    var init := InitSingleSource(g.graph, source);
    if init.Err? {
      return Err(init.error), order;
    }
    var attrs := init.value;
    r, order := DijkstraLoop(g, attrs, fixHeap);
    if r.Ok? {
      assert Ests(r.value) == Ests(attrs);
    }
  }
}
