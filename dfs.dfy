/** Depth-first search with discovery and finish times, lowest reachable
    discovery times and articulation points (graph/depthfirst.go). */
module DepthFirst {
  import opened Results
  import opened Graph
  import opened BreadthFirst

  /** DFSAttribute. */
  datatype DFSAttribute = DFSAttribute(
    color: BFSColor,
    predecessor: Option<Vertex>,
    discoverTime: int,
    finishTime: int,
    children: int,
    lowestReachable: int,
    articulationPoint: bool)
  {
    function IsArticulationPoint(): bool
    {
      articulationPoint
    }
  }

  /** DFSTree. */
  type DFSTree = map<Vertex, DFSAttribute>

  /** A fresh attribute: white, everything else zero. */
  const Initial := DFSAttribute(White, None, 0, 0, 0, 0, false)

  /** min. */
  function Min(x: int, y: int): (m: int)
    ensures m <= x && m <= y && (m == x || m == y)
  {
    if x < y then x else y
  }

  ghost function Whites(a: DFSTree): set<Vertex>
  {
    set v | v in a && a[v].color == White
  }

  /** The attribute of v is consistent with the clock: white ones are
      untouched, gray ones are stamped, black ones are stamped twice; a
      predecessor is gray while its child is still white, and discovered
      before it afterwards. */
  ghost predicate AttrOk(a: DFSTree, v: Vertex, time: int)
    requires v in a
  {
    var x := a[v];
    (x.color == White ==>
      x.discoverTime == 0 && x.finishTime == 0 && x.children == 0 &&
      x.lowestReachable == 0 && !x.articulationPoint) &&
    (x.color == Gray ==> 1 <= x.discoverTime <= time && x.finishTime == 0 && x.lowestReachable <= x.discoverTime) &&
    (x.color == Black ==> 1 <= x.discoverTime < x.finishTime <= time && x.lowestReachable <= x.discoverTime) &&
    (x.predecessor.Some? ==> (x.predecessor.value in a &&
      (x.color == White ==> a[x.predecessor.value].color == Gray) &&
      (x.color == Gray ==> a[x.predecessor.value].color == Gray) &&
      (x.color != White ==> (a[x.predecessor.value].color != White &&
        a[x.predecessor.value].discoverTime < x.discoverTime))))
  }

  /** Every stamp is used once. */
  ghost predicate StampsDistinct(a: DFSTree)
  {
    forall v, w {:trigger Apart(a, v, w)} :: v in a && w in a && v != w && a[v].color != White && a[w].color != White ==>
      Apart(a, v, w)
  }

  /** The stamps of two reached vertices differ. */
  ghost predicate Apart(a: DFSTree, v: Vertex, w: Vertex)
    requires v in a && w in a
  {
    a[v].discoverTime != a[w].discoverTime &&
    (a[w].color == Black ==> a[v].discoverTime != a[w].finishTime) &&
    (a[v].color == Black && a[w].color == Black ==> a[v].finishTime != a[w].finishTime)
  }

  /** No edge out of a black vertex leads outside the tree or to a white
      vertex, nor to one discovered after the vertex finished. */
  ghost predicate Closed(g: DirectedGraph, a: DFSTree)
  {
    forall v, e :: v in a && a[v].color == Black && e in g.EdgesOf(v) ==>
      e.to in a && a[e.to].color != White && a[e.to].discoverTime < a[v].finishTime
  }

  /** Every vertex with a predecessor was reached along an edge from it. */
  ghost predicate Parents(g: DirectedGraph, a: DFSTree)
  {
    forall v :: v in a && a[v].predecessor.Some? ==> Adjacent(g, a[v].predecessor.value, v)
  }

  /** r was discovered while w was open: after w's discovery and before
      its finish. */
  ghost predicate Inside(a: DFSTree, r: Vertex, w: Vertex)
    requires r in a && w in a
  {
    a[w].discoverTime < a[r].discoverTime && (a[w].color == Gray || a[r].discoverTime < a[w].finishTime)
  }

  /** A root of the forest, a reached vertex without a predecessor, was
      discovered while no other vertex was open: roots are only entered
      from the top level. */
  ghost predicate RootsOutermost(a: DFSTree)
  {
    forall r, w {:trigger Inside(a, r, w)} ::
      r in a && w in a && r != w && a[r].color != White && a[w].color != White && a[r].predecessor.None? ==>
        !Inside(a, r, w)
  }

  /** The children of u: the vertices whose predecessor is u. */
  ghost function Kids(a: DFSTree, u: Vertex): set<Vertex>
  {
    set c | c in a && a[c].predecessor == Some(u)
  }

  /** u's child count is the number of its children. */
  ghost predicate ChildrenRule(a: DFSTree, u: Vertex)
    requires u in a
  {
    a[u].children == |Kids(a, u)|
  }

  /** No white vertex other than x has been given a predecessor yet. */
  ghost predicate Pending(a: DFSTree, x: Vertex)
  {
    forall v :: v in a && v != x && a[v].color == White ==> a[v].predecessor.None?
  }

  /** The articulation-point rule: a root is one when it has more than one
      child; any other vertex when some finished child cannot reach above
      it. */
  ghost predicate APRule(a: DFSTree, u: Vertex)
    requires u in a
  {
    a[u].articulationPoint <==>
      if a[u].predecessor.None? then a[u].children > 1
      else exists c :: (c in a && a[c].predecessor == Some(u) && a[c].color == Black &&
        a[c].lowestReachable >= a[u].discoverTime)
  }

  /** No finished child of u reaches lower than u does. */
  ghost predicate KidsLow(a: DFSTree, u: Vertex)
    requires u in a
  {
    forall c :: c in a && a[c].predecessor == Some(u) && a[c].color == Black ==>
      a[u].lowestReachable <= a[c].lowestReachable
  }

  /** w is on the path to u: still gray, or finished after u. */
  ghost predicate Above(a: DFSTree, w: Vertex, u: Vertex)
    requires w in a && u in a
  {
    a[w].color == Gray || (a[w].color == Black && a[u].color == Black && a[u].finishTime < a[w].finishTime)
  }

  /** u reaches no lower than any vertex above it that an edge of u (other
      than the one back to its predecessor) leads to. */
  ghost predicate BackLow(g: DirectedGraph, a: DFSTree, u: Vertex)
    requires u in a
  {
    forall e :: e in g.EdgesOf(u) && Some(e.to) != a[u].predecessor && e.to in a && Above(a, e.to, u) ==>
      a[u].lowestReachable <= a[e.to].discoverTime
  }

  /** u's reach is attained: it is u's own discovery time, the reach of a
      finished child, or the discovery time of a vertex above u, and
      discovered before it, that an edge of u other than the one back to
      its predecessor leads to. */
  ghost predicate LowAttained(g: DirectedGraph, a: DFSTree, u: Vertex)
    requires u in a
  {
    a[u].lowestReachable == a[u].discoverTime ||
    (exists c :: c in a && a[c].predecessor == Some(u) && a[c].color == Black &&
      a[u].lowestReachable == a[c].lowestReachable) ||
    exists e :: e in g.EdgesOf(u) && Some(e.to) != a[u].predecessor && e.to in a && a[e.to].color != White &&
      Above(a, e.to, u) && a[e.to].discoverTime < a[u].discoverTime && a[u].lowestReachable == a[e.to].discoverTime
  }

  /** Every attribute is consistent with the clock. */
  ghost predicate AttrsOk(a: DFSTree, time: int)
  {
    time >= 0 && forall v {:trigger AttrOk(a, v, time)} :: v in a ==> AttrOk(a, v, time)
  }

  /** Every finished vertex obeys the child, articulation-point and reach
      rules. */
  ghost predicate BlackRules(g: DirectedGraph, a: DFSTree)
  {
    forall v :: v in a && a[v].color == Black ==>
      ChildrenRule(a, v) && APRule(a, v) && KidsLow(a, v) && BackLow(g, a, v) && LowAttained(g, a, v)
  }

  /** What holds of the attributes whenever dfsVisit is entered or left. */
  ghost predicate Good(g: DirectedGraph, a: DFSTree, time: int)
  {
    AttrsOk(a, time) && StampsDistinct(a) && Closed(g, a) && BlackRules(g, a) &&
    Parents(g, a) && RootsOutermost(a)
  }

  /** Some edge out of a vertex of the tree leads outside it. */
  ghost predicate Missing(g: DirectedGraph, a: DFSTree)
  {
    exists v, e :: v in a && e in g.EdgesOf(v) && e.to !in a
  }

  /** From a0 to a, apart from the entry of x: a vertex that was reached
      keeps its attribute, and one that was white is untouched or was
      finished after time t0; no vertex other than x that was reached
      gains a child. */
  ghost predicate Grew(a0: DFSTree, a: DFSTree, t0: int, x: Vertex)
  {
    a.Keys == a0.Keys &&
    (forall v :: v in a0 && v != x && a0[v].color != White ==> a[v] == a0[v]) &&
    (forall v :: v in a0 && v != x && a0[v].color == White ==>
      a[v] == a0[v] || (a[v].color == Black && t0 < a[v].discoverTime)) &&
    forall v :: v in a && a[v].predecessor.Some? && KeptParent(a0, a[v].predecessor.value, x) ==>
      a0[v].predecessor == a[v].predecessor
  }

  /** p was reached in a0 and is not x. */
  ghost predicate KeptParent(a0: DFSTree, p: Vertex, x: Vertex)
  {
    p != x && p in a0 && a0[p].color != White
  }


  /** The package's global clock and the attribute map being filled. */
  class DepthFirstSearcher {
    var time: int
    var attrs: DFSTree

    constructor ()
      ensures time == 0 && attrs == map[]
    {
      time := 0;
      attrs := map[];
    }

    /** DepthFirstSearch: every vertex starts white; the source is visited
        first, then every vertex still white in vertex order; the clock is
        reset at the end. A source outside the graph, or an edge leading
        outside it, dereferences nil and panics. */
    method DepthFirstSearch(g: DirectedGraph, source: Vertex) returns (r: Result<DFSTree, string>, ghost last: int)
      modifies this
      ensures source !in g.vertices ==> r.Err?
      ensures r.Err? ==> (source !in g.vertices ||
        exists v, e :: v in g.vertices && e in g.EdgesOf(v) && e.to !in g.vertices)
      ensures r.Ok? ==> time == 0 && r.value == attrs
      ensures r.Ok? ==> attrs.Keys == (set v | v in g.vertices)
      ensures r.Ok? ==> forall v :: v in attrs ==> attrs[v].color == Black
      ensures r.Ok? ==> Good(g, attrs, last)
      ensures r.Ok? ==> attrs[source].discoverTime == 1 && attrs[source].predecessor.None?
      ensures r.Ok? ==> forall v, e ::
        v in attrs && e in g.EdgesOf(v) && e.to != v && e.to in attrs && attrs[e.to].predecessor.None? ==>
          attrs[e.to].discoverTime < attrs[v].discoverTime
    {
      time := 0;
      last := 0;
      attrs := map[];
      var i := 0;
      while i < |g.vertices|
        invariant 0 <= i <= |g.vertices| && time == 0
        invariant attrs.Keys == set v | v in g.vertices[..i]
        invariant forall v :: v in attrs ==> attrs[v] == Initial
      {
        attrs := attrs[g.vertices[i] := Initial];
        i := i + 1;
      }
      assert g.vertices[..i] == g.vertices;
      ghost var keys := attrs.Keys;
      assert forall k :: 0 <= k < |g.vertices| ==> g.vertices[k] in keys;
      if source !in attrs {
        return Err("invalid memory address or nil pointer dereference"), last;
      }
      InitialGood(g, attrs);
      ghost var a0 := attrs;
      var res := DfsVisit(g, source);
      if res.Err? {
        return Err("invalid memory address or nil pointer dereference"), last;
      }
      TopStep(g, a0, 0, attrs, time, source);
      ghost var a1 := attrs;
      res := VisitRemaining(g, source);
      if res.Err? {
        MissingKept(g, a0, a1);
        return Err("invalid memory address or nil pointer dereference"), last;
      }
      forall v | v in attrs
        ensures attrs[v].color == Black
      {
        var k :| 0 <= k < |g.vertices| && g.vertices[k] == v;
      }
      RootsEnteredFirst(g, attrs, time);
      last := time;
      time := 0;
      r := Ok(attrs);
    }

    /** DepthFirstSearch's second pass: visits every vertex still white,
        in vertex order. */
    method VisitRemaining(g: DirectedGraph, ghost source: Vertex) returns (r: Result<(), string>)
      requires Good(g, attrs, time) && Settled(attrs)
      requires forall k :: 0 <= k < |g.vertices| ==> g.vertices[k] in attrs
      requires source in attrs && attrs[source].color == Black
      modifies this
      ensures attrs.Keys == old(attrs).Keys
      ensures r.Err? ==> Missing(g, old(attrs))
      ensures r.Ok? ==> Good(g, attrs, time) && Settled(attrs) && attrs[source] == old(attrs)[source]
      ensures r.Ok? ==> forall k :: 0 <= k < |g.vertices| ==> attrs[g.vertices[k]].color == Black
    {
      ghost var a0 := attrs;
      var i := 0;
      while i < |g.vertices|
        invariant Remaining(g, a0, attrs, time, source, i)
      {
        var u := g.vertices[i];
        ghost var before := attrs;
        ghost var tb := time;
        if attrs[u].color == White {
          r := DfsVisit(g, u);
          if r.Err? {
            MissingKept(g, a0, before);
            return;
          }
          RemainingVisited(g, a0, before, tb, attrs, time, source, i);
        } else {
          RemainingSkipped(g, a0, attrs, time, source, i);
        }
        i := i + 1;
      }
      r := Ok(());
    }

    /** dfsVisit(u): stamp u's discovery, examine its edges, then blacken
        it and stamp its finish. */
    method DfsVisit(g: DirectedGraph, u: Vertex) returns (r: Result<(), string>)
      requires u in attrs && attrs[u].color == White && Good(g, attrs, time) && Pending(attrs, u)
      requires attrs[u].predecessor.None? ==> NoneOpen(attrs)
      modifies this
      decreases Whites(attrs), 0
      ensures attrs.Keys == old(attrs).Keys
      ensures r.Err? ==> Missing(g, old(attrs))
      ensures r.Ok? ==> Visited(g, old(attrs), old(time), attrs, time, u)
    {
      ghost var a0, t0 := attrs, time;
      attrs, time := attrs[u := attrs[u].(discoverTime := time + 1, lowestReachable := time + 1, color := Gray)], time + 1;
      StartVisit(g, a0, attrs, time, u);
      ghost var a1 := attrs;
      assert u in Whites(a0) && Whites(a1) < Whites(a0);
      r := VisitGray(g, u, a0, t0);
      if r.Err? {
        MissingKept(g, a0, a1);
      }
    }

    /** The rest of dfsVisit once u is gray: the loop over u's edges, then
        u turns black at the next tick. Every edge whose target was white
        when u turned gray leads to a vertex discovered since and given a
        predecessor. */
    method VisitGray(g: DirectedGraph, u: Vertex, ghost a0: DFSTree, ghost t0: int) returns (r: Result<(), string>)
      requires u in a0 && a0[u].color == White && Pending(a0, u)
      requires time == t0 + 1 && attrs == a0[u := a0[u].(discoverTime := t0 + 1, lowestReachable := t0 + 1, color := Gray)]
      requires Kids(attrs, u) == {} && Whites(attrs) == Whites(a0) - {u}
      requires Examining(g, a0, attrs, attrs, time, u, [])
      modifies this
      decreases Whites(attrs), 3
      ensures attrs.Keys == old(attrs).Keys
      ensures r.Err? ==> Missing(g, old(attrs))
      ensures r.Ok? ==> Visited(g, a0, t0, attrs, time, u) && TargetsReached(g, old(attrs), attrs, u)
    {
      ghost var a1 := attrs;
      var edges := g.EdgesOf(u);
      var j := 0;
      while j < |edges|
        invariant 0 <= j <= |edges| && attrs.Keys == a1.Keys && old(time) <= time
        invariant Examining(g, a0, a1, attrs, time, u, edges[..j])
      {
        ghost var before := attrs;
        ghost var tb := time;
        r := VisitEdge(g, u, edges[j]);
        if r.Err? {
          return;
        }
        EdgeStep(g, a0, a1, before, attrs, tb, time, u, edges, j);
        j := j + 1;
      }
      assert edges[..j] == edges;
      ExaminedTargets(g, a0, a1, attrs, time, u);
      ghost var a2, t2 := attrs, time;
      attrs, time := attrs[u := attrs[u].(color := Black, finishTime := time + 1)], time + 1;
      assert attrs == a2[u := a2[u].(color := Black, finishTime := time)];
      FinishVisit(g, a0, a1, a2, attrs, t0, t2, time, u);
      r := Ok(());
    }

    /** One pass of dfsVisit's edge loop for the gray vertex u: the edge
        back to u's predecessor is skipped; a white target becomes a child
        of u, is visited, and lowers u's reach and may make u an
        articulation point; a gray target lowers u's reach to its
        discovery time; a black one changes nothing. A target outside the
        tree dereferences nil and panics. */
    method VisitEdge(g: DirectedGraph, u: Vertex, e: Edge) returns (r: Result<(), string>)
      requires u in attrs && attrs[u].color == Gray && Good(g, attrs, time) && Pending(attrs, u)
      requires ChildrenRule(attrs, u) && APRule(attrs, u) && KidsLow(attrs, u) && LowAttained(g, attrs, u)
      requires e in g.EdgesOf(u)
      modifies this
      decreases Whites(attrs), 2
      ensures attrs.Keys == old(attrs).Keys
      ensures r.Err? ==> Missing(g, old(attrs))
      ensures r.Ok? ==> EdgeDone(g, old(attrs), old(time), attrs, time, u, e)
      ensures r.Ok? && e.to in old(attrs) && old(attrs)[e.to].color == White ==> attrs[e.to].predecessor == Some(u)
    {
      var to := e.To();
      if Some(to) == attrs[u].predecessor {
        assert AttrOk(attrs, u, time);
        Unchanged(g, attrs, time, u, e);
        return Ok(());
      }
      if to !in attrs {
        return Err("invalid memory address or nil pointer dereference");
      }
      match attrs[to].color {
        case White =>
          r := VisitTree(g, u, e);
          return;
        case Gray =>
          ghost var a0 := attrs;
          attrs := attrs[u := attrs[u].(lowestReachable := Min(attrs[u].lowestReachable, attrs[to].discoverTime))];
          GrayStep(g, a0, attrs, time, u, e);
        case Black =>
          Unchanged(g, attrs, time, u, e);
      }
      r := Ok(());
    }

    /** The white-target case of VisitEdge: the target becomes a child of
        u and is visited, then u's reach and articulation flag take the
        child's into account. */
    method VisitTree(g: DirectedGraph, u: Vertex, e: Edge) returns (r: Result<(), string>)
      requires u in attrs && attrs[u].color == Gray && Good(g, attrs, time) && Pending(attrs, u)
      requires ChildrenRule(attrs, u) && APRule(attrs, u) && KidsLow(attrs, u) && LowAttained(g, attrs, u)
      requires e in g.EdgesOf(u) && Some(e.To()) != attrs[u].predecessor
      requires e.To() in attrs && attrs[e.To()].color == White
      modifies this
      decreases Whites(attrs), 1
      ensures attrs.Keys == old(attrs).Keys
      ensures r.Err? ==> Missing(g, old(attrs))
      ensures r.Ok? ==> EdgeDone(g, old(attrs), old(time), attrs, time, u, e)
      ensures r.Ok? ==> attrs[e.to].predecessor == Some(u)
    {
      var to := e.To();
      ghost var a0 := attrs;
      ghost var t0 := time;
      assert AttrOk(attrs, u, time);
      attrs := attrs[u := attrs[u].(children := attrs[u].children + 1)];
      attrs := attrs[to := attrs[to].(predecessor := Some(u))];
      ghost var a1 := attrs;
      AdoptKeeps(g, a0, a1, time, u, to);
      r := DfsVisit(g, to);
      if r.Err? {
        MissingKept(g, a0, a1);
        return;
      }
      ghost var a2 := attrs;
      var low := Min(attrs[u].lowestReachable, attrs[to].lowestReachable);
      var ap := attrs[u].articulationPoint;
      if attrs[u].predecessor.None? && attrs[u].children > 1 {
        ap := true;
      }
      if attrs[u].predecessor.Some? && attrs[to].lowestReachable >= attrs[u].discoverTime {
        ap := true;
      }
      attrs := attrs[u := attrs[u].(lowestReachable := low, articulationPoint := ap)];
      ChildDone(g, a0, a1, a2, attrs[u], attrs, t0, time, u, e);
    }
  }

  /** What dfsVisit(u) promises, from the tree a0 at time t0 on entry to
      the tree a at time t on exit: the attributes are consistent, u is
      finished with stamps t0 + 1 and t, the vertices it reached were
      white, and its children were white when it was entered. */
  ghost predicate Visited(g: DirectedGraph, a0: DFSTree, t0: int, a: DFSTree, t: int, u: Vertex)
  {
    a.Keys == a0.Keys && u in a0 && u in a && Good(g, a, t) && t0 + 2 <= t && Pending(a, u) &&
    Grew(a0, a, t0, u) && Whites(a) <= Whites(a0) - {u} &&
    a[u].color == Black && a[u].discoverTime == t0 + 1 && a[u].finishTime == t &&
    a[u].predecessor == a0[u].predecessor &&
    forall c :: c in Kids(a, u) ==> c in a0 && a0[c].color == White
  }

  /** What one pass of dfsVisit's edge loop promises for the gray vertex u
      and its edge e, from the tree a0 at time t0 to the tree a at time t:
      the attributes are consistent, u is still gray with its stamp and
      predecessor, its reach only went down, its rules hold, its new
      children were white, and e has been examined. */
  ghost predicate EdgeDone(g: DirectedGraph, a0: DFSTree, t0: int, a: DFSTree, t: int, u: Vertex, e: Edge)
  {
    a.Keys == a0.Keys && u in a0 && u in a && Good(g, a, t) && t0 <= t && Pending(a, u) &&
    Grew(a0, a, t0, u) && Whites(a) <= Whites(a0) &&
    a[u].color == Gray && a[u].discoverTime == a0[u].discoverTime && a[u].predecessor == a0[u].predecessor &&
    a[u].lowestReachable <= a0[u].lowestReachable &&
    ChildrenRule(a, u) && APRule(a, u) && KidsLow(a, u) && LowAttained(g, a, u) &&
    Kids(a, u) <= Kids(a0, u) + Whites(a0) && ExaminedEdges(a, u, [e]) &&
    (e.to in a0 && a0[e.to].color == White ==> a[e.to].predecessor == Some(u))
  }

  /** No vertex is gray and no white vertex has a predecessor: no visit is
      under way. */
  ghost predicate Settled(a: DFSTree)
  {
    forall v :: v in a ==> a[v].color != Gray && (a[v].color == White ==> a[v].predecessor.None?)
  }

  /** Every edge in `es` leads to a reached vertex, and one that leads to a
      gray vertex other than u's predecessor bounds u's reach by that
      vertex's discovery time. */
  ghost predicate ExaminedEdges(a: DFSTree, u: Vertex, es: seq<Edge>)
    requires u in a
  {
    forall k :: 0 <= k < |es| ==> (es[k].to in a && a[es[k].to].color != White &&
      (Some(es[k].to) != a[u].predecessor && a[es[k].to].color == Gray ==>
        a[u].lowestReachable <= a[es[k].to].discoverTime))
  }

  /** What holds while dfsVisit(u) walks u's edges, from the entry tree a0
      and the tree a1 just after u was grayed; `es` are the edges done. */
  ghost predicate Examining(g: DirectedGraph, a0: DFSTree, a1: DFSTree, a: DFSTree, time: int, u: Vertex, es: seq<Edge>)
  {
    u in a0 && u in a1 && u in a && a1.Keys == a0.Keys &&
    a[u].color == Gray && a[u].discoverTime == a1[u].discoverTime && a[u].predecessor == a0[u].predecessor &&
    a1[u].discoverTime <= time && Good(g, a, time) && Grew(a1, a, a1[u].discoverTime, u) && Pending(a, u) &&
    Whites(a1) <= Whites(a0) && Whites(a) <= Whites(a1) &&
    ChildrenRule(a, u) && APRule(a, u) && KidsLow(a, u) && LowAttained(g, a, u) &&
    (forall c :: c in Kids(a, u) ==> c in a0 && a0[c].color == White) &&
    ExaminedEdges(a, u, es)
  }

  /** What holds while DepthFirstSearch's second pass walks the vertex
      list: the first i vertices are finished, the tree is consistent and
      settled, and the source keeps its attribute. */
  ghost predicate Remaining(g: DirectedGraph, a0: DFSTree, a: DFSTree, time: int, source: Vertex, i: int)
  {
    0 <= i <= |g.vertices| && a.Keys == a0.Keys && Good(g, a, time) && Settled(a) &&
    (forall k :: 0 <= k < |g.vertices| ==> g.vertices[k] in a) &&
    (forall k :: 0 <= k < i ==> a[g.vertices[k]].color == Black) &&
    source in a0 && source in a && a[source] == a0[source]
  }

  /** One pass of the second loop on a white vertex: it is visited. */
  lemma RemainingVisited(g: DirectedGraph, a0: DFSTree, before: DFSTree, tb: int, after: DFSTree, t: int, source: Vertex, i: int)
    requires Remaining(g, a0, before, tb, source, i) && i < |g.vertices|
    requires a0[source].color == Black && before[g.vertices[i]].color == White
    requires Visited(g, before, tb, after, t, g.vertices[i])
    ensures Remaining(g, a0, after, t, source, i + 1)
  {
    var u := g.vertices[i];
    TopStep(g, before, tb, after, t, u);
    assert after[source] == before[source];
    forall k | 0 <= k < i
      ensures after[g.vertices[k]].color == Black
    {
      var v := g.vertices[k];
      assert v in before && before[v].color == Black;
      assert after[v] == before[v];
    }
  }

  /** One pass of the second loop on a vertex that is not white: it is
      already finished. */
  lemma RemainingSkipped(g: DirectedGraph, a0: DFSTree, a: DFSTree, time: int, source: Vertex, i: int)
    requires Remaining(g, a0, a, time, source, i) && i < |g.vertices|
    requires a[g.vertices[i]].color != White
    ensures Remaining(g, a0, a, time, source, i + 1)
  {
    var u := g.vertices[i];
    assert u in a && Settled(a);
    assert a[u].color != Gray;
  }

  /** A tree map whose keys did not change has the same dangling edges. */
  lemma MissingKept(g: DirectedGraph, a0: DFSTree, a: DFSTree)
    requires a.Keys == a0.Keys && Missing(g, a)
    ensures Missing(g, a0)
  {
    var v, e :| v in a && e in g.EdgesOf(v) && e.to !in a;
    assert v in a0 && e.to !in a0;
  }

  /** A tree where every vertex is fresh is consistent at time 0. */
  lemma InitialGood(g: DirectedGraph, a: DFSTree)
    requires forall v :: v in a ==> a[v] == Initial
    ensures Good(g, a, 0) && Settled(a) && forall u :: Pending(a, u)
  {
    forall v | v in a
      ensures AttrOk(a, v, 0)
    {
    }
  }

  /** A white vertex is nobody's predecessor. */
  lemma WhiteChildless(a: DFSTree, time: int, u: Vertex)
    requires AttrsOk(a, time) && u in a && a[u].color == White
    ensures forall c :: c in a ==> a[c].predecessor != Some(u)
    ensures Kids(a, u) == {}
  {
    forall c | c in a
      ensures a[c].predecessor != Some(u)
    {
      assert AttrOk(a, c, time);
    }
  }

  /** Two trees with the same vertices in which the same vertices have u
      as predecessor give u the same children. */
  lemma KidsKept(a: DFSTree, b: DFSTree, u: Vertex)
    requires a.Keys == b.Keys
    requires forall c :: c in a ==> (a[c].predecessor == Some(u) <==> b[c].predecessor == Some(u))
    ensures Kids(a, u) == Kids(b, u)
  {
    assert forall c :: c in Kids(a, u) <==> c in Kids(b, u);
  }

  /** Two maps that agree on v and on every finished child of v agree on
      the articulation-point and reach rules for v. */
  lemma SameBlackKids(a0: DFSTree, a: DFSTree, v: Vertex)
    requires v in a0 && v in a && a[v] == a0[v]
    requires forall c :: c in a0 && a0[c].color == Black && a0[c].predecessor == Some(v) ==> c in a && a[c] == a0[c]
    requires forall c :: c in a && a[c].color == Black && a[c].predecessor == Some(v) ==> c in a0 && a0[c] == a[c]
    ensures APRule(a0, v) ==> APRule(a, v)
    ensures KidsLow(a0, v) ==> KidsLow(a, v)
  {
    if APRule(a0, v) && a0[v].predecessor.Some? {
      if a[v].articulationPoint {
        var c :| c in a0 && a0[c].predecessor == Some(v) && a0[c].color == Black &&
          a0[c].lowestReachable >= a0[v].discoverTime;
        assert a[c] == a0[c];
      }
    }
  }

  /** A change that leaves every finished vertex as it was, keeps every
      open vertex open with its stamp, finishes nothing and gives the
      finished vertex v no new child keeps v's rules. */
  lemma BlackKept(g: DirectedGraph, a0: DFSTree, a1: DFSTree, v: Vertex)
    requires a1.Keys == a0.Keys && v in a0 && a0[v].color == Black
    requires ChildrenRule(a0, v) && APRule(a0, v) && KidsLow(a0, v) && BackLow(g, a0, v) && LowAttained(g, a0, v)
    requires forall e :: e in g.EdgesOf(v) ==> e.to in a0 && a0[e.to].color != White
    requires forall w :: w in a0 && a0[w].color == Black ==> a1[w] == a0[w]
    requires forall w :: w in a0 && a0[w].color != Black ==> a1[w].color != Black
    requires forall w :: w in a0 && a0[w].color == Gray ==>
      a1[w].color == Gray && a1[w].discoverTime == a0[w].discoverTime
    requires forall c :: c in a1 ==> (a1[c].predecessor == Some(v) <==> a0[c].predecessor == Some(v))
    ensures ChildrenRule(a1, v) && APRule(a1, v) && KidsLow(a1, v) && BackLow(g, a1, v) && LowAttained(g, a1, v)
  {
    KidsKept(a1, a0, v);
    SameBlackKids(a0, a1, v);
    AttainedKept(g, a0, a1, v);
  }

  /** A map that keeps v's reach, stamp and predecessor, v's finished
      children, and the vertices above v with their stamps, keeps v's
      reach attained. */
  lemma AttainedKept(g: DirectedGraph, a0: DFSTree, a: DFSTree, v: Vertex)
    requires v in a0 && v in a && LowAttained(g, a0, v)
    requires a[v].lowestReachable == a0[v].lowestReachable && a[v].discoverTime == a0[v].discoverTime
    requires a[v].predecessor == a0[v].predecessor
    requires forall c :: c in a0 && a0[c].predecessor == Some(v) && a0[c].color == Black ==> c in a && a[c] == a0[c]
    requires forall w :: w in a0 && w != v && a0[w].color != White && Above(a0, w, v) ==>
      w in a && a[w].color != White && Above(a, w, v) && a[w].discoverTime == a0[w].discoverTime
    ensures LowAttained(g, a, v)
  {
    if a0[v].lowestReachable != a0[v].discoverTime {
      if exists c :: (c in a0 && a0[c].predecessor == Some(v) && a0[c].color == Black &&
        a0[v].lowestReachable == a0[c].lowestReachable)
      {
        var c :| c in a0 && a0[c].predecessor == Some(v) && a0[c].color == Black &&
          a0[v].lowestReachable == a0[c].lowestReachable;
        assert a[c] == a0[c];
      } else {
        var e :| e in g.EdgesOf(v) && Some(e.to) != a0[v].predecessor && e.to in a0 && a0[e.to].color != White &&
          Above(a0, e.to, v) && a0[e.to].discoverTime < a0[v].discoverTime &&
          a0[v].lowestReachable == a0[e.to].discoverTime;
        assert e.to != v;
      }
    }
  }

  /** Graying the white vertex u with a fresh stamp keeps every attribute
      consistent with the clock and every stamp distinct. */
  lemma StartAttrs(a0: DFSTree, a1: DFSTree, time: int, u: Vertex)
    requires AttrsOk(a0, time - 1) && StampsDistinct(a0) && u in a0 && a0[u].color == White
    requires a1 == a0[u := a0[u].(discoverTime := time, lowestReachable := time, color := Gray)]
    ensures AttrsOk(a1, time) && StampsDistinct(a1)
  {
    WhiteChildless(a0, time - 1, u);
    forall v | v in a1
      ensures AttrOk(a1, v, time)
    {
      assert AttrOk(a0, v, time - 1);
      if v == u && a0[u].predecessor.Some? {
        assert AttrOk(a0, a0[u].predecessor.value, time - 1);
      }
    }
    forall v, w | v in a1 && w in a1 && v != w && a1[v].color != White && a1[w].color != White
      ensures Apart(a1, v, w)
    {
      assert AttrOk(a0, v, time - 1) && AttrOk(a0, w, time - 1);
      if v != u && w != u {
        assert Apart(a0, v, w);
      }
    }
  }

  /** Graying the white vertex u changes no finished vertex's rules. */
  lemma StartBlack(g: DirectedGraph, a0: DFSTree, a1: DFSTree, time: int, u: Vertex)
    requires AttrsOk(a0, time - 1) && Closed(g, a0) && BlackRules(g, a0) && u in a0 && a0[u].color == White
    requires a1 == a0[u := a0[u].(discoverTime := time, lowestReachable := time, color := Gray)]
    ensures Closed(g, a1) && BlackRules(g, a1)
  {
    WhiteChildless(a0, time - 1, u);
    forall v | v in a1 && a1[v].color == Black
      ensures ChildrenRule(a1, v) && APRule(a1, v) && KidsLow(a1, v) && BackLow(g, a1, v) && LowAttained(g, a1, v)
    {
      BlackKept(g, a0, a1, v);
    }
    forall v, e | v in a1 && a1[v].color == Black && e in g.EdgesOf(v)
      ensures e.to in a1 && a1[e.to].color != White && a1[e.to].discoverTime < a1[v].finishTime
    {
      assert e.to in a0 && a0[e.to].color != White;
    }
  }

  /** Graying the white vertex u with a fresh stamp keeps the attributes
      consistent; u has no children yet. */
  lemma StartVisit(g: DirectedGraph, a0: DFSTree, a1: DFSTree, time: int, u: Vertex)
    requires Good(g, a0, time - 1) && u in a0 && a0[u].color == White && Pending(a0, u)
    requires a0[u].predecessor.None? ==> NoneOpen(a0)
    requires a1 == a0[u := a0[u].(discoverTime := time, lowestReachable := time, color := Gray)]
    ensures Examining(g, a0, a1, a1, time, u, [])
    ensures Kids(a1, u) == {} && Whites(a1) == Whites(a0) - {u}
  {
    StartAttrs(a0, a1, time, u);
    StartBlack(g, a0, a1, time, u);
    ParentsKept(g, a0, a1);
    StartRoots(a0, a1, time, u);
    WhiteChildless(a0, time - 1, u);
    KidsKept(a1, a0, u);
    assert AttrOk(a0, u, time - 1);
  }

  /** Making the white vertex `to` a child of the gray vertex u keeps the
      attributes consistent. */
  lemma AdoptAttrs(a0: DFSTree, a1: DFSTree, time: int, u: Vertex, to: Vertex)
    requires AttrsOk(a0, time) && StampsDistinct(a0) && Pending(a0, u)
    requires u in a0 && a0[u].color == Gray && to in a0 && a0[to].color == White
    requires a1 == a0[u := a0[u].(children := a0[u].children + 1)][to := a0[to].(predecessor := Some(u))]
    ensures AttrsOk(a1, time) && StampsDistinct(a1)
  {
    WhiteChildless(a0, time, to);
    forall v | v in a1
      ensures AttrOk(a1, v, time)
    {
      assert AttrOk(a0, v, time);
    }
    StampsKept(a0, a1);
  }

  /** Changes that keep every colour and stamp keep the stamps distinct. */
  lemma StampsKept(a0: DFSTree, a1: DFSTree)
    requires StampsDistinct(a0) && a1.Keys == a0.Keys
    requires forall v :: v in a1 ==> (a1[v].color == a0[v].color &&
      a1[v].discoverTime == a0[v].discoverTime && a1[v].finishTime == a0[v].finishTime)
    ensures StampsDistinct(a1)
  {
    forall v, w | v in a1 && w in a1 && v != w && a1[v].color != White && a1[w].color != White
      ensures Apart(a1, v, w)
    {
      assert Apart(a0, v, w);
    }
  }

  /** Changes that keep every predecessor keep every tree edge an edge. */
  lemma ParentsKept(g: DirectedGraph, a0: DFSTree, a1: DFSTree)
    requires Parents(g, a0) && a1.Keys == a0.Keys
    requires forall v :: v in a1 ==> a1[v].predecessor == a0[v].predecessor
    ensures Parents(g, a1)
  {
    forall v | v in a1 && a1[v].predecessor.Some?
      ensures Adjacent(g, a1[v].predecessor.value, v)
    {
      assert a0[v].predecessor == a1[v].predecessor;
    }
  }

  /** Changes that keep every colour and stamp, and the predecessor of
      every reached vertex, keep the roots outermost. */
  lemma RootsKept(a0: DFSTree, a1: DFSTree)
    requires RootsOutermost(a0) && a1.Keys == a0.Keys
    requires forall v :: v in a1 ==> (a1[v].color == a0[v].color &&
      a1[v].discoverTime == a0[v].discoverTime && a1[v].finishTime == a0[v].finishTime &&
      (a0[v].color != White ==> a1[v].predecessor == a0[v].predecessor))
    ensures RootsOutermost(a1)
  {
    forall r, w | r in a1 && w in a1 && r != w && a1[r].color != White && a1[w].color != White &&
      a1[r].predecessor.None?
      ensures !Inside(a1, r, w)
    {
      assert !Inside(a0, r, w);
    }
  }

  /** No vertex is gray: no visit is open. */
  ghost predicate NoneOpen(a: DFSTree)
  {
    forall v :: v in a ==> a[v].color != Gray
  }

  /** Graying u with a stamp later than every other keeps the roots
      outermost, provided a root is only grayed when nothing is open. */
  lemma StartRoots(a0: DFSTree, a1: DFSTree, time: int, u: Vertex)
    requires AttrsOk(a0, time - 1) && RootsOutermost(a0) && u in a0 && a0[u].color == White
    requires a0[u].predecessor.None? ==> NoneOpen(a0)
    requires a1 == a0[u := a0[u].(discoverTime := time, lowestReachable := time, color := Gray)]
    ensures RootsOutermost(a1)
  {
    forall r, w | r in a1 && w in a1 && r != w && a1[r].color != White && a1[w].color != White &&
      a1[r].predecessor.None?
      ensures !Inside(a1, r, w)
    {
      assert AttrOk(a0, r, time - 1) && AttrOk(a0, w, time - 1);
      if r != u && w != u {
        assert !Inside(a0, r, w);
      }
    }
  }

  /** Blackening the open vertex u keeps the roots outermost. */
  lemma FinishRoots(a2: DFSTree, a3: DFSTree, time: int, u: Vertex)
    requires AttrsOk(a2, time - 1) && RootsOutermost(a2) && u in a2 && a2[u].color == Gray
    requires a3 == a2[u := a2[u].(color := Black, finishTime := time)]
    ensures RootsOutermost(a3)
  {
    forall r, w | r in a3 && w in a3 && r != w && a3[r].color != White && a3[w].color != White &&
      a3[r].predecessor.None?
      ensures !Inside(a3, r, w)
    {
      assert AttrOk(a2, r, time - 1) && AttrOk(a2, w, time - 1);
      assert !Inside(a2, r, w);
    }
  }

  /** Adopting the white vertex `to` changes no finished vertex's rules. */
  lemma AdoptBlack(g: DirectedGraph, a0: DFSTree, a1: DFSTree, time: int, u: Vertex, to: Vertex)
    requires Closed(g, a0) && BlackRules(g, a0) && Pending(a0, u)
    requires u in a0 && a0[u].color == Gray && to in a0 && a0[to].color == White
    requires a1 == a0[u := a0[u].(children := a0[u].children + 1)][to := a0[to].(predecessor := Some(u))]
    ensures Closed(g, a1) && BlackRules(g, a1)
  {
    forall v | v in a1 && a1[v].color == Black
      ensures ChildrenRule(a1, v) && APRule(a1, v) && KidsLow(a1, v) && BackLow(g, a1, v) && LowAttained(g, a1, v)
    {
      BlackKept(g, a0, a1, v);
    }
  }

  /** Making the white vertex `to` a child of the gray vertex u keeps the
      attributes consistent, and `to` is the only pending vertex. */
  lemma AdoptKeeps(g: DirectedGraph, a0: DFSTree, a1: DFSTree, time: int, u: Vertex, to: Vertex)
    requires Good(g, a0, time) && Pending(a0, u)
    requires u in a0 && a0[u].color == Gray && to in a0 && a0[to].color == White
    requires Adjacent(g, u, to)
    requires a1 == a0[u := a0[u].(children := a0[u].children + 1)][to := a0[to].(predecessor := Some(u))]
    ensures Good(g, a1, time) && Pending(a1, to) && Whites(a1) == Whites(a0)
    ensures to !in Kids(a0, u) && Kids(a1, u) == Kids(a0, u) + {to}
  {
    AdoptAttrs(a0, a1, time, u, to);
    AdoptBlack(g, a0, a1, time, u, to);
    RootsKept(a0, a1);
    forall v | v in a1 && a1[v].predecessor.Some?
      ensures Adjacent(g, a1[v].predecessor.value, v)
    {
      if v != to {
        assert a1[v].predecessor == a0[v].predecessor;
      }
    }
  }

  /** An edge of u that leads to a reached vertex which is u's predecessor
      or black changes nothing. */
  lemma Unchanged(g: DirectedGraph, a: DFSTree, time: int, u: Vertex, e: Edge)
    requires Good(g, a, time) && Pending(a, u) && u in a && a[u].color == Gray
    requires ChildrenRule(a, u) && APRule(a, u) && KidsLow(a, u) && LowAttained(g, a, u)
    requires e.to in a && (Some(e.to) == a[u].predecessor || a[e.to].color == Black)
    ensures EdgeDone(g, a, time, a, time, u, e)
  {
    assert AttrOk(a, u, time);
  }

  /** Lowering the reach of the gray vertex u to a gray target's discovery
      time keeps everything u's loop relies on. */
  lemma GrayStep(g: DirectedGraph, a0: DFSTree, a1: DFSTree, time: int, u: Vertex, e: Edge)
    requires Good(g, a0, time) && Pending(a0, u) && u in a0 && a0[u].color == Gray
    requires ChildrenRule(a0, u) && APRule(a0, u) && KidsLow(a0, u) && LowAttained(g, a0, u)
    requires e in g.EdgesOf(u) && Some(e.to) != a0[u].predecessor
    requires e.to in a0 && a0[e.to].color == Gray
    requires a1 == a0[u := a0[u].(lowestReachable := Min(a0[u].lowestReachable, a0[e.to].discoverTime))]
    ensures EdgeDone(g, a0, time, a1, time, u, e)
  {
    assert AttrOk(a0, u, time);
    GrayUpdate(g, a0, time, u, a1[u]);
    GrayShape(a0, a1, time, u);
    if a0[e.to].discoverTime < a0[u].lowestReachable {
      assert e.to != u;
      assert Above(a1, e.to, u);
    } else {
      AttainedKept(g, a0, a1, u);
    }
  }

  /** Changing only the bookkeeping of the gray vertex u leaves every colour
      and predecessor, so the white set and the pending vertices stay. */
  lemma GrayShape(a0: DFSTree, a1: DFSTree, time: int, u: Vertex)
    requires Pending(a0, u) && u in a0 && a0[u].color == Gray && AttrOk(a0, u, time)
    requires ChildrenRule(a0, u) && APRule(a0, u) && KidsLow(a0, u)
    requires u in a1 && a1 == a0[u := a1[u]] && a1[u].color == Gray && a1[u].predecessor == a0[u].predecessor
    requires a1[u].discoverTime == a0[u].discoverTime && a1[u].children == a0[u].children
    requires a1[u].articulationPoint == a0[u].articulationPoint
    requires a1[u].lowestReachable <= a0[u].lowestReachable
    ensures Whites(a1) == Whites(a0) && Pending(a1, u) && Grew(a0, a1, time, u)
    ensures ChildrenRule(a1, u) && APRule(a1, u) && KidsLow(a1, u) && Kids(a1, u) == Kids(a0, u)
  {
    KidsKept(a1, a0, u);
  }

  /** Changing the bookkeeping of a gray vertex, keeping its stamp and
      predecessor, keeps the attributes consistent. */
  lemma GrayUpdate(g: DirectedGraph, a0: DFSTree, time: int, u: Vertex, x: DFSAttribute)
    requires Good(g, a0, time) && u in a0 && a0[u].color == Gray
    requires x.color == Gray && x.predecessor == a0[u].predecessor && x.discoverTime == a0[u].discoverTime
    requires x.finishTime == 0 && x.lowestReachable <= x.discoverTime
    ensures Good(g, a0[u := x], time)
  {
    var a := a0[u := x];
    assert AttrOk(a0, u, time);
    forall v | v in a
      ensures AttrOk(a, v, time)
    {
      assert AttrOk(a0, v, time);
    }
    StampsKept(a0, a);
    ParentsKept(g, a0, a);
    RootsKept(a0, a);
    forall v | v in a && a[v].color == Black
      ensures ChildrenRule(a, v) && APRule(a, v) && KidsLow(a, v) && BackLow(g, a, v) && LowAttained(g, a, v)
    {
      BlackKept(g, a0, a, v);
    }
  }

  /** Two growth steps around the same vertex x make one. */
  lemma GrewTrans(a0: DFSTree, a1: DFSTree, a2: DFSTree, t0: int, t1: int, x: Vertex)
    requires Grew(a0, a1, t0, x) && Grew(a1, a2, t1, x) && t0 <= t1
    ensures Grew(a0, a2, t0, x)
  {
    forall v, p | v in a2 && a2[v].predecessor == Some(p) && p != x && p in a0 && a0[p].color != White
      ensures a0[v].predecessor == Some(p)
    {
      assert a1[p] == a0[p];
    }
  }

  /** After the edge edges[j] of u's loop, everything the loop keeps still
      holds. */
  lemma EdgeStep(g: DirectedGraph, a0: DFSTree, a1: DFSTree, before: DFSTree, after: DFSTree,
                 tb: int, time: int, u: Vertex, edges: seq<Edge>, j: int)
    requires 0 <= j < |edges| && tb <= time
    requires Examining(g, a0, a1, before, tb, u, edges[..j])
    requires EdgeDone(g, before, tb, after, time, u, edges[j])
    ensures Examining(g, a0, a1, after, time, u, edges[..j + 1])
  {
    GrewTrans(a1, before, after, a1[u].discoverTime, tb, u);
    forall c | c in Kids(after, u)
      ensures c in a0 && a0[c].color == White
    {
      if c !in Kids(before, u) {
        assert c in Whites(a0);
      }
    }
    var es2 := edges[..j + 1];
    assert AttrOk(after, u, time);
    forall k | 0 <= k < |es2|
      ensures es2[k].to in after && after[es2[k].to].color != White &&
        (Some(es2[k].to) != after[u].predecessor && after[es2[k].to].color == Gray ==>
          after[u].lowestReachable <= after[es2[k].to].discoverTime)
    {
      if k == j {
        assert es2[k] == [edges[j]][0];
      } else {
        assert es2[k] == edges[..j][k];
        var w := es2[k].to;
        if w != u {
          assert after[w] == before[w];
        }
      }
    }
  }

  /** Every edge of u whose target was white in a1 has led to a vertex
      finished since, discovered after u and not a root. */
  ghost predicate TargetsReached(g: DirectedGraph, a1: DFSTree, a: DFSTree, u: Vertex)
    requires u in a && a.Keys == a1.Keys
  {
    forall e :: e in g.EdgesOf(u) && e.to in a1 && a1[e.to].color == White ==>
      a[e.to].color == Black && a[e.to].predecessor.Some? && a[u].discoverTime < a[e.to].discoverTime
  }

  /** Once u's edges are examined, every target that was white when u was
      grayed has been discovered since, and is not a root: u was open when
      it was discovered. */
  lemma ExaminedTargets(g: DirectedGraph, a0: DFSTree, a1: DFSTree, a: DFSTree, time: int, u: Vertex)
    requires Examining(g, a0, a1, a, time, u, g.EdgesOf(u)) && a1[u].color == Gray
    ensures TargetsReached(g, a1, a, u)
  {
    forall e | e in g.EdgesOf(u) && e.to in a1 && a1[e.to].color == White
      ensures a[e.to].color == Black && a[e.to].predecessor.Some? && a[u].discoverTime < a[e.to].discoverTime
    {
      var k :| 0 <= k < |g.EdgesOf(u)| && g.EdgesOf(u)[k] == e;
      var w := e.to;
      assert w in a && a[w].color != White;
      assert w != u;
      if a[w].predecessor.None? {
        assert Inside(a, w, u);
      }
    }
  }

  /** In a finished search an edge into a root, other than a loop, comes
      from a vertex discovered after the root: a root is never discovered
      while another vertex is open. */
  lemma RootsEnteredFirst(g: DirectedGraph, a: DFSTree, time: int)
    requires Good(g, a, time)
    ensures forall v, e ::
      v in a && a[v].color == Black && e in g.EdgesOf(v) && e.to != v && e.to in a && a[e.to].predecessor.None? ==>
        a[e.to].discoverTime < a[v].discoverTime
  {
    forall v, e | v in a && a[v].color == Black && e in g.EdgesOf(v) && e.to != v && e.to in a &&
      a[e.to].predecessor.None?
      ensures a[e.to].discoverTime < a[v].discoverTime
    {
      var w := e.to;
      assert a[w].color != White && a[w].discoverTime < a[v].finishTime;
      assert Apart(a, v, w);
      assert !Inside(a, w, v);
    }
  }

  /** The children of u after visiting its new child `to` are its old
      children and `to`, and the old ones are unchanged. */
  lemma KidsAfterChild(a0: DFSTree, a1: DFSTree, a2: DFSTree, t0: int, u: Vertex, to: Vertex)
    requires u in a0 && a0[u].color == Gray && to in a0 && a0[to].color == White && Pending(a0, u)
    requires forall c :: c in a0 && a0[c].predecessor == Some(u) ==> c != u
    requires a1 == a0[u := a0[u].(children := a0[u].children + 1)][to := a0[to].(predecessor := Some(u))]
    requires Kids(a1, u) == Kids(a0, u) + {to}
    requires a2.Keys == a1.Keys && Grew(a1, a2, t0, to) && a2[to].predecessor == Some(u)
    ensures Kids(a2, u) == Kids(a0, u) + {to}
    ensures forall c :: c in Kids(a0, u) ==> c != to && a0[c].color != White && a2[c] == a0[c]
  {
    forall c | c in Kids(a0, u)
      ensures c in Kids(a2, u) && c != to && a0[c].color != White && a2[c] == a0[c]
    {
      assert a1[c] == a0[c];
    }
    forall c | c in Kids(a2, u)
      ensures c in Kids(a1, u)
    {
    }
  }

  /** Folding the finished child `to` into u keeps the articulation-point
      rule and the reach rule for u. */
  lemma ChildRules(a0: DFSTree, a2: DFSTree, a3: DFSTree, u: Vertex, to: Vertex)
    requires u in a0 && u in a2 && to in a2 && a2[to].color == Black && to != u
    requires APRule(a0, u) && KidsLow(a0, u)
    requires a2[u].articulationPoint == a0[u].articulationPoint && a2[u].predecessor == a0[u].predecessor
    requires a2[u].discoverTime == a0[u].discoverTime && a2[u].lowestReachable == a0[u].lowestReachable
    requires a2[u].children == a0[u].children + 1 && a0[u].children == |Kids(a0, u)|
    requires Kids(a2, u) == Kids(a0, u) + {to}
    requires forall c :: c in Kids(a0, u) ==> c != to && a2[c] == a0[c]
    requires a3 == a2[u := a2[u].(lowestReachable := Min(a2[u].lowestReachable, a2[to].lowestReachable),
      articulationPoint := a2[u].articulationPoint || (a2[u].predecessor.None? && a2[u].children > 1) ||
        (a2[u].predecessor.Some? && a2[to].lowestReachable >= a2[u].discoverTime))]
    ensures APRule(a3, u) && KidsLow(a3, u)
  {
    KidsKept(a3, a2, u);
    forall c | c in a3 && a3[c].predecessor == Some(u) && a3[c].color == Black
      ensures a3[u].lowestReachable <= a3[c].lowestReachable
    {
      assert c in Kids(a2, u);
      if c != to {
        assert a3[c] == a0[c];
      }
    }
    if a3[u].predecessor.Some? {
      if a3[u].articulationPoint {
        if !a0[u].articulationPoint {
          assert a3[to].lowestReachable >= a3[u].discoverTime;
        } else {
          var c :| c in a0 && a0[c].predecessor == Some(u) && a0[c].color == Black &&
            a0[c].lowestReachable >= a0[u].discoverTime;
          assert c in Kids(a0, u);
          assert a3[c] == a0[c];
        }
      } else {
        forall c | c in a3 && a3[c].predecessor == Some(u) && a3[c].color == Black
          ensures a3[c].lowestReachable < a3[u].discoverTime
        {
          assert c in Kids(a2, u);
          if c != to {
            assert a3[c] == a0[c];
          }
        }
      }
    }
  }

  /** Visiting the white child `to` of the gray vertex u and folding its
      reach and the articulation-point rules into u keeps everything u's
      loop relies on. */
  lemma ChildDone(g: DirectedGraph, a0: DFSTree, a1: DFSTree, a2: DFSTree, x: DFSAttribute, a3: DFSTree,
                  t0: int, time: int, u: Vertex, e: Edge)
    requires Pending(a0, u) && u in a0 && a0[u].color == Gray && a0[u].predecessor != Some(u)
    requires ChildrenRule(a0, u) && APRule(a0, u) && KidsLow(a0, u) && LowAttained(g, a0, u)
    requires e.to in a0 && a0[e.to].color == White
    requires a1 == a0[u := a0[u].(children := a0[u].children + 1)][e.to := a0[e.to].(predecessor := Some(u))]
    requires e.to !in Kids(a0, u) && Kids(a1, u) == Kids(a0, u) + {e.to} && Whites(a1) == Whites(a0)
    requires Visited(g, a1, t0, a2, time, e.to)
    requires u in a2 && x == a2[u].(lowestReachable := Min(a2[u].lowestReachable, a2[e.to].lowestReachable),
      articulationPoint := a2[u].articulationPoint || (a2[u].predecessor.None? && a2[u].children > 1) ||
        (a2[u].predecessor.Some? && a2[e.to].lowestReachable >= a2[u].discoverTime))
    requires a3 == a2[u := x]
    ensures EdgeDone(g, a0, t0, a3, time, u, e)
  {
    assert a2[u] == a1[u];
    assert AttrOk(a2, u, time);
    GrayUpdate(g, a2, time, u, x);
    ChildLocal(a0, a1, a2, x, a3, t0, time, u, e);
    ChildAttained(g, a0, a1, a2, a3, t0, u, e.to);
  }

  /** After u's new child `to` was visited and its reach folded into u's,
      u's reach is attained: by `to`, or as it was before. */
  lemma ChildAttained(g: DirectedGraph, a0: DFSTree, a1: DFSTree, a2: DFSTree, a3: DFSTree, t0: int, u: Vertex, to: Vertex)
    requires u in a0 && a0[u].color == Gray && LowAttained(g, a0, u)
    requires to in a0 && a0[to].color == White && u != to
    requires a1 == a0[u := a0[u].(children := a0[u].children + 1)][to := a0[to].(predecessor := Some(u))]
    requires a2.Keys == a1.Keys && Grew(a1, a2, t0, to) && a2[to].color == Black && a2[to].predecessor == Some(u)
    requires u in a2 && a2[u] == a1[u]
    requires u in a3 && a3 == a2[u := a3[u]] && a3[u].color == Gray
    requires a3[u].discoverTime == a2[u].discoverTime && a3[u].predecessor == a2[u].predecessor
    requires a3[u].lowestReachable == Min(a2[u].lowestReachable, a2[to].lowestReachable)
    ensures LowAttained(g, a3, u)
  {
    if a2[to].lowestReachable < a2[u].lowestReachable {
      assert a3[to] == a2[to];
    } else {
      forall c | c in a0 && a0[c].predecessor == Some(u) && a0[c].color == Black
        ensures c in a3 && a3[c] == a0[c]
      {
        assert a1[c] == a0[c] && a2[c] == a1[c];
      }
      forall w | w in a0 && w != u && a0[w].color != White && Above(a0, w, u)
        ensures w in a3 && a3[w].color != White && Above(a3, w, u) && a3[w].discoverTime == a0[w].discoverTime
      {
        assert a1[w] == a0[w] && a2[w] == a1[w];
      }
      AttainedKept(g, a0, a3, u);
    }
  }

  /** The part of ChildDone about u, its children and the vertices that
      changed. */
  lemma ChildLocal(a0: DFSTree, a1: DFSTree, a2: DFSTree, x: DFSAttribute, a3: DFSTree,
                   t0: int, time: int, u: Vertex, e: Edge)
    requires Pending(a0, u) && u in a0 && a0[u].color == Gray && a0[u].predecessor != Some(u)
    requires ChildrenRule(a0, u) && APRule(a0, u) && KidsLow(a0, u)
    requires e.to in a0 && a0[e.to].color == White
    requires a1 == a0[u := a0[u].(children := a0[u].children + 1)][e.to := a0[e.to].(predecessor := Some(u))]
    requires e.to !in Kids(a0, u) && Kids(a1, u) == Kids(a0, u) + {e.to} && Whites(a1) == Whites(a0)
    requires a2.Keys == a1.Keys && Grew(a1, a2, t0, e.to) && Pending(a2, e.to) && Whites(a2) <= Whites(a1)
    requires e.to in a2 && a2[e.to].color == Black && a2[e.to].discoverTime == t0 + 1
    requires a2[e.to].predecessor == Some(u) && t0 <= time
    requires u in a2 && x == a2[u].(lowestReachable := Min(a2[u].lowestReachable, a2[e.to].lowestReachable),
      articulationPoint := a2[u].articulationPoint || (a2[u].predecessor.None? && a2[u].children > 1) ||
        (a2[u].predecessor.Some? && a2[e.to].lowestReachable >= a2[u].discoverTime))
    requires a3 == a2[u := x]
    ensures a3.Keys == a0.Keys && u in a3 && t0 <= time && Pending(a3, u)
    ensures Grew(a0, a3, t0, u) && Whites(a3) <= Whites(a0)
    ensures a3[u].color == Gray && a3[u].discoverTime == a0[u].discoverTime && a3[u].predecessor == a0[u].predecessor
    ensures a3[u].lowestReachable <= a0[u].lowestReachable
    ensures ChildrenRule(a3, u) && APRule(a3, u) && KidsLow(a3, u)
    ensures Kids(a3, u) <= Kids(a0, u) + Whites(a0) && ExaminedEdges(a3, u, [e])
  {
    assert a2[u] == a1[u];
    ChildKids(a0, a1, a2, x, a3, t0, time, u, e.to);
    ChildGrew(a0, a1, a2, a3, t0, u, e.to);
    assert a3[e.to].color == Black;
  }

  /** u's rules and child set once its new child `to` has been visited
      and folded in. */
  lemma ChildKids(a0: DFSTree, a1: DFSTree, a2: DFSTree, x: DFSAttribute, a3: DFSTree,
                  t0: int, time: int, u: Vertex, to: Vertex)
    requires Pending(a0, u) && u in a0 && a0[u].color == Gray && a0[u].predecessor != Some(u)
    requires ChildrenRule(a0, u) && APRule(a0, u) && KidsLow(a0, u)
    requires to in a0 && a0[to].color == White
    requires a1 == a0[u := a0[u].(children := a0[u].children + 1)][to := a0[to].(predecessor := Some(u))]
    requires to !in Kids(a0, u) && Kids(a1, u) == Kids(a0, u) + {to} && Whites(a1) == Whites(a0)
    requires a2.Keys == a1.Keys && Grew(a1, a2, t0, to) && Pending(a2, to) && Whites(a2) <= Whites(a1)
    requires to in a2 && a2[to].color == Black && a2[to].discoverTime == t0 + 1
    requires a2[to].predecessor == Some(u) && t0 <= time
    requires u in a2 && x == a2[u].(lowestReachable := Min(a2[u].lowestReachable, a2[to].lowestReachable),
      articulationPoint := a2[u].articulationPoint || (a2[u].predecessor.None? && a2[u].children > 1) ||
        (a2[u].predecessor.Some? && a2[to].lowestReachable >= a2[u].discoverTime))
    requires a3 == a2[u := x]
    ensures Pending(a3, u) && Whites(a3) <= Whites(a0)
    ensures ChildrenRule(a3, u) && APRule(a3, u) && KidsLow(a3, u)
    ensures Kids(a3, u) <= Kids(a0, u) + Whites(a0)
  {
    assert a2[u] == a1[u];
    KidsAfterChild(a0, a1, a2, t0, u, to);
    ChildSets(a0, a1, a2, a3, u, to, a3[u]);
    ChildRules(a0, a2, a3, u, to);
  }

  /** After u's new child `to` was visited, u's children are its old ones
      and `to`, and no white vertex is pending. */
  lemma ChildSets(a0: DFSTree, a1: DFSTree, a2: DFSTree, a3: DFSTree, u: Vertex, to: Vertex, x: DFSAttribute)
    requires u in a0 && to in a0 && a0[to].color == White && u != to && to !in Kids(a0, u)
    requires Kids(a2, u) == Kids(a0, u) + {to} && Whites(a2) <= Whites(a1) && Whites(a1) == Whites(a0)
    requires u in a2 && a3 == a2[u := x] && x.predecessor == a2[u].predecessor
    requires x.color == Gray && a2[u].color == Gray && Pending(a2, to) && to in a2 && a2[to].color == Black
    ensures Kids(a3, u) == Kids(a0, u) + {to} && |Kids(a3, u)| == |Kids(a0, u)| + 1
    ensures Kids(a3, u) <= Kids(a0, u) + Whites(a0)
    ensures Whites(a3) <= Whites(a0) && Pending(a3, u)
  {
    KidsKept(a3, a2, u);
    assert Whites(a3) == Whites(a2);
  }

  /** The tree after u's new child was visited grew from the tree before. */
  lemma ChildGrew(a0: DFSTree, a1: DFSTree, a2: DFSTree, a3: DFSTree, t0: int, u: Vertex, to: Vertex)
    requires u in a0 && a0[u].color == Gray && to in a0 && a0[to].color == White && u != to
    requires a1 == a0[u := a0[u].(children := a0[u].children + 1)][to := a0[to].(predecessor := Some(u))]
    requires a2.Keys == a1.Keys && Grew(a1, a2, t0, to) && a2[to].color == Black && a2[to].discoverTime == t0 + 1
    requires a3.Keys == a2.Keys && forall v :: v in a3 && v != u ==> a3[v] == a2[v]
    requires a3[u].predecessor == a2[u].predecessor
    ensures Grew(a0, a3, t0, u)
  {
    forall v, p | v in a3 && a3[v].predecessor == Some(p) && p != u && p in a0 && a0[p].color != White
      ensures a0[v].predecessor == Some(p)
    {
      assert p != to;
      assert a1[p] == a0[p];
      if v == u {
        assert a2[u] == a1[u];
      } else {
        assert a3[v] == a2[v];
        assert a1[v].predecessor == Some(p);
        assert v != to;
        assert a1[v] == a0[v];
      }
    }
  }

  /** Blackening u and stamping its finish keeps every attribute
      consistent with the clock and every stamp distinct. */
  lemma FinishAttrs(a1: DFSTree, a2: DFSTree, a3: DFSTree, time: int, u: Vertex)
    requires u in a1 && a1[u].color == Gray && Kids(a1, u) == {}
    requires a2.Keys == a1.Keys && AttrsOk(a2, time - 1) && StampsDistinct(a2)
    requires Grew(a1, a2, a1[u].discoverTime, u) && Pending(a2, u)
    requires a2[u].color == Gray
    requires a3 == a2[u := a2[u].(color := Black, finishTime := time)]
    ensures AttrsOk(a3, time) && StampsDistinct(a3)
    ensures forall c :: c in a2 && a2[c].predecessor == Some(u) ==> a2[c].color == Black
  {
    assert AttrOk(a2, u, time - 1);
    forall c | c in a2 && a2[c].predecessor == Some(u)
      ensures a2[c].color == Black
    {
      assert c !in Kids(a1, u);
      assert AttrOk(a2, c, time - 1);
    }
    forall v | v in a3
      ensures AttrOk(a3, v, time)
    {
      assert AttrOk(a2, v, time - 1);
    }
    forall v, w | v in a3 && w in a3 && v != w && a3[v].color != White && a3[w].color != White
      ensures Apart(a3, v, w)
    {
      assert AttrOk(a2, v, time - 1) && AttrOk(a2, w, time - 1);
      assert a2[v].color != White && a2[w].color != White;
      assert Apart(a2, v, w);
      if v == u {
        assert a3[w] == a2[w];
      } else if w == u {
        assert a3[v] == a2[v];
      }
    }
  }

  /** Once all of u's edges have been examined, blackening u keeps the tree
      closed and u obeys the rules of a finished vertex. */
  lemma FinishEdges(g: DirectedGraph, a2: DFSTree, a3: DFSTree, time: int, u: Vertex)
    requires u in a2 && Closed(g, a2) && AttrsOk(a2, time - 1) && a2[u].color == Gray
    requires ChildrenRule(a2, u) && APRule(a2, u) && KidsLow(a2, u) && LowAttained(g, a2, u)
    requires ExaminedEdges(a2, u, g.EdgesOf(u))
    requires a3 == a2[u := a2[u].(color := Black, finishTime := time)]
    requires forall c :: c in a2 && a2[c].predecessor == Some(u) ==> a2[c].color == Black
    ensures Closed(g, a3)
    ensures ChildrenRule(a3, u) && APRule(a3, u) && KidsLow(a3, u) && BackLow(g, a3, u) && LowAttained(g, a3, u)
  {
    assert AttrOk(a2, u, time - 1);
    forall e | e in g.EdgesOf(u)
      ensures e.to in a3 && a3[e.to].color != White && a3[e.to].discoverTime < a3[u].finishTime
      ensures Some(e.to) != a3[u].predecessor && Above(a3, e.to, u) ==>
        a3[u].lowestReachable <= a3[e.to].discoverTime
    {
      var k :| 0 <= k < |g.EdgesOf(u)| && g.EdgesOf(u)[k] == e;
      if e.to != u {
        assert AttrOk(a2, e.to, time - 1);
      }
    }
    forall v, e | v in a3 && a3[v].color == Black && e in g.EdgesOf(v) && v != u
      ensures e.to in a3 && a3[e.to].color != White && a3[e.to].discoverTime < a3[v].finishTime
    {
      assert a3[v] == a2[v];
    }
    KidsKept(a3, a2, u);
    SameBlackKids(a2, a3[u := a2[u]], u);
    AttainedKept(g, a2, a3, u);
  }

  /** Blackening u changes no other finished vertex's rules. */
  lemma FinishBlack(g: DirectedGraph, a2: DFSTree, a3: DFSTree, time: int, u: Vertex)
    requires u in a2 && AttrsOk(a2, time - 1) && BlackRules(g, a2) && a2[u].color == Gray
    requires a3 == a2[u := a2[u].(color := Black, finishTime := time)]
    ensures forall v :: v in a3 && v != u && a3[v].color == Black ==>
      ChildrenRule(a3, v) && APRule(a3, v) && KidsLow(a3, v) && BackLow(g, a3, v) && LowAttained(g, a3, v)
  {
    assert AttrOk(a2, u, time - 1);
    forall v | v in a3 && v != u && a3[v].color == Black
      ensures ChildrenRule(a3, v) && APRule(a3, v) && KidsLow(a3, v) && BackLow(g, a3, v) && LowAttained(g, a3, v)
    {
      assert ChildrenRule(a2, v) && APRule(a2, v) && KidsLow(a2, v) && BackLow(g, a2, v) && LowAttained(g, a2, v);
      KidsKept(a3, a2, v);
      assert a2[u].predecessor != Some(v);
      assert AttrOk(a2, v, time - 1);
      SameBlackKids(a2, a3, v);
      AttainedKept(g, a2, a3, v);
    }
  }

  /** dfsVisit's bookkeeping from entry to exit. */
  lemma FinishVisit(g: DirectedGraph, a0: DFSTree, a1: DFSTree, a2: DFSTree, a3: DFSTree, t0: int, t2: int, time: int, u: Vertex)
    requires u in a0 && a0[u].color == White && Pending(a0, u)
    requires a1 == a0[u := a0[u].(discoverTime := t0 + 1, lowestReachable := t0 + 1, color := Gray)]
    requires Kids(a1, u) == {} && Whites(a1) == Whites(a0) - {u}
    requires a2.Keys == a1.Keys && Examining(g, a0, a1, a2, t2, u, g.EdgesOf(u)) && time == t2 + 1
    requires TargetsReached(g, a1, a2, u)
    requires a3 == a2[u := a2[u].(color := Black, finishTime := time)]
    ensures Visited(g, a0, t0, a3, time, u) && TargetsReached(g, a1, a3, u)
  {
    var t1 := t0 + 1;
    FinishGood(g, a1, a2, a3, time, u);
    KidsKept(a3, a2, u);
    FinishGrew(a0, a1, a2, a3, t1, time, u);
  }

  /** Blackening u once its edges are examined keeps the attributes
      consistent. */
  lemma FinishGood(g: DirectedGraph, a1: DFSTree, a2: DFSTree, a3: DFSTree, time: int, u: Vertex)
    requires u in a1 && a1[u].color == Gray && Kids(a1, u) == {}
    requires a2.Keys == a1.Keys && Good(g, a2, time - 1) && a2[u].color == Gray
    requires Grew(a1, a2, a1[u].discoverTime, u) && Pending(a2, u)
    requires ChildrenRule(a2, u) && APRule(a2, u) && KidsLow(a2, u) && LowAttained(g, a2, u)
    requires ExaminedEdges(a2, u, g.EdgesOf(u))
    requires a3 == a2[u := a2[u].(color := Black, finishTime := time)]
    ensures Good(g, a3, time)
  {
    FinishAttrs(a1, a2, a3, time, u);
    FinishEdges(g, a2, a3, time, u);
    FinishBlack(g, a2, a3, time, u);
    ParentsKept(g, a2, a3);
    FinishRoots(a2, a3, time, u);
  }

  /** From entry to exit of dfsVisit(u), only u and vertices that were
      white changed, and reached vertices other than u kept their
      children. */
  lemma FinishGrew(a0: DFSTree, a1: DFSTree, a2: DFSTree, a3: DFSTree, t1: int, time: int, u: Vertex)
    requires u in a0 && a0[u].color == White
    requires a1 == a0[u := a0[u].(discoverTime := t1, lowestReachable := t1, color := Gray)]
    requires a2.Keys == a1.Keys && Grew(a1, a2, t1, u)
    requires a3 == a2[u := a2[u].(color := Black, finishTime := time)]
    ensures Grew(a0, a3, t1 - 1, u)
  {
    forall v, p | v in a3 && a3[v].predecessor == Some(p) && p != u && p in a0 && a0[p].color != White
      ensures a0[v].predecessor == Some(p)
    {
      assert a1[p] == a0[p];
    }
  }

  /** A visit started from the top level leaves the tree settled and keeps
      every finished vertex. */
  lemma TopStep(g: DirectedGraph, before: DFSTree, t: int, after: DFSTree, tb: int, u: Vertex)
    requires Settled(before) && u in before && before[u].color == White
    requires Visited(g, before, t, after, tb, u)
    ensures Settled(after)
    ensures forall v :: v in before && before[v].color == Black ==> after[v] == before[v]
  {
  }
}
