/** Breadth-first search (src/gogve/breadthfirst.go): colours, distances
    and predecessors in a BreadthFirstTree, filled by a FIFO queue. */
module BreadthFirst {
  import opened Results
  import opened Graph

  /** BFSColor: white is unvisited, gray is queued, black is expanded. */
  datatype BFSColor = White | Gray | Black

  /** BFSAttribute: a baseAttribute (predecessor, distance) with a colour. */
  datatype BFSAttribute = BFSAttribute(predecessor: Option<Vertex>, distance: int, color: BFSColor)

  /** BreadthFirstTree: one attribute per vertex. Go keeps pointers to the
      attributes in the map and updates them in place; nothing else holds
      those pointers, so a map of values that the search reassigns has the
      same behaviour. */
  type BreadthFirstTree = map<Vertex, BFSAttribute>

  /** initBFSTree: every vertex white at distance -1 with no predecessor,
      then the source gray at distance 0; a source that is not a vertex
      panics. */
  method InitBFSTree(g: DirectedGraph, source: Vertex) returns (r: Result<BreadthFirstTree, string>)
    ensures r.Err? <==> source !in g.vertices
    ensures r.Ok? ==> r.value.Keys == set v | v in g.vertices
    ensures r.Ok? ==> r.value[source] == BFSAttribute(None, 0, Gray)
    ensures r.Ok? ==> forall v :: v in r.value && v != source ==> r.value[v] == BFSAttribute(None, -1, White)
  {
    var tree: BreadthFirstTree := map[];
    var i := 0;
    while i < |g.vertices|
      invariant 0 <= i <= |g.vertices|
      invariant tree.Keys == set v | v in g.vertices[..i]
      invariant forall v :: v in tree ==> tree[v] == BFSAttribute(None, -1, White)
    {
      tree := tree[g.vertices[i] := BFSAttribute(None, -1, White)];
      assert g.vertices[..i + 1] == g.vertices[..i] + [g.vertices[i]];
      i := i + 1;
    }
    assert g.vertices[..i] == g.vertices;
    if source !in tree {
      return Err("source not in graph");
    }
    tree := tree[source := tree[source].(color := Gray, distance := 0)];
    return Ok(tree);
  }

  /** Every white vertex still has its initial attribute. */
  ghost predicate WhiteUntouched(tree: BreadthFirstTree)
  {
    forall v :: v in tree && tree[v].color == White ==> tree[v].distance == -1 && tree[v].predecessor.None?
  }

  /** Every reached vertex other than the source was reached along an edge
      from a reached vertex, one step further away. */
  ghost predicate Parented(g: DirectedGraph, tree: BreadthFirstTree, source: Vertex)
  {
    forall v :: v in tree && tree[v].color != White && v != source ==>
      tree[v].predecessor.Some? && tree[v].predecessor.value in tree &&
      tree[tree[v].predecessor.value].color != White &&
      Adjacent(g, tree[v].predecessor.value, v) &&
      tree[v].distance == tree[tree[v].predecessor.value].distance + 1 && tree[v].distance > 0
  }

  ghost predicate SourceReached(tree: BreadthFirstTree, source: Vertex)
  {
    source in tree && tree[source].color != White &&
    tree[source].distance == 0 && tree[source].predecessor.None?
  }

  /** No edge out of a black vertex leads to a white one, nor to one more
      than one step further from the source. */
  ghost predicate Closed(g: DirectedGraph, tree: BreadthFirstTree)
  {
    forall v, e :: v in tree && tree[v].color == Black && e in g.EdgesOf(v) ==>
      e.to in tree && tree[e.to].color != White && tree[e.to].distance <= tree[v].distance + 1
  }

  ghost predicate Distinct(s: seq<Vertex>)
  {
    forall i, j :: 0 <= i < j < |s| ==> s[i] != s[j]
  }

  /** The vertices of colour c are exactly those listed in s. */
  ghost predicate Lists(tree: BreadthFirstTree, c: BFSColor, s: seq<Vertex>)
  {
    Distinct(s) && (forall i :: 0 <= i < |s| ==> s[i] in tree) &&
    forall v :: v in tree ==> (tree[v].color == c <==> v in s)
  }

  /** Distances never decrease along s. */
  ghost predicate Monotone(tree: BreadthFirstTree, s: seq<Vertex>)
    requires forall i :: 0 <= i < |s| ==> s[i] in tree
  {
    forall i, j :: 0 <= i < j < |s| ==> tree[s[i]].distance <= tree[s[j]].distance
  }

  /** The queue spans at most two consecutive distances, starting no lower
      than any expanded vertex. */
  ghost predicate Layered(tree: BreadthFirstTree, done: seq<Vertex>, queue: seq<Vertex>)
    requires forall i :: 0 <= i < |done| ==> done[i] in tree
    requires forall i :: 0 <= i < |queue| ==> queue[i] in tree
  {
    Monotone(tree, done) && Monotone(tree, queue) &&
    (|queue| > 0 ==>
      tree[queue[|queue| - 1]].distance <= tree[queue[0]].distance + 1 &&
      forall i :: 0 <= i < |done| ==> tree[done[i]].distance <= tree[queue[0]].distance)
  }

  /** What holds between iterations of the search loop. */
  ghost predicate SearchInv(g: DirectedGraph, source: Vertex, tree: BreadthFirstTree,
                            queue: seq<Vertex>, done: seq<Vertex>, whites: set<Vertex>)
  {
    TreeInv(g, source, tree, whites) && OrderInv(source, tree, queue, done)
  }

  /** The facts about single vertices and edges: what the colours mean. */
  ghost predicate TreeInv(g: DirectedGraph, source: Vertex, tree: BreadthFirstTree, whites: set<Vertex>)
  {
    WhiteUntouched(tree) && Parented(g, tree, source) && SourceReached(tree, source) && Closed(g, tree) &&
    (forall v :: v in whites <==> v in tree && tree[v].color == White)
  }

  /** The facts about the queue and the expanded vertices: which they are,
      and in what order of distance. */
  ghost predicate OrderInv(source: Vertex, tree: BreadthFirstTree, queue: seq<Vertex>, done: seq<Vertex>)
  {
    Lists(tree, Gray, queue) && Lists(tree, Black, done) && Layered(tree, done, queue) &&
    (|done| == 0 ==> queue == [source]) && (|done| > 0 ==> done[0] == source)
  }

  /** What holds while the edges of u, just taken from the queue, are
      examined. */
  ghost predicate Expanding(g: DirectedGraph, source: Vertex, t: BreadthFirstTree, q: seq<Vertex>,
                            u: Vertex, done: seq<Vertex>, whites: set<Vertex>)
  {
    u in t && t[u].color == Gray && TreeInv(g, source, t, whites) && QueueInv(source, t, q, u, done)
  }

  /** The queue without u, and the expanded vertices, while u is expanded. */
  ghost predicate QueueInv(source: Vertex, t: BreadthFirstTree, q: seq<Vertex>, u: Vertex, done: seq<Vertex>)
    requires u in t
  {
    Distinct(q) && u !in q && (forall i :: 0 <= i < |q| ==> q[i] in t) &&
    (forall v :: v in t ==> (t[v].color == Gray <==> v in q || v == u)) &&
    Lists(t, Black, done) && Monotone(t, done) && Monotone(t, q) &&
    (forall i :: 0 <= i < |q| ==> t[u].distance <= t[q[i]].distance <= t[u].distance + 1) &&
    (forall i :: 0 <= i < |done| ==> t[done[i]].distance <= t[u].distance) &&
    (if |done| == 0 then u == source else done[0] == source)
  }

  /** The white targets of `edges`, each once, in the order in which the
      edge loop of breadthFirstSearch enqueues them. */
  function WhiteTargets(tree: BreadthFirstTree, edges: seq<Edge>): (r: seq<Vertex>)
    ensures forall v :: v in r ==> v in tree && tree[v].color == White
    decreases |edges|
  {
    if edges == [] then []
    else
      var rest := WhiteTargets(tree, edges[..|edges| - 1]);
      var to := edges[|edges| - 1].to;
      if to in tree && tree[to].color == White && to !in rest then rest + [to] else rest
  }

  /** The white targets are listed once each, and they are exactly the
      white vertices some edge leads to. */
  lemma {:induction false} WhiteTargetsAre(tree: BreadthFirstTree, edges: seq<Edge>)
    ensures Distinct(WhiteTargets(tree, edges))
    ensures forall v :: v in WhiteTargets(tree, edges) <==>
      v in tree && tree[v].color == White && exists e :: e in edges && e.to == v
    decreases |edges|
  {
    if edges != [] {
      var init := edges[..|edges| - 1];
      WhiteTargetsAre(tree, init);
      assert edges == init + [edges[|edges| - 1]];
    }
  }

  /** From `tree` and `queue` to t and q, u discovered the vertices w: each
      is gray, one step further than u, with u as its predecessor, and they
      were enqueued in order; every other vertex is as it was. */
  ghost predicate Discovered(tree: BreadthFirstTree, queue: seq<Vertex>, u: Vertex, w: seq<Vertex>,
                             t: BreadthFirstTree, q: seq<Vertex>)
    requires u in tree
  {
    t.Keys == tree.Keys && q == queue + w &&
    forall v {:trigger t[v]} :: v in tree ==> t[v] == if v in w then BFSAttribute(Some(u), tree[u].distance + 1, Gray) else tree[v]
  }

  /** The edge loop of breadthFirstSearch for the vertex u: each white
      target turns gray at one more than u's distance with u as predecessor
      and is enqueued. An edge to a vertex outside the tree dereferences nil
      and panics. */
  method Discover(g: DirectedGraph, tree: BreadthFirstTree, queue: seq<Vertex>, u: Vertex)
    returns (r: Result<(BreadthFirstTree, seq<Vertex>), string>)
    requires u in tree
    ensures r.Err? ==> exists e :: e in g.EdgesOf(u) && e.to !in tree
    ensures r.Ok? ==> forall e :: e in g.EdgesOf(u) ==> e.to in tree
    ensures r.Ok? ==> Discovered(tree, queue, u, WhiteTargets(tree, g.EdgesOf(u)), r.value.0, r.value.1)
  {
    var t := tree;
    var q := queue;
    var d := t[u].distance;
    var edges := g.EdgesOf(u);
    var j := 0;
    while j < |edges|
      invariant Enqueued(tree, queue, u, edges, j, t, q)
      invariant forall k :: 0 <= k < j ==> edges[k].to in tree
    {
      var to := edges[j].To();
      if to !in t {
        assert edges[j] in g.EdgesOf(u);
        return Err("invalid memory address or nil pointer dereference");
      }
      if t[to].color == White {
        ghost var t0, q0 := t, q;
        t := t[to := BFSAttribute(Some(u), d + 1, Gray)];
        q := q + [to];
        EnqueuedStep(tree, queue, u, edges, j, t0, q0, t, q);
      } else {
        EnqueuedStep(tree, queue, u, edges, j, t, q, t, q);
      }
      j := j + 1;
    }
    assert edges[..j] == edges;
    forall e | e in edges
      ensures e.to in tree
    {
      var k :| 0 <= k < |edges| && edges[k] == e;
    }
    return Ok((t, q));
  }

  /** After the first j edges of u: the vertices turned gray are the white
      targets of those edges, and the queue grew by them in edge order. */
  ghost predicate Enqueued(tree: BreadthFirstTree, queue: seq<Vertex>, u: Vertex, edges: seq<Edge>, j: int,
                           t: BreadthFirstTree, q: seq<Vertex>)
    requires u in tree
  {
    0 <= j <= |edges| && Discovered(tree, queue, u, WhiteTargets(tree, edges[..j]), t, q)
  }

  /** Examining edge j adds its target to the enqueued vertices exactly
      when it is still white. */
  lemma EnqueuedStep(tree: BreadthFirstTree, queue: seq<Vertex>, u: Vertex, edges: seq<Edge>, j: int,
                     t: BreadthFirstTree, q: seq<Vertex>, t2: BreadthFirstTree, q2: seq<Vertex>)
    requires u in tree && Enqueued(tree, queue, u, edges, j, t, q) && j < |edges| && edges[j].to in t
    requires t[edges[j].to].color == White ==>
      t2 == t[edges[j].to := BFSAttribute(Some(u), tree[u].distance + 1, Gray)] && q2 == q + [edges[j].to]
    requires t[edges[j].to].color != White ==> t2 == t && q2 == q
    ensures Enqueued(tree, queue, u, edges, j + 1, t2, q2)
  {
    var to := edges[j].to;
    assert edges[..j + 1][..j] == edges[..j] && edges[..j + 1][j] == edges[j];
    var w := WhiteTargets(tree, edges[..j]);
    assert t[to].color == White <==> tree[to].color == White && to !in w;
  }

  /** The edge loop for u, run on a tree where u is being expanded, keeps
      the expansion facts with the discovered vertices no longer white,
      and leaves every edge of u leading to a reached vertex. */
  lemma DiscoverKeeps(g: DirectedGraph, source: Vertex, tree: BreadthFirstTree, queue: seq<Vertex>,
                      u: Vertex, done: seq<Vertex>, whites: set<Vertex>, t: BreadthFirstTree, q: seq<Vertex>)
    requires Expanding(g, source, tree, queue, u, done, whites)
    requires forall e :: e in g.EdgesOf(u) ==> e.to in tree
    requires Discovered(tree, queue, u, WhiteTargets(tree, g.EdgesOf(u)), t, q)
    ensures var w := WhiteTargets(tree, g.EdgesOf(u));
      Expanding(g, source, t, q, u, done, whites - (set v | v in w))
    ensures forall e :: e in g.EdgesOf(u) ==> e.to in t && t[e.to].color != White
  {
    var w := WhiteTargets(tree, g.EdgesOf(u));
    WhiteTargetsAre(tree, g.EdgesOf(u));
    DiscoverTree(g, source, tree, queue, u, whites, w, t, q);
    DiscoverQueue(source, tree, queue, u, done, w, t, q);
    forall e | e in g.EdgesOf(u)
      ensures t[e.to].color != White
    {
      if tree[e.to].color == White {
        assert e.to in w;
      }
    }
  }

  /** Discovering the white vertices w that edges of the gray vertex u lead
      to keeps the facts about single vertices and edges. */
  lemma DiscoverTree(g: DirectedGraph, source: Vertex, tree: BreadthFirstTree, queue: seq<Vertex>, u: Vertex,
                     whites: set<Vertex>, w: seq<Vertex>, t: BreadthFirstTree, q: seq<Vertex>)
    requires u in tree && tree[u].color == Gray && TreeInv(g, source, tree, whites)
    requires forall v :: v in w ==> v in tree && tree[v].color == White && Adjacent(g, u, v)
    requires Discovered(tree, queue, u, w, t, q)
    ensures TreeInv(g, source, t, whites - (set v | v in w))
  {
    assert tree[u].distance >= 0 && u !in w;
    forall v | v in t && t[v].color != White && v != source
      ensures t[v].predecessor.Some? && t[v].predecessor.value in t &&
        t[t[v].predecessor.value].color != White && Adjacent(g, t[v].predecessor.value, v) &&
        t[v].distance == t[t[v].predecessor.value].distance + 1 && t[v].distance > 0
    {
      if v !in w {
        var p := tree[v].predecessor.value;
        assert p !in w;
      }
    }
    forall v, e | v in t && t[v].color == Black && e in g.EdgesOf(v)
      ensures e.to in t && t[e.to].color != White && t[e.to].distance <= t[v].distance + 1
    {
      assert v !in w && e.to !in w;
    }
  }

  /** Discovering the white vertices w, listed once each, from u and
      enqueuing them keeps the queue facts. */
  lemma DiscoverQueue(source: Vertex, tree: BreadthFirstTree, queue: seq<Vertex>, u: Vertex, done: seq<Vertex>,
                      w: seq<Vertex>, t: BreadthFirstTree, q: seq<Vertex>)
    requires u in tree && tree[u].color == Gray && QueueInv(source, tree, queue, u, done)
    requires Distinct(w) && forall v :: v in w ==> v in tree && tree[v].color == White
    requires Discovered(tree, queue, u, w, t, q)
    ensures u in t && QueueInv(source, t, q, u, done)
  {
    assert u !in w;
    forall i, j | 0 <= i < j < |q|
      ensures q[i] != q[j]
    {
      if i < |queue| <= j {
        assert q[i] == queue[i] && q[j] == w[j - |queue|];
        assert q[i] in queue && q[j] in w;
      }
    }
    forall i | 0 <= i < |q|
      ensures q[i] in t && t[u].distance <= t[q[i]].distance <= t[u].distance + 1
    {
      if i < |queue| {
        assert q[i] == queue[i] && queue[i] !in w;
      } else {
        assert q[i] == w[i - |queue|];
      }
    }
    forall i, j | 0 <= i < j < |q|
      ensures t[q[i]].distance <= t[q[j]].distance
    {
      if j < |queue| {
        assert q[i] == queue[i] && q[j] == queue[j] && queue[i] !in w && queue[j] !in w;
      } else {
        assert q[j] == w[j - |queue|];
      }
    }
    forall i | 0 <= i < |done|
      ensures done[i] in t && t[done[i]] == tree[done[i]]
    {
      assert done[i] !in w;
    }
    forall v | v in t
      ensures t[v].color == Gray <==> v in q || v == u
    {
    }
    forall v | v in t
      ensures t[v].color == Black <==> v in done
    {
    }
  }

  /** Taking the front of the queue starts its expansion. */
  lemma StartExpanding(g: DirectedGraph, source: Vertex, tree: BreadthFirstTree,
                       queue: seq<Vertex>, done: seq<Vertex>, whites: set<Vertex>)
    requires |queue| > 0 && SearchInv(g, source, tree, queue, done, whites)
    ensures Expanding(g, source, tree, queue[1..], queue[0], done, whites)
  {
    StartQueue(tree, queue, done);
  }

  /** Taking the head u off the gray queue: the rest is gray apart from u,
      repeats nothing, and lies within one step of u's distance. */
  lemma StartQueue(tree: BreadthFirstTree, queue: seq<Vertex>, done: seq<Vertex>)
    requires |queue| > 0 && Lists(tree, Gray, queue)
    requires forall i :: 0 <= i < |done| ==> done[i] in tree
    requires Layered(tree, done, queue)
    ensures var u, q := queue[0], queue[1..];
      Distinct(q) && u !in q && (forall i :: 0 <= i < |q| ==> q[i] in tree) &&
      (forall v :: v in tree ==> (tree[v].color == Gray <==> v in q || v == u)) && Monotone(tree, q) &&
      (forall i :: 0 <= i < |q| ==> tree[u].distance <= tree[q[i]].distance <= tree[u].distance + 1)
  {
    var u := queue[0];
    var q := queue[1..];
    forall k | 0 <= k < |q|
      ensures q[k] != u
    {
      assert q[k] == queue[k + 1];
    }
    forall v | v in tree
      ensures tree[v].color == Gray <==> v in q || v == u
    {
      if v in queue {
        var k :| 0 <= k < |queue| && queue[k] == v;
        if k > 0 {
          assert q[k - 1] == v;
        }
      }
    }
    forall i | 0 <= i < |q|
      ensures tree[u].distance <= tree[q[i]].distance <= tree[u].distance + 1
    {
      assert q[i] == queue[i + 1];
    }
  }

  /** Once every edge of u leads to a reached vertex, blackening u
      restores the loop facts with u expanded. */
  lemma FinishExpanding(g: DirectedGraph, source: Vertex, t: BreadthFirstTree, q: seq<Vertex>,
                        u: Vertex, done: seq<Vertex>, whites: set<Vertex>, t2: BreadthFirstTree)
    requires Expanding(g, source, t, q, u, done, whites)
    requires forall e :: e in g.EdgesOf(u) ==> e.to in t && t[e.to].color != White
    requires t2 == t[u := t[u].(color := Black)]
    ensures SearchInv(g, source, t2, q, done + [u], whites)
  {
    FinishTree(g, source, t, q, u, done, whites, t2);
    FinishLists(g, source, t, q, u, done, whites, t2);
    FinishLayers(g, source, t, q, u, done, whites, t2);
  }

  /** Blackening u keeps the facts about single vertices and closes u's
      edges. */
  lemma FinishTree(g: DirectedGraph, source: Vertex, t: BreadthFirstTree, q: seq<Vertex>,
                   u: Vertex, done: seq<Vertex>, whites: set<Vertex>, t2: BreadthFirstTree)
    requires Expanding(g, source, t, q, u, done, whites)
    requires forall e :: e in g.EdgesOf(u) ==> e.to in t && t[e.to].color != White
    requires t2 == t[u := t[u].(color := Black)]
    ensures WhiteUntouched(t2) && Parented(g, t2, source) && SourceReached(t2, source) && Closed(g, t2)
    ensures forall v :: v in whites <==> v in t2 && t2[v].color == White
  {
    FinishNear(g, source, t, q, u, done, whites);
    assert forall v :: v in t2 ==>
      t2[v].predecessor == t[v].predecessor && t2[v].distance == t[v].distance &&
      (t2[v].color == White <==> t[v].color == White);
    forall v, e | v in t2 && t2[v].color == Black && e in g.EdgesOf(v)
      ensures e.to in t2 && t2[e.to].color != White && t2[e.to].distance <= t2[v].distance + 1
    {
      if v != u {
        assert t[v].color == Black;
      }
    }
  }

  /** Every reached target of u other than u itself is gray or black, so
      it is at most one step further from the source than u. */
  lemma FinishNear(g: DirectedGraph, source: Vertex, t: BreadthFirstTree, q: seq<Vertex>,
                   u: Vertex, done: seq<Vertex>, whites: set<Vertex>)
    requires Expanding(g, source, t, q, u, done, whites)
    requires forall e :: e in g.EdgesOf(u) ==> e.to in t && t[e.to].color != White
    ensures forall e :: e in g.EdgesOf(u) ==> t[e.to].distance <= t[u].distance + 1
  {
    forall e | e in g.EdgesOf(u) && e.to != u
      ensures t[e.to].distance <= t[u].distance + 1
    {
      var w := e.to;
      if t[w].color == Gray {
        assert w in q;
        var i :| 0 <= i < |q| && q[i] == w;
      } else {
        assert w in done;
        var i :| 0 <= i < |done| && done[i] == w;
      }
    }
  }

  /** Blackening u moves it from the gray vertices to the black ones. */
  lemma FinishLists(g: DirectedGraph, source: Vertex, t: BreadthFirstTree, q: seq<Vertex>,
                    u: Vertex, done: seq<Vertex>, whites: set<Vertex>, t2: BreadthFirstTree)
    requires Expanding(g, source, t, q, u, done, whites)
    requires t2 == t[u := t[u].(color := Black)]
    ensures Lists(t2, Gray, q) && Lists(t2, Black, done + [u])
  {
    var d2 := done + [u];
    assert u !in done;
    forall v | v in t2
      ensures t2[v].color == Black <==> v in d2
    {
    }
    assert Distinct(d2);
  }

  /** Blackening u keeps distances monotone along the expanded vertices and
      the queue. */
  lemma FinishLayers(g: DirectedGraph, source: Vertex, t: BreadthFirstTree, q: seq<Vertex>,
                     u: Vertex, done: seq<Vertex>, whites: set<Vertex>, t2: BreadthFirstTree)
    requires Expanding(g, source, t, q, u, done, whites)
    requires t2 == t[u := t[u].(color := Black)]
    ensures forall i :: 0 <= i < |done + [u]| ==> (done + [u])[i] in t2
    ensures forall i :: 0 <= i < |q| ==> q[i] in t2
    ensures Layered(t2, done + [u], q)
    ensures |done + [u]| > 0 && (done + [u])[0] == source
  {
  }

  /** One iteration of the search loop: take the front of the queue,
      discover the white targets of its edges, then blacken it. */
  method Visit(g: DirectedGraph, tree: BreadthFirstTree, queue: seq<Vertex>)
    returns (r: Result<(BreadthFirstTree, seq<Vertex>), string>, u: Vertex)
    requires |queue| > 0 && queue[0] in tree && tree[queue[0]].color == Gray
    ensures u == queue[0]
    ensures r.Err? ==> exists e :: e in g.EdgesOf(u) && e.to !in tree
    ensures r.Ok? ==> Expanded(g, tree, queue, r.value.0, r.value.1)
  {
    u := queue[0];
    var res := Discover(g, tree, queue[1..], u);
    if res.Err? {
      return Err(res.error), u;
    }
    var (t, q) := res.value;
    ghost var t1 := t;
    assert t[u] == tree[u];
    t := t[u := t[u].(color := Black)];
    UpdateUndone(t1, u, t1[u].(color := Black));
    return Ok((t, q)), u;
  }

  /** From `tree` and `queue` to t and q, the front u of the queue was
      expanded: every edge of u leads to a vertex of the tree, the white
      targets of u were discovered and enqueued, and u turned black. */
  ghost predicate Expanded(g: DirectedGraph, tree: BreadthFirstTree, queue: seq<Vertex>, t: BreadthFirstTree, q: seq<Vertex>)
    requires |queue| > 0 && queue[0] in tree
  {
    var u := queue[0];
    (forall e :: e in g.EdgesOf(u) ==> e.to in tree) &&
    t.Keys == tree.Keys && t[u] == tree[u].(color := Black) &&
    Discovered(tree, queue[1..], u, WhiteTargets(tree, g.EdgesOf(u)), t[u := tree[u]], q)
  }

  /** An iteration of the search loop keeps the loop facts, with the vertex
      taken from the queue expanded and the vertices it discovered no
      longer white; either some vertex stopped being white or the queue
      got shorter. */
  lemma VisitKeeps(g: DirectedGraph, source: Vertex, tree: BreadthFirstTree, queue: seq<Vertex>,
                   done: seq<Vertex>, whites: set<Vertex>, t: BreadthFirstTree, q: seq<Vertex>)
    requires |queue| > 0 && SearchInv(g, source, tree, queue, done, whites)
    requires queue[0] in tree && Expanded(g, tree, queue, t, q)
    ensures var whites2 := whites - set v | v in WhiteTargets(tree, g.EdgesOf(queue[0]));
      SearchInv(g, source, t, q, done + [queue[0]], whites2) &&
      (whites2 < whites || (whites2 == whites && |q| < |queue|))
  {
    var u := queue[0];
    var w := WhiteTargets(tree, g.EdgesOf(u));
    var whites2 := whites - set v | v in w;
    var t1 := t[u := tree[u]];
    VisitStarts(g, source, tree, queue, done, whites, t1, q);
    UpdateUndone(t, u, tree[u]);
    FinishExpanding(g, source, t1, q, u, done, whites2, t);
    WhitesShrink(whites, w);
  }

  /** Up to the blackening of the front u of the queue, an iteration of the
      search loop keeps the expansion facts. */
  lemma VisitStarts(g: DirectedGraph, source: Vertex, tree: BreadthFirstTree, queue: seq<Vertex>,
                    done: seq<Vertex>, whites: set<Vertex>, t1: BreadthFirstTree, q: seq<Vertex>)
    requires |queue| > 0 && SearchInv(g, source, tree, queue, done, whites)
    requires forall e :: e in g.EdgesOf(queue[0]) ==> e.to in tree
    requires Discovered(tree, queue[1..], queue[0], WhiteTargets(tree, g.EdgesOf(queue[0])), t1, q)
    ensures var u := queue[0];
      Expanding(g, source, t1, q, u, done, whites - set v | v in WhiteTargets(tree, g.EdgesOf(u))) &&
      (forall e :: e in g.EdgesOf(u) ==> e.to in t1 && t1[e.to].color != White) &&
      t1[u] == tree[u]
  {
    StartExpanding(g, source, tree, queue, done, whites);
    DiscoverKeeps(g, source, tree, queue[1..], queue[0], done, whites, t1, q);
  }

  /** Taking away a non-empty list of white vertices shrinks the white set. */
  lemma WhitesShrink(whites: set<Vertex>, w: seq<Vertex>)
    requires forall v :: v in w ==> v in whites
    ensures w != [] ==> whites - (set v | v in w) < whites
  {
    if w != [] {
      var x := w[0];
      assert x in w && x in whites;
      assert x !in whites - (set v | v in w);
    }
  }

  /** Writing an entry back undoes an update of it. */
  lemma UpdateUndone(m: BreadthFirstTree, k: Vertex, x: BFSAttribute)
    requires k in m
    ensures m[k := x][k := m[k]] == m
  {
  }

  /** breadthFirstSearch: the source is queued; while the queue is not
      empty, the front vertex is expanded and then handed to the callback,
      if there is one. The callback is not modelled beyond the list of
      vertices it is called with, which `calls` records.
      The result: nothing is left gray; an unreached vertex keeps its
      initial attribute; every reached vertex is one further from the source
      than its predecessor, which was reached too and has an edge to it; no
      edge leads from a reached vertex to an unreached one; the vertices
      were expanded once each, the source first and in order of distance;
      and the reached vertices are those a walk from the source leads to,
      each at the length of its shortest such walk. */
  method BreadthFirstSearchCallback(g: DirectedGraph, source: Vertex, hasCallback: bool)
    returns (r: Result<BreadthFirstTree, string>, calls: seq<Vertex>, ghost order: seq<Vertex>)
    ensures source !in g.vertices ==> r.Err?
    ensures r.Err? ==> source !in g.vertices || exists v, e :: v in g.vertices && e in g.EdgesOf(v) && e.to !in g.vertices
    ensures r.Ok? ==> var tree := r.value;
      tree.Keys == (set v | v in g.vertices) &&
      (forall v :: v in tree ==> tree[v].color != Gray) &&
      WhiteUntouched(tree) && Parented(g, tree, source) && SourceReached(tree, source) && Closed(g, tree)
    ensures r.Ok? ==> Lists(r.value, Black, order) && Monotone(r.value, order) && order[0] == source
    ensures r.Ok? ==> Shortest(g, source, r.value)
    ensures r.Ok? ==> calls == if hasCallback then order else []
  {
    calls := [];
    order := [];
    var init := InitBFSTree(g, source);
    if init.Err? {
      return Err(init.error), calls, order;
    }
    var tree := init.value;
    var queue := [source];
    ghost var whites := set v | v in tree && tree[v].color == White;
    while |queue| > 0
      invariant tree.Keys == set v | v in g.vertices
      invariant SearchInv(g, source, tree, queue, order, whites)
      invariant calls == if hasCallback then order else []
      decreases whites, |queue|
    {
      QueueFront(tree, queue);
      var res, u := Visit(g, tree, queue);
      if res.Err? {
        MissingTarget(g, tree, u);
        return Err(res.error), calls, order;
      }
      VisitKeeps(g, source, tree, queue, order, whites, res.value.0, res.value.1);
      whites := whites - set v | v in WhiteTargets(tree, g.EdgesOf(u));
      tree, queue := res.value.0, res.value.1;
      order := order + [u];
      if hasCallback {
        calls := calls + [u];
      }
    }
    assert queue == [];
    SearchEnd(g, source, tree, order, whites);
    return Ok(tree), calls, order;
  }

  /** The front of the gray queue is a gray vertex of the tree. */
  lemma QueueFront(tree: BreadthFirstTree, queue: seq<Vertex>)
    requires |queue| > 0 && Lists(tree, Gray, queue)
    ensures queue[0] in tree && tree[queue[0]].color == Gray
  {
    assert queue[0] in queue;
  }

  /** An edge out of a vertex of the tree to a vertex outside it is an
      edge of the graph that leaves its vertex list. */
  lemma MissingTarget(g: DirectedGraph, tree: BreadthFirstTree, u: Vertex)
    requires tree.Keys == set v | v in g.vertices
    requires u in tree && exists e :: e in g.EdgesOf(u) && e.to !in tree
    ensures exists v, e :: v in g.vertices && e in g.EdgesOf(v) && e.to !in g.vertices
  {
    var e :| e in g.EdgesOf(u) && e.to !in tree;
    assert u in g.vertices && e.to !in g.vertices;
  }

  /** When the queue runs empty, nothing is gray, the source was expanded
      first, and distances are those of shortest walks. */
  lemma SearchEnd(g: DirectedGraph, source: Vertex, tree: BreadthFirstTree, done: seq<Vertex>, whites: set<Vertex>)
    requires SearchInv(g, source, tree, [], done, whites)
    ensures forall v :: v in tree ==> tree[v].color != Gray
    ensures |done| > 0 && done[0] == source
    ensures Shortest(g, source, tree)
  {
    SearchShortest(g, source, tree);
  }

  /** BreadthFirstSearch: the search without a callback. */
  method BreadthFirstSearch(g: DirectedGraph, source: Vertex)
    returns (r: Result<BreadthFirstTree, string>, ghost order: seq<Vertex>)
    ensures source !in g.vertices ==> r.Err?
    ensures r.Err? ==> source !in g.vertices || exists v, e :: v in g.vertices && e in g.EdgesOf(v) && e.to !in g.vertices
    ensures r.Ok? ==> var tree := r.value;
      tree.Keys == (set v | v in g.vertices) &&
      (forall v :: v in tree ==> tree[v].color != Gray) &&
      WhiteUntouched(tree) && Parented(g, tree, source) && SourceReached(tree, source) && Closed(g, tree)
    ensures r.Ok? ==> Lists(r.value, Black, order) && Monotone(r.value, order) && order[0] == source
    ensures r.Ok? ==> Shortest(g, source, r.value)
  {
    var calls;
    r, calls, order := BreadthFirstSearchCallback(g, source, false);
  }

  /** The reached vertices are exactly those some walk from the source
      leads to, and each is as far from the source as its shortest walk. */
  ghost predicate Shortest(g: DirectedGraph, source: Vertex, tree: BreadthFirstTree)
  {
    (forall v :: v in tree && tree[v].color != White ==>
      tree[v].distance >= 0 && Walk(g, source, v, tree[v].distance)) &&
    (forall v, n: nat :: Walk(g, source, v, n) ==>
      v in tree && tree[v].color != White && tree[v].distance <= n)
  }

  /** Following predecessors back from a reached vertex gives a walk from
      the source as long as its distance. */
  lemma {:induction false} ReachedWalk(g: DirectedGraph, source: Vertex, tree: BreadthFirstTree, v: Vertex)
    requires Parented(g, tree, source) && SourceReached(tree, source)
    requires v in tree && tree[v].color != White
    ensures tree[v].distance >= 0 && Walk(g, source, v, tree[v].distance)
    decreases tree[v].distance
  {
    if v != source {
      var p := tree[v].predecessor.value;
      if tree[p].distance > 0 {
        assert p != source;
      }
      ReachedWalk(g, source, tree, p);
      assert Adjacent(g, p, v) && Walk(g, source, p, tree[v].distance - 1);
    }
  }

  /** Once nothing is gray, the end of any walk of n edges from the source
      was reached at distance n or less. */
  lemma {:induction false} WalkReached(g: DirectedGraph, source: Vertex, tree: BreadthFirstTree, v: Vertex, n: nat)
    requires SourceReached(tree, source) && Closed(g, tree)
    requires forall w :: w in tree ==> tree[w].color != Gray
    requires Walk(g, source, v, n)
    ensures v in tree && tree[v].color != White && tree[v].distance <= n
    decreases n
  {
    if n > 0 {
      var p :| Adjacent(g, p, v) && Walk(g, source, p, n - 1);
      WalkReached(g, source, tree, p, n - 1);
      var e :| e in g.EdgesOf(p) && e.to == v;
      assert tree[p].color == Black;
    }
  }

  /** When the search ends without a panic, its distances are the lengths
      of shortest walks from the source. */
  lemma SearchShortest(g: DirectedGraph, source: Vertex, tree: BreadthFirstTree)
    requires Parented(g, tree, source) && SourceReached(tree, source) && Closed(g, tree)
    requires forall w :: w in tree ==> tree[w].color != Gray
    ensures Shortest(g, source, tree)
  {
    forall v | v in tree && tree[v].color != White
      ensures tree[v].distance >= 0 && Walk(g, source, v, tree[v].distance)
    {
      ReachedWalk(g, source, tree, v);
    }
    forall v, n: nat | Walk(g, source, v, n)
      ensures v in tree && tree[v].color != White && tree[v].distance <= n
    {
      WalkReached(g, source, tree, v, n);
    }
  }
}
