/** The graph vocabulary of the `gogve` package (graph.go): vertices, edges
    with identity, directed graphs given by their vertex list and outgoing
    edge lists, and the base attribute searches attach to a vertex. */
module Graph {
  import opened Results

  /** A vertex: Go's `Vertex interface{}` holds comparable values; the
      model uses integers. A missing vertex (Go's nil) is an Option. */
  type Vertex = int

  /** baseEdge: edges are pointers, so two edges between the same vertices
      are still different map keys. */
  class Edge {
    const from: Vertex
    const to: Vertex

    constructor (from: Vertex, to: Vertex)
      ensures this.from == from && this.to == to
    {
      this.from := from;
      this.to := to;
    }

    function From(): Vertex
    {
      from
    }

    function To(): Vertex
    {
      to
    }
  }

  /** NewEdge: a fresh edge remembering both endpoints. */
  method NewEdge(from: Vertex, to: Vertex) returns (e: Edge)
    ensures fresh(e)
    ensures e.From() == from && e.To() == to
  {
    e := new Edge(from, to);
  }

  /** A DirectedGraph as its two accessors see it: Vertices() and Edges(). */
  datatype DirectedGraph = DirectedGraph(vertices: seq<Vertex>, edges: map<Vertex, seq<Edge>>)
  {
    /** `Edges()[v]`: a missing key reads as the empty (nil) slice. */
    function EdgesOf(v: Vertex): seq<Edge>
    {
      if v in edges then edges[v] else []
    }

    /** Every vertex is listed once. */
    predicate DistinctVertices()
    {
      forall i, j :: 0 <= i < j < |vertices| ==> vertices[i] != vertices[j]
    }
  }

  /** Some edge out of u leads to v. */
  ghost predicate Adjacent(g: DirectedGraph, u: Vertex, v: Vertex)
  {
    exists e :: e in g.EdgesOf(u) && e.to == v
  }

  /** There is a walk of n edges from s to v. */
  ghost predicate Walk(g: DirectedGraph, s: Vertex, v: Vertex, n: nat)
    decreases n
  {
    if n == 0 then v == s else exists p :: Adjacent(g, p, v) && Walk(g, s, p, n - 1)
  }

  /** The vertices whose edge list has exactly one edge. */
  function DeadEndSet(g: DirectedGraph): set<Vertex>
  {
    set v | v in g.edges && |g.edges[v]| == 1
  }

  /** DeadEnds: walks the edge map (in no particular order, as Go's map
      iteration) and appends each vertex with exactly one edge. */
  method DeadEnds(g: DirectedGraph) returns (verts: seq<Vertex>)
    ensures forall v :: v in verts <==> v in g.edges && |g.edges[v]| == 1
    ensures forall i, j :: 0 <= i < j < |verts| ==> verts[i] != verts[j]
    ensures |verts| == |DeadEndSet(g)|
  {
    verts := [];
    var remaining := g.edges.Keys;
    while remaining != {}
      invariant remaining <= g.edges.Keys
      invariant forall v :: v in verts <==> v in g.edges && v !in remaining && |g.edges[v]| == 1
      invariant forall i, j :: 0 <= i < j < |verts| ==> verts[i] != verts[j]
      decreases remaining
    {
      NonEmptyHasMember(remaining);
      var v :| v in remaining;
      if |g.edges[v]| == 1 {
        verts := verts + [v];
      }
      remaining := remaining - {v};
    }
    DistinctCard(verts, DeadEndSet(g));
  }

  /** A list without repeats has as many elements as the set it lists. */
  lemma {:induction false} DistinctCard(s: seq<Vertex>, t: set<Vertex>)
    requires forall v :: v in s <==> v in t
    requires forall i, j :: 0 <= i < j < |s| ==> s[i] != s[j]
    ensures |s| == |t|
  {
    if |s| > 0 {
      var last := s[|s| - 1];
      var init := s[..|s| - 1];
      forall v
        ensures v in init <==> v in t - {last}
      {
        if v in init {
          var k :| 0 <= k < |init| && init[k] == v;
          assert s[k] == v && k < |s| - 1;
        }
        if v in t - {last} {
          assert v in s;
          var k :| 0 <= k < |s| && s[k] == v;
          assert k != |s| - 1;
          assert init[k] == v;
        }
      }
      DistinctCard(init, t - {last});
      assert last in t;
      assert |t - {last}| == |t| - 1;
    } else {
      assert forall v :: v !in t;
      assert t == {};
    }
  }

  /** A non-empty set of vertices has a member. */
  lemma NonEmptyHasMember(s: set<Vertex>)
    requires s != {}
    ensures exists v :: v in s
  {
    if forall v :: v !in s {
      assert false;
    }
  }

  /** baseAttribute: a predecessor (None for nil) and a distance. */
  class BaseAttribute {
    var predecessor: Option<Vertex>
    var distance: int

    constructor (distance: int)
      ensures predecessor.None? && this.distance == distance
    {
      predecessor := None;
      this.distance := distance;
    }

    function Distance(): int
      reads this
    {
      distance
    }

    function Predecessor(): Option<Vertex>
      reads this
    {
      predecessor
    }

    method SetPredecessor(pre: Option<Vertex>)
      modifies this
      ensures Predecessor() == pre
      ensures Distance() == old(Distance())
    {
      predecessor := pre;
    }
  }
}
