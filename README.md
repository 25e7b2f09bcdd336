# gogve core, modelled in Dafny

gogve is a Go library of computational-geometry and graph building blocks. This project models its core and proves properties of the model:

- **Search trees.**
  - A comparator-driven binary search tree with parent pointers (`tree/baseBST.go`).
  - The node helpers it shares with the red-black tree (`tree/binarysearchtree.go`): search, minimum, maximum, successor, predecessor and the in-order walk.
  - The red-black tree of `tree/redblacktree.go`, with its rotations, insert and delete fixups and its black nil sentinel.
- **Sweep line.** The line-segment intersection sweep of `sweepline/linesegmentintersection.go`:
  - segment normalisation, the orientation and on-segment tests, and the point comparator;
  - the event queue, kept in order by the point comparator as written, which compares x only, so that a point whose x lies within the fuzz of a queued point's x is never queued;
  - `findEvent`, the per-event recording rule, the maximum-x early exit, and the line-status updates of `lsiIterate` with their panics: `Delete` is handed a nil node when a segment ending or lying at a point never entered the line status. Because a dropped start point never lets its line enter, a sweep over (0, 0)-(2, 0) and (0, 1)-(3, 1) panics at the second line's end.
- **Graphs.**
  - The graph vocabulary (`graph.go`).
  - Breadth-first search.
  - Depth-first search with timestamps, lowest reachable times and articulation points.
  - Dijkstra's shortest paths, together with the `MinPriorityQueue` it drains.
- **Utilities** (`util/`):
  - vectors and comparison results;
  - dense matrices with 1-based access;
  - polynomials with sparse-to-dense coefficients;
  - the parabola type.

## How the Go code is represented

- **One module per Go file or component.**

  | Go source | Dafny module(s) | file(s) |
  |---|---|---|
  | search trees | `SearchTree`, `BaseBST` | `searchtree.dfy`, `bst.dfy` |
  | red-black tree | `RedBlackLinks`, `RedBlackRotate`, `RedBlackColor`, `RedBlackDelete`, `RedBlackTree` | `rblinks.dfy`, `rbrotate.dfy`, `rbcolor.dfy`, `rbdelete.dfy`, `rbtree.dfy` |
  | sweep line | `SweepLine` | `sweep.dfy` |
  | graph vocabulary | `Graph` | `graph.dfy` |
  | breadth-first search | `BreadthFirst` | `bfs.dfy` |
  | depth-first search | `DepthFirst` | `dfs.dfy` |
  | priority queue | `PriorityQueue` | `queue.dfy` |
  | Dijkstra | `Dijkstra` | `dijkstra.dfy` |
  | vectors | `Util` | `util.dfy` |
  | matrices | `Matrix` | `matrix.dfy` |
  | polynomials | `Polynomial` | `polynomial.dfy` |
  | parabola | `Parabola` | `parabola.dfy` |
  | shared option and result types | `Results` | `results.dfy` |

- **Panics become error values.** Where the Go code panics, the model returns a `None` or `Err` result, or a `panicked` flag, and callers are not required to avoid the panic. The exceptions are listed under "Left out":
  - `RedBlackTree.RBTree.Delete` requires a node of the tree;
  - `BaseBST.Tree.Delete` requires a node of the tree, nil, or a node with no links;
  - `SweepLine.LSIState.Iterate` requires a non-empty queue;
  - `NewLineSegment`'s panic for vectors that are not 2-vectors cannot arise, because a `Point` always has two coordinates.
- **Objects the Go code updates in place are classes.** These include:
  - `FVec`, `Matrix` and `Parabola`;
  - the priority queue and its items;
  - the Dijkstra attributes;
  - the depth-first searcher;
  - both trees;
  - the sweep state.

  Their methods state their new state outright, usually as a function of the old state.
- **Tree nodes live in an arena.** The arena is a set of parallel sequences holding key, left, right, parent and colour, indexed by node.
  - In the plain tree, -1 is Go's nil.
  - In the red-black tree, index 0 is the sentinel standing for `rbNilNode`. Each modelled tree has its own sentinel node there.
  - Keys are `int` under `<`.
  - A ghost sequence of subtree node sets gives acyclicity and the measure for every pointer-walking loop.
  - The red-black tree is related to the plain one through a renaming of the sentinel. This lets in-order and search facts be proved once.
- **Coordinates are `real`.** This is an abstraction of `float64`. Points carry an identity, because the Go code compares `FVec` pointers for map keys and for `insideSegment`.

## Model

| member | source | states |
|---|---|---|
| Util.FVec.constructor | util/util.go:20-23 | a vector holds its degree and its member slice as given |
| Util.FVec.Z | util/util.go:62-69 | the third member agrees with M(2): 0 for a 2-vector, member 2 otherwise, a panic (None) when the slice is too short |
| Util.FVec.W | util/util.go:71-78 | the fourth member agrees with M(3): 0 up to degree 3 |
| Util.FVec.SetX | util/util.go:50-52 | writes member 0 and nothing else, Y unchanged; panics exactly when the slice is empty |
| Util.FVec.SetY | util/util.go:58-60 | writes member 1 and nothing else, X unchanged; panics exactly when the slice has fewer than two members |
| Util.NewFVec | util/util.go:25-35 | panics exactly for a degree below 2; otherwise a new vector with that degree and those members |
| Util.NewFVec2 | util/util.go:37-40 | a new 2-vector whose X and Y are the arguments |
| Util.Cross | util/util.go:103-110 | for a 2-vector the cross product, minus the product taken the other way round; 0 for any other degree |
| Util.Vec2CrossProduct | util/util.go:112-114 | defined exactly when both vectors have two members; its value is x0*y1 - x1*y0 |
| Util.Cross2Antisymmetric | util/util.go:112-114 | the cross product changes sign when its arguments are swapped |
| Util.Vec2CrossProductAntisymmetric | util/util.go:112-114 | swapping the vectors keeps definedness and negates the product |
| Util.CompareFloat | util/util.go:130-143 | Less, Equal, Greater exactly when i < n, i == n, i > n; a panic (None) exactly when n is not a ComparableFloat |
| Util.CompareFloatAntisymmetric | util/util.go:130-143 | comparing the other way round flips the result |
| Util.CompareBool | util/util.go:145-154 | Equal exactly for equal booleans, Greater exactly for true against false |
| Util.CompareBoolAntisymmetric | util/util.go:145-154 | comparing the other way round flips the result |
| Graph.Edge.constructor | graph.go:42-45 | an edge remembers both end points |
| Graph.NewEdge | graph.go:47-54 | a fresh edge (a new identity) whose From and To are the arguments |
| Graph.DeadEnds | graph.go:64-72 | the result lists exactly the vertices whose edge list has one edge, each once, so its length is the number of such vertices |
| Graph.DistinctCard | graph.go:64-72 | a list without repeats is as long as the set of its elements (the length half of DeadEnds) |
| Graph.BaseAttribute.constructor | graph.go:23-26 | a new attribute has no predecessor and the given distance |
| Graph.BaseAttribute.SetPredecessor | graph.go:36-38 | the predecessor becomes the argument and the distance is kept |
| Matrix.Filled | util/matrix.go:31-50 | m rows of n entries; an entry is copied from the supplied row where that row reaches, zero elsewhere |
| Matrix.FilledRect | util/matrix.go:31-50 | supplying rows of the full shape gives back exactly those rows |
| Matrix.Transposed | util/matrix.go:79-89 | the transpose is n by m and holds entry (r, c) at (c, r) |
| Matrix.Scaled | util/matrix.go:135-141 | same shape, every entry multiplied by the factor |
| Matrix.Product | util/matrix.go:147-167 | the product of an m-by-p and a p-by-n list is m by n |
| Matrix.TransposeInvolution | util/matrix.go:79-89 | transposing twice gives the entries back |
| Matrix.DotIdentity | util/matrix.go:158-162 | the inner loop of MatrixMul against an identity column picks out one entry |
| Matrix.ProductIdentity | util/matrix.go:147-167 | multiplying on the right by the identity changes nothing |
| Matrix.Matrix.constructor | util/matrix.go:52-56 | a matrix holds its row count, column count and rows as given |
| Matrix.Matrix.Entry | util/matrix.go:105-111 | ErrNoEntry exactly when (i, j) is outside the stored rows, which for a valid matrix means outside 1..rows by 1..columns; otherwise the entry at row i, column j counted from 1 |
| Matrix.Matrix.SetEntry | util/matrix.go:95-103 | fails with ErrNoEntry exactly when Entry fails and then changes nothing; otherwise only that entry changes and Entry reads the new value back; dimensions and validity kept |
| Matrix.Matrix.Row | util/matrix.go:113-119 | ErrNoRow exactly outside 1..rows; otherwise a row of the column count whose values are the Entry values of that row |
| Matrix.Matrix.Column | util/matrix.go:121-132 | ErrNoColumn exactly outside 1..columns; otherwise one value per row, each the Entry value in that column |
| Matrix.Matrix.ScalarMul | util/matrix.go:134-141 | the entries become the scaled entries, in place; dimensions and validity kept |
| Matrix.Matrix.Mul | util/matrix.go:143-145 | reports no error |
| Matrix.Matrix.Transpose | util/matrix.go:79-89 | a new valid matrix with rows and columns swapped whose Entry(i, j) is defined exactly when the original's Entry(j, i) is, and equal to it |
| Matrix.NewMatrix | util/matrix.go:25-50 | panics exactly for a negative row count, a negative column count with rows, or too few supplied rows with columns; otherwise a fresh matrix of those dimensions filled as Filled says |
| Matrix.MatrixEntryNoErr | util/matrix.go:184-190 | panics exactly where Entry errs, otherwise Entry's value |
| Matrix.MatrixMul | util/matrix.go:147-167 | ErrCannotMul exactly when the column count of m0 differs from the row count of m1; otherwise a fresh valid matrix holding the product |
| Matrix.MatrixScalarMul | util/matrix.go:169-182 | a fresh valid matrix of the same dimensions holding the scaled entries; the argument is untouched |
| Polynomial.Dense | util/polynomial.go:139-165 | the dense list has exactly `degree` entries |
| Polynomial.DenseSparseRoundTrip | util/polynomial.go:139-165 | expanding the sparse form of a dense list gives the list back |
| Polynomial.CoeffsFromSparse | util/polynomial.go:139-165 | panics exactly for a negative degree; otherwise `degree` entries, entry i the map's value at i where it has one and zero elsewhere |
| Polynomial.NewZPolynomial | util/polynomial.go:76-86 | panics exactly for a negative degree; otherwise the degree and the dense coefficients |
| Polynomial.NewRPolynomial | util/polynomial.go:103-110 | panics exactly for a negative degree; otherwise a well-formed polynomial with the degree and the dense coefficients |
| Polynomial.NewQuadratic | util/polynomial.go:112-119 | a well-formed degree-3 polynomial whose value everywhere is a*x^2 + b*x + c |
| Polynomial.Calculate | util/polynomial.go:121-129 | panics exactly when the coefficient list is empty or shorter than the degree; otherwise the polynomial value of the first `degree` coefficients (at least one), which is the full value for a well-formed polynomial |
| Polynomial.PadCoefficients | util/polynomial.go:49-58 | lists shorter than three are copied into three zeros, longer lists are kept; the copied entries are unchanged and the padding is zero |
| Polynomial.Padded | util/polynomial.go:49-62 | the first three entries of the padded list: coefficient i, or zero past the end |
| Polynomial.QuadraticRootsAsWritten | util/polynomial.go:44-68 | errs exactly above degree 3; otherwise solves the equation with a, b, c taken from padded entries 0, 1, 2 |
| Polynomial.QuadraticRootsReadsReversed | util/polynomial.go:60-62 | for x^2 - 3x + 2 the as-written reading solves 2x^2 - 3x + 1, whose root 1/2 is not a root of the polynomial |
| Polynomial.QuadraticRoots | util/polynomial.go:44-68 | errs exactly above degree 3; otherwise a, b, c are padded entries 2, 1, 0, and for a well-formed polynomial a*x^2 + b*x + c equals the polynomial's value at every x |
| Polynomial.EvalShort | util/polynomial.go:49-62 | a list of at most three coefficients evaluates as the quadratic of its padded form |
| Polynomial.EvalThree | util/polynomial.go:112-119 | three coefficients evaluate as t2*x^2 + t1*x + t0 |
| Polynomial.EvalQuadratic | util/polynomial.go:112-119 | the same at every x |
| Polynomial.EvalDiff | util/polynomial.go:26-34 | the difference list evaluates to the difference of the values |
| Polynomial.PaddedDiff | util/polynomial.go:26-34 | padding commutes with taking the difference |
| Polynomial.QuadraticDiff | util/polynomial.go:26-38 | quadratics whose coefficients differ term by term differ in value by the same amount |
| Polynomial.QuadraticIntersection | util/polynomial.go:14-42 | errs exactly when either degree exceeds 3, big's degree is negative, or Calculate(small, 0) panics (small has no coefficients or fewer than its degree); `small` is p only when its degree is strictly lower; the difference polynomial has big's degree and, for well-formed inputs, its value is big's minus small's at every x; the result's terms are the three coefficients QuadraticRoots reads from the padded difference, in the source's reversed order |
| Parabola.IndexOf | util/parabola.go:16-23 | the position of the first entry of `directions` equal to d, or the slice length when there is none |
| Parabola.NextDirectrixDirection | util/parabola.go:16-25 | X is followed by Y and Y by X; a direction that is not listed counts to the end of the slice and wraps to the first entry, giving Y |
| Parabola.NextTwice | util/parabola.go:16-25 | two steps from a listed direction come back to it |
| Parabola.PointDXEquidistant | util/parabola.go:78-86 | the point getParabolaPointDX computes is as far from the focus as from the vertical directrix |
| Parabola.PointDYEquidistant | util/parabola.go:88-95 | the point getParabolaPointDY computes is as far from the focus as from the horizontal directrix |
| Parabola.Parabola.constructor | util/parabola.go:33-40 | a parabola holds the focus, directrix and direction as given |
| Parabola.Parabola.SetDirectrix | util/parabola.go:46-48 | sets the directrix and keeps the other fields |
| Parabola.Parabola.SetFocus | util/parabola.go:54-56 | sets the focus and keeps the other fields |
| Parabola.Parabola.SetDirectrixDirection | util/parabola.go:61-63 | sets the direction and keeps the other fields |
| Parabola.Parabola.GetParabolaPoint | util/parabola.go:65-95 | panics for an unnamed direction or a focus without two members; otherwise the coordinate of the point on the parabola, equidistant from focus and directrix, in the direction the directrix runs along; no result only when the focus lies on the directrix |
| PriorityQueue.Plus | src/gogve/dijkstra.go:71-79 | adding a weight keeps +Inf infinite and a finite value finite; a non-negative weight never lowers the estimate |
| PriorityQueue.Cell.constructor | src/gogve/queue.go:3-7 | a priority cell holds the value given |
| PriorityQueue.Item.constructor | src/gogve/queue.go:3-7 | an item holds its vertex, its priority pointer and its index |
| PriorityQueue.MinExists | src/gogve/queue.go:15-18 | a non-empty list of priorities has a position no other priority is Less than |
| PriorityQueue.MinPriorityQueue.Priorities | src/gogve/queue.go:9 | one priority per item, the value its pointer points at |
| PriorityQueue.MinPriorityQueue.constructor | src/gogve/queue.go:9 | an empty queue, which is valid |
| PriorityQueue.MinPriorityQueue.Len | src/gogve/queue.go:11-13 | the number of items |
| PriorityQueue.MinPriorityQueue.Less | src/gogve/queue.go:15-18 | true exactly when item i's pointed-to priority is below item j's |
| PriorityQueue.MinPriorityQueue.Swap | src/gogve/queue.go:20-24 | exchanges the two items, each then records its new position, and keeps every item's index equal to its position |
| PriorityQueue.MinPriorityQueue.Push | src/gogve/queue.go:26-31 | appends the item, which records the old length as its index; a new item keeps the queue valid |
| PriorityQueue.MinPriorityQueue.Pop | src/gogve/queue.go:33-41 | panics exactly on an empty queue; otherwise removes and returns the last item, marked with index -1, and the others keep their positions |
| PriorityQueue.MinPriorityQueue.ExtractMin | src/gogve/queue.go:20-41 | removes an item of lowest priority, marked with index -1: the rest are the same items less that one, none has a lower priority, and no priority changes |
| PriorityQueue.SwapPop | src/gogve/queue.go:20-41 | swapping position m to the end and popping removes exactly the item at m, and the last item takes its place |
| PriorityQueue.SwapPerm | src/gogve/queue.go:20-24 | exchanging two positions keeps the same items |
| Dijkstra.DijkstraAttribute.constructor | src/gogve/dijkstra.go:59-61 | a new attribute has an infinite estimate in a fresh cell and no predecessor |
| Dijkstra.DijkstraAttribute.SetShortestEstimateFromSource | src/gogve/dijkstra.go:32-34 | the estimate reads back as the value set |
| Dijkstra.DijkstraAttribute.SetPredecessor | src/gogve/dijkstra.go:44-46 | the predecessor reads back as the vertex set |
| Dijkstra.Ests | src/gogve/dijkstra.go:21 | one estimate per vertex with an attribute |
| Dijkstra.InitSingleSource | src/gogve/dijkstra.go:56-66 | panics exactly when the source is not a listed vertex; otherwise one fresh, separate attribute per vertex, no predecessors, estimate 0 at the source and +Inf elsewhere |
| Dijkstra.Relax | src/gogve/dijkstra.go:68-83 | panics exactly when either end lacks an attribute; reports a change exactly when the source's estimate plus the weight is below the target's, and then only the target's estimate changes, to that sum, with the edge's source as predecessor; otherwise nothing changes; the target's estimate never rises |
| Dijkstra.VerticesOf | src/gogve/queue.go:3-7 | the vertex of each item, in order |
| Dijkstra.InitDijkstraQueue | graph/dijkstra.go:108-125 | panics exactly when a listed vertex has no attribute; otherwise a valid queue of fresh items, one per listed vertex in order, each pointing at that vertex's estimate cell, and a map from each vertex to its item |
| Dijkstra.RelaxKeeps | src/gogve/dijkstra.go:96-101 | lowering one estimate, never below the last settled vertex's, keeps the settled vertices ordered, below the queued ones and tight |
| Dijkstra.RelaxStep | src/gogve/dijkstra.go:99-101 | relaxing edge j out of the vertex just settled makes that edge tight and keeps the settled facts |
| Dijkstra.SettleLast | src/gogve/dijkstra.go:99-106 | once every edge out of the last settled vertex is tight, all settled vertices are |
| Dijkstra.PopKeeps | src/gogve/dijkstra.go:97 | settling a lowest queued vertex keeps the settled vertices in estimate order and below the queued ones |
| Dijkstra.RelaxEdges | graph/dijkstra.go:95-99 | relaxes every edge out of x (with heap.Fix, which panics for a target without an item); cannot panic when every edge has attributes at both ends; reports a change exactly when some estimate dropped; no estimate rises; with non-negative weights every edge out of x is tight afterwards |
| Dijkstra.EstTrans | src/gogve/queue.go:15-18 | <= on estimates is transitive, and < followed by <= is < |
| Dijkstra.LowerStep | src/gogve/dijkstra.go:99-101 | a run of relaxations lowers estimates or leaves them, and `relaxed` records whether one dropped |
| Dijkstra.TakeNext | src/gogve/dijkstra.go:97 | heap.Pop removes one item, of lowest estimate: the rest are the same items less that one, no estimate changes, and settling its vertex keeps the settled vertices ordered |
| Dijkstra.Round | src/gogve/dijkstra.go:96-106 | one round takes a listed vertex off the queue, which shrinks by one, and keeps the loop invariant; it panics only when the graph is incomplete |
| Dijkstra.CompleteAt | graph/dijkstra.go:96-98 | in a complete graph the edges out of any vertex can all be relaxed and fixed |
| Dijkstra.KeysOfSettled | src/gogve/dijkstra.go:106 | when every vertex has been settled once, the result map holds exactly the vertices |
| Dijkstra.DijkstraLoop | src/gogve/dijkstra.go:92-109 | returns the attribute of every listed vertex, each vertex settled once; with non-negative weights the vertices come out in order of final estimate and no edge can improve its target; a complete graph never panics |
| Dijkstra.Drain | src/gogve/dijkstra.go:96-108 | the loop empties the queue and hands back what DijkstraLoop promises; a complete graph never panics |
| Dijkstra.DrainedWhenEmpty | src/gogve/dijkstra.go:96-108 | an empty queue means every vertex has been settled, so the result holds exactly the vertices |
| Dijkstra.Dijkstra | src/gogve/dijkstra.go:85-90 | panics when the source is not a vertex; otherwise returns every vertex's attribute, each vertex settled once; with non-negative weights in order of estimate and with every edge tight; a graph whose edges stay among its vertices never panics |
| BreadthFirst.InitBFSTree | src/gogve/breadthfirst.go:55-76 | fails exactly when the source is not a vertex; otherwise every vertex has an attribute, the source is gray at distance 0 and every other vertex is white at distance -1 with no predecessor |
| BreadthFirst.WhiteTargetsAre | src/gogve/breadthfirst.go:86-88 | the vertices the edge loop of u finds white are listed once each, and they are exactly the white vertices an edge of u leads to |
| BreadthFirst.Discover | src/gogve/breadthfirst.go:86-94 | the edge loop for u fails exactly when an edge of u leaves the tree; otherwise the vertices it turns gray are exactly u's white targets, each at one more than u's distance with u as predecessor, the queue grows by them in edge order, and every other attribute is unchanged |
| BreadthFirst.EnqueuedStep | src/gogve/breadthfirst.go:87-93 | examining one more edge turns its target gray and enqueues it exactly when it is still white, so the vertices discovered so far stay the white targets of the edges examined |
| BreadthFirst.DiscoverKeeps | src/gogve/breadthfirst.go:86-94 | running the edge loop of u keeps every fact of the expansion of u, with the discovered vertices no longer white, and leaves every edge of u leading to a reached vertex |
| BreadthFirst.DiscoverTree | src/gogve/breadthfirst.go:88-91 | discovering u's white targets keeps the per-vertex facts: white vertices untouched, every reached vertex one step beyond a reached predecessor that has an edge to it, reached edges closed |
| BreadthFirst.DiscoverQueue | src/gogve/breadthfirst.go:88-92 | enqueuing u's white targets keeps the queue free of repeats, gray exactly on the queue and u, and ordered by distance within one step of u |
| BreadthFirst.StartExpanding | src/gogve/breadthfirst.go:84-85 | taking the front of the queue starts its expansion with the rest of the queue |
| BreadthFirst.StartQueue | src/gogve/breadthfirst.go:84-85 | after taking the head u off the queue, the rest repeats nothing, does not hold u, is gray together with u, and lies between u's distance and one more |
| BreadthFirst.FinishExpanding | src/gogve/breadthfirst.go:95 | once every edge of u is reached, blackening u restores the loop invariant with u appended to the expanded vertices |
| BreadthFirst.FinishTree | src/gogve/breadthfirst.go:95 | blackening u keeps white vertices untouched, predecessors reached and adjacent, the source reached and every edge from a black vertex closed |
| BreadthFirst.FinishNear | src/gogve/breadthfirst.go:86-95 | when u is blackened, every target of u is gray or black and so at most one step further from the source than u |
| BreadthFirst.FinishLists | src/gogve/breadthfirst.go:95 | blackening u leaves the queue exactly the gray vertices and the expanded list exactly the black ones |
| BreadthFirst.FinishLayers | src/gogve/breadthfirst.go:95 | blackening u keeps the expanded vertices followed by the queue ordered by distance, the source first |
| BreadthFirst.Visit | src/gogve/breadthfirst.go:84-95 | one loop iteration takes the front u of the queue and fails exactly when an edge of u leaves the tree; otherwise u's white targets become gray children of u one step further away and are enqueued in edge order, u turns black and nothing else changes |
| BreadthFirst.VisitKeeps | src/gogve/breadthfirst.go:83-96 | one loop iteration keeps the loop invariant, with u appended to the expanded vertices and its white targets no longer white, and shrinks the white set or the queue |
| BreadthFirst.VisitStarts | src/gogve/breadthfirst.go:84-94 | up to the blackening of u, an iteration keeps the expansion facts and reaches every target of u |
| BreadthFirst.WhitesShrink | src/gogve/breadthfirst.go:88-89 | turning a non-empty list of white vertices gray strictly shrinks the white set, so the loop terminates |
| BreadthFirst.QueueFront | src/gogve/breadthfirst.go:84 | the vertex taken from the front of the queue is gray |
| BreadthFirst.MissingTarget | src/gogve/breadthfirst.go:87-88 | an edge to a vertex without an attribute is an edge leaving the graph's vertex list, which is when the Go loop dereferences nil |
| BreadthFirst.SearchEnd | src/gogve/breadthfirst.go:83-102 | when the queue runs empty nothing is gray, the source was expanded first and the distances are those of shortest walks |
| BreadthFirst.ReachedWalk | src/gogve/breadthfirst.go:88-91 | following predecessors back from a reached vertex gives a walk from the source whose length is its distance |
| BreadthFirst.WalkReached | src/gogve/breadthfirst.go:83-100 | once the search ends, the end of every walk of n edges from the source is reached at distance n or less |
| BreadthFirst.SearchShortest | src/gogve/breadthfirst.go:78-103 | after the search, the reached vertices are exactly those a walk from the source leads to, each at the length of its shortest walk |
| BreadthFirst.BreadthFirstSearchCallback | src/gogve/breadthfirst.go:78-103 | fails when the source is not a vertex (and only then or when an edge leaves the graph); otherwise nothing stays gray, unreached vertices keep their initial attribute, every reached vertex is one step beyond a reached predecessor that has an edge to it, no edge leads from a reached vertex to an unreached one, the vertices were expanded once each, the source first and in order of distance, the distances are shortest-walk lengths, and the callback was called with exactly that order |
| BreadthFirst.BreadthFirstSearch | src/gogve/breadthfirst.go:105-107 | the search without a callback, with the same guarantees: failure when the source is missing, the source expanded first, predecessors along edges, shortest distances |
| DepthFirst.Min | graph/depthfirst.go:100-105 | the result is the smaller of the two arguments: no larger than either and equal to one of them |
| DepthFirst.DepthFirstSearcher.constructor | graph/depthfirst.go:40 | the package clock starts at zero with no attributes |
| DepthFirst.DepthFirstSearcher.DepthFirstSearch | graph/depthfirst.go:42-62 | fails when the source is not a vertex (and only then or when an edge leaves the graph); otherwise every vertex is black, the clock is reset, the source was discovered first at time 1 as a root, every stamp is used once, no edge out of a vertex leads to a white one, every predecessor is joined to its child by an edge, every vertex obeys the child-count, articulation-point and lowest-reachable rules with its reach attained, and an edge into a root (other than a loop) comes from a vertex discovered after that root |
| DepthFirst.DepthFirstSearcher.VisitRemaining | graph/depthfirst.go:54-58 | the second pass visits every vertex still white, leaving all of them black, the attributes consistent and the source's attribute as it was |
| DepthFirst.DepthFirstSearcher.DfsVisit | graph/depthfirst.go:64-98 | visiting a white vertex u finishes it with discovery stamp one past the clock on entry and finish stamp the clock on exit, keeps every attribute consistent, changes only u and vertices that were white, and gives u only children that were white |
| DepthFirst.DepthFirstSearcher.VisitGray | graph/depthfirst.go:70-97 | after the edge loop and the blackening, u is finished as DfsVisit promises, and every edge of u whose target was white when u turned gray leads to a finished vertex with a predecessor, discovered after u |
| DepthFirst.DepthFirstSearcher.VisitEdge | graph/depthfirst.go:71-92 | one edge: the edge back to the predecessor is skipped, a white target becomes a visited child whose predecessor is u, a gray one lowers u's reach; u stays gray with its stamp and obeys its rules, its reach only goes down and stays attained |
| DepthFirst.DepthFirstSearcher.VisitTree | graph/depthfirst.go:75-89 | a white target gets u as its predecessor, is visited and folded into u's reach and articulation flag, with the same guarantees as VisitEdge |
| DepthFirst.InitialGood | graph/depthfirst.go:45-49 | a tree of fresh white attributes is consistent at time 0 with no visit under way |
| DepthFirst.StartVisit | graph/depthfirst.go:65-68 | stamping and graying a white vertex keeps the attributes consistent, gives it no children and removes it from the white set |
| DepthFirst.StartRoots | graph/depthfirst.go:52-56 | graying a vertex with the newest stamp keeps every root discovered while nothing else was open, provided a root is only grayed from the top level |
| DepthFirst.RootsKept | graph/depthfirst.go:76-77 | steps that keep colours, stamps and the predecessors of reached vertices keep the roots outermost |
| DepthFirst.ParentsKept | graph/depthfirst.go:76-77 | steps that keep every predecessor keep each predecessor joined to its child by an edge |
| DepthFirst.AdoptKeeps | graph/depthfirst.go:76-77 | making a white target of an edge of u a child of u keeps the attributes consistent, keeps every predecessor joined to its child by an edge, and adds exactly that target to u's children |
| DepthFirst.Unchanged | graph/depthfirst.go:71-73 | an edge to u's predecessor or to a black vertex leaves the tree as it is and still counts as examined |
| DepthFirst.GrayStep | graph/depthfirst.go:90-91 | lowering u's reach to a gray target's discovery time keeps every fact u's loop relies on |
| DepthFirst.BlackKept | graph/depthfirst.go:74-92 | a step that leaves every finished vertex as it was, keeps open vertices open and finishes nothing keeps each finished vertex's child, articulation-point and reach rules |
| DepthFirst.AttainedKept | graph/depthfirst.go:79 | a step that keeps v's reach, stamp, predecessor, finished children and the vertices above v keeps v's reach equal to its own stamp, a finished child's reach, or the stamp of an ancestor an edge of v leads to |
| DepthFirst.ChildRules | graph/depthfirst.go:79-89 | folding a finished child into u keeps u's articulation-point rule (root with more than one child, or a child that cannot reach above u) and keeps u's reach no larger than any finished child's |
| DepthFirst.ChildDone | graph/depthfirst.go:75-89 | visiting a new child and folding it into u completes the examination of that edge |
| DepthFirst.ChildAttained | graph/depthfirst.go:79 | after a new child is visited and folded in with min, u's reach is again its own stamp, a finished child's reach, or an ancestor's stamp reached by one of u's edges |
| DepthFirst.EdgeStep | graph/depthfirst.go:70-93 | one more examined edge keeps the edge-loop invariant |
| DepthFirst.ExaminedTargets | graph/depthfirst.go:70-93 | once u's edges are examined, every target that was white when u turned gray is finished, has a predecessor and was discovered after u |
| DepthFirst.FinishEdges | graph/depthfirst.go:95-97 | once all of u's edges are examined, blackening u keeps every edge from a black vertex closed and u obeys the rules of a finished vertex, including reaching no lower than any ancestor an edge leads to |
| DepthFirst.FinishBlack | graph/depthfirst.go:95-97 | blackening u changes no other finished vertex's rules |
| DepthFirst.FinishRoots | graph/depthfirst.go:95-97 | blackening the open vertex u keeps the roots outermost |
| DepthFirst.FinishAttrs | graph/depthfirst.go:95-97 | stamping u's finish keeps the stamps distinct and the attributes consistent, and all of u's children are finished |
| DepthFirst.FinishVisit | graph/depthfirst.go:64-98 | the bookkeeping from entry to exit of dfsVisit gives what DfsVisit promises, and blackening u keeps every once-white target of u reached |
| DepthFirst.FinishGood | graph/depthfirst.go:95-97 | blackening u after its edge loop keeps the whole tree consistent: stamps, closed edges, tree edges, roots and the rules of every finished vertex |
| DepthFirst.RemainingVisited | graph/depthfirst.go:55-56 | visiting a white vertex of the second pass keeps the pass's invariant |
| DepthFirst.RemainingSkipped | graph/depthfirst.go:55 | a vertex that is not white is already finished and the second pass skips it |
| DepthFirst.TopStep | graph/depthfirst.go:52 | a visit started from the top leaves no vertex gray and keeps every finished vertex |
| DepthFirst.RootsEnteredFirst | graph/depthfirst.go:52-58 | in a consistent finished tree, an edge into a root other than a loop comes from a vertex discovered after the root |
| SearchTree.NodeSearch | tree/binarysearchtree.go:31-44 | a node returned holds the key and lies in the searched subtree; every node of the subtree holding the key lies below the returned one; with no step taken the start is returned, otherwise the last node left does not hold the key, the returned node is its child on the key's side, and the key belongs below it |
| SearchTree.Minimum | tree/baseBST.go:59-65 | the node reached has no left child, holds the least key of the subtree, and comes first in the subtree's in-order list |
| SearchTree.Maximum | tree/baseBST.go:67-73 | the node reached has no right child, holds the greatest key of the subtree, and comes last in the subtree's in-order list |
| SearchTree.Successor | tree/baseBST.go:90-102 | the result is the node right after x in the whole tree's in-order list, or the absent child (Go's nil, or the sentinel) when x comes last; it also follows x in key order |
| SearchTree.Predecessor | tree/baseBST.go:75-88 | the result is the node right before x in the whole tree's in-order list, or the absent child when x comes first; it also precedes x in key order |
| SearchTree.FollowsFromRight | tree/baseBST.go:92-94 | the least node of the right subtree follows the node |
| SearchTree.PrecedesFromLeft | tree/baseBST.go:77-79 | the greatest node of the left subtree precedes the node |
| SearchTree.RightNext | tree/baseBST.go:92-94 | the first node of x's right subtree comes right after x in the tree's in-order list |
| SearchTree.LeftPrev | tree/baseBST.go:77-79 | the last node of x's left subtree comes right before x in the tree's in-order list |
| SearchTree.ClimbStep | tree/baseBST.go:96-100 | climbing from a right child (left child for the predecessor) keeps the start extreme in the larger subtree and the climb shorter than the tree |
| SearchTree.ListedClimb | tree/baseBST.go:96-100 | climbing from a right child keeps x last in the in-order list of the subtree reached (from a left child, first) |
| SearchTree.ListedStart | tree/baseBST.go:90-100 | a node without a right child comes last in its own subtree's list (without a left child, first), where the climb starts |
| SearchTree.ListedDescend | tree/baseBST.go:59-73 | a subtree's list starts where its left child's list starts and ends where its right child's list ends |
| SearchTree.ClimbEndFollows | tree/baseBST.go:96-101 | where the successor climb stops, the parent reached follows the start |
| SearchTree.ClimbEndPrecedes | tree/baseBST.go:81-87 | where the predecessor climb stops, the parent reached precedes the start |
| SearchTree.ClimbEndNext | tree/baseBST.go:96-101 | where the successor climb stops, the parent reached comes right after the start in the tree's in-order list, or is nil when the start comes last |
| SearchTree.ClimbEndPrev | tree/baseBST.go:81-87 | where the predecessor climb stops, the parent reached comes right before the start, or is nil when the start comes first |
| SearchTree.Interval | tree/baseBST.go:90-102 | the keys of a subtree form an interval of the tree's keys: every node outside it is at or below all of them or at or above all of them |
| SearchTree.NodeWalk | tree/binarysearchtree.go:48-60 | fails exactly without a callback; otherwise the nodes called on, leaving out a sentinel, are distinct nodes of the subtree in key order, and include the start |
| SearchTree.WalkStops | tree/binarysearchtree.go:53-59 | a node of the subtree is called on exactly when no node called on before it answered stop while holding it in its right subtree |
| SearchTree.WalkStartsAtSentinel | tree/binarysearchtree.go:53-55 | over a tree with a real sentinel (the red-black tree's), the walk is called first on the sentinel below the leftmost node |
| SearchTree.WalkInOrder | tree/binarysearchtree.go:53-59 | the in-order walk visits distinct subtree nodes in non-decreasing key order, never Go's nil, and always the node it starts from, whatever the callback answers |
| SearchTree.ListedEmpty | tree/binarysearchtree.go:53 | an absent child (Go's nil or the sentinel) lists no node |
| SearchTree.ListedSplit | tree/binarysearchtree.go:53-59 | a node's in-order list is its left subtree's list, the node, then its right subtree's list |
| SearchTree.ListedSegment | tree/binarysearchtree.go:53-59 | the list of a subtree is one contiguous stretch of the list of any subtree holding it |
| SearchTree.ListedDistinct | tree/binarysearchtree.go:53-59 | the whole tree's in-order list names each node once |
| SearchTree.ListedPlace | tree/redblacktree.go:282-289 | when every node above a childless x lies on the side its key selects (left exactly when Less), x comes after every key at most its own and before every greater key in the list of any subtree holding it |
| SearchTree.WalkCount | tree/binarysearchtree.go:53-59 | a walk whose callback never stops reaches every node of the subtree once |
| SearchTree.InOrderJoin | tree/binarysearchtree.go:54-58 | a left walk, the node and a right walk joined stay in key order |
| SearchTree.Strip | tree/binarysearchtree.go:53 | the result holds exactly the elements that are not the sentinel and is no longer than the input |
| SearchTree.ParentInSub | tree/baseBST.go:27-29 | every node of a subtree except its root hangs from a parent inside the subtree that points back at it |
| SearchTree.SubClosed | tree/baseBST.go:35-49 | every node of a subtree roots a subtree inside it |
| SearchTree.Shrinks | tree/baseBST.go:35-49 | a child's subtree is strictly smaller than its parent's |
| SearchTree.StepBounded | tree/binarysearchtree.go:37-41 | stepping to the child on the key's side keeps every node holding the key below the cursor |
| SearchTree.AppendValid | tree/baseBST.go:16-21 | a new node that is linked to nothing leaves a valid tree valid with the same nodes |
| BaseBST.Tree.constructor | tree/baseBST.go:112-114 | a new tree is valid and empty |
| BaseBST.Tree.NewNode | tree/baseBST.go:16-21 | a fresh node holding the key is appended to the arena, linked to nothing, and the tree is unchanged |
| BaseBST.Tree.Search | tree/baseBST.go:116-119 | a node returned is in the tree and holds the key, and nil is returned exactly when no node holds the key |
| BaseBST.Tree.Length | tree/baseBST.go:125-132 | the count of nodes a full walk visits is the number of nodes in the tree |
| BaseBST.Tree.Insert | tree/baseBST.go:134-138 | the new node is returned; it joins the tree exactly when no node held its key, and the tree stays a valid search tree with distinct keys |
| BaseBST.Tree.InsertNode | tree/baseBST.go:140-155 | a node whose key is present leaves the tree as it was; otherwise it becomes a node of the tree and the tree stays a valid search tree with distinct keys |
| BaseBST.Tree.Transplant | tree/baseBST.go:161-172 | the new links are those of Transplanted: v takes u's place below u's parent, or as the root, and takes u's parent |
| BaseBST.Tree.Splice | tree/baseBST.go:180-188 | the two-children case produces the links of Removed |
| BaseBST.Tree.Lift | tree/baseBST.go:182-184 | y gives its place to its right child and adopts r on the right |
| BaseBST.Tree.Adopt | tree/baseBST.go:187-188 | y adopts l on the left |
| BaseBST.Tree.Delete | tree/baseBST.go:174-190 | panics exactly for nil; otherwise the tree stays a valid search tree with distinct keys, loses exactly a deleted node of the tree, and a node with no links, deleted as if it were the root, leaves the tree empty |
| BaseBST.AttachValid | tree/baseBST.go:140-155 | linking a node whose key is absent where the search fell off keeps the tree valid with distinct keys and adds exactly that node |
| BaseBST.AttachShape | tree/baseBST.go:147-154 | linking the node below the parent the search found, or as the root, keeps the tree valid and adds exactly that node |
| BaseBST.AttachRoot | tree/baseBST.go:148-149 | in an empty tree the node becomes the only node |
| BaseBST.AttachBelow | tree/baseBST.go:150-154 | linking the node on its key's side of the parent keeps the tree valid and adds exactly that node |
| BaseBST.AttachAtParent | tree/baseBST.go:150-154 | the parent's ordering and subtree facts hold with the node on its key's side |
| BaseBST.AttachAbove | tree/baseBST.go:147-154 | every ancestor of the parent keeps its ordering and subtree facts, with the node added below |
| BaseBST.DeleteValid | tree/baseBST.go:174-190 | the links after Delete form a valid search tree with distinct keys and exactly the old nodes minus the deleted one |
| BaseBST.DeleteShape | tree/baseBST.go:174-190 | the links after Delete form a valid search tree with exactly the old nodes minus the deleted one |
| BaseBST.DeleteShort | tree/baseBST.go:175-178 | deleting a node with at most one child by transplanting that child keeps the tree valid |
| BaseBST.DeleteNear | tree/baseBST.go:186-188 | deleting a node whose right child is the least of its right subtree keeps the tree valid |
| BaseBST.DeleteFar | tree/baseBST.go:180-188 | deleting a node whose least right node lies deeper keeps the tree valid |
| BaseBST.RemovableFacts | tree/baseBST.go:174-190 | the node being deleted and its replacement are linked where Delete expects them: the replacement lies in the right subtree and hangs from its parent |
| BaseBST.HoldsExtend | tree/baseBST.go:134-138 | appending a node changes which keys the tree holds in no way |
| RedBlackLinks.LocalPlain | tree/redblacktree.go:172-174 | a node's ordering and subtree facts with the sentinel as absent child hold exactly when they hold with the sentinel read as Go's nil |
| RedBlackLinks.NodeLinked | tree/redblacktree.go:68-124 | a node of a red-black tree has real links; its parent is the sentinel exactly at the root, and otherwise a node of the tree that points back at it |
| RedBlackLinks.TransplantSentinel | tree/redblacktree.go:351-361 | Transplant never changes the sentinel's children |
| RedBlackLinks.RemoveShape | tree/redblacktree.go:379-414 | the relinking of Delete keeps a valid search tree over the sentinel with exactly the old nodes minus the deleted one |
| RedBlackLinks.AttachFits | tree/redblacktree.go:282-299 | after the new node is hung, every node above it has it on the left exactly when the new key is Less than the node's key, and on the right otherwise |
| RedBlackLinks.AttachPlaced | tree/redblacktree.go:277-303 | once hung, the new node comes in the tree's in-order list after every key at most its own and before every greater key: a key equal to existing ones goes after them |
| RedBlackLinks.AttachShape | tree/redblacktree.go:277-302 | hanging the new node below the last node of the descent, on its key's side with equal keys going right, keeps a valid search tree with exactly one node more |
| RedBlackLinks.ReplacedPlaces | tree/redblacktree.go:363-377 | after Replace, v has u's children and parent, is the root when u was, sits in u's slot below u's parent, and u's children point back at v |
| RedBlackRotate.ValidMirror | tree/redblacktree.go:220-266 | the mirror image of a tree (children swapped, keys negated) is a valid search tree exactly when the tree is, with the same nodes |
| RedBlackRotate.RightMirror | tree/redblacktree.go:244-266 | rightRotate is leftRotate on the mirror image, mirrored back |
| RedBlackRotate.RotatableNode | tree/redblacktree.go:220-266 | a node of a red-black tree with a real right (left) child can be rotated left (right) |
| RedBlackRotate.LeftRotateShape | tree/redblacktree.go:220-242 | a left rotation keeps a valid search tree with the same nodes |
| RedBlackRotate.RightRotateShape | tree/redblacktree.go:244-266 | a right rotation keeps a valid search tree with the same nodes |
| RedBlackRotate.LeftRotateOrder | tree/redblacktree.go:220-242 | a left rotation keeps the tree valid and leaves the in-order walk of the tree unchanged |
| RedBlackRotate.RightRotateOrder | tree/redblacktree.go:244-266 | a right rotation keeps the tree valid and leaves the in-order walk of the tree unchanged |
| RedBlackRotate.WalkMirror | tree/binarysearchtree.go:48-60 | the walk of the mirror image is the walk of the tree reversed |
| RedBlackRotate.WalkAtY | tree/redblacktree.go:220-242 | after a left rotation, the walk from the node that took x's place visits what the walk from x visited before |
| RedBlackColor.InsertStart | tree/redblacktree.go:291-303 | the new node, linked below the last node of the descent and coloured red, leaves a red-black tree except for one red node that may have a red parent |
| RedBlackColor.ClimbRelatives | tree/redblacktree.go:309-311 | while the fixup loop runs, z's parent is red and not the root, so z has a black grandparent |
| RedBlackColor.InsertRecolor | tree/redblacktree.go:313-317 | with a red uncle, blackening the parent and uncle and reddening the grandparent moves the only violation up to the grandparent |
| RedBlackColor.InsertInner | tree/redblacktree.go:320-323 | when z is an inner right child, rotating its parent left turns the case into the outer one |
| RedBlackColor.InsertOuter | tree/redblacktree.go:342-344 | in the outer case on the right, recolouring and rotating the grandparent left leaves a tree whose only violation has a black parent |
| RedBlackColor.InsertInnerRight | tree/redblacktree.go:337-340 | the mirror image of InsertInner |
| RedBlackColor.InsertOuterLeft | tree/redblacktree.go:325-327 | the mirror image of InsertOuter |
| RedBlackColor.FixingDone | tree/redblacktree.go:348 | once z's parent is black, blackening the root leaves a red-black tree |
| RedBlackColor.AllOkMirror | tree/redblacktree.go:330-346 | the colour rules hold in the mirror image exactly when they hold in the tree |
| RedBlackDelete.SiblingFacts | tree/redblacktree.go:426-434 | while the delete fixup runs, x's sibling is a real node, so the sentinel test in the source never holds |
| RedBlackDelete.DelDone | tree/redblacktree.go:476 | when x is red or the root, blackening it leaves a red-black tree |
| RedBlackDelete.DelRed | tree/redblacktree.go:427-432 | with a red sibling, recolouring and rotating the parent left gives x a black sibling and keeps the deficit at x |
| RedBlackDelete.DelInner | tree/redblacktree.go:462-467 | with x a right child and a black sibling whose far child is black, recolouring and rotating the sibling left gives the sibling a red far child |
| RedBlackDelete.DelOuter | tree/redblacktree.go:444-448 | with a black sibling whose far child is red, recolouring and rotating the parent left leaves a red-black tree |
| RedBlackDelete.DelRedRight | tree/redblacktree.go:452-457 | the mirror image of DelRed |
| RedBlackDelete.DelInnerLeft | tree/redblacktree.go:438-443 | the mirror image of DelInner |
| RedBlackDelete.DelOuterRight | tree/redblacktree.go:468-473 | the mirror image of DelOuter |
| RedBlackDelete.DelFixMirror | tree/redblacktree.go:450-474 | the delete fixup's invariant holds in the mirror image exactly when it holds in the tree |
| RedBlackDelete.SpliceFacts | tree/redblacktree.go:379-414 | the node removed and its replacement are linked where Delete expects them |
| RedBlackDelete.DeleteStart | tree/redblacktree.go:379-418 | after Delete's relinking with y taking z's colour, the tree is red-black when the colour removed was red, and otherwise satisfies the delete fixup's invariant at the node that took y's place |
| RedBlackDelete.StartBlack | tree/redblacktree.go:416-417 | when the colour removed was black, the node that took y's place is one black short below its parent |
| RedBlackDelete.StartRed | tree/redblacktree.go:416 | when the colour removed was red, the relinked tree is already red-black |
| RedBlackDelete.RootFix | tree/redblacktree.go:424 | a red-black tree satisfies the delete fixup's invariant at its root |
| RedBlackTree.AppendRedBlack | tree/redblacktree.go:176-181 | a fresh red node linked to nothing leaves a red-black tree as it was |
| RedBlackTree.SentinelReset | tree/redblacktree.go:420 | resetting the sentinel's parent to nil keeps a red-black tree with the same nodes |
| RedBlackTree.DescendStep | tree/redblacktree.go:282-289 | one step of insert's descent keeps the new key's place below the cursor |
| RedBlackTree.RBTree.constructor | tree/redblacktree.go:199-205 | a new tree is an empty red-black tree rooted at the sentinel |
| RedBlackTree.RBTree.Root | tree/redblacktree.go:216-218 | the root is the sentinel exactly when the tree is empty, and otherwise a node of the tree |
| RedBlackTree.RBTree.NewNode | tree/redblacktree.go:176-181 | a fresh red node holding the key is appended, unlinked, and the tree is unchanged |
| RedBlackTree.RBTree.Search | tree/redblacktree.go:207-214 | a node returned is in the tree and holds the key, and nil is returned exactly when no node holds the key |
| RedBlackTree.RBTree.Length | tree/redblacktree.go:479-488 | the count of non-sentinel nodes a full walk visits is the number of nodes in the tree |
| RedBlackTree.RBTree.LeftRotate | tree/redblacktree.go:220-242 | the new links are those of LeftRotated: x's right child takes x's place and x becomes its left child; colours are unchanged |
| RedBlackTree.RBTree.RightRotate | tree/redblacktree.go:244-266 | the mirror image of LeftRotate |
| RedBlackTree.RBTree.Transplant | tree/redblacktree.go:351-361 | the new links are those of Transplanted, the sentinel's parent included; colours are unchanged |
| RedBlackTree.RBTree.Replace | tree/redblacktree.go:363-377 | the new links are those of Replaced, and v takes u's colour |
| RedBlackTree.RBTree.Insert | tree/redblacktree.go:268-275 | the new node joins the tree, which stays red-black and grows by exactly that node, one more in Length; in the tree's in-order list the new node comes after every node keyed at most k (so after the existing equal keys) and before every larger key |
| RedBlackTree.RBTree.InsertNode | tree/redblacktree.go:277-305 | an unlinked node joins the tree, which stays red-black and grows by exactly that node, placed in the in-order list after every key at most its own and before every greater key |
| RedBlackTree.RBTree.Attach | tree/redblacktree.go:291-303 | the new links are those of Attached and the node is red |
| RedBlackTree.RBTree.InsertFixup | tree/redblacktree.go:307-349 | from a tree with one red node that may have a red parent, the loop and the final blackening of the root leave a red-black tree with the same nodes and the same in-order walk |
| RedBlackTree.RBTree.InsertStepLeft | tree/redblacktree.go:311-329 | one round with the parent a left child keeps the fixup invariant and the in-order walk, and either ends the loop or moves z strictly up |
| RedBlackTree.RBTree.InsertStepRight | tree/redblacktree.go:330-346 | the mirror image of InsertStepLeft |
| RedBlackTree.RBTree.Recolor | tree/redblacktree.go:313-317 | the red-uncle case keeps the links, keeps the fixup invariant and moves z to its grandparent |
| RedBlackTree.RBTree.RotateLeftCase | tree/redblacktree.go:319-328 | the black-uncle cases with the parent on the left end the loop with the fixup invariant and the in-order walk kept |
| RedBlackTree.RBTree.OuterLeftCase | tree/redblacktree.go:325-327 | recolouring and rotating the grandparent right ends the loop with the fixup invariant and the in-order walk kept |
| RedBlackTree.RBTree.RotateRightCase | tree/redblacktree.go:336-345 | the mirror image of RotateLeftCase |
| RedBlackTree.RBTree.OuterRightCase | tree/redblacktree.go:342-344 | the mirror image of OuterLeftCase |
| RedBlackTree.RBTree.Delete | tree/redblacktree.go:379-421 | the tree stays red-black, loses exactly the deleted node, and Length drops by one |
| RedBlackTree.RBTree.ResetSentinel | tree/redblacktree.go:420 | the sentinel's parent goes back to nil and the tree is otherwise unchanged |
| RedBlackTree.RBTree.Unlink | tree/redblacktree.go:380-414 | the new links are those of Removed, the replacement node and the colour taken out are returned, and y takes z's colour |
| RedBlackTree.RBTree.Promote | tree/redblacktree.go:398-413 | the two-children case produces the links of Removed and gives y z's colour |
| RedBlackTree.RBTree.Lift | tree/redblacktree.go:405-407 | y gives its place to its right child and adopts r on the right |
| RedBlackTree.RBTree.Adopt | tree/redblacktree.go:411-412 | y adopts l on the left |
| RedBlackTree.RBTree.DeleteFixup | tree/redblacktree.go:423-477 | from a tree one black short at x, the loop and the final blackening of x leave a red-black tree with the same nodes |
| RedBlackTree.RBTree.DeleteStepLeft | tree/redblacktree.go:425-449 | one round with x a left child keeps the fixup invariant and either ends at the root or moves x strictly up |
| RedBlackTree.RBTree.BlackSiblingLeft | tree/redblacktree.go:434-449 | the rest of the round once the sibling is black keeps the invariant and makes progress |
| RedBlackTree.RBTree.DeleteStepRight | tree/redblacktree.go:450-474 | the mirror image of DeleteStepLeft |
| RedBlackTree.RBTree.BlackSiblingRight | tree/redblacktree.go:458-473 | the mirror image of BlackSiblingLeft |
| RedBlackTree.RBTree.TurnRedSiblingLeft | tree/redblacktree.go:427-432 | the red-sibling case leaves x in place, still short, with a black real sibling |
| RedBlackTree.RBTree.TurnRedSiblingRight | tree/redblacktree.go:452-457 | the mirror image of TurnRedSiblingLeft |
| RedBlackTree.RBTree.ReddenSibling | tree/redblacktree.go:434-436 | reddening the sibling keeps the links and moves the deficit up to x's parent |
| RedBlackTree.RBTree.TurnInnerNephewLeft | tree/redblacktree.go:438-443 | the inner-nephew case gives x a sibling with a red far child |
| RedBlackTree.RBTree.TurnInnerNephewRight | tree/redblacktree.go:462-467 | the mirror image of TurnInnerNephewLeft |
| RedBlackTree.RBTree.FinishLeft | tree/redblacktree.go:444-448 | the outer-nephew case leaves a red-black tree with x moved to the root |
| RedBlackTree.RBTree.FinishRight | tree/redblacktree.go:468-472 | the mirror image of FinishLeft |
| SweepLine.NewLineSegment | sweepline/linesegmentintersection.go:19-64 | the end points are kept or swapped so that start lies left of (or level with) end, the original order kept whenever start was strictly left; the segment is vertical exactly when the two x values are equal |
| SweepLine.NewLineSegmentOnLine | sweepline/linesegmentintersection.go:49-56 | the gradient and intercept of a non-vertical segment describe a line through both end points |
| SweepLine.DirectionProperties | sweepline/linesegmentintersection.go:133-136 | swapping the two far points negates the direction, and a segment's own end points are collinear with it |
| SweepLine.OnSegment | sweepline/linesegmentintersection.go:138-145 | true exactly when the point lies in the closed bounding box of the other two on both axes |
| SweepLine.OnSegmentProperties | sweepline/linesegmentintersection.go:138-145 | the box does not depend on the order of its corners and contains both corners |
| SweepLine.InsideSegment | sweepline/linesegmentintersection.go:147-153 | true exactly when the point is in the box and is neither end point object |
| SweepLine.Intersects | sweepline/linesegmentintersection.go:83-102 | true exactly when each segment's end points lie strictly on opposite sides of the other's line, or an end point of one lies on the other's line within its box |
| SweepLine.IntersectsProperties | sweepline/linesegmentintersection.go:83-102 | intersection does not depend on the order of the segments, a segment meets itself, and a segment meets one that starts where it ends |
| SweepLine.IntersectionPointAsWritten | sweepline/linesegmentintersection.go:104-131 | the source's arithmetic: a point is returned only for intersecting segments whose first segment is not horizontal |
| SweepLine.IntersectionPoint | sweepline/linesegmentintersection.go:104-131 | a point exists exactly when the segments intersect and are not parallel |
| SweepLine.IntersectionPointOnBoth | sweepline/linesegmentintersection.go:104-131 | the point computed lies on the lines of both segments |
| SweepLine.IntersectionPointAgrees | sweepline/linesegmentintersection.go:123-130 | wherever the source's division by y0 is defined, it gives the same point as the corrected definition |
| SweepLine.ParallelIntersecting | sweepline/linesegmentintersection.go:104-125 | intersecting segments with tBottom zero lie on one line, so tTop is zero too |
| SweepLine.AsWrittenUndefinedIsNaN | sweepline/linesegmentintersection.go:104-131 | wherever the source's point is undefined for intersecting segments it divides zero by zero: either tBottom and tTop are both zero, or l0 is horizontal and the numerator of its factor s is zero, so the point is NaN |
| SweepLine.IntersectionPointHorizontal | sweepline/linesegmentintersection.go:126 | (0, 0)-(2, 0) crossed by (1, -1)-(1, 1): the segments intersect, the source's formula gives no point, the corrected one gives (1, 0) |
| SweepLine.AlongAgrees | sweepline/linesegmentintersection.go:119-130 | the point reached along l0 by s and the point reached along l1 by t coincide |
| SweepLine.ComparePointsAsWritten | sweepline/linesegmentintersection.go:411-427 | the source's comparison: Equal exactly when the x values are within the fuzz, Less exactly when they are not and p0's x is smaller, Greater exactly when they are not and p1's x is smaller |
| SweepLine.ComparePoints | sweepline/linesegmentintersection.go:411-427 | Equal exactly when the points are within the fuzz on both axes, otherwise Less or Greater by x and then y |
| SweepLine.ComparePointsIgnoresY | sweepline/linesegmentintersection.go:413 | (1, 0) and (1, 2) compare Equal as written, Less once dy uses the y values |
| SweepLine.ComparePointsAntisymmetric | sweepline/linesegmentintersection.go:411-427 | comparing the other way round flips the result, and a point equals itself |
| SweepLine.InsertEvent | sweepline/linesegmentintersection.go:483 | inserting into the event queue, placed before the first point it compares Less to as written, adds exactly one copy of the point to the queue's contents |
| SweepLine.InsertEventSorted | sweepline/linesegmentintersection.go:483 | inserting a point whose x is not within the fuzz of any queued point's x keeps the queue strictly ordered by x |
| SweepLine.AddEventValid | sweepline/linesegmentintersection.go:476-486 | adding an event keeps the queue ordered by x with no two points Equal as written (no two x values within the fuzz), afterwards a point Equal to it is queued, and its points grow by it exactly when none Equal to it was queued |
| SweepLine.InsertEventElems | sweepline/linesegmentintersection.go:483 | insertion adds exactly the point to the queue's points |
| SweepLine.QueuedKept | sweepline/linesegmentintersection.go:476-486 | a point with an Equal (as written) point in the queue keeps one when another event is added |
| SweepLine.InitQueueValid | sweepline/linesegmentintersection.go:368-382 | the initial queue is ordered by x, holds no two points Equal as written, and holds, up to that Equal, both end points of every line |
| SweepLine.InitQueueDropsStart | sweepline/linesegmentintersection.go:368-382 | for (0, 0)-(2, 0) and (0, 1)-(3, 1) the queue holds three points: the second line's start compares Equal to the first line's start and is never queued |
| SweepLine.InitQueueFrom | sweepline/linesegmentintersection.go:376-381 | every point of the initial queue is the start or end of one of the lines |
| SweepLine.FirstEventPanics | sweepline/linesegmentintersection.go:205-211 | in a fresh state, where no segment has a node in the line status, lsiIterate panics at a point exactly when a line ends there |
| SweepLine.InitQueueEmpty | sweepline/linesegmentintersection.go:368-382 | the initial queue is empty exactly when there are no lines, so the sweep loop runs at least once exactly when there are lines |
| SweepLine.SweepActivePrefix | sweepline/linesegmentintersection.go:176-178 | once a front of the events panics, the sweep of all of them panics |
| SweepLine.SingleLineSweeps | sweepline/linesegmentintersection.go:174-219 | (0, 0)-(2, 0) alone sweeps without a panic: it enters the line status at its start and leaves it at its end |
| SweepLine.DroppedStartPanics | sweepline/linesegmentintersection.go:174-219 | (0, 0)-(2, 0) with (0, 1)-(3, 1) panics: the second start is never queued, so the second line never enters the line status and `Delete` is handed nil at its end |
| SweepLine.StartingAt | sweepline/linesegmentintersection.go:378 | the lines listed at a point are exactly those starting there |
| SweepLine.EndingAt | sweepline/linesegmentintersection.go:380 | the lines listed at a point are exactly those ending there |
| SweepLine.AddLine | sweepline/linesegmentintersection.go:378-380 | appending a line at a key extends that key's list by the line and changes no other key |
| SweepLine.IndexStep | sweepline/linesegmentintersection.go:376-381 | after one more line the start and end indexes list, at every point, exactly the lines so far that start or end there |
| SweepLine.InitQueueStep | sweepline/linesegmentintersection.go:376-381 | the queue after one more line is the previous queue with the line's start and then its end added |
| SweepLine.Contained | sweepline/linesegmentintersection.go:503-515 | the old list is kept as a prefix with at most the segment added, the segment is added only when the point lies inside it, is listed afterwards whenever it does, and no segment object is listed twice |
| SweepLine.Contain | sweepline/linesegmentintersection.go:503-528 | only the crossing's entry of containedPoints changes, and no entry lists a segment twice |
| SweepLine.Somes | sweepline/linesegmentintersection.go:195-196 | each point wrapped as a present vector, in order |
| SweepLine.Enumerate | sweepline/linesegmentintersection.go:333-341 | lists each element of a set exactly once |
| SweepLine.LSIState.constructor | sweepline/linesegmentintersection.go:296-303 | a new state has an unbounded sweep, the lines indexed by their end points, the initial queue, and nothing else recorded |
| SweepLine.LSIState.Clear | sweepline/linesegmentintersection.go:305-315 | forgets every recorded point and refills the queue and indexes from the lines |
| SweepLine.LSIState.InitEventQueue | sweepline/linesegmentintersection.go:368-382 | the queue becomes InitQueue of the lines and the indexes list each line at its start and end |
| SweepLine.LSIState.AddLineAt | sweepline/linesegmentintersection.go:376-381 | one turn of the loop takes the queue and indexes of the first i lines to those of the first i + 1 |
| SweepLine.LSIState.AddLineEvents | sweepline/linesegmentintersection.go:377-380 | one line's end points are added to the queue and the line to both indexes |
| SweepLine.LSIState.SetMaxSweeplineX | sweepline/linesegmentintersection.go:317-319 | the sweep stops beyond the given x |
| SweepLine.LSIState.FuturePoints | sweepline/linesegmentintersection.go:333-341 | the result lists the queued points, each once |
| SweepLine.LSIState.ActiveLines | sweepline/linesegmentintersection.go:347-358 | the result lists the segments in the line status, each once |
| SweepLine.LSIState.AddEventPoint | sweepline/linesegmentintersection.go:476-486 | the queue becomes AddEvent of the old queue, a point Equal to p is queued, and futurePoints gains p exactly when none Equal was queued |
| SweepLine.LSIState.AddContained | sweepline/linesegmentintersection.go:503-515 | containedPoints becomes Contain of the old map |
| SweepLine.LSIState.FindEvent | sweepline/linesegmentintersection.go:488-529 | for a crossing point whose id no point of the state or of the two segments has (Unused: a freshly allocated vector): nothing changes when the source's IntersectionPoint gives no point (non-intersecting segments, or its NaN point, against which every comparison is false); otherwise the crossing is queued when it lies ahead of the current point and each segment it lies inside is listed at it |
| SweepLine.LSIState.UpdateActive | sweepline/linesegmentintersection.go:205-219 | panics exactly when a leaving segment has no node in the line status or is listed twice (Delete of a nil node); otherwise the line status loses the leaving segments and then gains the entering ones |
| SweepLine.LSIState.Iterate | sweepline/linesegmentintersection.go:184-219 | the first event becomes the next point; the limit is reported exactly when that event lies beyond it, and then nothing else changes and nothing panics; otherwise the event leaves the queue and futurePoints and becomes the current point, the previous current point is remembered and the sweep moves to its x; the point is recorded as an intersection exactly when more than one segment starts, ends or lies on it; it panics exactly when PanicsAt held there (a segment ending or lying at the point has no node in the line status, or is listed twice, so `Delete` is handed nil); otherwise the line status becomes StepActive: the segments ending or lying there leave, then those starting or lying there enter |
| SweepLine.LSIState.Visit | sweepline/linesegmentintersection.go:199-219 | the point is recorded as an intersection exactly when more than one segment starts, ends or lies on it; it panics exactly when PanicsAt held there; otherwise the line status becomes StepActive of the old one at the point |
| SweepLine.LSIState.RecordIntersection | sweepline/linesegmentintersection.go:199-203 | the point maps to its segments exactly when there is more than one |
| SweepLine.LSIState.PopEvent | sweepline/linesegmentintersection.go:193-197 | the first event leaves the queue and futurePoints and becomes the current point, and the sweep moves to its x |
| SweepLine.LSIState.Run | sweepline/linesegmentintersection.go:360-366 | Ran: stops with the queue empty, its first event beyond the limit, or a panic; what is left is a suffix of the old queue; the events taken from its front are visited in order after the old current point and recorded one by one into the intersection points (Recorded); without a panic the line status is SweepActive of the events taken, and with one the last event taken is the first at which the sweep panics (PanicsLast); nothing is taken when the first event is beyond the limit; the next point is the event the limit stopped it at, or else the last event taken |
| SweepLine.LSIState.Drain | sweepline/linesegmentintersection.go:176-180 | Emptied: an unbounded sweep takes a front of the queue, visits its events in order after the old current point and records them into the intersection points (Recorded); it panics exactly when SweepActive of the whole queue is None, at the first event where it is, and otherwise empties the queue, leaves the line status SweepActive gives, and resets the sweep x; the next point is the last event taken |
| SweepLine.LineSegmentIntersection | sweepline/linesegmentintersection.go:174-182 | a fresh state over the lines, indexed by their end points, with no contained points and a valid queue, drained from InitQueue(lines), an empty line status, no intersection points and the initial nil: it panics exactly when SweepActive of that queue is None, after at least one event and at the first that panics; otherwise the queue is emptied, every event of it is visited in order, and the sweep x is reset; the intersection points are Recorded over the events taken, and each is listed with exactly the lines starting or ending there, at least two of them (Reported) |
| SweepLine.LSIState.RanBeyondUnchanged | sweepline/linesegmentintersection.go:184-190 | a Run whose first event lies beyond the limit (as it does when the limit is below every queued x, the queue being sorted) takes nothing and panics not: queue, intersection points, line status and visited points stay as they were, and the next point is that first event |
| SweepLine.LSIState.EmptiedReported | sweepline/linesegmentintersection.go:176-203 | a drain starting from intersection points reported for the lines leaves them reported: each point listed with exactly the lines starting or ending there and the segments lying there, at least two of them |
| SweepLine.RecordAtReported | sweepline/linesegmentintersection.go:199-203 | recording one event keeps every point well listed, adds at most that event and drops no point, and adds it when at least two segments start, end or lie there |
| SweepLine.RecordedReported | sweepline/linesegmentintersection.go:176-203 | recording a sequence of events keeps every point well listed and drops none; every point reported was reported before or is one of the events |
| SweepLine.RecordedCovers | sweepline/linesegmentintersection.go:176-203 | every event at which at least two segments start, end or lie is reported once the events are recorded |
| SweepLine.SharedEndIntersects | sweepline/linesegmentintersection.go:83-102 | two segments with an end point at the same place intersect |
| SweepLine.ReportedIntersect | sweepline/linesegmentintersection.go:199-203 | a point reported with nothing contained has at least two segments listed, and any two of them intersect |

## Left out

- Floating point: the geometry's `float64` and `float32` values (points, segments, matrices, polynomials, parabolas, vectors) are modelled as `real`, with no rounding, infinities or NaN. The ±∞ sentinel lines and the vertical gradient are datatype tags.
- Dijkstra.Relax and PriorityQueue.Plus: Dijkstra's edge weights and distance estimates are modelled as integers with an explicit infinite case (`PriorityQueue.Estimate` is `Finite(int)` or `Infinity`), not as `float64`. Fractional weights and estimates are not modelled, and neither is the `float64`-to-`int` truncation of `Distance` (graph/dijkstra.go:34-36).
- SweepLine.LSIState.Iterate: the neighbour searches after the line-status update (sweepline/linesegmentintersection.go:221-276) are not modelled. Where nothing starts or lies at the point, the Go code inserts the point's own entry, calls findEvent on the lines just above and below it, and panics when either is missing (`panic("")`, or a nil `Successor` when the entry was not linked); otherwise it calls findEvent between the bottom and top segments at the point and their outer neighbours. Both need the line-status order, which moves with the package-level sweep x (`compareLines`, `lineYPoint`). The line status is modelled as the set of its segments, so the modelled sweep neither records the crossings these calls would queue nor panics there.
- SweepLine.LSIState.Run: inherits the gap above. It never reports a crossing in the interior of two segments and never adds an event while it runs. Its "what is left is a suffix of the old queue" holds of the model only: the Go loop can queue crossings found by the neighbour searches, so its remaining queue need not be a suffix of the one it started with.
- SweepLine.LSIState.Drain: inherits the same gap. The events it takes are exactly the old queue, and no crossing found mid-run is ever visited or recorded, while the Go loop visits and records the crossings it queues along the way.
- SweepLine.LineSegmentIntersection: inherits the same gap. Its result lists only points where two or more segments start or end, never a crossing inside two segments, and its panics are only those of the line-status update, not those of the neighbour searches.
- RedBlackTree: Go keeps one package-level `rbNilNode` for every tree. The parent pointer Delete sets on it (and resets at tree/redblacktree.go:420) is therefore seen by every tree at once. The model gives each tree its own sentinel and does not capture that sharing, which matters only when two trees are used concurrently.
- SweepLine.LSIState.UpdateActive: a segment entering while a segment comparing Equal to it at the sweep x already has a node (collinear overlapping segments, such as (0, 0)-(2, 0) and (1, 0)-(3, 0)) gets back the node `Insert` hands it without linking it (tree/baseBST.go:134-155). Deleting that node later empties the whole line status, sentinels included (BaseBST.Tree.Delete states this outcome). The model keeps the line status as a set and only removes that segment, because comparing lines needs their order at the sweep x, which is not modelled.
- SweepLine.LSIState.Iterate: requires a non-empty queue. On an empty queue the Go code calls `Minimum` on a nil root and panics, and its only caller, Run, never does that.
- SweepLine.LSIState.FindEvent: where the source's IntersectionPoint is undefined the model changes nothing, as Go does with its NaN point, since every comparison with NaN is false (AsWrittenUndefinedIsNaN shows each such case is 0/0 in exact arithmetic). Floating-point rounding, which could turn such a 0/0 into a finite or infinite quotient, is not modelled.
- SweepLine.LSIState.ActiveLines: the Go code lists the keys of `lineStatusNodes`, which only lsiIterate's insertions (sweepline/linesegmentintersection.go:217) add to, so the ±∞ sentinel lines never appear in it. The model's line status likewise holds no sentinel lines.
- SweepLine: the event queue and the line status are modelled by their in-order sequences and sets, not as trees. With `useRBTree` false the sweep runs on the plain binary search tree, whose contracts are proved in `BaseBST`. The package-level `sweeplineXPoint` is a field of the state.
- SweepLine.LSIState.constructor: the package-level `sweeplineXPoint` is modelled as a field of each state, which starts at 0. In Go, NewLSIState (sweepline/linesegmentintersection.go:296-303) does not touch the global, which keeps whatever value an earlier sweep left; only LineSegmentIntersection resets it (:180), and only after its loop.
- RedBlackTree.RBTree.Delete: requires a node of the tree. Deleting nil or a node that is not in the tree is not modelled.
- BaseBST.Tree.Delete: requires a node of the tree, nil, or a node with no links (what Insert returns for a key already present). A node with links into another tree is not modelled.
- RedBlackTree.RBTree.Replace: it states the new links and colours only and does not claim to keep the tree valid. The Go code moves `v` into `u`'s place and hands it `u`'s children, but leaves the links at `v`'s former place alone: `v`'s former children still name `v` as their parent.
- RedBlackTree.RBTree.Insert and Search: keys are `int` under `<`. They stand for the Go `Comparable` interface, and an existing `RBTreeNode` passed as a key is treated as a key.
- DepthFirst: the package-level `time` counter is a field of `DepthFirstSearcher`.
- BreadthFirst.BreadthFirstSearchCallback: the callback is recorded only as the list of vertices it is called with. What it does is not modelled.
- Matrix: the `Valid` invariant requires non-negative dimensions. `NewMatrix` with a negative column count builds a matrix outside it, and nothing is proved about such matrices. `Row` returns a copy, so slice aliasing is not modelled.
- Polynomial: `ZPolynomial.Calculate` is not modelled. The `math.Pow`-based `RPolynomial.Calculate` is modelled as exact real evaluation.
- Polynomial.QuadraticRoots: the square root and the division of the root formula are not modelled. The result is the three coefficients the formula is applied to.
- Parabola.Parabola.GetParabolaPoint: a focus on the directrix divides by zero in Go. The model returns None in that case.
- Graph: `Distance` is a plain accessor. `ToAttributeMap` and the `float32` to `int` truncation of the Dijkstra `Distance` are not modelled.
- Dijkstra: `container/heap` and `sort.Sort` are not part of this model. Extract-min is specified abstractly: an item of lowest estimate leaves the queue.
- `String()` methods, `fmt` output and the A* files are not part of this model.

## Findings

| source | as written | input that shows it | evidently intended | confidence | as-written member | corrected member |
|---|---|---|---|---|---|---|
| util/polynomial.go:60-62 | `a` is read from coefficient 0 (the constant term) and `c` from coefficient 2, so the roots of the reversed polynomial are returned | x^2 - 3x + 2 (coefficients [2, -3, 1]) is solved as 2x^2 - 3x + 1, giving 1 and 1/2 instead of 2 and 1 | `a` from coefficient 2, `c` from coefficient 0 | not executed | Polynomial.QuadraticRootsAsWritten, Polynomial.QuadraticRootsReadsReversed | Polynomial.QuadraticRoots |
| sweepline/linesegmentintersection.go:411-427 | `dy` is computed from the x coordinates, so points with equal x compare Equal whatever their y | (1, 0) against (1, 2) gives Equal, so the second is never queued; for (0, 0)-(2, 0) and (0, 1)-(3, 1) the second start is dropped, the second line never enters the line status, and the sweep panics at its end | `dy` from the y coordinates: Less | not executed | SweepLine.ComparePointsAsWritten, SweepLine.ComparePointsIgnoresY, SweepLine.InitQueueDropsStart, SweepLine.DroppedStartPanics | SweepLine.ComparePoints, SweepLine.ComparePointsAntisymmetric |
| sweepline/linesegmentintersection.go:123-130 | the point is computed along l0 with a factor divided by l0's y extent, which is zero for a horizontal l0 | l0 = (0, 0)-(2, 0) and l1 = (1, -1)-(1, 1) intersect, but 0/0 gives a NaN point instead of (1, 0) | the point along l1 at t = tTop / tBottom, which needs only tBottom ≠ 0 | not executed | SweepLine.IntersectionPointAsWritten, SweepLine.IntersectionPointHorizontal, SweepLine.AsWrittenUndefinedIsNaN | SweepLine.IntersectionPoint, SweepLine.IntersectionPointAgrees |

The sweep follows the code as written: its event queue compares points with SweepLine.ComparePointsAsWritten, and SweepLine.LSIState.FindEvent uses SweepLine.IntersectionPointAsWritten. The corrected definitions stand beside them with their intended properties proved.
