/** The node-level helpers shared by the plain and the red-black search
    trees (tree/binarysearchtree.go and the node methods of tree/baseBST.go
    and tree/redblacktree.go).

    Nodes live in an arena: node i has key[i], left[i], right[i] and
    parent[i], and -1 stands for Go's nil. A tree also names the index its
    children point at when they are absent, `nil`: -1 for the plain tree,
    the shared black sentinel for the red-black tree. The ghost `sub[i]` is
    the set of nodes in the subtree rooted at i; it is what makes every
    shape invariant local to one node. */
module SearchTree {
  import opened Results

  datatype Links = Links(key: seq<int>, left: seq<int>, right: seq<int>, parent: seq<int>, root: int)

  predicate Sized(a: Links)
  {
    |a.left| == |a.key| && |a.right| == |a.key| && |a.parent| == |a.key|
  }

  /** The subtree set of i, empty for nil and for anything outside the arena. */
  ghost function Under(sub: seq<set<int>>, i: int): set<int>
  {
    if 0 <= i < |sub| then sub[i] else {}
  }

  /** The nodes linked into the tree. */
  ghost function Nodes(a: Links, sub: seq<set<int>>): set<int>
  {
    Under(sub, a.root)
  }

  /** Node j points at its children, which point back at it; its subtree
      is itself plus its children's disjoint subtrees; keys on the left are
      no greater and keys on the right no smaller than its own. */
  ghost predicate Local(a: Links, sub: seq<set<int>>, nil: int, j: int)
    requires Sized(a) && |sub| == |a.key| && 0 <= j < |a.key|
  {
    var l, r := a.left[j], a.right[j];
    (l == nil || (0 <= l < |a.key| && l in sub[l] && a.parent[l] == j)) &&
    (r == nil || (0 <= r < |a.key| && r in sub[r] && a.parent[r] == j)) &&
    sub[j] == {j} + Under(sub, l) + Under(sub, r) &&
    j !in Under(sub, l) && j !in Under(sub, r) && Under(sub, l) !! Under(sub, r) &&
    (forall k :: k in Under(sub, l) ==> 0 <= k < |a.key| && a.key[k] <= a.key[j]) &&
    (forall k :: k in Under(sub, r) ==> 0 <= k < |a.key| && a.key[j] <= a.key[k])
  }

  /** A well-formed search tree: every linked node satisfies Local, the
      root has no parent, and the absent-child index owns nothing. */
  ghost predicate Valid(a: Links, sub: seq<set<int>>, nil: int)
  {
    Sized(a) && |sub| == |a.key| &&
    (nil == -1 || (0 <= nil < |a.key| && sub[nil] == {} && a.left[nil] == -1 && a.right[nil] == -1)) &&
    (a.root == nil || (0 <= a.root < |a.key| && a.root in sub[a.root] && a.parent[a.root] == nil)) &&
    (forall j :: j in Nodes(a, sub) ==> 0 <= j < |a.key| && j != nil && sub[j] <= Nodes(a, sub)) &&
    forall j {:trigger Local(a, sub, nil, j)} :: j in Nodes(a, sub) && 0 <= j < |a.key| ==> Local(a, sub, nil, j)
  }

  /** A child's subtree is strictly smaller than its parent's. */
  lemma Shrinks(a: Links, sub: seq<set<int>>, nil: int, j: int)
    requires Valid(a, sub, nil) && j in Nodes(a, sub)
    ensures |Under(sub, a.left[j])| < |sub[j]| && |Under(sub, a.right[j])| < |sub[j]|
  {
    assert Local(a, sub, nil, j);
    var l, r := Under(sub, a.left[j]), Under(sub, a.right[j]);
    assert sub[j] == {j} + l + r;
    assert l <= sub[j] - {j} && r <= sub[j] - {j};
  }

  /** Every node of a subtree other than its root hangs from a parent in the
      same subtree, as that parent's left or right child. */
  lemma {:induction false} ParentInSub(a: Links, sub: seq<set<int>>, nil: int, j: int, d: int)
    requires Valid(a, sub, nil) && j in Nodes(a, sub) && d in sub[j] && d != j
    ensures 0 <= a.parent[d] < |a.key| && a.parent[d] in sub[j]
    ensures a.left[a.parent[d]] == d || a.right[a.parent[d]] == d
    decreases |sub[j]|
  {
    assert Local(a, sub, nil, j);
    var l, r := a.left[j], a.right[j];
    Shrinks(a, sub, nil, j);
    if d in Under(sub, l) {
      if d != l {
        ParentInSub(a, sub, nil, l, d);
      }
    } else {
      if d != r {
        ParentInSub(a, sub, nil, r, d);
      }
    }
  }

  /** A linked node other than the root has a linked parent that points at it. */
  lemma ParentLink(a: Links, sub: seq<set<int>>, nil: int, d: int)
    requires Valid(a, sub, nil) && d in Nodes(a, sub) && d != a.root
    ensures 0 <= a.parent[d] < |a.key| && a.parent[d] in Nodes(a, sub)
    ensures a.left[a.parent[d]] == d || a.right[a.parent[d]] == d
  {
    ParentInSub(a, sub, nil, a.root, d);
  }

  /** Every node of a subtree roots a subtree inside it. */
  lemma {:induction false} SubClosed(a: Links, sub: seq<set<int>>, nil: int, j: int, i: int)
    requires Valid(a, sub, nil) && j in Nodes(a, sub) && i in sub[j]
    ensures i in Nodes(a, sub) && sub[i] <= sub[j]
    decreases |sub[j]|
  {
    assert Local(a, sub, nil, j);
    Shrinks(a, sub, nil, j);
    if i != j {
      if i in Under(sub, a.left[j]) {
        SubClosed(a, sub, nil, a.left[j], i);
      } else {
        SubClosed(a, sub, nil, a.right[j], i);
      }
    }
  }

  /** Relinking the children of a node outside the tree leaves the tree as
      it was. */
  lemma Outsider(a: Links, sub: seq<set<int>>, nil: int, x: int, l: int, r: int)
    requires Valid(a, sub, nil) && 0 <= x < |a.key| && x !in Nodes(a, sub) && x != nil
    ensures Valid(a.(left := a.left[x := l], right := a.right[x := r]), sub, nil)
    ensures Nodes(a.(left := a.left[x := l], right := a.right[x := r]), sub) == Nodes(a, sub)
  {
    var b := a.(left := a.left[x := l], right := a.right[x := r]);
    forall j | j in Nodes(b, sub) && 0 <= j < |b.key|
      ensures Local(b, sub, nil, j)
    {
      assert Local(a, sub, nil, j);
    }
  }

  /** Local at j carries over to links b and subtree sets s2 in which j
      keeps its children and keys are unchanged, its children still point
      back at it, and j's and its children's subtrees all lose the same
      node d (or nothing, when d is not below j). */
  lemma LocalMinus(a: Links, sub: seq<set<int>>, b: Links, s2: seq<set<int>>, nil: int, j: int, d: int)
    requires Sized(a) && |sub| == |a.key| && Sized(b) && |s2| == |a.key| && |b.key| == |a.key| && 0 <= j < |a.key|
    requires Local(a, sub, nil, j) && b.key == a.key && d != j
    requires b.left[j] == a.left[j] && b.right[j] == a.right[j] && s2[j] == sub[j] - {d}
    requires Under(s2, a.left[j]) == Under(sub, a.left[j]) - {d} && Under(s2, a.right[j]) == Under(sub, a.right[j]) - {d}
    requires a.left[j] != nil ==> b.parent[a.left[j]] == j && a.left[j] != d
    requires a.right[j] != nil ==> b.parent[a.right[j]] == j && a.right[j] != d
    ensures Local(b, s2, nil, j)
  {
  }

  /** Local at j carries over when j's child u is replaced by v, whose
      subtree is u's without d, and j's subtree loses d. */
  lemma LocalSwap(a: Links, sub: seq<set<int>>, b: Links, s2: seq<set<int>>, nil: int, j: int, u: int, v: int, d: int, onLeft: bool)
    requires Sized(a) && |sub| == |a.key| && Sized(b) && |s2| == |a.key| && |b.key| == |a.key| && 0 <= j < |a.key|
    requires Local(a, sub, nil, j) && b.key == a.key && d != j && u != nil
    requires onLeft ==> a.left[j] == u && b.left[j] == v && b.right[j] == a.right[j]
    requires !onLeft ==> a.right[j] == u && b.right[j] == v && b.left[j] == a.left[j]
    requires 0 <= u < |a.key| && d in sub[u] && s2[j] == sub[j] - {d} && Under(s2, v) == sub[u] - {d}
    requires v == nil || (0 <= v < |a.key| && b.parent[v] == j && v in s2[v])
    requires var o := if onLeft then a.right[j] else a.left[j];
      Under(s2, o) == Under(sub, o) && (o != nil ==> b.parent[o] == j)
    ensures Local(b, s2, nil, j)
  {
  }

  /** Key k belongs below c as far as the nodes of top's subtree can tell:
      every node of it that has c on its left holds a key above k, every
      one that has c on its right a key below k. */
  ghost predicate Bounded(a: Links, sub: seq<set<int>>, top: int, c: int, k: int)
    requires Sized(a)
  {
    forall j :: j in Under(sub, top) && 0 <= j < |a.key| ==>
      (c in Under(sub, a.left[j]) ==> k < a.key[j]) && (c in Under(sub, a.right[j]) ==> a.key[j] < k)
  }

  /** Key k may hang below c with equal keys going right, as the
      red-black insert places them: every node of top's subtree that has c
      on its left holds a key above k, every one that has c on its right a
      key no greater than k. */
  ghost predicate Fits(a: Links, sub: seq<set<int>>, top: int, c: int, k: int)
    requires Sized(a)
  {
    forall j :: j in Under(sub, top) && 0 <= j < |a.key| ==>
      (c in Under(sub, a.left[j]) ==> k < a.key[j]) && (c in Under(sub, a.right[j]) ==> a.key[j] <= k)
  }

  lemma BoundedFits(a: Links, sub: seq<set<int>>, top: int, c: int, k: int)
    requires Sized(a) && Bounded(a, sub, top, c, k)
    ensures Fits(a, sub, top, c, k)
  {
  }

  /** No node of a subtree has the subtree's root below it. */
  lemma TopBounded(a: Links, sub: seq<set<int>>, nil: int, top: int, k: int)
    requires Valid(a, sub, nil) && top in Nodes(a, sub)
    ensures Bounded(a, sub, top, top, k)
  {
    forall j | j in Under(sub, top) && 0 <= j < |a.key|
      ensures top !in Under(sub, a.left[j]) && top !in Under(sub, a.right[j])
    {
      SubClosed(a, sub, nil, top, j);
      assert Local(a, sub, nil, j);
      var l, r := a.left[j], a.right[j];
      if top in Under(sub, l) {
        SubClosed(a, sub, nil, l, top);
        assert false;
      }
      if top in Under(sub, r) {
        SubClosed(a, sub, nil, r, top);
        assert false;
      }
    }
  }

  /** Stepping from p to the child on k's side keeps k bounded. */
  lemma StepBounded(a: Links, sub: seq<set<int>>, nil: int, top: int, p: int, c: int, k: int)
    requires Valid(a, sub, nil) && top in Nodes(a, sub) && p in Under(sub, top)
    requires Bounded(a, sub, top, p, k)
    requires (c == a.left[p] && k < a.key[p]) || (c == a.right[p] && a.key[p] < k)
    ensures Bounded(a, sub, top, c, k)
  {
    SubClosed(a, sub, nil, top, p);
    assert Local(a, sub, nil, p);
    forall j | j in Under(sub, top) && 0 <= j < |a.key|
      ensures (c in Under(sub, a.left[j]) ==> k < a.key[j]) && (c in Under(sub, a.right[j]) ==> a.key[j] < k)
    {
      SubClosed(a, sub, nil, top, j);
      assert Local(a, sub, nil, j);
      if c in Under(sub, a.left[j]) && j != p {
        assert c != a.left[j];
        ParentInSub(a, sub, nil, a.left[j], c);
      }
      if c in Under(sub, a.right[j]) && j != p {
        assert c != a.right[j];
        ParentInSub(a, sub, nil, a.right[j], c);
      }
    }
  }

  /** Stepping from p to the child on k's side, equal keys going right,
      keeps k fitting. */
  lemma StepFits(a: Links, sub: seq<set<int>>, nil: int, top: int, p: int, c: int, k: int)
    requires Valid(a, sub, nil) && top in Nodes(a, sub) && p in Under(sub, top)
    requires Fits(a, sub, top, p, k)
    requires (c == a.left[p] && k < a.key[p]) || (c == a.right[p] && a.key[p] <= k)
    ensures Fits(a, sub, top, c, k)
  {
    SubClosed(a, sub, nil, top, p);
    assert Local(a, sub, nil, p);
    forall j | j in Under(sub, top) && 0 <= j < |a.key|
      ensures (c in Under(sub, a.left[j]) ==> k < a.key[j]) && (c in Under(sub, a.right[j]) ==> a.key[j] <= k)
    {
      SubClosed(a, sub, nil, top, j);
      assert Local(a, sub, nil, j);
      if c in Under(sub, a.left[j]) && j != p {
        assert c != a.left[j];
        ParentInSub(a, sub, nil, a.left[j], c);
      }
      if c in Under(sub, a.right[j]) && j != p {
        assert c != a.right[j];
        ParentInSub(a, sub, nil, a.right[j], c);
      }
    }
  }

  /** The state of BSTNodeSearch between steps: every node holding k lies
      below the cursor c; pre, when set, is the node c was reached from,
      on k's side of it, and k is bounded at both. */
  ghost predicate Searching(a: Links, sub: seq<set<int>>, nil: int, node: int, k: int, c: int, pre: int)
    requires Valid(a, sub, nil) && (node == -1 || node == nil || node in Nodes(a, sub))
  {
    (c == -1 || c == nil || (c in Nodes(a, sub) && c in Under(sub, node) && sub[c] <= Under(sub, node) && Bounded(a, sub, node, c, k))) &&
    (forall j :: j in Under(sub, node) && a.key[j] == k ==> j in Under(sub, c)) &&
    (pre == -1 ==> c == node) &&
    (pre != -1 ==> pre in Under(sub, node) && a.key[pre] != k && Bounded(a, sub, node, pre, k)) &&
    (pre != -1 ==> c == (if k < a.key[pre] then a.left[pre] else a.right[pre]))
  }

  lemma SearchStart(a: Links, sub: seq<set<int>>, nil: int, node: int, k: int)
    requires Valid(a, sub, nil) && (node == -1 || node == nil || node in Nodes(a, sub))
    ensures Searching(a, sub, nil, node, k, node, -1)
  {
    if node != -1 && node != nil {
      assert Local(a, sub, nil, node);
      TopBounded(a, sub, nil, node, k);
    }
  }

  lemma SearchStep(a: Links, sub: seq<set<int>>, nil: int, node: int, k: int, c: int, pre: int)
    requires Valid(a, sub, nil) && (node == -1 || node == nil || node in Nodes(a, sub))
    requires Searching(a, sub, nil, node, k, c, pre) && c != -1 && c != nil && a.key[c] != k
    ensures var d := if k < a.key[c] then a.left[c] else a.right[c];
      Searching(a, sub, nil, node, k, d, c) && |Under(sub, d)| < |Under(sub, c)|
  {
    assert Local(a, sub, nil, c);
    Shrinks(a, sub, nil, c);
    var d := if k < a.key[c] then a.left[c] else a.right[c];
    if d != -1 && d != nil {
      StepBounded(a, sub, nil, node, c, d, k);
    }
  }

  /** BSTNodeSearch: walks down from node, left when k is below the node's
      key and right otherwise, until a node holds k or the walk falls off
      the tree. Returns that node (or the absent child it fell onto) and
      the last node it left, -1 when it never moved. */
  method NodeSearch(a: Links, ghost sub: seq<set<int>>, nil: int, node: int, k: int) returns (c: int, pre: int)
    requires Valid(a, sub, nil) && (node == -1 || node == nil || node in Nodes(a, sub))
    ensures c != -1 && c != nil ==> c in Under(sub, node) && a.key[c] == k
    ensures forall j :: j in Under(sub, node) && a.key[j] == k ==> j in Under(sub, c)
    ensures pre == -1 ==> c == node
    ensures pre != -1 ==> pre in Under(sub, node) && a.key[pre] != k && Bounded(a, sub, node, pre, k)
    ensures pre != -1 ==> c == (if k < a.key[pre] then a.left[pre] else a.right[pre])
  {
    c, pre := node, -1;
    SearchStart(a, sub, nil, node, k);
    while c != -1 && c != nil && a.key[c] != k
      invariant Searching(a, sub, nil, node, k, c, pre)
      decreases |Under(sub, c)|
    {
      SearchStep(a, sub, nil, node, k, c, pre);
      pre := c;
      if k < a.key[c] {
        c := a.left[c];
      } else {
        c := a.right[c];
      }
    }
  }

  /** A subset is no larger than its superset. */
  lemma SubsetCard(x: set<int>, y: set<int>)
    requires x <= y
    ensures |x| <= |y|
  {
    assert y == x + (y - x);
  }

  /** The key range of a subtree is an interval of the whole tree's keys:
      every node outside it has a key at or below all of its keys, or at or
      above all of them. */
  lemma {:induction false} Interval(a: Links, sub: seq<set<int>>, nil: int, p: int, k: int)
    requires Valid(a, sub, nil) && p in Nodes(a, sub) && k in Nodes(a, sub) && k !in sub[p]
    ensures (forall m :: m in sub[p] ==> a.key[k] <= a.key[m]) || (forall m :: m in sub[p] ==> a.key[m] <= a.key[k])
    decreases |Nodes(a, sub)| - |sub[p]|
  {
    SubsetCard(sub[p], Nodes(a, sub));
    ParentLink(a, sub, nil, p);
    var q := a.parent[p];
    assert Local(a, sub, nil, q);
    Shrinks(a, sub, nil, q);
    SubsetCard(sub[q], Nodes(a, sub));
    if k !in sub[q] {
      Interval(a, sub, nil, q, k);
    }
  }

  /** m lies on the way down the left spine of x's subtree: no key of the
      subtree outside m's own is below m's key. */
  ghost predicate LeftSpine(a: Links, sub: seq<set<int>>, nil: int, x: int, m: int)
    requires Valid(a, sub, nil) && x in Nodes(a, sub)
  {
    m in Nodes(a, sub) && sub[m] <= sub[x] &&
    forall k :: k in sub[x] && k !in sub[m] ==> a.key[m] <= a.key[k]
  }

  /** The mirror image of LeftSpine. */
  ghost predicate RightSpine(a: Links, sub: seq<set<int>>, nil: int, x: int, m: int)
    requires Valid(a, sub, nil) && x in Nodes(a, sub)
  {
    m in Nodes(a, sub) && sub[m] <= sub[x] &&
    forall k :: k in sub[x] && k !in sub[m] ==> a.key[k] <= a.key[m]
  }

  lemma LeftSpineStep(a: Links, sub: seq<set<int>>, nil: int, x: int, m: int)
    requires Valid(a, sub, nil) && x in Nodes(a, sub) && LeftSpine(a, sub, nil, x, m) && a.left[m] != -1 && a.left[m] != nil
    ensures LeftSpine(a, sub, nil, x, a.left[m]) && |sub[a.left[m]]| < |sub[m]|
  {
    assert Local(a, sub, nil, m);
    Shrinks(a, sub, nil, m);
  }

  lemma LeftSpineEnd(a: Links, sub: seq<set<int>>, nil: int, x: int, m: int)
    requires Valid(a, sub, nil) && x in Nodes(a, sub) && LeftSpine(a, sub, nil, x, m) && (a.left[m] == -1 || a.left[m] == nil)
    ensures m in sub[x] && forall k :: k in sub[x] ==> a.key[m] <= a.key[k]
  {
    assert Local(a, sub, nil, m);
  }

  lemma RightSpineStep(a: Links, sub: seq<set<int>>, nil: int, x: int, m: int)
    requires Valid(a, sub, nil) && x in Nodes(a, sub) && RightSpine(a, sub, nil, x, m) && a.right[m] != -1 && a.right[m] != nil
    ensures RightSpine(a, sub, nil, x, a.right[m]) && |sub[a.right[m]]| < |sub[m]|
  {
    assert Local(a, sub, nil, m);
    Shrinks(a, sub, nil, m);
  }

  lemma RightSpineEnd(a: Links, sub: seq<set<int>>, nil: int, x: int, m: int)
    requires Valid(a, sub, nil) && x in Nodes(a, sub) && RightSpine(a, sub, nil, x, m) && (a.right[m] == -1 || a.right[m] == nil)
    ensures m in sub[x] && forall k :: k in sub[x] ==> a.key[k] <= a.key[m]
  {
    assert Local(a, sub, nil, m);
  }

  /** Minimum: follows left children from x as far as they go; the node
      reached holds the least key of x's subtree. */
  method Minimum(a: Links, ghost sub: seq<set<int>>, nil: int, x: int) returns (m: int)
    requires Valid(a, sub, nil) && x in Nodes(a, sub)
    ensures m in sub[x] && 0 <= m < |a.key| && (a.left[m] == -1 || a.left[m] == nil)
    ensures forall k :: k in sub[x] ==> a.key[m] <= a.key[k]
    ensures Listed(a, sub, nil, x) != [] && Listed(a, sub, nil, x)[0] == m
  {
    m := x;
    ListedDescend(a, sub, nil, x, false);
    while a.left[m] != -1 && a.left[m] != nil
      invariant LeftSpine(a, sub, nil, x, m)
      invariant Listed(a, sub, nil, x) != [] && Listed(a, sub, nil, m) != []
      invariant Listed(a, sub, nil, x)[0] == Listed(a, sub, nil, m)[0]
      decreases |sub[m]|
    {
      LeftSpineStep(a, sub, nil, x, m);
      ListedDescend(a, sub, nil, m, false);
      m := a.left[m];
    }
    LeftSpineEnd(a, sub, nil, x, m);
    ListedStart(a, sub, nil, m, false);
  }

  /** Maximum: follows right children from x as far as they go; the node
      reached holds the greatest key of x's subtree. */
  method Maximum(a: Links, ghost sub: seq<set<int>>, nil: int, x: int) returns (m: int)
    requires Valid(a, sub, nil) && x in Nodes(a, sub)
    ensures m in sub[x] && 0 <= m < |a.key| && (a.right[m] == -1 || a.right[m] == nil)
    ensures forall k :: k in sub[x] ==> a.key[k] <= a.key[m]
    ensures Listed(a, sub, nil, x) != [] && Last(Listed(a, sub, nil, x)) == m
  {
    m := x;
    ListedDescend(a, sub, nil, x, true);
    while a.right[m] != -1 && a.right[m] != nil
      invariant RightSpine(a, sub, nil, x, m)
      invariant Listed(a, sub, nil, x) != [] && Listed(a, sub, nil, m) != []
      invariant Last(Listed(a, sub, nil, x)) == Last(Listed(a, sub, nil, m))
      decreases |sub[m]|
    {
      RightSpineStep(a, sub, nil, x, m);
      ListedDescend(a, sub, nil, m, true);
      m := a.right[m];
    }
    RightSpineEnd(a, sub, nil, x, m);
    ListedStart(a, sub, nil, m, true);
  }

  /** s follows x in key order: `nil` when no other node's key exceeds x's,
      otherwise a node whose key is at least x's with no other node's key
      strictly between the two. */
  ghost predicate Follows(a: Links, sub: seq<set<int>>, nil: int, x: int, s: int)
    requires Valid(a, sub, nil) && x in Nodes(a, sub)
  {
    (s == nil || (s in Nodes(a, sub) && s != x && a.key[x] <= a.key[s])) &&
    (s == nil ==> forall k :: k in Nodes(a, sub) ==> a.key[k] <= a.key[x]) &&
    (s != nil ==> forall k :: k in Nodes(a, sub) && k != x && k != s ==> a.key[k] <= a.key[x] || a.key[s] <= a.key[k])
  }

  /** s precedes x in key order: the mirror image of Follows. */
  ghost predicate Precedes(a: Links, sub: seq<set<int>>, nil: int, x: int, s: int)
    requires Valid(a, sub, nil) && x in Nodes(a, sub)
  {
    (s == nil || (s in Nodes(a, sub) && s != x && a.key[s] <= a.key[x])) &&
    (s == nil ==> forall k :: k in Nodes(a, sub) ==> a.key[x] <= a.key[k]) &&
    (s != nil ==> forall k :: k in Nodes(a, sub) && k != x && k != s ==> a.key[x] <= a.key[k] || a.key[k] <= a.key[s])
  }

  /** The least node of x's right subtree follows x. */
  lemma FollowsFromRight(a: Links, sub: seq<set<int>>, nil: int, x: int, s: int)
    requires Valid(a, sub, nil) && x in Nodes(a, sub) && a.right[x] in Nodes(a, sub)
    requires s in sub[a.right[x]] && forall k :: k in sub[a.right[x]] ==> a.key[s] <= a.key[k]
    ensures Follows(a, sub, nil, x, s)
  {
    assert Local(a, sub, nil, x);
    forall k | k in Nodes(a, sub) && k != x && k != s
      ensures a.key[k] <= a.key[x] || a.key[s] <= a.key[k]
    {
      if k !in sub[x] {
        Interval(a, sub, nil, x, k);
      }
    }
  }

  /** The greatest node of x's left subtree precedes x. */
  lemma PrecedesFromLeft(a: Links, sub: seq<set<int>>, nil: int, x: int, s: int)
    requires Valid(a, sub, nil) && x in Nodes(a, sub) && a.left[x] in Nodes(a, sub)
    requires s in sub[a.left[x]] && forall k :: k in sub[a.left[x]] ==> a.key[k] <= a.key[s]
    ensures Precedes(a, sub, nil, x, s)
  {
    assert Local(a, sub, nil, x);
    forall k | k in Nodes(a, sub) && k != x && k != s
      ensures a.key[x] <= a.key[k] || a.key[k] <= a.key[s]
    {
      if k !in sub[x] {
        Interval(a, sub, nil, x, k);
      }
    }
  }

  /** x holds the greatest key of node's subtree (climbing towards the
      successor), or the least (climbing towards the predecessor). */
  ghost predicate TopOf(a: Links, sub: seq<set<int>>, nil: int, x: int, node: int, greatest: bool)
    requires Valid(a, sub, nil)
  {
    node in Nodes(a, sub) && x in sub[node] &&
    (a.parent[node] == nil || (0 <= a.parent[node] < |a.key| && a.parent[node] in Nodes(a, sub))) &&
    (greatest ==> forall k :: k in sub[node] ==> a.key[k] <= a.key[x]) &&
    (!greatest ==> forall k :: k in sub[node] ==> a.key[x] <= a.key[k])
  }

  lemma ClimbStart(a: Links, sub: seq<set<int>>, nil: int, x: int, greatest: bool)
    requires Valid(a, sub, nil) && x in Nodes(a, sub)
    requires greatest ==> a.right[x] == -1 || a.right[x] == nil
    requires !greatest ==> a.left[x] == -1 || a.left[x] == nil
    ensures TopOf(a, sub, nil, x, x, greatest)
  {
    assert Local(a, sub, nil, x);
    if x != a.root {
      ParentLink(a, sub, nil, x);
    }
  }

  /** Climbing from a right child (for the successor) or a left child (for
      the predecessor) keeps x extreme in the larger subtree. */
  lemma ClimbStep(a: Links, sub: seq<set<int>>, nil: int, x: int, node: int, greatest: bool)
    requires Valid(a, sub, nil) && TopOf(a, sub, nil, x, node, greatest)
    requires a.parent[node] != -1 && a.parent[node] != nil
    requires node == (if greatest then a.right[a.parent[node]] else a.left[a.parent[node]])
    ensures TopOf(a, sub, nil, x, a.parent[node], greatest)
    ensures |sub[node]| < |sub[a.parent[node]]| <= |Nodes(a, sub)|
  {
    if node == a.root {
      assert false;
    }
    ParentLink(a, sub, nil, node);
    var s := a.parent[node];
    assert Local(a, sub, nil, s);
    Shrinks(a, sub, nil, s);
    SubsetCard(sub[s], Nodes(a, sub));
    if s != a.root {
      ParentLink(a, sub, nil, s);
    }
  }

  /** Where the successor climb stops, its parent pointer follows x. */
  lemma ClimbEndFollows(a: Links, sub: seq<set<int>>, nil: int, x: int, node: int)
    requires Valid(a, sub, nil) && TopOf(a, sub, nil, x, node, true) && x in Nodes(a, sub)
    requires a.parent[node] == -1 || a.parent[node] == nil || node != a.right[a.parent[node]]
    ensures Follows(a, sub, nil, x, a.parent[node])
  {
    if node != a.root {
      ParentLink(a, sub, nil, node);
      var s := a.parent[node];
      assert Local(a, sub, nil, s);
      forall k | k in Nodes(a, sub) && k != x && k != s
        ensures a.key[k] <= a.key[x] || a.key[s] <= a.key[k]
      {
        if k !in sub[s] {
          Interval(a, sub, nil, s, k);
        }
      }
    }
  }

  /** Where the predecessor climb stops, its parent pointer precedes x. */
  lemma ClimbEndPrecedes(a: Links, sub: seq<set<int>>, nil: int, x: int, node: int)
    requires Valid(a, sub, nil) && TopOf(a, sub, nil, x, node, false) && x in Nodes(a, sub)
    requires a.parent[node] == -1 || a.parent[node] == nil || node != a.left[a.parent[node]]
    ensures Precedes(a, sub, nil, x, a.parent[node])
  {
    if node != a.root {
      ParentLink(a, sub, nil, node);
      var s := a.parent[node];
      assert Local(a, sub, nil, s);
      forall k | k in Nodes(a, sub) && k != x && k != s
        ensures a.key[x] <= a.key[k] || a.key[k] <= a.key[s]
      {
        if k !in sub[s] {
          Interval(a, sub, nil, s, k);
        }
      }
    }
  }

  /** Successor: the minimum of the right subtree when there is one, else
      the first ancestor reached from a left child; `nil` past the last node. */
  method Successor(a: Links, ghost sub: seq<set<int>>, nil: int, x: int) returns (s: int)
    requires Valid(a, sub, nil) && x in Nodes(a, sub)
    ensures NextOf(Listed(a, sub, nil, a.root), x, s, nil)
    ensures Follows(a, sub, nil, x, s)
  {
    if a.right[x] != -1 && a.right[x] != nil {
      assert Local(a, sub, nil, x);
      s := Minimum(a, sub, nil, a.right[x]);
      FollowsFromRight(a, sub, nil, x, s);
      RightNext(a, sub, nil, x, s);
      return;
    }
    ClimbStart(a, sub, nil, x, true);
    ListedStart(a, sub, nil, x, true);
    var node := x;
    s := a.parent[node];
    while s != -1 && s != nil && node == a.right[s]
      invariant TopOf(a, sub, nil, x, node, true) && s == a.parent[node]
      invariant Listed(a, sub, nil, node) != [] && Last(Listed(a, sub, nil, node)) == x
      decreases |Nodes(a, sub)| - |sub[node]|
    {
      ClimbStep(a, sub, nil, x, node, true);
      ListedClimb(a, sub, nil, x, node, true);
      node := s;
      s := a.parent[node];
    }
    ClimbEndFollows(a, sub, nil, x, node);
    ClimbEndNext(a, sub, nil, x, node);
  }

  /** Predecessor: the mirror image of Successor. */
  method Predecessor(a: Links, ghost sub: seq<set<int>>, nil: int, x: int) returns (s: int)
    requires Valid(a, sub, nil) && x in Nodes(a, sub)
    ensures PrevOf(Listed(a, sub, nil, a.root), x, s, nil)
    ensures Precedes(a, sub, nil, x, s)
  {
    if a.left[x] != -1 && a.left[x] != nil {
      assert Local(a, sub, nil, x);
      s := Maximum(a, sub, nil, a.left[x]);
      PrecedesFromLeft(a, sub, nil, x, s);
      LeftPrev(a, sub, nil, x, s);
      return;
    }
    ClimbStart(a, sub, nil, x, false);
    ListedStart(a, sub, nil, x, false);
    var node := x;
    s := a.parent[node];
    while s != -1 && s != nil && node == a.left[s]
      invariant TopOf(a, sub, nil, x, node, false) && s == a.parent[node]
      invariant Listed(a, sub, nil, node) != [] && Listed(a, sub, nil, node)[0] == x
      decreases |Nodes(a, sub)| - |sub[node]|
    {
      ClimbStep(a, sub, nil, x, node, false);
      ListedClimb(a, sub, nil, x, node, false);
      node := s;
      s := a.parent[node];
    }
    ClimbEndPrecedes(a, sub, nil, x, node);
    ClimbEndPrev(a, sub, nil, x, node);
  }

  /** The last element of a non-empty list. */
  function Last(t: seq<int>): int
    requires t != []
  {
    t[|t| - 1]
  }

  /** The callback of a walk that visits every node. */
  function Never(i: int): bool
  {
    false
  }

  /** The nodes of i's subtree in the order a full walk reaches them, the
      sentinel left out. */
  ghost function Listed(a: Links, sub: seq<set<int>>, nil: int, i: int): seq<int>
    requires Valid(a, sub, nil) && (i == -1 || i == nil || i in Nodes(a, sub))
  {
    Strip(Visits(a, sub, nil, i, Never), nil)
  }

  /** An absent child lists nothing. */
  lemma ListedEmpty(a: Links, sub: seq<set<int>>, nil: int, i: int)
    requires Valid(a, sub, nil) && (i == -1 || i == nil)
    ensures Listed(a, sub, nil, i) == []
  {
    if i != -1 {
      assert Visits(a, sub, nil, i, Never) == [] + [i] + [];
      StripJoin([], i, [], nil);
    }
  }

  /** A node's list is its left subtree's, then itself, then its right
      subtree's. */
  lemma ListedSplit(a: Links, sub: seq<set<int>>, nil: int, i: int)
    requires Valid(a, sub, nil) && i in Nodes(a, sub)
    ensures a.left[i] == -1 || a.left[i] == nil || a.left[i] in Nodes(a, sub)
    ensures a.right[i] == -1 || a.right[i] == nil || a.right[i] in Nodes(a, sub)
    ensures Listed(a, sub, nil, i) == Listed(a, sub, nil, a.left[i]) + [i] + Listed(a, sub, nil, a.right[i])
  {
    Walkable(a, sub, nil, i);
    var vl, vr := Visits(a, sub, nil, a.left[i], Never), Visits(a, sub, nil, a.right[i], Never);
    assert Visits(a, sub, nil, i, Never) == vl + [i] + vr;
    StripJoin(vl, i, vr, nil);
  }

  /** The list of a subtree is a contiguous stretch of the list of any
      subtree holding it. */
  lemma {:induction false} ListedSegment(a: Links, sub: seq<set<int>>, nil: int, i: int, j: int) returns (before: seq<int>, after: seq<int>)
    requires Valid(a, sub, nil) && i in Nodes(a, sub) && j in sub[i]
    ensures j in Nodes(a, sub)
    ensures Listed(a, sub, nil, i) == before + Listed(a, sub, nil, j) + after
    decreases |sub[i]|
  {
    SubClosed(a, sub, nil, i, j);
    if j == i {
      before, after := [], [];
    } else {
      DescendTo(a, sub, nil, i, j);
      ListedSplit(a, sub, nil, i);
      var l, r := a.left[i], a.right[i];
      if l in Nodes(a, sub) && j in sub[l] && |sub[l]| < |sub[i]| {
        var b, c := ListedSegment(a, sub, nil, l, j);
        before, after := b, c + [i] + Listed(a, sub, nil, r);
      } else {
        var b, c := ListedSegment(a, sub, nil, r, j);
        before, after := Listed(a, sub, nil, l) + [i] + b, c;
      }
    }
  }

  /** A node of i's subtree other than i lies in the subtree of one of
      i's children, which is smaller. */
  lemma DescendTo(a: Links, sub: seq<set<int>>, nil: int, i: int, j: int)
    requires Valid(a, sub, nil) && i in Nodes(a, sub) && j in sub[i] && j != i
    ensures (a.left[i] in Nodes(a, sub) && j in sub[a.left[i]] && |sub[a.left[i]]| < |sub[i]|) ||
      (a.right[i] in Nodes(a, sub) && j in sub[a.right[i]] && |sub[a.right[i]]| < |sub[i]|)
  {
    assert Local(a, sub, nil, i);
    Shrinks(a, sub, nil, i);
  }

  /** Every node a subtree's list names belongs to that subtree. */
  lemma ListedWithin(a: Links, sub: seq<set<int>>, nil: int, i: int)
    requires Valid(a, sub, nil) && (i == -1 || i == nil || i in Nodes(a, sub))
    ensures forall v :: v in Listed(a, sub, nil, i) ==> v in Under(sub, i) && 0 <= v < |a.key|
  {
    WalkWithin(a, sub, nil, i, Never);
  }

  /** x comes in t after every node keyed at most k and before every node
      keyed above k: where insert places a key that equals existing ones. */
  ghost predicate Placed(t: seq<int>, key: seq<int>, x: int, k: int)
  {
    x in t && (forall q :: 0 <= q < |t| ==> 0 <= t[q] < |key|) &&
    forall p, q :: 0 <= p < |t| && 0 <= q < |t| && t[p] == x ==>
      (q < p ==> key[t[q]] <= k) && (p < q ==> k < key[t[q]])
  }

  /** Placed survives putting a larger node and larger keys after t. */
  lemma PlacedBefore(t: seq<int>, i: int, u: seq<int>, key: seq<int>, x: int, k: int)
    requires Placed(t, key, x, k) && x != i && x !in u && 0 <= i < |key| && k < key[i]
    requires forall v :: v in u ==> 0 <= v < |key| && k < key[v]
    ensures Placed(t + [i] + u, key, x, k)
  {
    var w := t + [i] + u;
    forall q | 0 <= q < |w|
      ensures 0 <= w[q] < |key|
    {
      if q > |t| {
        assert w[q] in u;
      }
    }
    forall p, q | 0 <= p < |w| && 0 <= q < |w| && w[p] == x
      ensures (q < p ==> key[w[q]] <= k) && (p < q ==> k < key[w[q]])
    {
      assert w[p] !in [i] + u;
      if q > |t| {
        assert w[q] in u;
      }
    }
  }

  /** Placed survives putting a smaller node and smaller keys before t. */
  lemma PlacedAfter(u: seq<int>, i: int, t: seq<int>, key: seq<int>, x: int, k: int)
    requires Placed(t, key, x, k) && x != i && x !in u && 0 <= i < |key| && key[i] <= k
    requires forall v :: v in u ==> 0 <= v < |key| && key[v] <= k
    ensures Placed(u + [i] + t, key, x, k)
  {
    var w := u + [i] + t;
    var n := |u| + 1;
    forall q | 0 <= q < |w|
      ensures 0 <= w[q] < |key|
    {
      if q < |u| {
        assert w[q] in u;
      } else if q > |u| {
        assert w[q] == t[q - n];
      }
    }
    forall p, q | 0 <= p < |w| && 0 <= q < |w| && w[p] == x
      ensures (q < p ==> key[w[q]] <= k) && (p < q ==> k < key[w[q]])
    {
      assert w[p] !in u + [i];
      assert w[p] == t[p - n];
      if q < |u| {
        assert w[q] in u;
      } else if q > |u| {
        assert w[q] == t[q - n];
      }
    }
  }

  /** When every node above a childless x sends k to x's side (left exactly
      when k is below the node's key), x's place in the list of any subtree
      holding it is after every key at most k and before every greater
      key. */
  lemma {:induction false} ListedPlace(a: Links, sub: seq<set<int>>, nil: int, i: int, x: int, k: int)
    requires Valid(a, sub, nil) && i in Nodes(a, sub) && x in sub[i]
    requires (a.left[x] == -1 || a.left[x] == nil) && (a.right[x] == -1 || a.right[x] == nil)
    requires Fits(a, sub, i, x, k)
    ensures Placed(Listed(a, sub, nil, i), a.key, x, k)
    decreases |sub[i]|
  {
    ListedSplit(a, sub, nil, i);
    assert Local(a, sub, nil, i);
    Shrinks(a, sub, nil, i);
    var l, r := a.left[i], a.right[i];
    ListedWithin(a, sub, nil, l);
    ListedWithin(a, sub, nil, r);
    if i == x {
      ListedEmpty(a, sub, nil, l);
      ListedEmpty(a, sub, nil, r);
      assert Listed(a, sub, nil, i) == [x];
    } else if x in Under(sub, l) {
      ListedPlace(a, sub, nil, l, x, k);
      PlacedBefore(Listed(a, sub, nil, l), i, Listed(a, sub, nil, r), a.key, x, k);
    } else {
      ListedPlace(a, sub, nil, r, x, k);
      PlacedAfter(Listed(a, sub, nil, l), i, Listed(a, sub, nil, r), a.key, x, k);
    }
  }

  /** The whole tree's list names each node once. */
  lemma ListedDistinct(a: Links, sub: seq<set<int>>, nil: int)
    requires Valid(a, sub, nil)
    ensures NoRepeats(Listed(a, sub, nil, a.root))
  {
    WalkInOrder(a, sub, nil, a.root, Never);
  }

  predicate NoRepeats(t: seq<int>)
  {
    forall p, q :: 0 <= p < q < |t| ==> t[p] != t[q]
  }

  /** s comes right after x in t, or is `nil` when x comes last. */
  ghost predicate NextOf(t: seq<int>, x: int, s: int, nil: int)
  {
    x in t && forall p :: 0 <= p < |t| && t[p] == x ==> s == (if p + 1 < |t| then t[p + 1] else nil)
  }

  /** s comes right before x in t, or is `nil` when x comes first. */
  ghost predicate PrevOf(t: seq<int>, x: int, s: int, nil: int)
  {
    x in t && forall p :: 0 <= p < |t| && t[p] == x ==> s == (if p > 0 then t[p - 1] else nil)
  }

  /** Two neighbours of a stretch of a list without repeats are neighbours
      in the list. */
  lemma Consecutive(t: seq<int>, before: seq<int>, m: seq<int>, after: seq<int>, q: int, nil: int)
    requires t == before + m + after && NoRepeats(t) && 0 <= q && q + 1 < |m|
    ensures NextOf(t, m[q], m[q + 1], nil) && PrevOf(t, m[q + 1], m[q], nil)
  {
    var k := |before| + q;
    assert t[k] == m[q] && t[k + 1] == m[q + 1];
  }

  /** In a list without repeats the last element has nothing after it and
      the first nothing before it. */
  lemma Ends(t: seq<int>, nil: int)
    requires t != [] && NoRepeats(t)
    ensures NextOf(t, Last(t), nil, nil) && PrevOf(t, t[0], nil, nil)
  {
  }

  /** The first node of x's right subtree comes right after x. */
  lemma RightNext(a: Links, sub: seq<set<int>>, nil: int, x: int, s: int)
    requires Valid(a, sub, nil) && x in Nodes(a, sub) && a.right[x] in Nodes(a, sub)
    requires Listed(a, sub, nil, a.right[x]) != [] && Listed(a, sub, nil, a.right[x])[0] == s
    ensures NextOf(Listed(a, sub, nil, a.root), x, s, nil)
  {
    ListedDistinct(a, sub, nil);
    var before, after := ListedSegment(a, sub, nil, a.root, x);
    ListedSplit(a, sub, nil, x);
    var l := Listed(a, sub, nil, a.left[x]);
    var m := Listed(a, sub, nil, x);
    assert m[|l|] == x && m[|l| + 1] == s;
    Consecutive(Listed(a, sub, nil, a.root), before, m, after, |l|, nil);
  }

  /** The last node of x's left subtree comes right before x. */
  lemma LeftPrev(a: Links, sub: seq<set<int>>, nil: int, x: int, s: int)
    requires Valid(a, sub, nil) && x in Nodes(a, sub) && a.left[x] in Nodes(a, sub)
    requires Listed(a, sub, nil, a.left[x]) != [] && Last(Listed(a, sub, nil, a.left[x])) == s
    ensures PrevOf(Listed(a, sub, nil, a.root), x, s, nil)
  {
    ListedDistinct(a, sub, nil);
    var before, after := ListedSegment(a, sub, nil, a.root, x);
    ListedSplit(a, sub, nil, x);
    var l := Listed(a, sub, nil, a.left[x]);
    var m := Listed(a, sub, nil, x);
    assert m[|l| - 1] == s && m[|l|] == x;
    Consecutive(Listed(a, sub, nil, a.root), before, m, after, |l| - 1, nil);
  }

  /** A node's list is not empty; it starts where its left child's list
      starts, and ends where its right child's list ends, when those
      children are there. */
  lemma ListedDescend(a: Links, sub: seq<set<int>>, nil: int, m: int, greatest: bool)
    requires Valid(a, sub, nil) && m in Nodes(a, sub)
    ensures Listed(a, sub, nil, m) != []
    ensures !greatest && a.left[m] in Nodes(a, sub) ==>
      Listed(a, sub, nil, a.left[m]) != [] && Listed(a, sub, nil, m)[0] == Listed(a, sub, nil, a.left[m])[0]
    ensures greatest && a.right[m] in Nodes(a, sub) ==>
      Listed(a, sub, nil, a.right[m]) != [] && Last(Listed(a, sub, nil, m)) == Last(Listed(a, sub, nil, a.right[m]))
  {
    ListedSplit(a, sub, nil, m);
    if !greatest && a.left[m] in Nodes(a, sub) {
      ListedSplit(a, sub, nil, a.left[m]);
    }
    if greatest && a.right[m] in Nodes(a, sub) {
      ListedSplit(a, sub, nil, a.right[m]);
    }
  }

  /** Climbing from a right child keeps x last in the larger subtree's
      list; climbing from a left child keeps it first. */
  lemma ListedClimb(a: Links, sub: seq<set<int>>, nil: int, x: int, node: int, greatest: bool)
    requires Valid(a, sub, nil) && node in Nodes(a, sub) && a.parent[node] in Nodes(a, sub)
    requires node == (if greatest then a.right[a.parent[node]] else a.left[a.parent[node]])
    requires Listed(a, sub, nil, node) != []
    requires greatest ==> Last(Listed(a, sub, nil, node)) == x
    requires !greatest ==> Listed(a, sub, nil, node)[0] == x
    ensures Listed(a, sub, nil, a.parent[node]) != []
    ensures greatest ==> Last(Listed(a, sub, nil, a.parent[node])) == x
    ensures !greatest ==> Listed(a, sub, nil, a.parent[node])[0] == x
  {
    ListedSplit(a, sub, nil, a.parent[node]);
  }

  /** A node without a right child comes last in its own list; one
      without a left child comes first. */
  lemma ListedStart(a: Links, sub: seq<set<int>>, nil: int, x: int, greatest: bool)
    requires Valid(a, sub, nil) && x in Nodes(a, sub)
    requires greatest ==> a.right[x] == -1 || a.right[x] == nil
    requires !greatest ==> a.left[x] == -1 || a.left[x] == nil
    ensures Listed(a, sub, nil, x) != []
    ensures greatest ==> Last(Listed(a, sub, nil, x)) == x
    ensures !greatest ==> Listed(a, sub, nil, x)[0] == x
  {
    ListedSplit(a, sub, nil, x);
    if greatest {
      ListedEmpty(a, sub, nil, a.right[x]);
    } else {
      ListedEmpty(a, sub, nil, a.left[x]);
    }
  }

  /** Where the successor climb stops, x comes last in node's list, so the
      parent reached comes right after x in the tree's list, or x is the
      last node and the parent is `nil`. */
  lemma ClimbEndNext(a: Links, sub: seq<set<int>>, nil: int, x: int, node: int)
    requires Valid(a, sub, nil) && node in Nodes(a, sub)
    requires Listed(a, sub, nil, node) != [] && Last(Listed(a, sub, nil, node)) == x
    requires a.parent[node] == -1 || a.parent[node] == nil ||
      (0 <= a.parent[node] < |a.key| && node != a.right[a.parent[node]])
    ensures NextOf(Listed(a, sub, nil, a.root), x, a.parent[node], nil)
  {
    ListedDistinct(a, sub, nil);
    if node == a.root {
      Ends(Listed(a, sub, nil, a.root), nil);
    } else {
      ParentLink(a, sub, nil, node);
      var s := a.parent[node];
      var before, after := ListedSegment(a, sub, nil, a.root, s);
      ListedSplit(a, sub, nil, s);
      var n := Listed(a, sub, nil, node);
      var m := Listed(a, sub, nil, s);
      assert m[|n| - 1] == x && m[|n|] == s;
      Consecutive(Listed(a, sub, nil, a.root), before, m, after, |n| - 1, nil);
    }
  }

  /** Where the predecessor climb stops, the parent reached comes right
      before x in the tree's list, or x is the first node and the parent
      is `nil`. */
  lemma ClimbEndPrev(a: Links, sub: seq<set<int>>, nil: int, x: int, node: int)
    requires Valid(a, sub, nil) && node in Nodes(a, sub)
    requires Listed(a, sub, nil, node) != [] && Listed(a, sub, nil, node)[0] == x
    requires a.parent[node] == -1 || a.parent[node] == nil ||
      (0 <= a.parent[node] < |a.key| && node != a.left[a.parent[node]])
    ensures PrevOf(Listed(a, sub, nil, a.root), x, a.parent[node], nil)
  {
    ListedDistinct(a, sub, nil);
    if node == a.root {
      Ends(Listed(a, sub, nil, a.root), nil);
    } else {
      ParentLink(a, sub, nil, node);
      var s := a.parent[node];
      var before, after := ListedSegment(a, sub, nil, a.root, s);
      ListedSplit(a, sub, nil, s);
      var l := Listed(a, sub, nil, a.left[s]);
      var m := Listed(a, sub, nil, s);
      assert m[|l|] == s && m[|l| + 1] == x;
      Consecutive(Listed(a, sub, nil, a.root), before, m, after, |l|, nil);
    }
  }

  /** Both children of a walked node can be walked, each with a smaller
      measure: a real node's children own smaller subtrees, and the
      sentinel's children are Go's nil. */
  lemma Walkable(a: Links, sub: seq<set<int>>, nil: int, i: int)
    requires Valid(a, sub, nil) && i != -1 && (i == nil || i in Nodes(a, sub))
    ensures a.left[i] == -1 || a.left[i] == nil || a.left[i] in Nodes(a, sub)
    ensures a.right[i] == -1 || a.right[i] == nil || a.right[i] in Nodes(a, sub)
    ensures |Under(sub, a.left[i])| < |Under(sub, i)| || (a.left[i] == -1 && Under(sub, i) == {})
    ensures |Under(sub, a.right[i])| < |Under(sub, i)| || (a.right[i] == -1 && Under(sub, i) == {})
  {
    if i != nil {
      assert Local(a, sub, nil, i);
      Shrinks(a, sub, nil, i);
    }
  }

  /** BSTNodeWalk with callback `stop`: the nodes the callback is called
      on, in order. The walk follows every pointer that is not Go's nil, so
      it also calls the callback on a red-black tree's sentinel; a callback
      that answers true skips that node's right subtree only. */
  function Visits(a: Links, ghost sub: seq<set<int>>, nil: int, i: int, stop: int -> bool): seq<int>
    requires Valid(a, sub, nil) && (i == -1 || i == nil || i in Nodes(a, sub))
    decreases |Under(sub, i)|, if i == -1 then 0 else 1
  {
    if i == -1 then []
    else
      Walkable(a, sub, nil, i);
      Visits(a, sub, nil, a.left[i], stop) + [i] +
      (if stop(i) then [] else Visits(a, sub, nil, a.right[i], stop))
  }

  /** BSTNodeWalk: panics (None) without a callback. */
  function NodeWalk(a: Links, ghost sub: seq<set<int>>, nil: int, node: int, callback: Option<int -> bool>): (r: Option<seq<int>>)
    requires Valid(a, sub, nil) && (node == -1 || node == nil || node in Nodes(a, sub))
    ensures r.None? <==> callback.None?
    ensures r.Some? ==> InOrder(a, sub, node, Strip(r.value, nil)) && -1 !in r.value
    ensures r.Some? && node != -1 ==> node in r.value
  {
    if callback.None? then None
    else
      WalkInOrder(a, sub, nil, node, callback.value);
      Some(Visits(a, sub, nil, node, callback.value))
  }

  /** The elements of s other than nil, in order. */
  function Strip(s: seq<int>, nil: int): (t: seq<int>)
    ensures forall v :: v in t <==> v in s && v != nil
    ensures |t| <= |s|
  {
    if s == [] then [] else (if s[0] == nil then [] else [s[0]]) + Strip(s[1..], nil)
  }

  /** Without nil in it, a list is its own stripped form. */
  lemma {:induction false} StripNoNil(s: seq<int>, nil: int)
    requires nil !in s
    ensures Strip(s, nil) == s
  {
    if s != [] {
      StripNoNil(s[1..], nil);
    }
  }

  lemma {:induction false} StripAppend(s: seq<int>, t: seq<int>, nil: int)
    ensures Strip(s + t, nil) == Strip(s, nil) + Strip(t, nil)
  {
    if s == [] {
      assert s + t == t;
    } else {
      var h := if s[0] == nil then [] else [s[0]];
      calc {
        Strip(s + t, nil);
        { assert (s + t)[0] == s[0]; }
        h + Strip((s + t)[1..], nil);
        { assert (s + t)[1..] == s[1..] + t; StripAppend(s[1..], t, nil); }
        h + (Strip(s[1..], nil) + Strip(t, nil));
        Strip(s, nil) + Strip(t, nil);
      }
    }
  }

  /** t lists distinct nodes of i's subtree in non-decreasing key order. */
  ghost predicate InOrder(a: Links, sub: seq<set<int>>, i: int, t: seq<int>)
  {
    (forall p :: 0 <= p < |t| ==> t[p] in Under(sub, i) && 0 <= t[p] < |a.key|) &&
    (forall p, q :: 0 <= p < q < |t| ==> t[p] != t[q] && a.key[t[p]] <= a.key[t[q]])
  }

  /** Joining two in-order lists around a node gives an in-order list. */
  lemma InOrderJoin(a: Links, sub: seq<set<int>>, nil: int, i: int, tl: seq<int>, tr: seq<int>)
    requires Valid(a, sub, nil) && i in Nodes(a, sub)
    requires InOrder(a, sub, a.left[i], tl) && InOrder(a, sub, a.right[i], tr)
    ensures InOrder(a, sub, i, tl + [i] + tr)
  {
    assert Local(a, sub, nil, i);
    var t := tl + [i] + tr;
    forall p, q | 0 <= p < q < |t|
      ensures t[p] != t[q] && a.key[t[p]] <= a.key[t[q]]
    {
      if q < |tl| {
      } else if q == |tl| {
        assert t[p] == tl[p];
      } else if p < |tl| {
        assert t[p] == tl[p] && t[q] == tr[q - |tl| - 1];
      } else if p == |tl| {
        assert t[q] == tr[q - |tl| - 1];
      } else {
        assert t[p] == tr[p - |tl| - 1] && t[q] == tr[q - |tl| - 1];
      }
    }
  }

  /** The walk lists distinct nodes of the subtree in key order, never
      Go's nil, and always includes the node it starts from. */
  lemma {:induction false} WalkInOrder(a: Links, sub: seq<set<int>>, nil: int, i: int, stop: int -> bool)
    requires Valid(a, sub, nil) && (i == -1 || i == nil || i in Nodes(a, sub))
    ensures InOrder(a, sub, i, Strip(Visits(a, sub, nil, i, stop), nil))
    ensures -1 !in Visits(a, sub, nil, i, stop)
    ensures i != -1 ==> i in Visits(a, sub, nil, i, stop)
    decreases |Under(sub, i)|, if i == -1 then 0 else 1
  {
    if i != -1 {
      Walkable(a, sub, nil, i);
      var l, r := a.left[i], a.right[i];
      WalkInOrder(a, sub, nil, l, stop);
      WalkInOrder(a, sub, nil, r, stop);
      var vl, vr := Visits(a, sub, nil, l, stop), if stop(i) then [] else Visits(a, sub, nil, r, stop);
      assert Visits(a, sub, nil, i, stop) == vl + [i] + vr;
      StripJoin(vl, i, vr, nil);
      if i != nil {
        InOrderJoin(a, sub, nil, i, Strip(vl, nil), Strip(vr, nil));
      }
    }
  }

  lemma StripJoin(vl: seq<int>, i: int, vr: seq<int>, nil: int)
    ensures i != nil ==> Strip(vl + [i] + vr, nil) == Strip(vl, nil) + [i] + Strip(vr, nil)
    ensures i == nil ==> Strip(vl + [i] + vr, nil) == Strip(vl, nil) + Strip(vr, nil)
  {
    StripAppend(vl + [i], vr, nil);
    StripAppend(vl, [i], nil);
    assert [i][1..] == [];
    var h := Strip([i], nil);
    assert h == (if i == nil then [] else [i]) + Strip([], nil);
    if i == nil {
      assert Strip(vl, nil) + h == Strip(vl, nil);
    }
  }

  /** A walk whose callback never stops reaches every node of the subtree. */
  lemma {:induction false} WalkCount(a: Links, sub: seq<set<int>>, nil: int, i: int)
    requires Valid(a, sub, nil) && (i == -1 || i == nil || i in Nodes(a, sub))
    ensures |Strip(Visits(a, sub, nil, i, Never), nil)| == |Under(sub, i)|
    decreases |Under(sub, i)|, if i == -1 then 0 else 1
  {
    if i != -1 {
      Walkable(a, sub, nil, i);
      var l, r := a.left[i], a.right[i];
      WalkCount(a, sub, nil, l);
      WalkCount(a, sub, nil, r);
      var vl, vr := Visits(a, sub, nil, l, Never), Visits(a, sub, nil, r, Never);
      assert Visits(a, sub, nil, i, Never) == vl + [i] + vr;
      StripJoin(vl, i, vr, nil);
      if i != nil {
        SubtreeCard(a, sub, nil, i);
      }
    }
  }

  /** A node's subtree counts itself and its children's subtrees. */
  lemma SubtreeCard(a: Links, sub: seq<set<int>>, nil: int, i: int)
    requires Valid(a, sub, nil) && i in Nodes(a, sub)
    ensures |sub[i]| == 1 + |Under(sub, a.left[i])| + |Under(sub, a.right[i])|
  {
    assert Local(a, sub, nil, i);
    var l, r := Under(sub, a.left[i]), Under(sub, a.right[i]);
    assert l * r == {};
    assert |l + r| == |l| + |r|;
    assert {i} * (l + r) == {};
  }

  /** Some node in vs answered stop while j lies in its right subtree: the
      walk skipped j. */
  ghost predicate Skipped(a: Links, sub: seq<set<int>>, vs: seq<int>, stop: int -> bool, j: int)
    requires Sized(a)
  {
    exists v :: v in vs && 0 <= v < |a.key| && stop(v) && j in Under(sub, a.right[v])
  }

  /** How the callback's answer stops BSTNodeWalk: a node of the subtree is
      called on exactly when no node called on before it answered stop with
      it in its right subtree. */
  lemma {:induction false} WalkStops(a: Links, sub: seq<set<int>>, nil: int, i: int, stop: int -> bool, j: int)
    requires Valid(a, sub, nil) && (i == -1 || i == nil || i in Nodes(a, sub)) && j in Under(sub, i)
    ensures j in Visits(a, sub, nil, i, stop) <==> !Skipped(a, sub, Visits(a, sub, nil, i, stop), stop, j)
    decreases |Under(sub, i)|
  {
    assert i in Nodes(a, sub) && Local(a, sub, nil, i);
    Walkable(a, sub, nil, i);
    var l, r := a.left[i], a.right[i];
    var vl, vr := Visits(a, sub, nil, l, stop), if stop(i) then [] else Visits(a, sub, nil, r, stop);
    var vs := Visits(a, sub, nil, i, stop);
    assert vs == vl + [i] + vr;
    SkippedJoin(a, sub, vl, i, vr, stop, j);
    WalkWithin(a, sub, nil, l, stop);
    if !stop(i) {
      WalkWithin(a, sub, nil, r, stop);
    }
    if j == i {
      SkipWithin(a, sub, nil, l, stop, j);
      if !stop(i) {
        SkipWithin(a, sub, nil, r, stop, j);
      }
    } else if j in Under(sub, l) {
      WalkStops(a, sub, nil, l, stop, j);
      if !stop(i) {
        SkipWithin(a, sub, nil, r, stop, j);
      }
    } else {
      assert j in Under(sub, r);
      SkipWithin(a, sub, nil, l, stop, j);
      if !stop(i) {
        WalkStops(a, sub, nil, r, stop, j);
      }
    }
  }

  /** Skipped over vl + [i] + vr is Skipped over one of the three parts. */
  lemma SkippedJoin(a: Links, sub: seq<set<int>>, vl: seq<int>, i: int, vr: seq<int>, stop: int -> bool, j: int)
    requires Sized(a)
    ensures Skipped(a, sub, vl + [i] + vr, stop, j) <==>
      Skipped(a, sub, vl, stop, j) || Skipped(a, sub, [i], stop, j) || Skipped(a, sub, vr, stop, j)
  {
    if Skipped(a, sub, vl + [i] + vr, stop, j) {
      var v :| v in vl + [i] + vr && 0 <= v < |a.key| && stop(v) && j in Under(sub, a.right[v]);
      assert v in vl || v in [i] || v in vr;
    }
    if Skipped(a, sub, vl, stop, j) {
      var v :| v in vl && 0 <= v < |a.key| && stop(v) && j in Under(sub, a.right[v]);
      assert v in vl + [i] + vr;
    }
    if Skipped(a, sub, [i], stop, j) {
      assert i in vl + [i] + vr;
    }
    if Skipped(a, sub, vr, stop, j) {
      var v :| v in vr && 0 <= v < |a.key| && stop(v) && j in Under(sub, a.right[v]);
      assert v in vl + [i] + vr;
    }
  }

  /** The walk of x calls the callback on nodes of x's subtree and on the
      sentinel only. */
  lemma WalkWithin(a: Links, sub: seq<set<int>>, nil: int, x: int, stop: int -> bool)
    requires Valid(a, sub, nil) && (x == -1 || x == nil || x in Nodes(a, sub))
    ensures forall v :: v in Visits(a, sub, nil, x, stop) ==> v == nil || v in Under(sub, x)
  {
    WalkInOrder(a, sub, nil, x, stop);
    var t := Strip(Visits(a, sub, nil, x, stop), nil);
    forall v | v in Visits(a, sub, nil, x, stop) && v != nil
      ensures v in Under(sub, x)
    {
      var p :| 0 <= p < |t| && t[p] == v;
    }
  }

  /** A walk of x cannot skip a node outside x's subtree. */
  lemma SkipWithin(a: Links, sub: seq<set<int>>, nil: int, x: int, stop: int -> bool, j: int)
    requires Valid(a, sub, nil) && (x == -1 || x == nil || x in Nodes(a, sub)) && j !in Under(sub, x)
    ensures !Skipped(a, sub, Visits(a, sub, nil, x, stop), stop, j)
  {
    WalkWithin(a, sub, nil, x, stop);
    forall v | v in Visits(a, sub, nil, x, stop) && 0 <= v < |a.key|
      ensures j !in Under(sub, a.right[v])
    {
      if v == nil {
        assert a.right[v] == -1;
      } else {
        SubClosed(a, sub, nil, x, v);
        assert Local(a, sub, nil, v);
      }
    }
  }

  /** On a tree with a sentinel, the walk of any node first calls the
      callback on the sentinel, reached by going left from the start. */
  lemma {:induction false} WalkStartsAtSentinel(a: Links, sub: seq<set<int>>, nil: int, i: int, stop: int -> bool)
    requires Valid(a, sub, nil) && nil != -1 && (i == nil || i in Nodes(a, sub))
    ensures Visits(a, sub, nil, i, stop) != [] && Visits(a, sub, nil, i, stop)[0] == nil
    decreases |Under(sub, i)|
  {
    Walkable(a, sub, nil, i);
    var l := a.left[i];
    if i != nil {
      assert Local(a, sub, nil, i);
      WalkStartsAtSentinel(a, sub, nil, l, stop);
    }
  }

  /** The arena with one more node, holding k, linked to nothing. */
  function Appended(a: Links, k: int): (b: Links)
    ensures b.key == a.key + [k] && b.root == a.root
  {
    Links(a.key + [k], a.left + [-1], a.right + [-1], a.parent + [-1], a.root)
  }

  /** Appending an unlinked node keeps a tree valid, with the same nodes. */
  lemma AppendValid(a: Links, sub: seq<set<int>>, nil: int, k: int)
    requires Valid(a, sub, nil)
    ensures Sized(Appended(a, k)) && Valid(Appended(a, k), sub + [{}], nil) && Nodes(Appended(a, k), sub + [{}]) == Nodes(a, sub)
  {
    var b, s := Appended(a, k), sub + [{}];
    assert Nodes(b, s) == Nodes(a, sub);
    forall j | j in Nodes(b, s) && 0 <= j < |b.key|
      ensures Local(b, s, nil, j)
    {
      assert Local(a, sub, nil, j);
      assert Under(s, a.left[j]) == Under(sub, a.left[j]);
      assert Under(s, a.right[j]) == Under(sub, a.right[j]);
    }
  }

  /** A subtree of the tree, or nil's empty one, is no larger than the tree. */
  lemma UnderBound(a: Links, sub: seq<set<int>>, nil: int, x: int)
    requires Valid(a, sub, nil) && (x == nil || x in Nodes(a, sub))
    ensures |Under(sub, x)| <= |Nodes(a, sub)|
  {
    if x in Nodes(a, sub) {
      SubsetCard(sub[x], Nodes(a, sub));
    }
  }
}
