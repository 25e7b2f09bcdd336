/** The rotations of the red-black tree (tree/redblacktree.go, leftRotate
    and rightRotate) and the mirror image that turns one into the other:
    swapping every node's children and negating every key turns a right
    rotation into a left one, so the shape proofs are done once. */
module RedBlackRotate {
  import opened SearchTree
  import opened RedBlackLinks

  function Negated(k: seq<int>): (m: seq<int>)
    ensures |m| == |k| && forall i :: 0 <= i < |k| ==> m[i] == -k[i]
  {
    seq(|k|, i requires 0 <= i < |k| => -k[i])
  }

  /** The mirror image of a tree: children swap sides and keys change sign,
      so the image is ordered exactly when the tree is. */
  function Mirror(a: Links): (b: Links)
    ensures b.left == a.right && b.right == a.left && b.parent == a.parent && b.root == a.root
    ensures |b.key| == |a.key| && forall i :: 0 <= i < |a.key| ==> b.key[i] == -a.key[i]
  {
    Links(Negated(a.key), a.right, a.left, a.parent, a.root)
  }

  lemma MirrorMirror(a: Links)
    ensures Mirror(Mirror(a)) == a
  {
    assert Negated(Negated(a.key)) == a.key;
  }

  lemma LocalMirror(a: Links, sub: seq<set<int>>, nil: int, j: int)
    requires Sized(a) && |sub| == |a.key| && 0 <= j < |a.key|
    ensures Sized(Mirror(a)) && (Local(Mirror(a), sub, nil, j) <==> Local(a, sub, nil, j))
  {
    var l, r := Under(sub, a.left[j]), Under(sub, a.right[j]);
    assert {j} + l + r == {j} + r + l;
  }

  /** A tree is a valid search tree exactly when its mirror image is. */
  lemma ValidMirror(a: Links, sub: seq<set<int>>, nil: int)
    ensures Valid(Mirror(a), sub, nil) <==> Valid(a, sub, nil)
    ensures Nodes(Mirror(a), sub) == Nodes(a, sub)
  {
    var m := Mirror(a);
    if Valid(a, sub, nil) {
      forall j | j in Nodes(m, sub) && 0 <= j < |m.key|
        ensures Local(m, sub, nil, j)
      {
        assert Local(a, sub, nil, j);
        LocalMirror(a, sub, nil, j);
      }
    }
    if Valid(m, sub, nil) {
      forall j | j in Nodes(a, sub) && 0 <= j < |a.key|
        ensures Local(a, sub, nil, j)
      {
        assert Local(m, sub, nil, j);
        LocalMirror(a, sub, nil, j);
      }
    }
  }

  /** leftRotate(x): y, the right child of x, takes x's place below x's
      parent (or as the root when that parent is the sentinel); x becomes
      y's left child and takes y's old left subtree as its right one. The
      steps are the source's, in its order. */
  function LeftRotated(a: Links, x: int): (b: Links)
    requires Sized(a) && 0 <= x < |a.key| && Linked(a, x) && Linked(a, a.right[x])
    ensures Sized(b) && b.key == a.key
  {
    var y, p := a.right[x], a.parent[x];
    var beta := a.left[y];
    var a1 := a.(right := a.right[x := beta]);
    var a2 := if beta != Sentinel then a1.(parent := a1.parent[beta := x]) else a1;
    var a3 := a2.(parent := a2.parent[y := p]);
    var a4 := if p == Sentinel then a3.(root := y)
              else if x == a3.left[p] then a3.(left := a3.left[p := y])
              else a3.(right := a3.right[p := y]);
    var a5 := a4.(left := a4.left[y := x]);
    a5.(parent := a5.parent[x := y])
  }

  /** rightRotate(x), step by step as the source has it; it tests for the
      sentinel with Nil (Go's nil or rbNilNode) where leftRotate compares
      with rbNilNode. */
  function RightRotated(a: Links, x: int): (b: Links)
    requires Sized(a) && 0 <= x < |a.key| && Linked(a, x) && Linked(a, a.left[x])
    ensures Sized(b) && b.key == a.key
  {
    var y, p := a.left[x], a.parent[x];
    var beta := a.right[y];
    var a1 := a.(left := a.left[x := beta]);
    var a2 := if beta != -1 && beta != Sentinel then a1.(parent := a1.parent[beta := x]) else a1;
    var a3 := a2.(parent := a2.parent[y := p]);
    var a4 := if p == -1 || p == Sentinel then a3.(root := y)
              else if x == a3.right[p] then a3.(right := a3.right[p := y])
              else a3.(left := a3.left[p := y]);
    var a5 := a4.(right := a4.right[y := x]);
    a5.(parent := a5.parent[x := y])
  }

  /** A right rotation is the mirror image of a left rotation of the
      mirror image. */
  lemma RightMirror(a: Links, x: int)
    requires Sized(a) && 0 <= x < |a.key| && Linked(a, x) && Linked(a, a.left[x])
    ensures Linked(Mirror(a), x) && Linked(Mirror(a), Mirror(a).right[x])
    ensures RightRotated(a, x) == Mirror(LeftRotated(Mirror(a), x))
  {
    var m := Mirror(a);
    var b, c := RightRotated(a, x), Mirror(LeftRotated(m, x));
    MirrorMirror(a);
    assert b.key == c.key;
  }

  /** The subtree sets after leftRotate(x): x keeps its left subtree and
      takes y's left one; y's subtree is x's old one. */
  ghost function LeftRotSub(a: Links, sub: seq<set<int>>, x: int): seq<set<int>>
    requires Sized(a) && |sub| == |a.key| && 0 <= x < |a.key| && 0 <= a.right[x] < |a.key|
  {
    var y := a.right[x];
    sub[x := {x} + Under(sub, a.left[x]) + Under(sub, a.left[y])][y := sub[x]]
  }

  ghost function RightRotSub(a: Links, sub: seq<set<int>>, x: int): seq<set<int>>
    requires Sized(a) && |sub| == |a.key| && 0 <= x < |a.key| && 0 <= a.left[x] < |a.key|
  {
    var y := a.left[x];
    sub[x := {x} + Under(sub, a.right[x]) + Under(sub, a.right[y])][y := sub[x]]
  }

  /** x is a real node of a valid tree with a real right child (the links
      of both are spelled out; RotatableNode derives them). */
  ghost predicate LeftRotatable(a: Links, sub: seq<set<int>>, x: int)
  {
    Valid(a, sub, Sentinel) && x in Nodes(a, sub) && 0 < x < |a.key| && Linked(a, x) &&
    a.right[x] != Sentinel && Linked(a, a.right[x])
  }

  ghost predicate RightRotatable(a: Links, sub: seq<set<int>>, x: int)
  {
    Valid(a, sub, Sentinel) && x in Nodes(a, sub) && 0 < x < |a.key| && Linked(a, x) &&
    a.left[x] != Sentinel && Linked(a, a.left[x])
  }

  /** A real node of a valid tree can be rotated either way its real
      children allow. */
  lemma RotatableNode(a: Links, sub: seq<set<int>>, x: int)
    requires Valid(a, sub, Sentinel) && x in Nodes(a, sub)
    ensures a.right[x] != Sentinel ==> LeftRotatable(a, sub, x)
    ensures a.left[x] != Sentinel ==> RightRotatable(a, sub, x)
  {
    NodeLinked(a, sub, x);
    assert Local(a, sub, Sentinel, x);
    if a.right[x] != Sentinel {
      NodeLinked(a, sub, a.right[x]);
    }
    if a.left[x] != Sentinel {
      NodeLinked(a, sub, a.left[x]);
    }
  }

  /** The links a left rotation at x touches, read in the tree before it:
      y = right[x] is real and hangs from x, x hangs from its parent p (the
      sentinel exactly when x is the root), and none of x, y, p and y's
      left child beta coincide. */
  lemma RotateFacts(a: Links, sub: seq<set<int>>, x: int)
    requires LeftRotatable(a, sub, x)
    ensures var y, p, beta := a.right[x], a.parent[x], a.left[a.right[x]];
      0 < y < |a.key| && y in Nodes(a, sub) && a.parent[y] == x && x != y &&
      (beta != Sentinel ==> a.parent[beta] == y) && beta != x && beta != y &&
      p != x && p != y && (p == Sentinel <==> x == a.root) &&
      (p != Sentinel ==> p in Nodes(a, sub) && (a.left[p] == x || a.right[p] == x))
  {
    NodeLinked(a, sub, x);
    assert Local(a, sub, Sentinel, x);
    var y := a.right[x];
    NodeLinked(a, sub, y);
    assert Local(a, sub, Sentinel, y);
    if a.parent[x] != Sentinel {
      assert Local(a, sub, Sentinel, a.parent[x]);
    }
  }

  /** b is a after a left rotation at x, spelled out link by link. */
  ghost predicate LeftShaped(a: Links, b: Links, x: int)
    requires Sized(a) && 0 <= x < |a.key| && Linked(a, x) && Linked(a, a.right[x])
  {
    var y, p := a.right[x], a.parent[x];
    var beta := a.left[y];
    Sized(b) && b.key == a.key &&
    b.root == (if p == Sentinel then y else a.root) &&
    b.left[x] == a.left[x] && b.right[x] == beta && b.parent[x] == y &&
    b.left[y] == x && b.right[y] == a.right[y] && b.parent[y] == p &&
    (beta != Sentinel ==> b.parent[beta] == x) &&
    (p != Sentinel && a.left[p] == x ==> b.left[p] == y && b.right[p] == a.right[p]) &&
    (p != Sentinel && a.left[p] != x ==> b.left[p] == a.left[p] && b.right[p] == y) &&
    (forall j :: 0 <= j < |a.key| && j != x && j != y && (j != p || p == Sentinel) ==>
      b.left[j] == a.left[j] && b.right[j] == a.right[j]) &&
    (forall j :: 0 <= j < |a.key| && j != x && j != y && (j != beta || beta == Sentinel) ==>
      b.parent[j] == a.parent[j])
  }

  lemma LeftRotatedShaped(a: Links, sub: seq<set<int>>, x: int)
    requires LeftRotatable(a, sub, x)
    ensures LeftShaped(a, LeftRotated(a, x), x)
  {
    RotateFacts(a, sub, x);
  }

  lemma LeftRotateAtX(a: Links, sub: seq<set<int>>, b: Links, x: int)
    requires LeftRotatable(a, sub, x) && LeftShaped(a, b, x)
    ensures Local(b, LeftRotSub(a, sub, x), Sentinel, x)
  {
    RotateFacts(a, sub, x);
    assert Local(a, sub, Sentinel, x);
    var y := a.right[x];
    assert Local(a, sub, Sentinel, y);
    var s := LeftRotSub(a, sub, x);
    var al, be := a.left[x], a.left[y];
    assert Under(s, al) == Under(sub, al);
    assert Under(s, be) == Under(sub, be);
    assert al != Sentinel ==> b.parent[al] == x;
  }

  lemma LeftRotateAtY(a: Links, sub: seq<set<int>>, b: Links, x: int)
    requires LeftRotatable(a, sub, x) && LeftShaped(a, b, x)
    ensures Local(b, LeftRotSub(a, sub, x), Sentinel, a.right[x])
  {
    RotateFacts(a, sub, x);
    assert Local(a, sub, Sentinel, x);
    var y := a.right[x];
    assert Local(a, sub, Sentinel, y);
    var s := LeftRotSub(a, sub, x);
    var ga := a.right[y];
    assert Under(s, ga) == Under(sub, ga);
    assert ga != Sentinel ==> b.parent[ga] == y;
    assert s[y] == {y} + s[x] + Under(s, ga);
  }

  lemma LeftRotateAtParent(a: Links, sub: seq<set<int>>, b: Links, x: int)
    requires LeftRotatable(a, sub, x) && LeftShaped(a, b, x) && a.parent[x] != Sentinel
    ensures Local(b, LeftRotSub(a, sub, x), Sentinel, a.parent[x])
  {
    RotateFacts(a, sub, x);
    var y, p := a.right[x], a.parent[x];
    assert Local(a, sub, Sentinel, p);
    assert Local(a, sub, Sentinel, x);
    var s := LeftRotSub(a, sub, x);
    assert y in s[y] && Under(s, y) == Under(sub, x);
    var o := if a.left[p] == x then a.right[p] else a.left[p];
    assert o != x && o != y;
    assert Under(s, o) == Under(sub, o);
    if o != Sentinel {
      assert b.parent[o] == p;
    }
  }

  lemma LeftRotateElsewhere(a: Links, sub: seq<set<int>>, b: Links, x: int, j: int)
    requires LeftRotatable(a, sub, x) && LeftShaped(a, b, x)
    requires j in Nodes(a, sub) && j != x && j != a.right[x] && j != a.parent[x]
    ensures 0 <= j < |a.key| && Local(b, LeftRotSub(a, sub, x), Sentinel, j)
  {
    RotateFacts(a, sub, x);
    assert Local(a, sub, Sentinel, j);
    var s := LeftRotSub(a, sub, x);
    var l, r := a.left[j], a.right[j];
    assert b.left[j] == l && b.right[j] == r;
    assert l != x && l != a.right[x] && r != x && r != a.right[x];
    assert Under(s, l) == Under(sub, l) && Under(s, r) == Under(sub, r);
    assert l != Sentinel ==> b.parent[l] == j;
    assert r != Sentinel ==> b.parent[r] == j;
  }

  /** leftRotate keeps the links a valid search tree over the same nodes. */
  lemma LeftRotateShape(a: Links, sub: seq<set<int>>, x: int)
    requires LeftRotatable(a, sub, x)
    ensures Valid(LeftRotated(a, x), LeftRotSub(a, sub, x), Sentinel) &&
      Nodes(LeftRotated(a, x), LeftRotSub(a, sub, x)) == Nodes(a, sub)
  {
    RotateFacts(a, sub, x);
    LeftRotatedShaped(a, sub, x);
    var b, s := LeftRotated(a, x), LeftRotSub(a, sub, x);
    ShapedValid(a, sub, b, x);
  }

  lemma ShapedValid(a: Links, sub: seq<set<int>>, b: Links, x: int)
    requires LeftRotatable(a, sub, x) && LeftShaped(a, b, x)
    ensures Valid(b, LeftRotSub(a, sub, x), Sentinel) && Nodes(b, LeftRotSub(a, sub, x)) == Nodes(a, sub)
  {
    RotateFacts(a, sub, x);
    var s := LeftRotSub(a, sub, x);
    var y := a.right[x];
    assert Local(a, sub, Sentinel, x);
    assert Local(a, sub, Sentinel, y);
    assert Nodes(b, s) == Nodes(a, sub);
    assert s[x] <= sub[x];
    ShapedLocal(a, sub, b, x);
  }

  lemma ShapedLocal(a: Links, sub: seq<set<int>>, b: Links, x: int)
    requires LeftRotatable(a, sub, x) && LeftShaped(a, b, x)
    ensures |LeftRotSub(a, sub, x)| == |b.key|
    ensures forall j {:trigger Local(b, LeftRotSub(a, sub, x), Sentinel, j)} :: j in Nodes(a, sub) && 0 <= j < |b.key| ==>
      Local(b, LeftRotSub(a, sub, x), Sentinel, j)
  {
    RotateFacts(a, sub, x);
    var s := LeftRotSub(a, sub, x);
    var y, p := a.right[x], a.parent[x];
    forall j | j in Nodes(a, sub) && 0 <= j < |b.key|
      ensures Local(b, s, Sentinel, j)
    {
      if j == x {
        LeftRotateAtX(a, sub, b, x);
      } else if j == y {
        LeftRotateAtY(a, sub, b, x);
      } else if j == p {
        LeftRotateAtParent(a, sub, b, x);
      } else {
        LeftRotateElsewhere(a, sub, b, x, j);
      }
    }
  }

  /** rightRotate keeps the links a valid search tree over the same nodes. */
  lemma RightRotateShape(a: Links, sub: seq<set<int>>, x: int)
    requires RightRotatable(a, sub, x)
    ensures Valid(RightRotated(a, x), RightRotSub(a, sub, x), Sentinel) &&
      Nodes(RightRotated(a, x), RightRotSub(a, sub, x)) == Nodes(a, sub)
  {
    var m := Mirror(a);
    ValidMirror(a, sub, Sentinel);
    LeftRotateShape(m, sub, x);
    RightMirror(a, x);
    ValidMirror(LeftRotated(m, x), LeftRotSub(m, sub, x), Sentinel);
  }

  /** The nodes of the tree in the order an in-order walk visits them,
      sentinel leaves included. */
  ghost function Order(a: Links, sub: seq<set<int>>): seq<int>
    requires Valid(a, sub, Sentinel)
  {
    Visits(a, sub, Sentinel, a.root, Never)
  }

  /** Below a left rotation at x, every subtree other than those of x and y
      is walked as before, and y's new subtree as x's old one. */
  lemma {:induction false} WalkLeftRotated(a: Links, sub: seq<set<int>>, b: Links, x: int, i: int)
    requires LeftRotatable(a, sub, x) && LeftShaped(a, b, x)
    requires Valid(b, LeftRotSub(a, sub, x), Sentinel) && Nodes(b, LeftRotSub(a, sub, x)) == Nodes(a, sub)
    requires i == -1 || i == Sentinel || i in Nodes(a, sub)
    ensures i != x && i != a.right[x] ==>
      Visits(b, LeftRotSub(a, sub, x), Sentinel, i, Never) == Visits(a, sub, Sentinel, i, Never)
    ensures i == a.right[x] ==>
      Visits(b, LeftRotSub(a, sub, x), Sentinel, i, Never) == Visits(a, sub, Sentinel, x, Never)
    decreases |Under(LeftRotSub(a, sub, x), i)|, if i == -1 then 0 else 1
  {
    RotateFacts(a, sub, x);
    var s := LeftRotSub(a, sub, x);
    var y := a.right[x];
    if i == -1 || i == x {
    } else if i == y {
      assert Local(a, sub, Sentinel, x);
      assert Local(a, sub, Sentinel, y);
      Walkable(b, s, Sentinel, y);
      Walkable(b, s, Sentinel, x);
      WalkLeftRotated(a, sub, b, x, a.left[x]);
      WalkLeftRotated(a, sub, b, x, a.left[y]);
      WalkLeftRotated(a, sub, b, x, a.right[y]);
      WalkAtY(a, sub, b, x);
    } else {
      ElsewhereChildren(a, sub, b, x, i);
      WalkLeftRotated(a, sub, b, x, b.left[i]);
      WalkLeftRotated(a, sub, b, x, b.right[i]);
      WalkElsewhere(a, sub, b, x, i);
    }
  }

  /** At a node other than x and y, the rotation keeps both children, and
      both can be walked before and after it with a smaller measure. */
  lemma ElsewhereChildren(a: Links, sub: seq<set<int>>, b: Links, x: int, i: int)
    requires LeftRotatable(a, sub, x) && LeftShaped(a, b, x)
    requires Valid(b, LeftRotSub(a, sub, x), Sentinel) && Nodes(b, LeftRotSub(a, sub, x)) == Nodes(a, sub)
    requires (i == Sentinel || i in Nodes(a, sub)) && i != x && i != a.right[x]
    ensures var s := LeftRotSub(a, sub, x);
      Child(a, sub, a.left[i]) && Child(a, sub, a.right[i]) && Child(b, s, b.left[i]) && Child(b, s, b.right[i]) &&
      b.left[i] != x && b.right[i] != x &&
      ((b.left[i] == a.left[i] && b.left[i] != a.right[x]) || (b.left[i] == a.right[x] && a.left[i] == x)) &&
      ((b.right[i] == a.right[i] && b.right[i] != a.right[x]) || (b.right[i] == a.right[x] && a.right[i] == x)) &&
      (|Under(s, b.left[i])| < |Under(s, i)| || (b.left[i] == -1 && Under(s, i) == {})) &&
      (|Under(s, b.right[i])| < |Under(s, i)| || (b.right[i] == -1 && Under(s, i) == {}))
  {
    RotateFacts(a, sub, x);
    var s := LeftRotSub(a, sub, x);
    Walkable(b, s, Sentinel, i);
    Walkable(a, sub, Sentinel, i);
    if i != Sentinel {
      assert Local(a, sub, Sentinel, i);
    }
  }

  /** c can be walked: Go's nil, the sentinel or a linked node. */
  ghost predicate Child(a: Links, sub: seq<set<int>>, c: int)
  {
    c == -1 || c == Sentinel || c in Nodes(a, sub)
  }

  /** The step of WalkLeftRotated at a node other than x and y, whose
      children are walked as the children it had before. */
  lemma WalkElsewhere(a: Links, sub: seq<set<int>>, b: Links, x: int, i: int)
    requires LeftRotatable(a, sub, x) && Valid(b, LeftRotSub(a, sub, x), Sentinel)
    requires Nodes(b, LeftRotSub(a, sub, x)) == Nodes(a, sub)
    requires (i == Sentinel || i in Nodes(a, sub)) && i != x && i != a.right[x]
    requires var s := LeftRotSub(a, sub, x);
      Child(a, sub, a.left[i]) && Child(a, sub, a.right[i]) && Child(b, s, b.left[i]) && Child(b, s, b.right[i]) &&
      Visits(b, s, Sentinel, b.left[i], Never) == Visits(a, sub, Sentinel, a.left[i], Never) &&
      Visits(b, s, Sentinel, b.right[i], Never) == Visits(a, sub, Sentinel, a.right[i], Never)
    ensures Visits(b, LeftRotSub(a, sub, x), Sentinel, i, Never) == Visits(a, sub, Sentinel, i, Never)
  {
    WalkStep(b, LeftRotSub(a, sub, x), i);
    WalkStep(a, sub, i);
  }

  /** The step of WalkLeftRotated at y, from the walks of the three
      subtrees the rotation moves. */
  lemma WalkAtY(a: Links, sub: seq<set<int>>, b: Links, x: int)
    requires LeftRotatable(a, sub, x) && LeftShaped(a, b, x)
    requires Valid(b, LeftRotSub(a, sub, x), Sentinel) && Nodes(b, LeftRotSub(a, sub, x)) == Nodes(a, sub)
    requires a.right[x] in Nodes(a, sub)
    requires var y := a.right[x];
      var al, be, ga := a.left[x], a.left[y], a.right[y];
      (al == Sentinel || al in Nodes(a, sub)) && (be == Sentinel || be in Nodes(a, sub)) && (ga == Sentinel || ga in Nodes(a, sub)) &&
      Visits(b, LeftRotSub(a, sub, x), Sentinel, al, Never) == Visits(a, sub, Sentinel, al, Never) &&
      Visits(b, LeftRotSub(a, sub, x), Sentinel, be, Never) == Visits(a, sub, Sentinel, be, Never) &&
      Visits(b, LeftRotSub(a, sub, x), Sentinel, ga, Never) == Visits(a, sub, Sentinel, ga, Never)
    ensures Visits(b, LeftRotSub(a, sub, x), Sentinel, a.right[x], Never) == Visits(a, sub, Sentinel, x, Never)
  {
    RotateFacts(a, sub, x);
    var s := LeftRotSub(a, sub, x);
    var y := a.right[x];
    var al, be, ga := a.left[x], a.left[y], a.right[y];
    WalkStep(b, s, y);
    WalkStep(b, s, x);
    WalkStep(a, sub, x);
    WalkStep(a, sub, y);
    Regroup(Visits(a, sub, Sentinel, al, Never), x, Visits(a, sub, Sentinel, be, Never), y, Visits(a, sub, Sentinel, ga, Never));
  }

  lemma Regroup(va: seq<int>, x: int, vb: seq<int>, y: int, vc: seq<int>)
    ensures (va + [x] + vb) + [y] + vc == va + [x] + (vb + [y] + vc)
  {
  }

  /** leftRotate keeps the in-order sequence of nodes. */
  lemma LeftRotateOrder(a: Links, sub: seq<set<int>>, x: int)
    requires LeftRotatable(a, sub, x)
    ensures Valid(LeftRotated(a, x), LeftRotSub(a, sub, x), Sentinel)
    ensures Order(LeftRotated(a, x), LeftRotSub(a, sub, x)) == Order(a, sub)
  {
    RotateFacts(a, sub, x);
    LeftRotatedShaped(a, sub, x);
    var b := LeftRotated(a, x);
    ShapedValid(a, sub, b, x);
    if a.root == x {
      WalkLeftRotated(a, sub, b, x, a.right[x]);
    } else {
      assert a.root != a.right[x];
      WalkLeftRotated(a, sub, b, x, a.root);
    }
  }

  function Reversed(t: seq<int>): (r: seq<int>)
    ensures |r| == |t|
  {
    if t == [] then [] else Reversed(t[1..]) + [t[0]]
  }

  lemma {:induction false} ReversedAppend(t: seq<int>, u: seq<int>)
    ensures Reversed(t + u) == Reversed(u) + Reversed(t)
    decreases |t|
  {
    if t == [] {
      assert t + u == u;
    } else {
      assert (t + u)[1..] == t[1..] + u;
      ReversedAppend(t[1..], u);
    }
  }

  lemma {:induction false} ReversedTwice(t: seq<int>)
    ensures Reversed(Reversed(t)) == t
    decreases |t|
  {
    if t != [] {
      ReversedAppend(Reversed(t[1..]), [t[0]]);
      ReversedTwice(t[1..]);
      assert Reversed([t[0]]) == [t[0]];
    }
  }

  lemma ReversedJoin(t: seq<int>, i: int, u: seq<int>)
    ensures Reversed(t + [i] + u) == Reversed(u) + [i] + Reversed(t)
  {
    ReversedAppend(t + [i], u);
    ReversedAppend(t, [i]);
    assert Reversed([i]) == [i];
  }

  /** One step of a full walk: the left subtree, the node, the right one. */
  lemma WalkStep(a: Links, sub: seq<set<int>>, i: int)
    requires Valid(a, sub, Sentinel) && (i == Sentinel || i in Nodes(a, sub))
    ensures a.left[i] == -1 || a.left[i] == Sentinel || a.left[i] in Nodes(a, sub)
    ensures a.right[i] == -1 || a.right[i] == Sentinel || a.right[i] in Nodes(a, sub)
    ensures Visits(a, sub, Sentinel, i, Never) ==
      Visits(a, sub, Sentinel, a.left[i], Never) + [i] + Visits(a, sub, Sentinel, a.right[i], Never)
  {
    Walkable(a, sub, Sentinel, i);
  }

  /** The mirror image is walked in reverse. */
  lemma {:induction false} WalkMirror(a: Links, sub: seq<set<int>>, i: int)
    requires Valid(a, sub, Sentinel) && Valid(Mirror(a), sub, Sentinel)
    requires i == -1 || i == Sentinel || i in Nodes(a, sub)
    ensures Visits(Mirror(a), sub, Sentinel, i, Never) == Reversed(Visits(a, sub, Sentinel, i, Never))
    decreases |Under(sub, i)|, if i == -1 then 0 else 1
  {
    if i != -1 {
      Walkable(a, sub, Sentinel, i);
      var l, r := a.left[i], a.right[i];
      WalkMirror(a, sub, l);
      WalkMirror(a, sub, r);
      WalkStep(a, sub, i);
      WalkStep(Mirror(a), sub, i);
      ReversedJoin(Visits(a, sub, Sentinel, l, Never), i, Visits(a, sub, Sentinel, r, Never));
    }
  }

  /** rightRotate keeps the in-order sequence of nodes. */
  lemma RightRotateOrder(a: Links, sub: seq<set<int>>, x: int)
    requires RightRotatable(a, sub, x)
    ensures Valid(RightRotated(a, x), RightRotSub(a, sub, x), Sentinel)
    ensures Order(RightRotated(a, x), RightRotSub(a, sub, x)) == Order(a, sub)
  {
    RightRotateShape(a, sub, x);
    var m := Mirror(a);
    ValidMirror(a, sub, Sentinel);
    LeftRotateOrder(m, sub, x);
    RightMirror(a, x);
    var c, s := LeftRotated(m, x), LeftRotSub(m, sub, x);
    ValidMirror(c, s, Sentinel);
    WalkMirror(c, s, c.root);
    WalkMirror(a, sub, a.root);
    ReversedTwice(Order(a, sub));
  }
}
