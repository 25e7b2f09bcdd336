/** The plain binary search tree of tree/baseBST.go: a root pointer over
    nodes that the tree links together itself. Nodes are indices into the
    arena of SearchTree (-1 is Go's nil); the tree keeps at most one node
    per key. */
module BaseBST {
  import opened SearchTree

  /** No two linked nodes share a key. */
  ghost predicate Distinct(a: Links, sub: seq<set<int>>)
  {
    forall i, j :: i in Nodes(a, sub) && j in Nodes(a, sub) && 0 <= i < |a.key| && 0 <= j < |a.key| && a.key[i] == a.key[j] ==> i == j
  }

  /** Some linked node holds key k. */
  ghost predicate Holds(a: Links, sub: seq<set<int>>, k: int)
  {
    exists i :: i in Nodes(a, sub) && 0 <= i < |a.key| && a.key[i] == k
  }

  /** The links after insert hangs the unlinked node x below p (or makes it
      the root when p is nil). */
  function Attached(a: Links, x: int, p: int): (b: Links)
    requires Sized(a) && 0 <= x < |a.key| && -1 <= p < |a.key|
    ensures Sized(b) && b.key == a.key
  {
    var b := a.(parent := a.parent[x := p]);
    if p == -1 then b.(root := x)
    else if a.key[x] < a.key[p] then b.(left := a.left[p := x])
    else b.(right := a.right[p := x])
  }

  /** The subtree sets after x is hung below p: x owns itself, and every
      subtree holding p now holds x as well. */
  ghost function AttachSub(sub: seq<set<int>>, x: int, p: int): seq<set<int>>
  {
    seq(|sub|, i requires 0 <= i < |sub| => if i == x then {x} else if p != -1 && p in sub[i] then sub[i] + {x} else sub[i])
  }

  /** What insert knows before it links x below p: x is unlinked and
      childless, and a search for x's key (equal keys going right) fell off
      the tree at p's empty child slot on the key's side. */
  ghost predicate Attachable(a: Links, sub: seq<set<int>>, x: int, p: int)
  {
    SearchTree.Valid(a, sub, -1) && 0 <= x < |a.key| && x !in Nodes(a, sub) &&
    a.left[x] == -1 && a.right[x] == -1 &&
    (p == -1 ==> a.root == -1) &&
    (p != -1 ==> p in Nodes(a, sub) && 0 <= p < |a.key|) &&
    (p != -1 ==> Fits(a, sub, a.root, p, a.key[x]) && (if a.key[x] < a.key[p] then a.left[p] else a.right[p]) == -1)
  }

  lemma AttachNew(a: Links, sub: seq<set<int>>, x: int, p: int)
    requires Attachable(a, sub, x, p)
    ensures Local(Attached(a, x, p), AttachSub(sub, x, p), -1, x)
  {
    var b, s := Attached(a, x, p), AttachSub(sub, x, p);
    assert Under(s, b.left[x]) == {} && Under(s, b.right[x]) == {};
  }

  /** p gains x as the child on x's key's side. */
  lemma AttachAtParent(a: Links, sub: seq<set<int>>, x: int, p: int)
    requires Attachable(a, sub, x, p) && p != -1
    ensures Local(Attached(a, x, p), AttachSub(sub, x, p), -1, p)
  {
    var b, s := Attached(a, x, p), AttachSub(sub, x, p);
    assert Local(a, sub, -1, p);
    var l, r := a.left[p], a.right[p];
    assert Under(s, x) == {x};
    if a.key[x] < a.key[p] {
      assert b.left[p] == x && b.right[p] == r;
      assert r != -1 ==> p !in sub[r] && s[r] == sub[r];
    } else {
      assert b.right[p] == x && b.left[p] == l;
      assert l != -1 ==> p !in sub[l] && s[l] == sub[l];
    }
  }

  /** A node above p gains x on p's side. */
  lemma AttachAbove(a: Links, sub: seq<set<int>>, x: int, p: int, j: int)
    requires Attachable(a, sub, x, p) && p != -1 && j in Nodes(a, sub) && p in sub[j] && j != p
    ensures Local(Attached(a, x, p), AttachSub(sub, x, p), -1, j)
  {
    var b, s := Attached(a, x, p), AttachSub(sub, x, p);
    var k := a.key[x];
    assert Local(a, sub, -1, j);
    var l, r := a.left[j], a.right[j];
    assert b.left[j] == l && b.right[j] == r;
    assert l != -1 ==> b.parent[l] == j && (p in sub[l] ==> s[l] == sub[l] + {x}) && (p !in sub[l] ==> s[l] == sub[l]);
    assert r != -1 ==> b.parent[r] == j && (p in sub[r] ==> s[r] == sub[r] + {x}) && (p !in sub[r] ==> s[r] == sub[r]);
    assert j in Under(sub, a.root);
    if p in Under(sub, l) {
      assert k < a.key[j];
    } else {
      assert a.key[j] <= k;
    }
  }

  /** A node whose subtree does not hold p keeps its links and subtree. */
  lemma AttachAside(a: Links, sub: seq<set<int>>, x: int, p: int, j: int)
    requires Attachable(a, sub, x, p) && j in Nodes(a, sub) && (p == -1 || p !in sub[j])
    ensures Local(Attached(a, x, p), AttachSub(sub, x, p), -1, j)
  {
    var b, s := Attached(a, x, p), AttachSub(sub, x, p);
    assert Local(a, sub, -1, j);
    var l, r := a.left[j], a.right[j];
    assert j != p && j != x;
    assert b.left[j] == l && b.right[j] == r;
    assert l != -1 ==> l != x && b.parent[l] == j && s[l] == sub[l];
    assert r != -1 ==> r != x && b.parent[r] == j && s[r] == sub[r];
  }

  /** insert keeps the tree a valid search tree with distinct keys and adds
      exactly x to its nodes. */
  lemma AttachValid(a: Links, sub: seq<set<int>>, x: int, p: int)
    requires Attachable(a, sub, x, p) && Distinct(a, sub) && !Holds(a, sub, a.key[x])
    ensures SearchTree.Valid(Attached(a, x, p), AttachSub(sub, x, p), -1)
    ensures Nodes(Attached(a, x, p), AttachSub(sub, x, p)) == Nodes(a, sub) + {x}
    ensures Distinct(Attached(a, x, p), AttachSub(sub, x, p))
  {
    AttachShape(a, sub, x, p);
  }

  /** Linking x keeps the tree a valid search tree and adds exactly x to
      its nodes. */
  lemma AttachShape(a: Links, sub: seq<set<int>>, x: int, p: int)
    requires Attachable(a, sub, x, p)
    ensures SearchTree.Valid(Attached(a, x, p), AttachSub(sub, x, p), -1)
    ensures Nodes(Attached(a, x, p), AttachSub(sub, x, p)) == Nodes(a, sub) + {x}
  {
    if p == -1 {
      AttachRoot(a, sub, x);
    } else {
      AttachBelow(a, sub, x, p);
    }
  }

  lemma AttachRoot(a: Links, sub: seq<set<int>>, x: int)
    requires Attachable(a, sub, x, -1)
    ensures SearchTree.Valid(Attached(a, x, -1), AttachSub(sub, x, -1), -1)
    ensures Nodes(Attached(a, x, -1), AttachSub(sub, x, -1)) == {x} == Nodes(a, sub) + {x}
  {
    var b, s := Attached(a, x, -1), AttachSub(sub, x, -1);
    assert b.root == x && Nodes(b, s) == {x};
    AttachNew(a, sub, x, -1);
  }

  lemma AttachBelow(a: Links, sub: seq<set<int>>, x: int, p: int)
    requires Attachable(a, sub, x, p) && p != -1
    ensures SearchTree.Valid(Attached(a, x, p), AttachSub(sub, x, p), -1)
    ensures Nodes(Attached(a, x, p), AttachSub(sub, x, p)) == Nodes(a, sub) + {x}
  {
    var b, s := Attached(a, x, p), AttachSub(sub, x, p);
    AttachNodes(a, sub, x, p);
    forall j | j in Nodes(b, s) && 0 <= j < |b.key|
      ensures Local(b, s, -1, j)
    {
      if j == x {
        AttachNew(a, sub, x, p);
      } else if j == p {
        AttachAtParent(a, sub, x, p);
      } else if p in sub[j] {
        AttachAbove(a, sub, x, p, j);
      } else {
        AttachAside(a, sub, x, p, j);
      }
    }
  }

  lemma AttachNodes(a: Links, sub: seq<set<int>>, x: int, p: int)
    requires Attachable(a, sub, x, p) && p != -1
    ensures var b, s := Attached(a, x, p), AttachSub(sub, x, p);
      Nodes(b, s) == Nodes(a, sub) + {x} && forall j :: j in Nodes(b, s) ==> 0 <= j < |b.key| && j != -1 && s[j] <= Nodes(b, s)
  {
    var b, s := Attached(a, x, p), AttachSub(sub, x, p);
    assert b.root == a.root && p in sub[a.root];
    forall j | j in Nodes(b, s)
      ensures 0 <= j < |b.key| && j != -1 && s[j] <= Nodes(b, s)
    {
      if j != x {
        assert sub[j] <= Nodes(a, sub);
      }
    }
  }

  /** Node i's links are nodes of the arena or Go's nil. */
  predicate Linked(a: Links, i: int)
    requires Sized(a) && 0 <= i < |a.key|
  {
    -1 <= a.left[i] < |a.key| && -1 <= a.right[i] < |a.key| && -1 <= a.parent[i] < |a.key|
  }

  /** Transplant(u, v): v takes u's place below u's parent, or as the root
      when u has none, and v (when not nil) takes u's parent as its own. */
  function Transplanted(a: Links, u: int, v: int): (b: Links)
    requires Sized(a) && 0 <= u < |a.key| && -1 <= v < |a.key| && -1 <= a.parent[u] < |a.key|
    ensures Sized(b) && b.key == a.key
  {
    var p := a.parent[u];
    var b := if p == -1 then a.(root := v)
             else if a.left[p] == u then a.(left := a.left[p := v])
             else a.(right := a.right[p := v]);
    if v != -1 then b.(parent := b.parent[v := p]) else b
  }

  /** The first step of deleting a node with two children when the least
      node y of its right subtree is not that subtree's root r: y's right
      subtree takes y's place, and y adopts r. */
  function Lifted(a: Links, y: int, r: int): (b: Links)
    requires Sized(a) && 0 <= y < |a.key| && Linked(a, y) && 0 <= r < |a.key|
    ensures Sized(b) && b.key == a.key
  {
    var t := Transplanted(a, y, a.right[y]);
    t.(right := t.right[y := r], parent := t.parent[r := y])
  }

  /** The last step of deleting a node with two children: y adopts l as
      its left child. */
  function Adopted(a: Links, y: int, l: int): (b: Links)
    requires Sized(a) && 0 <= y < |a.key| && 0 <= l < |a.key|
    ensures Sized(b) && b.key == a.key
  {
    a.(left := a.left[y := l], parent := a.parent[l := y])
  }

  /** The links after Delete(z), where y is the least node of z's right
      subtree when z has two children. */
  function Removed(a: Links, z: int, y: int): (b: Links)
    requires Sized(a) && 0 <= z < |a.key| && 0 <= y < |a.key| && Linked(a, z) && Linked(a, y)
    ensures Sized(b) && b.key == a.key
  {
    if a.left[z] == -1 then Transplanted(a, z, a.right[z])
    else if a.right[z] == -1 then Transplanted(a, z, a.left[z])
    else
      var a1 := if a.parent[y] != z then Lifted(a, y, a.right[z]) else a;
      Adopted(Transplanted(a1, z, y), y, a.left[z])
  }

  /** The subtree sets after Delete(z): z owns nothing, y owns what z owned
      but z, subtrees that held z lose it, and those that held y lose y. */
  ghost function DeleteSub(sub: seq<set<int>>, z: int, y: int): seq<set<int>>
    requires 0 <= z < |sub|
  {
    seq(|sub|, i requires 0 <= i < |sub| =>
      if i == z then {} else if i == y then sub[z] - {z}
      else if z in sub[i] then sub[i] - {z} else if y in sub[i] then sub[i] - {y} else sub[i])
  }

  /** What Delete knows before it relinks: z is linked, and y is z itself
      when z lacks a child, else the least node of z's right subtree. */
  ghost predicate Removable(a: Links, sub: seq<set<int>>, z: int, y: int)
  {
    SearchTree.Valid(a, sub, -1) && z in Nodes(a, sub) && 0 <= z < |a.key| && 0 <= y < |a.key| &&
    Linked(a, z) && Linked(a, y) &&
    ((a.left[z] == -1 || a.right[z] == -1) ==> y == z) &&
    (a.left[z] != -1 && a.right[z] != -1 ==> 0 <= a.right[z] < |a.key| && y in sub[a.right[z]] && a.left[y] == -1) &&
    (a.left[z] != -1 && a.right[z] != -1 ==> forall k :: k in sub[a.right[z]] && 0 <= k < |a.key| ==> a.key[y] <= a.key[k])
  }

  /** The link facts the two-children case of Delete relies on. */
  predicate Spliceable(a: Links, z: int, y: int)
  {
    Sized(a) && 0 <= z < |a.key| && 0 <= y < |a.key| && z != y &&
    Linked(a, z) && Linked(a, y) && a.left[z] != -1 && a.right[z] != -1 &&
    a.parent[z] != z && a.right[y] != z && a.right[z] != z
  }

  /** A node with two children and the least node of its right subtree can
      be spliced. */
  lemma RemovableSplice(a: Links, sub: seq<set<int>>, z: int, y: int)
    requires Removable(a, sub, z, y) && a.left[z] != -1 && a.right[z] != -1
    ensures Spliceable(a, z, y)
  {
    RemovableFacts(a, sub, z, y);
    assert Local(a, sub, -1, z);
    assert Local(a, sub, -1, y);
  }

  /** The facts about z and y every step of the deletion proof uses. */
  lemma RemovableFacts(a: Links, sub: seq<set<int>>, z: int, y: int)
    requires Removable(a, sub, z, y)
    ensures y in Nodes(a, sub) && Local(a, sub, -1, z) && Local(a, sub, -1, y)
    ensures a.parent[z] == -1 <==> z == a.root
    ensures a.parent[z] != -1 ==> a.parent[z] in Nodes(a, sub) && z in sub[a.parent[z]]
    ensures a.parent[z] != -1 ==> a.left[a.parent[z]] == z || a.right[a.parent[z]] == z
    ensures a.parent[z] != -1 ==> a.parent[z] !in sub[z]
    ensures y != z ==> z !in sub[y] && sub[y] <= sub[a.right[z]] && y in sub[a.right[z]]
    ensures y != z ==> y in sub[z] && a.right[z] in Nodes(a, sub)
    ensures y != z && y != a.right[z] ==> 0 <= a.parent[y] < |a.key| && a.parent[y] in sub[a.right[z]]
    ensures y != z && y != a.right[z] ==> a.left[a.parent[y]] == y || a.right[a.parent[y]] == y
  {
    assert Local(a, sub, -1, z);
    if z != a.root {
      ParentLink(a, sub, -1, z);
      assert Local(a, sub, -1, a.parent[z]);
    }
    SubClosed(a, sub, -1, a.root, z);
    if y != z {
      var r := a.right[z];
      SubClosed(a, sub, -1, r, y);
      assert Local(a, sub, -1, y);
      if y != r {
        ParentInSub(a, sub, -1, r, y);
      }
    }
  }

  /** b differs from a at most in the child links of the nodes in ps and
      the parent links of the nodes in cs. */
  ghost predicate Frame(a: Links, b: Links, ps: set<int>, cs: set<int>)
    requires Sized(a) && Sized(b) && |b.key| == |a.key|
  {
    b.key == a.key &&
    (forall i :: 0 <= i < |a.key| && i !in ps ==> b.left[i] == a.left[i] && b.right[i] == a.right[i]) &&
    (forall i :: 0 <= i < |a.key| && i !in cs ==> b.parent[i] == a.parent[i])
  }

  lemma FrameTrans(a: Links, a1: Links, a2: Links, p1: set<int>, c1: set<int>, p2: set<int>, c2: set<int>, ps: set<int>, cs: set<int>)
    requires Sized(a) && Sized(a1) && Sized(a2) && |a1.key| == |a.key| && |a2.key| == |a.key|
    requires Frame(a, a1, p1, c1) && Frame(a1, a2, p2, c2) && p1 + p2 <= ps && c1 + c2 <= cs
    ensures Frame(a, a2, ps, cs)
  {
  }

  /** j's child u is v in b, and j's other child is unchanged. */
  ghost predicate Slot(a: Links, b: Links, j: int, u: int, v: int)
    requires Sized(a) && Sized(b) && |b.key| == |a.key| && 0 <= j < |a.key|
  {
    (a.left[j] == u ==> b.left[j] == v && b.right[j] == a.right[j]) &&
    (a.left[j] != u ==> b.right[j] == v && b.left[j] == a.left[j])
  }

  /** b is a after Transplant(u, v). */
  ghost predicate Moved(a: Links, b: Links, u: int, v: int)
    requires Sized(a) && Sized(b) && |b.key| == |a.key| && 0 <= u < |a.key| && -1 <= a.parent[u] < |a.key| && -1 <= v < |a.key|
  {
    var p := a.parent[u];
    Frame(a, b, {p}, {v}) && (v != -1 ==> b.parent[v] == p) && (p != -1 ==> Slot(a, b, p, u, v)) &&
    b.root == (if p == -1 then v else a.root)
  }

  lemma TransplantMoves(a: Links, u: int, v: int)
    requires Sized(a) && 0 <= u < |a.key| && -1 <= v < |a.key| && -1 <= a.parent[u] < |a.key|
    ensures Moved(a, Transplanted(a, u, v), u, v)
  {
  }

  /** The links after deleting z whose right child y is the least node of
      its right subtree. */
  ghost predicate NearShaped(a: Links, b: Links, z: int, y: int)
    requires Sized(a) && Sized(b) && |b.key| == |a.key| && 0 <= z < |a.key| && 0 <= y < |a.key| && Linked(a, z)
  {
    var p, l := a.parent[z], a.left[z];
    Frame(a, b, {p, y}, {y, l}) && b.left[y] == l && b.right[y] == a.right[y] &&
    b.parent[y] == p && (l != -1 ==> b.parent[l] == y) && (p != -1 ==> Slot(a, b, p, z, y)) &&
    b.root == (if p == -1 then y else a.root)
  }

  /** The links after deleting z whose least right node y is deeper down,
      below its parent q. */
  ghost predicate FarShaped(a: Links, b: Links, z: int, y: int)
    requires Sized(a) && Sized(b) && |b.key| == |a.key| && 0 <= z < |a.key| && 0 <= y < |a.key| && Linked(a, z) && Linked(a, y)
  {
    var p, l, r, q, x := a.parent[z], a.left[z], a.right[z], a.parent[y], a.right[y];
    Frame(a, b, {p, q, y}, {x, r, y, l}) && b.left[y] == l && b.right[y] == r &&
    b.parent[y] == p && (l != -1 ==> b.parent[l] == y) && (r != -1 ==> b.parent[r] == y) && (x != -1 ==> b.parent[x] == q) &&
    (q != -1 ==> Slot(a, b, q, y, x)) && (p != -1 ==> Slot(a, b, p, z, y)) &&
    b.root == (if p == -1 then y else a.root)
  }

  lemma NearShape(a: Links, sub: seq<set<int>>, z: int, y: int)
    requires Removable(a, sub, z, y) && a.left[z] != -1 && a.right[z] == y
    ensures NearShaped(a, Removed(a, z, y), z, y)
  {
    RemovableFacts(a, sub, z, y);
    var p, l := a.parent[z], a.left[z];
    assert a.parent[y] == z;
    var t := Transplanted(a, z, y);
    TransplantMoves(a, z, y);
    assert Removed(a, z, y) == Adopted(t, y, l);
    assert l != y && y != p;
  }

  /** The links after the first step of a deep deletion (Lifted). */
  ghost predicate LiftShaped(a: Links, a1: Links, z: int, y: int)
    requires Sized(a) && Sized(a1) && |a1.key| == |a.key| && 0 <= z < |a.key| && 0 <= y < |a.key| && Linked(a, z) && Linked(a, y)
  {
    var r, q, x := a.right[z], a.parent[y], a.right[y];
    Frame(a, a1, {q, y}, {x, r}) && a1.right[y] == r && a1.left[y] == a.left[y] &&
    (r != -1 ==> a1.parent[r] == y) && (x != -1 ==> a1.parent[x] == q) &&
    0 <= q < |a.key| && Slot(a, a1, q, y, x) && a1.root == a.root
  }

  lemma LiftShape(a: Links, sub: seq<set<int>>, z: int, y: int)
    requires Removable(a, sub, z, y) && a.left[z] != -1 && a.right[z] != -1 && a.right[z] != y
    ensures LiftShaped(a, Lifted(a, y, a.right[z]), z, y)
  {
    RemovableFacts(a, sub, z, y);
    var r, x := a.right[z], a.right[y];
    TransplantMoves(a, y, x);
    assert x != r && x != y;
  }

  /** Assembles FarShaped from the shapes of the three steps, with no
      function definitions in view. */
  lemma FarCompose(a: Links, a1: Links, a2: Links, b: Links, z: int, y: int)
    requires Sized(a) && Sized(a1) && Sized(a2) && Sized(b) && |a1.key| == |a.key| && |a2.key| == |a.key| && |b.key| == |a.key|
    requires 0 <= z < |a.key| && 0 <= y < |a.key| && Linked(a, z) && Linked(a, y) && 0 <= a.left[z] < |a.key|
    requires LiftShaped(a, a1, z, y) && a1.parent[z] == a.parent[z] && Moved(a1, a2, z, y)
    requires b == a2.(left := a2.left[y := a.left[z]], parent := a2.parent[a.left[z] := y])
    requires var p, l, r, q, x := a.parent[z], a.left[z], a.right[z], a.parent[y], a.right[y];
      z != x && z != r && z != q && z != y && p != q && p != y && l != y && l != x && l != r && x != y && r != y && q != y
    ensures FarShaped(a, b, z, y)
  {
    var p, l, r, q, x := a.parent[z], a.left[z], a.right[z], a.parent[y], a.right[y];
    assert Frame(a2, b, {y}, {l});
    FrameTrans(a, a1, a2, {q, y}, {x, r}, {p}, {y}, {p, q, y}, {x, r, y, l});
    FrameTrans(a, a2, b, {p, q, y}, {x, r, y, l}, {y}, {l}, {p, q, y}, {x, r, y, l});
  }

  lemma FarShape(a: Links, sub: seq<set<int>>, z: int, y: int)
    requires Removable(a, sub, z, y) && a.left[z] != -1 && a.right[z] != -1 && a.right[z] != y
    ensures FarShaped(a, Removed(a, z, y), z, y)
  {
    RemovableFacts(a, sub, z, y);
    var p, l, r, q, x := a.parent[z], a.left[z], a.right[z], a.parent[y], a.right[y];
    var a1 := Lifted(a, y, r);
    LiftShape(a, sub, z, y);
    assert z != x && z != r && z != q && z != y;
    assert p != q && p != y && l != y && l != x && l != r;
    var a2 := Transplanted(a1, z, y);
    TransplantMoves(a1, z, y);
    assert Removed(a, z, y) == Adopted(a2, y, l);
    FarCompose(a, a1, a2, Removed(a, z, y), z, y);
  }

  /** j keeps its children in b, and they keep j as their parent. */
  ghost predicate Kept(a: Links, b: Links, j: int)
    requires Sized(a) && Sized(b) && |b.key| == |a.key| && 0 <= j < |a.key|
  {
    b.key == a.key && b.left[j] == a.left[j] && b.right[j] == a.right[j] &&
    (0 <= a.left[j] < |a.key| ==> b.parent[a.left[j]] == j) &&
    (0 <= a.right[j] < |a.key| ==> b.parent[a.right[j]] == j)
  }

  lemma KeptFromFrame(a: Links, sub: seq<set<int>>, b: Links, ps: set<int>, cs: set<int>, j: int)
    requires Sized(a) && Sized(b) && |b.key| == |a.key| && |sub| == |a.key| && 0 <= j < |a.key|
    requires Frame(a, b, ps, cs) && Local(a, sub, -1, j) && j !in ps
    requires (a.left[j] == -1 || a.left[j] !in cs) && (a.right[j] == -1 || a.right[j] !in cs)
    ensures Kept(a, b, j)
  {
  }

  /** A node above z (but not z's parent) keeps Local: its subtree and
      the one child subtree holding z lose z. */
  lemma AboveLocal(a: Links, sub: seq<set<int>>, b: Links, z: int, y: int, j: int)
    requires SearchTree.Valid(a, sub, -1) && j in Nodes(a, sub) && 0 <= z < |a.key| && 0 <= j < |a.key|
    requires z in sub[j] && j != z && y in sub[z] && (y == z || z !in sub[y]) && a.left[j] != z && a.right[j] != z
    requires Sized(b) && |b.key| == |a.key| && Kept(a, b, j)
    ensures Local(b, DeleteSub(sub, z, y), -1, j)
  {
    var s := DeleteSub(sub, z, y);
    SubClosed(a, sub, -1, a.root, j);
    assert Local(a, sub, -1, j);
    var onLeft := z in Under(sub, a.left[j]);
    var c, o := if onLeft then a.left[j] else a.right[j], if onLeft then a.right[j] else a.left[j];
    SubClosed(a, sub, -1, c, z);
    assert y in sub[c] && y != j && c != y;
    assert s[c] == sub[c] - {z};
    assert Under(s, o) == Under(sub, o) == Under(sub, o) - {z};
    LocalMinus(a, sub, b, s, -1, j, z);
  }

  /** A node strictly between y and z's right child keeps Local: its
      subtree and the one child subtree holding y lose y. */
  lemma BetweenLocal(a: Links, sub: seq<set<int>>, b: Links, z: int, y: int, j: int)
    requires SearchTree.Valid(a, sub, -1) && j in Nodes(a, sub) && 0 <= z < |a.key| && 0 <= y < |a.key| && 0 <= j < |a.key|
    requires y in sub[j] && z !in sub[j] && j != y && j != z && a.left[j] != y && a.right[j] != y
    requires Sized(b) && |b.key| == |a.key| && Kept(a, b, j)
    ensures Local(b, DeleteSub(sub, z, y), -1, j)
  {
    var s := DeleteSub(sub, z, y);
    SubClosed(a, sub, -1, a.root, j);
    assert Local(a, sub, -1, j);
    LocalMinus(a, sub, b, s, -1, j, y);
  }

  /** A node with neither z nor y below it keeps Local unchanged. */
  lemma OtherLocal(a: Links, sub: seq<set<int>>, b: Links, z: int, y: int, j: int)
    requires SearchTree.Valid(a, sub, -1) && j in Nodes(a, sub) && 0 <= z < |a.key| && 0 <= y < |a.key| && 0 <= j < |a.key|
    requires z !in sub[j] && y !in sub[j] && j != y && j != z
    requires Sized(b) && |b.key| == |a.key| && Kept(a, b, j)
    ensures Local(b, DeleteSub(sub, z, y), -1, j)
  {
    var s := DeleteSub(sub, z, y);
    SubClosed(a, sub, -1, a.root, j);
    assert Local(a, sub, -1, j);
    LocalMinus(a, sub, b, s, -1, j, z);
  }

  /** z's parent trades z for v, whose subtree is z's without z. */
  lemma AtParentLocal(a: Links, sub: seq<set<int>>, b: Links, z: int, y: int, v: int)
    requires SearchTree.Valid(a, sub, -1) && 0 <= z < |a.key| && 0 <= y < |a.key| && z in Nodes(a, sub) && y in sub[z]
    requires 0 <= a.parent[z] < |a.key| && a.parent[z] in Nodes(a, sub) && z in sub[a.parent[z]] && a.parent[z] !in sub[z]
    requires a.left[a.parent[z]] == z || a.right[a.parent[z]] == z
    requires Sized(b) && |b.key| == |a.key| && b.key == a.key && Slot(a, b, a.parent[z], z, v)
    requires Under(DeleteSub(sub, z, y), v) == sub[z] - {z} && (v == -1 || (0 <= v < |a.key| && b.parent[v] == a.parent[z] && v in DeleteSub(sub, z, y)[v]))
    requires var p := a.parent[z]; var o := if a.left[p] == z then a.right[p] else a.left[p];
      o != -1 ==> 0 <= o < |a.key| && b.parent[o] == p
    ensures Local(b, DeleteSub(sub, z, y), -1, a.parent[z])
  {
    var s, p := DeleteSub(sub, z, y), a.parent[z];
    assert Local(a, sub, -1, p);
    SubClosed(a, sub, -1, a.root, p);
    LocalSwap(a, sub, b, s, -1, p, z, v, z, a.left[p] == z);
  }

  /** y's parent q trades y for y's right child x, whose subtree is y's
      without y. */
  lemma AtQLocal(a: Links, sub: seq<set<int>>, b: Links, z: int, y: int, q: int)
    requires Removable(a, sub, z, y) && a.left[z] != -1 && a.right[z] != -1 && a.right[z] != y
    requires Sized(b) && |b.key| == |a.key| && FarShaped(a, b, z, y) && q == a.parent[y] && q in Nodes(a, sub) && 0 <= q < |a.key|
    ensures Local(b, DeleteSub(sub, z, y), -1, q)
  {
    RemovableFacts(a, sub, z, y);
    var s := DeleteSub(sub, z, y);
    var p, l, r, x := a.parent[z], a.left[z], a.right[z], a.right[y];
    SubClosed(a, sub, -1, r, q);
    assert Local(a, sub, -1, q);
    SubClosed(a, sub, -1, a.root, q);
    assert q != z && z !in sub[q];
    var o := if a.left[q] == y then a.right[q] else a.left[q];
    assert o != -1 ==> o != x && o != r && o != y && o != l && b.parent[o] == q;
    assert Under(s, x) == sub[y] - {y};
    assert Under(s, o) == Under(sub, o);
    LocalSwap(a, sub, b, s, -1, q, y, x, y, a.left[q] == y);
  }

  /** y, moved into z's place from just below it, keeps Local. */
  lemma NearAtY(a: Links, sub: seq<set<int>>, b: Links, z: int, y: int)
    requires Removable(a, sub, z, y) && a.left[z] != -1 && a.right[z] == y
    requires Sized(b) && |b.key| == |a.key| && NearShaped(a, b, z, y)
    ensures Local(b, DeleteSub(sub, z, y), -1, y)
  {
    RemovableFacts(a, sub, z, y);
    var s := DeleteSub(sub, z, y);
    var l, x := a.left[z], a.right[y];
    assert s[l] == sub[l];
    assert Under(s, x) == Under(sub, x);
  }

  /** y, moved into z's place from deeper down, keeps Local. */
  lemma FarAtY(a: Links, sub: seq<set<int>>, b: Links, z: int, y: int)
    requires Removable(a, sub, z, y) && a.left[z] != -1 && a.right[z] != -1 && a.right[z] != y
    requires Sized(b) && |b.key| == |a.key| && FarShaped(a, b, z, y)
    ensures Local(b, DeleteSub(sub, z, y), -1, y)
  {
    RemovableFacts(a, sub, z, y);
    var s := DeleteSub(sub, z, y);
    var l, r := a.left[z], a.right[z];
    assert s[l] == sub[l];
    assert s[r] == sub[r] - {y};
  }

  /** Deleting z with at most one child: every other linked node keeps
      Local. */
  lemma ShortLocal(a: Links, sub: seq<set<int>>, b: Links, z: int, j: int)
    requires Removable(a, sub, z, z) && (a.left[z] == -1 || a.right[z] == -1)
    requires Sized(b) && |b.key| == |a.key| && Moved(a, b, z, if a.left[z] == -1 then a.right[z] else a.left[z])
    requires j in Nodes(a, sub) && j != z
    ensures Local(b, DeleteSub(sub, z, z), -1, j)
  {
    RemovableFacts(a, sub, z, z);
    var s := DeleteSub(sub, z, z);
    var v, p := if a.left[z] == -1 then a.right[z] else a.left[z], a.parent[z];
    if j == p {
      ShortAtParent(a, sub, b, z);
    } else {
      assert Local(a, sub, -1, j);
      KeptFromFrame(a, sub, b, {p}, {v}, j);
      if z in sub[j] {
        AboveLocal(a, sub, b, z, z, j);
      } else {
        OtherLocal(a, sub, b, z, z, j);
      }
    }
  }

  /** Deleting z with at most one child: z's parent takes z's child. */
  lemma ShortAtParent(a: Links, sub: seq<set<int>>, b: Links, z: int)
    requires Removable(a, sub, z, z) && (a.left[z] == -1 || a.right[z] == -1) && a.parent[z] != -1
    requires Sized(b) && |b.key| == |a.key| && Moved(a, b, z, if a.left[z] == -1 then a.right[z] else a.left[z])
    ensures Local(b, DeleteSub(sub, z, z), -1, a.parent[z])
  {
    RemovableFacts(a, sub, z, z);
    var s := DeleteSub(sub, z, z);
    var v, p := if a.left[z] == -1 then a.right[z] else a.left[z], a.parent[z];
    var o := if a.left[p] == z then a.right[p] else a.left[p];
    assert Local(a, sub, -1, p);
    assert o != -1 ==> o != v;
    assert v != -1 ==> s[v] == sub[v];
    AtParentLocal(a, sub, b, z, z, v);
  }

  /** Deleting z whose right child y is the least of its right subtree:
      every other linked node keeps Local. */
  lemma NearLocal(a: Links, sub: seq<set<int>>, b: Links, z: int, y: int, j: int)
    requires Removable(a, sub, z, y) && a.left[z] != -1 && a.right[z] == y
    requires Sized(b) && |b.key| == |a.key| && NearShaped(a, b, z, y)
    requires j in Nodes(a, sub) && j != z
    ensures Local(b, DeleteSub(sub, z, y), -1, j)
  {
    if j == y {
      NearAtY(a, sub, b, z, y);
    } else if j == a.parent[z] {
      RemovableFacts(a, sub, z, y);
      assert Local(a, sub, -1, j);
      AtParentLocal(a, sub, b, z, y, y);
    } else {
      NearKept(a, sub, b, z, y, j);
    }
  }

  lemma NearKept(a: Links, sub: seq<set<int>>, b: Links, z: int, y: int, j: int)
    requires Removable(a, sub, z, y) && a.left[z] != -1 && a.right[z] == y
    requires Sized(b) && |b.key| == |a.key| && NearShaped(a, b, z, y)
    requires j in Nodes(a, sub) && j != z && j != y && j != a.parent[z]
    ensures Local(b, DeleteSub(sub, z, y), -1, j)
  {
    RemovableFacts(a, sub, z, y);
    var p, l := a.parent[z], a.left[z];
    assert Local(a, sub, -1, j);
    KeptFromFrame(a, sub, b, {p, y}, {y, l}, j);
    if z in sub[j] {
      AboveLocal(a, sub, b, z, y, j);
    } else {
      if y in sub[j] {
        ParentInSub(a, sub, -1, j, y);
      }
      OtherLocal(a, sub, b, z, y, j);
    }
  }

  /** Deleting z whose least right node y sits deeper: every other linked
      node keeps Local. */
  lemma FarLocal(a: Links, sub: seq<set<int>>, b: Links, z: int, y: int, j: int)
    requires Removable(a, sub, z, y) && a.left[z] != -1 && a.right[z] != -1 && a.right[z] != y
    requires Sized(b) && |b.key| == |a.key| && FarShaped(a, b, z, y)
    requires j in Nodes(a, sub) && j != z
    ensures Local(b, DeleteSub(sub, z, y), -1, j)
  {
    if j == y {
      FarAtY(a, sub, b, z, y);
    } else if j == a.parent[z] {
      FarAtParent(a, sub, b, z, y);
    } else if j == a.parent[y] {
      AtQLocal(a, sub, b, z, y, j);
    } else {
      FarKept(a, sub, b, z, y, j);
    }
  }

  /** z's parent takes y in z's place. */
  lemma FarAtParent(a: Links, sub: seq<set<int>>, b: Links, z: int, y: int)
    requires Removable(a, sub, z, y) && a.left[z] != -1 && a.right[z] != -1 && a.right[z] != y && a.parent[z] != -1
    requires Sized(b) && |b.key| == |a.key| && FarShaped(a, b, z, y)
    ensures Local(b, DeleteSub(sub, z, y), -1, a.parent[z])
  {
    RemovableFacts(a, sub, z, y);
    assert Local(a, sub, -1, a.parent[z]);
    AtParentLocal(a, sub, b, z, y, y);
  }

  /** Deleting z whose least right node y sits deeper: every linked node
      other than z, y and their parents keeps its links and Local. */
  lemma FarKept(a: Links, sub: seq<set<int>>, b: Links, z: int, y: int, j: int)
    requires Removable(a, sub, z, y) && a.left[z] != -1 && a.right[z] != -1 && a.right[z] != y
    requires Sized(b) && |b.key| == |a.key| && FarShaped(a, b, z, y)
    requires j in Nodes(a, sub) && j != z && j != y && j != a.parent[z] && j != a.parent[y]
    ensures Local(b, DeleteSub(sub, z, y), -1, j)
  {
    RemovableFacts(a, sub, z, y);
    var p, l, r, q, x := a.parent[z], a.left[z], a.right[z], a.parent[y], a.right[y];
    assert Local(a, sub, -1, j);
    KeptFromFrame(a, sub, b, {p, q, y}, {x, r, y, l}, j);
    if z in sub[j] {
      AboveLocal(a, sub, b, z, y, j);
    } else if y in sub[j] {
      BetweenLocal(a, sub, b, z, y, j);
    } else {
      OtherLocal(a, sub, b, z, y, j);
    }
  }

  /** The root and the node set after Delete(z), where v took z's place. */
  lemma DeleteTop(a: Links, sub: seq<set<int>>, b: Links, z: int, y: int, v: int)
    requires Removable(a, sub, z, y) && Sized(b) && |b.key| == |a.key|
    requires b.root == (if a.parent[z] == -1 then v else a.root)
    requires a.parent[z] == -1 ==> Under(DeleteSub(sub, z, y), v) == sub[z] - {z}
    requires a.parent[z] == -1 ==> v == -1 || (0 <= v < |a.key| && v in DeleteSub(sub, z, y)[v] && b.parent[v] == -1)
    requires a.parent[z] != -1 ==> b.parent[a.root] == -1
    ensures var s := DeleteSub(sub, z, y);
      Nodes(b, s) == Nodes(a, sub) - {z} &&
      (b.root == -1 || (0 <= b.root < |b.key| && b.root in s[b.root] && b.parent[b.root] == -1)) &&
      forall j :: j in Nodes(b, s) ==> 0 <= j < |b.key| && j != -1 && s[j] <= Nodes(b, s)
  {
    RemovableFacts(a, sub, z, y);
    var s := DeleteSub(sub, z, y);
    if a.parent[z] == -1 {
      assert Nodes(a, sub) == sub[z];
    } else {
      assert z in sub[a.root] && a.root != z;
    }
    assert Nodes(b, s) == Nodes(a, sub) - {z};
    forall j | j in Nodes(b, s)
      ensures 0 <= j < |b.key| && j != -1 && s[j] <= Nodes(b, s)
    {
      if j == y {
        SubClosed(a, sub, -1, a.root, z);
      } else {
        assert sub[j] <= Nodes(a, sub);
      }
    }
  }

  lemma DeleteShort(a: Links, sub: seq<set<int>>, z: int)
    requires Removable(a, sub, z, z) && (a.left[z] == -1 || a.right[z] == -1)
    ensures SearchTree.Valid(Removed(a, z, z), DeleteSub(sub, z, z), -1)
    ensures Nodes(Removed(a, z, z), DeleteSub(sub, z, z)) == Nodes(a, sub) - {z}
  {
    RemovableFacts(a, sub, z, z);
    var b, s := Removed(a, z, z), DeleteSub(sub, z, z);
    var v := if a.left[z] == -1 then a.right[z] else a.left[z];
    TransplantMoves(a, z, v);
    if a.parent[z] != -1 {
      assert a.root != v;
    } else if v != -1 {
      assert s[v] == sub[v];
    }
    DeleteTop(a, sub, b, z, z, v);
    forall j | j in Nodes(b, s) && 0 <= j < |b.key|
      ensures Local(b, s, -1, j)
    {
      ShortLocal(a, sub, b, z, j);
    }
  }

  lemma DeleteNear(a: Links, sub: seq<set<int>>, z: int, y: int)
    requires Removable(a, sub, z, y) && a.left[z] != -1 && a.right[z] == y
    ensures SearchTree.Valid(Removed(a, z, y), DeleteSub(sub, z, y), -1)
    ensures Nodes(Removed(a, z, y), DeleteSub(sub, z, y)) == Nodes(a, sub) - {z}
  {
    RemovableFacts(a, sub, z, y);
    var b, s := Removed(a, z, y), DeleteSub(sub, z, y);
    NearShape(a, sub, z, y);
    if a.parent[z] != -1 {
      assert a.root != y && a.root != a.left[z];
    }
    DeleteTop(a, sub, b, z, y, y);
    forall j | j in Nodes(b, s) && 0 <= j < |b.key|
      ensures Local(b, s, -1, j)
    {
      NearLocal(a, sub, b, z, y, j);
    }
  }

  lemma DeleteFar(a: Links, sub: seq<set<int>>, z: int, y: int)
    requires Removable(a, sub, z, y) && a.left[z] != -1 && a.right[z] != -1 && a.right[z] != y
    ensures SearchTree.Valid(Removed(a, z, y), DeleteSub(sub, z, y), -1)
    ensures Nodes(Removed(a, z, y), DeleteSub(sub, z, y)) == Nodes(a, sub) - {z}
  {
    var b, s := Removed(a, z, y), DeleteSub(sub, z, y);
    FarShape(a, sub, z, y);
    FarTop(a, sub, b, z, y);
    forall j | j in Nodes(b, s) && 0 <= j < |b.key|
      ensures Local(b, s, -1, j)
    {
      FarLocal(a, sub, b, z, y, j);
    }
  }

  lemma FarTop(a: Links, sub: seq<set<int>>, b: Links, z: int, y: int)
    requires Removable(a, sub, z, y) && a.left[z] != -1 && a.right[z] != -1 && a.right[z] != y
    requires Sized(b) && |b.key| == |a.key| && FarShaped(a, b, z, y)
    ensures var s := DeleteSub(sub, z, y);
      Nodes(b, s) == Nodes(a, sub) - {z} &&
      (b.root == -1 || (0 <= b.root < |b.key| && b.root in s[b.root] && b.parent[b.root] == -1)) &&
      forall j :: j in Nodes(b, s) ==> 0 <= j < |b.key| && j != -1 && s[j] <= Nodes(b, s)
  {
    RemovableFacts(a, sub, z, y);
    if a.parent[z] != -1 {
      assert a.root != y && a.root != a.left[z] && a.root != a.right[z] && a.root != a.right[y];
    }
    DeleteTop(a, sub, b, z, y, y);
  }

  /** Delete keeps the keys distinct. */
  lemma DeleteValid(a: Links, sub: seq<set<int>>, z: int, y: int)
    requires Removable(a, sub, z, y) && Distinct(a, sub)
    ensures SearchTree.Valid(Removed(a, z, y), DeleteSub(sub, z, y), -1)
    ensures Nodes(Removed(a, z, y), DeleteSub(sub, z, y)) == Nodes(a, sub) - {z}
    ensures Distinct(Removed(a, z, y), DeleteSub(sub, z, y))
  {
    DeleteShape(a, sub, z, y);
  }

  /** Delete keeps the tree a valid search tree and removes exactly z from
      its nodes. */
  lemma DeleteShape(a: Links, sub: seq<set<int>>, z: int, y: int)
    requires Removable(a, sub, z, y)
    ensures SearchTree.Valid(Removed(a, z, y), DeleteSub(sub, z, y), -1)
    ensures Nodes(Removed(a, z, y), DeleteSub(sub, z, y)) == Nodes(a, sub) - {z}
  {
    if a.left[z] == -1 || a.right[z] == -1 {
      DeleteShort(a, sub, z);
    } else if a.right[z] == y {
      DeleteNear(a, sub, z, y);
    } else {
      DeleteFar(a, sub, z, y);
    }
  }

  /** A linked node's links are nodes of the arena or nil. */
  lemma LinkedNode(a: Links, sub: seq<set<int>>, i: int)
    requires SearchTree.Valid(a, sub, -1) && i in Nodes(a, sub)
    ensures 0 <= i < |a.key| && Linked(a, i)
  {
    assert Local(a, sub, -1, i);
    if i != a.root {
      ParentLink(a, sub, -1, i);
    }
  }

  class Tree {
    var key: seq<int>
    var left: seq<int>
    var right: seq<int>
    var parent: seq<int>
    var root: int
    ghost var sub: seq<set<int>>

    function View(): Links
      reads this
    {
      Links(key, left, right, parent, root)
    }

    /** The nodes linked into the tree. */
    ghost function Members(): set<int>
      reads this
    {
      Nodes(View(), sub)
    }

    ghost predicate Valid()
      reads this
    {
      SearchTree.Valid(View(), sub, -1) && Distinct(View(), sub)
    }

    /** NewBinarySearchTree: an empty tree. */
    constructor ()
      ensures Valid() && Members() == {} && key == []
    {
      key, left, right, parent, root := [], [], [], [], -1;
      sub := [];
    }

    /** NewBSTNode: a fresh, unlinked node holding k. */
    method NewNode(k: int) returns (x: int)
      requires Valid()
      modifies this
      ensures Valid() && Members() == old(Members()) && x == old(|key|)
      ensures key == old(key) + [k] && left == old(left) + [-1] && right == old(right) + [-1] && parent == old(parent) + [-1]
      ensures root == old(root)
    {
      ghost var a0, s0 := View(), sub;
      x := |key|;
      key, left, right, parent := key + [k], left + [-1], right + [-1], parent + [-1];
      sub := sub + [{}];
      Extend(a0, s0, -1, k);
    }

    /** Search: the node holding k, -1 when there is none. */
    method Search(k: int) returns (n: int)
      requires Valid()
      ensures n != -1 ==> n in Members() && key[n] == k
      ensures n == -1 <==> !Holds(View(), sub, k)
    {
      var pre;
      n, pre := NodeSearch(View(), sub, -1, root, k);
    }

    /** Length: the number of nodes a full walk from the root visits, which
        is the number of linked nodes. */
    function Length(): (n: int)
      reads this
      requires Valid()
      ensures n == |Members()|
    {
      var walk := Visits(View(), sub, -1, root, Never);
      WalkCount(View(), sub, -1, root);
      WalkInOrder(View(), sub, -1, root, Never);
      StripNoNil(walk, -1);
      |walk|
    }

    /** Insert: wraps k in a new node and inserts it; the node is returned
        even when an equal key kept it out of the tree. */
    method Insert(k: int) returns (x: int)
      requires Valid()
      modifies this
      ensures Valid() && x == old(|key|) && key == old(key) + [k]
      ensures Holds(old(View()), old(sub), k) ==> Members() == old(Members())
      ensures !Holds(old(View()), old(sub), k) ==> Members() == old(Members()) + {x}
    {
      ghost var a0, s0 := View(), sub;
      x := NewNode(k);
      HoldsExtend(a0, s0, View(), sub, k);
      InsertNode(x);
    }

    /** insert: links the unlinked node x where a search for its key falls
        off the tree, unless a linked node already holds that key, in which
        case nothing changes. */
    method InsertNode(x: int)
      requires Valid() && 0 <= x < |key| && x !in Members() && left[x] == -1 && right[x] == -1
      modifies this
      ensures Valid() && key == old(key)
      ensures Holds(old(View()), old(sub), key[x]) ==> View() == old(View()) && Members() == old(Members())
      ensures !Holds(old(View()), old(sub), key[x]) ==> Members() == old(Members()) + {x}
    {
      var n, p := NodeSearch(View(), sub, -1, root, key[x]);
      if n != -1 {
        return;
      }
      ghost var a0, s0 := View(), sub;
      if p != -1 {
        BoundedFits(a0, s0, root, p, key[x]);
      }
      parent := parent[x := p];
      if p == -1 {
        root := x;
      } else if key[x] < key[p] {
        left := left[p := x];
      } else {
        right := right[p := x];
      }
      sub := AttachSub(s0, x, p);
      assert View() == Attached(a0, x, p);
      AttachValid(a0, s0, x, p);
    }

    /** Transplant: v takes u's place below u's parent (or as the root),
        and v, when not nil, takes u's parent as its own. */
    method Transplant(u: int, v: int)
      requires Sized(View()) && 0 <= u < |key| && -1 <= v < |key| && -1 <= parent[u] < |key|
      modifies this
      ensures View() == Transplanted(old(View()), u, v) && sub == old(sub)
    {
      var p := parent[u];
      if p == -1 {
        root := v;
      } else if left[p] == u {
        left := left[p := v];
      } else {
        right := right[p := v];
      }
      if v != -1 {
        parent := parent[v := p];
      }
    }

    /** The two-children case of Delete: y, the least node of z's right
        subtree, leaves its place to its right child (unless it is z's own
        right child), then takes z's place and z's left child. */
    method Splice(z: int, y: int)
      requires Spliceable(View(), z, y)
      modifies this
      ensures View() == Removed(old(View()), z, y) && sub == old(sub)
    {
      if parent[y] != z {
        Lift(y, right[z]);
      }
      Transplant(z, y);
      Adopt(y, left[z]);
    }

    /** y leaves its place to its right child and takes r as its new right
        child. */
    method Lift(y: int, r: int)
      requires Sized(View()) && 0 <= y < |key| && Linked(View(), y) && 0 <= r < |key|
      modifies this
      ensures View() == Lifted(old(View()), y, r) && sub == old(sub)
    {
      Transplant(y, right[y]);
      right := right[y := r];
      parent := parent[r := y];
    }

    /** y takes l as its left child. */
    method Adopt(y: int, l: int)
      requires Sized(View()) && 0 <= y < |key| && 0 <= l < |key|
      modifies this
      ensures View() == Adopted(old(View()), y, l) && sub == old(sub)
    {
      left := left[y := l];
      parent := parent[l := y];
    }

    /** Delete: unlinks node z. A node with at most one child gives its
        place to that child; otherwise the least node of its right subtree
        leaves its own place to its right child and takes z's place.
        Reading the links of nil panics. A node that was never linked (the
        one Insert returns when an equal key kept it out) has neither
        children nor a parent, so it "gives its place" to nil as the root:
        the whole tree is dropped. */
    method Delete(z: int) returns (panicked: bool)
      requires Valid() && -1 <= z < |key|
      requires z == -1 || z in Members() || (left[z] == -1 && right[z] == -1 && parent[z] == -1)
      modifies this
      ensures panicked <==> z == -1
      ensures Valid() && key == old(key)
      ensures panicked ==> View() == old(View()) && Members() == old(Members())
      ensures z in old(Members()) ==> Members() == old(Members()) - {z}
      ensures z != -1 && z !in old(Members()) ==> root == -1 && Members() == {}
    {
      if z == -1 {
        return true;
      }
      panicked := false;
      ghost var a0, s0 := View(), sub;
      ghost var linked := z in Members();
      if linked {
        LinkedNode(a0, s0, z);
      }
      ghost var y := z;
      if left[z] == -1 {
        Transplant(z, right[z]);
      } else if right[z] == -1 {
        Transplant(z, left[z]);
      } else {
        assert Local(a0, s0, -1, z);
        var m := Minimum(View(), sub, -1, right[z]);
        SubClosed(a0, s0, -1, right[z], m);
        LinkedNode(a0, s0, m);
        y := m;
        RemovableSplice(a0, s0, z, m);
        Splice(z, m);
      }
      if linked {
        sub := DeleteSub(s0, z, y);
        assert View() == Removed(a0, z, y);
        DeleteValid(a0, s0, z, y);
      }
    }
  }

  /** Appending a node changes no linked node's key. */
  lemma HoldsExtend(a: Links, sub: seq<set<int>>, b: Links, s: seq<set<int>>, k: int)
    requires Nodes(b, s) == Nodes(a, sub) && |a.key| <= |b.key| && b.key[..|a.key|] == a.key
    requires forall i :: i in Nodes(a, sub) ==> 0 <= i < |a.key|
    ensures Holds(b, s, k) <==> Holds(a, sub, k)
  {
    if Holds(b, s, k) {
      var i :| i in Nodes(b, s) && 0 <= i < |b.key| && b.key[i] == k;
      assert a.key[i] == b.key[..|a.key|][i];
    }
    if Holds(a, sub, k) {
      var i :| i in Nodes(a, sub) && 0 <= i < |a.key| && a.key[i] == k;
      assert b.key[i] == b.key[..|a.key|][i];
    }
  }

  /** Appending an unlinked node keeps a tree valid and its keys distinct. */
  lemma Extend(a: Links, sub: seq<set<int>>, nil: int, k: int)
    requires SearchTree.Valid(a, sub, nil) && Distinct(a, sub)
    ensures var b := Appended(a, k);
      SearchTree.Valid(b, sub + [{}], nil) && Distinct(b, sub + [{}]) && Nodes(b, sub + [{}]) == Nodes(a, sub)
  {
    AppendValid(a, sub, nil, k);
  }
}
