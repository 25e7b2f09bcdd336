/** The colour rules of the red-black tree of tree/redblacktree.go and the
    steps of its two fixups, on values.

    Every arena node has a colour, and a ghost black height: the number of
    black nodes on a path from below the node down to the sentinel, the
    sentinel included. A node is balanced when both of its children report
    its black height (Through), and a red node wants black children. The
    insert fixup runs while one red node z has a red parent (Fixing); the
    delete fixup while one node x is a black short of its sibling (DelFix).
    Each case of either loop is one lemma that takes the invariant across
    the case's recolouring and rotation. */
module RedBlackColor {
  import opened SearchTree
  import opened RedBlackLinks
  import opened RedBlackRotate

  datatype Color = Red | Black

  /** A colour and a black height per arena node; the sentinel rbNilNode is
      black, with nothing below it. */
  ghost predicate Colored(a: Links, color: seq<Color>, bh: seq<nat>)
  {
    Sized(a) && |a.key| > 0 && |color| == |a.key| && |bh| == |a.key| &&
    color[Sentinel] == Black && bh[Sentinel] == 0
  }

  /** The black height c's parent sees through c: c's own, plus one when c
      is black. */
  function Through(color: seq<Color>, bh: seq<nat>, c: int): nat
    requires 0 <= c < |color| && |bh| == |color|
  {
    bh[c] + if color[c] == Black then 1 else 0
  }

  /** The colour rules at node j, with three exceptions a fixup needs: the
      node d, whose children need not agree on its black height, the child
      z, which may be red below a red node, and the node e, which may be
      red above a red child. -1 turns an exception off. */
  ghost predicate NodeOk(a: Links, color: seq<Color>, bh: seq<nat>, j: int, d: int, z: int, e: int)
    requires Colored(a, color, bh) && 0 <= j < |a.key|
  {
    var l, r := a.left[j], a.right[j];
    0 <= l < |a.key| && 0 <= r < |a.key| &&
    (j != d ==> Through(color, bh, l) == bh[j] && Through(color, bh, r) == bh[j]) &&
    (color[j] == Red && j != e ==> (l == z || color[l] == Black) && (r == z || color[r] == Black))
  }

  /** The colour rules at every node, with the given exceptions. */
  ghost predicate AllOk(a: Links, sub: seq<set<int>>, color: seq<Color>, bh: seq<nat>, d: int, z: int, e: int)
    requires Colored(a, color, bh)
  {
    forall j {:trigger NodeOk(a, color, bh, j, d, z, e)} :: j in Nodes(a, sub) && 0 <= j < |a.key| ==> NodeOk(a, color, bh, j, d, z, e)
  }

  /** A red-black tree: a search tree whose root is black, where no red
      node has a red child and both children of every node see the same
      black height. */
  ghost predicate RedBlack(a: Links, sub: seq<set<int>>, color: seq<Color>, bh: seq<nat>)
  {
    Valid(a, sub, Sentinel) && Colored(a, color, bh) && color[a.root] == Black &&
    AllOk(a, sub, color, bh, -1, -1, -1)
  }

  /** The invariant of the insert fixup: a red-black tree but for the red
      node z, which may have a red parent and may be a red root. */
  ghost predicate Fixing(a: Links, sub: seq<set<int>>, color: seq<Color>, bh: seq<nat>, z: int)
  {
    Valid(a, sub, Sentinel) && Colored(a, color, bh) && z in Nodes(a, sub) && 0 < z < |a.key| &&
    color[z] == Red && (color[a.root] == Black || a.root == z) &&
    AllOk(a, sub, color, bh, -1, z, -1)
  }

  /** insert colours the new node red and gives it black height 1 (both its
      children are the sentinel): the tree is then in the insert fixup's
      invariant with z the new node. */
  lemma InsertStart(a: Links, sub: seq<set<int>>, color: seq<Color>, bh: seq<nat>, x: int, p: int)
    requires RedBlack(a, sub, color, bh) && Attachable(a, sub, x, p)
    ensures Fixing(Attached(a, x, p), AttachSub(sub, x, p), color[x := Red], bh[x := 1], x)
  {
    AttachShape(a, sub, x, p);
    var b, s, c, h := Attached(a, x, p), AttachSub(sub, x, p), color[x := Red], bh[x := 1];
    forall j | j in Nodes(b, s) && 0 <= j < |b.key|
      ensures NodeOk(b, c, h, j, -1, x, -1)
    {
      if j != x {
        assert NodeOk(a, color, bh, j, -1, -1, -1);
        if j != p {
          assert Local(a, sub, Sentinel, j);
        }
      }
    }
  }

  /** The insert fixup's loop runs: z's parent is red. */
  ghost predicate Climbing(a: Links, sub: seq<set<int>>, color: seq<Color>, bh: seq<nat>, z: int)
  {
    Fixing(a, sub, color, bh, z) && 0 <= a.parent[z] < |a.key| && color[a.parent[z]] == Red
  }

  /** z, its parent p and its grandparent g are distinct real nodes, each
      a child of the next, and g's links are arena nodes. */
  ghost predicate Relatives(a: Links, sub: seq<set<int>>, z: int)
  {
    Valid(a, sub, Sentinel) && z in Nodes(a, sub) && 0 < z < |a.key| &&
    var p := a.parent[z];
    0 < p < |a.key| && p in Nodes(a, sub) && (a.left[p] == z || a.right[p] == z) && z != p &&
    var g := a.parent[p];
    0 < g < |a.key| && g in Nodes(a, sub) && (a.left[g] == p || a.right[g] == p) && g != p && g != z &&
    Linked(a, g) && z in sub[p] && p in sub[g] && g !in sub[p]
  }

  /** The sibling of z's parent. */
  function Uncle(a: Links, z: int): int
    requires Sized(a) && 0 <= z < |a.key| && 0 <= a.parent[z] < |a.key| && 0 <= a.parent[a.parent[z]] < |a.key|
  {
    var p := a.parent[z];
    var g := a.parent[p];
    if p == a.left[g] then a.right[g] else a.left[g]
  }

  /** While the loop runs, z has a grandparent, which is black. */
  lemma ClimbRelatives(a: Links, sub: seq<set<int>>, color: seq<Color>, bh: seq<nat>, z: int)
    requires Climbing(a, sub, color, bh, z)
    ensures Relatives(a, sub, z) && color[a.parent[a.parent[z]]] == Black
  {
    NodeLinked(a, sub, z);
    var p := a.parent[z];
    assert p != Sentinel;
    NodeLinked(a, sub, p);
    assert Local(a, sub, Sentinel, p);
    var g := a.parent[p];
    assert g != Sentinel;
    NodeLinked(a, sub, g);
    assert Local(a, sub, Sentinel, g);
    assert NodeOk(a, color, bh, g, -1, z, -1);
  }

  /** The first case of insertFixup applies: z's parent and uncle are red. */
  ghost predicate RedUncle(a: Links, sub: seq<set<int>>, color: seq<Color>, bh: seq<nat>, z: int)
  {
    Climbing(a, sub, color, bh, z) && Relatives(a, sub, z) && color[Uncle(a, z)] == Red
  }

  /** The first case of insertFixup, on either side: z's uncle is red too.
      The parent and the uncle turn black and the grandparent red, whose
      black height grows by one; the grandparent becomes z, higher up. */
  lemma InsertRecolor(a: Links, sub: seq<set<int>>, color: seq<Color>, bh: seq<nat>, z: int)
    requires RedUncle(a, sub, color, bh, z)
    ensures var p, u := a.parent[z], Uncle(a, z);
      var g := a.parent[p];
      Fixing(a, sub, color[p := Black][u := Black][g := Red], bh[g := bh[g] + 1], g) &&
      |Under(sub, z)| < |Under(sub, g)|
  {
    var p, u := a.parent[z], Uncle(a, z);
    var g := a.parent[p];
    ClimbRelatives(a, sub, color, bh, z);
    Shrinks(a, sub, Sentinel, g);
    Shrinks(a, sub, Sentinel, p);
    RecolorAll(a, sub, color, bh, z);
  }

  lemma RecolorAll(a: Links, sub: seq<set<int>>, color: seq<Color>, bh: seq<nat>, z: int)
    requires RedUncle(a, sub, color, bh, z)
    ensures var p, u := a.parent[z], Uncle(a, z);
      var g := a.parent[p];
      Colored(a, color[p := Black][u := Black][g := Red], bh[g := bh[g] + 1]) &&
      AllOk(a, sub, color[p := Black][u := Black][g := Red], bh[g := bh[g] + 1], -1, g, -1)
  {
    var p, u := a.parent[z], Uncle(a, z);
    var g := a.parent[p];
    var c, h := color[p := Black][u := Black][g := Red], bh[g := bh[g] + 1];
    forall j | j in Nodes(a, sub) && 0 <= j < |a.key|
      ensures NodeOk(a, c, h, j, -1, g, -1)
    {
      if j == g {
        RecolorAtG(a, sub, color, bh, z);
      } else if j == z {
        RecolorAtZ(a, sub, color, bh, z);
      } else if j == p {
        RecolorAtP(a, sub, color, bh, z);
      } else if j == u {
        RecolorAtU(a, sub, color, bh, z);
      } else {
        RecolorFar(a, sub, color, bh, z, j);
      }
    }
  }

  /** The uncle is a real node below g, apart from z and p. */
  lemma UncleFacts(a: Links, sub: seq<set<int>>, color: seq<Color>, bh: seq<nat>, z: int)
    requires RedUncle(a, sub, color, bh, z)
    ensures var p, u := a.parent[z], Uncle(a, z);
      var g := a.parent[p];
      u in Nodes(a, sub) && a.parent[u] == g && u != z && u != p && u != g && Linked(a, u) &&
      g !in sub[u] && z !in sub[u] && p !in sub[u]
  {
    var p, u := a.parent[z], Uncle(a, z);
    var g := a.parent[p];
    assert Local(a, sub, Sentinel, g);
    assert Local(a, sub, Sentinel, p);
    NodeLinked(a, sub, u);
  }

  /** The colour rules at j survive a change of colours, black heights
      and links that leaves j's links, the heights j's children report,
      and (when j must be checked as a red node) the colours of its
      children alone, and asks no more of j than before. */
  lemma OkKept(a: Links, color: seq<Color>, bh: seq<nat>, b: Links, c: seq<Color>, h: seq<nat>, j: int, d: int, z: int, e: int, d2: int, z2: int, e2: int)
    requires Colored(a, color, bh) && Colored(b, c, h) && |b.key| == |a.key| && 0 <= j < |a.key|
    requires NodeOk(a, color, bh, j, d, z, e) && b.left[j] == a.left[j] && b.right[j] == a.right[j]
    requires var l, r := a.left[j], a.right[j];
      Through(c, h, l) == Through(color, bh, l) && Through(c, h, r) == Through(color, bh, r) &&
      (j != d2 ==> j != d && h[j] == bh[j]) &&
      (c[j] == Red && j != e2 ==>
        color[j] == Red && j != e &&
        (l == z2 || c[l] == Black || (l != z && c[l] == color[l])) &&
        (r == z2 || c[r] == Black || (r != z && c[r] == color[r])))
    ensures NodeOk(b, c, h, j, d2, z2, e2)
  {
  }

  lemma RecolorAtZ(a: Links, sub: seq<set<int>>, color: seq<Color>, bh: seq<nat>, z: int)
    requires RedUncle(a, sub, color, bh, z)
    ensures var p, u := a.parent[z], Uncle(a, z);
      var g := a.parent[p];
      NodeOk(a, color[p := Black][u := Black][g := Red], bh[g := bh[g] + 1], z, -1, g, -1)
  {
    var p, u := a.parent[z], Uncle(a, z);
    var g := a.parent[p];
    var c, h := color[p := Black][u := Black][g := Red], bh[g := bh[g] + 1];
    UncleFacts(a, sub, color, bh, z);
    assert NodeOk(a, color, bh, z, -1, z, -1);
    assert Local(a, sub, Sentinel, z);
    assert Local(a, sub, Sentinel, p);
    var l, r := a.left[z], a.right[z];
    assert Under(sub, l) <= sub[p] && Under(sub, r) <= sub[p];
    assert l != p && l != u && l != g && r != p && r != u && r != g && l != z && r != z;
    OkKept(a, color, bh, a, c, h, z, -1, z, -1, -1, g, -1);
  }

  lemma RecolorAtP(a: Links, sub: seq<set<int>>, color: seq<Color>, bh: seq<nat>, z: int)
    requires RedUncle(a, sub, color, bh, z)
    ensures var p, u := a.parent[z], Uncle(a, z);
      var g := a.parent[p];
      NodeOk(a, color[p := Black][u := Black][g := Red], bh[g := bh[g] + 1], p, -1, g, -1)
  {
    var p, u := a.parent[z], Uncle(a, z);
    var g := a.parent[p];
    var c, h := color[p := Black][u := Black][g := Red], bh[g := bh[g] + 1];
    UncleFacts(a, sub, color, bh, z);
    assert NodeOk(a, color, bh, p, -1, z, -1);
    assert Local(a, sub, Sentinel, p);
    var l, r := a.left[p], a.right[p];
    assert l != p && l != u && l != g && r != p && r != u && r != g;
    OkKept(a, color, bh, a, c, h, p, -1, z, -1, -1, g, -1);
  }

  lemma RecolorAtU(a: Links, sub: seq<set<int>>, color: seq<Color>, bh: seq<nat>, z: int)
    requires RedUncle(a, sub, color, bh, z)
    ensures var p, u := a.parent[z], Uncle(a, z);
      var g := a.parent[p];
      0 <= u < |a.key| && NodeOk(a, color[p := Black][u := Black][g := Red], bh[g := bh[g] + 1], u, -1, g, -1)
  {
    var p, u := a.parent[z], Uncle(a, z);
    var g := a.parent[p];
    var c, h := color[p := Black][u := Black][g := Red], bh[g := bh[g] + 1];
    UncleFacts(a, sub, color, bh, z);
    assert NodeOk(a, color, bh, u, -1, z, -1);
    assert Local(a, sub, Sentinel, u);
    var l, r := a.left[u], a.right[u];
    assert Under(sub, l) <= sub[u] && Under(sub, r) <= sub[u];
    assert l != p && l != u && l != g && r != p && r != u && r != g;
    OkKept(a, color, bh, a, c, h, u, -1, z, -1, -1, g, -1);
  }

  lemma RecolorAtG(a: Links, sub: seq<set<int>>, color: seq<Color>, bh: seq<nat>, z: int)
    requires RedUncle(a, sub, color, bh, z)
    ensures var p, u := a.parent[z], Uncle(a, z);
      var g := a.parent[p];
      NodeOk(a, color[p := Black][u := Black][g := Red], bh[g := bh[g] + 1], g, -1, g, -1)
  {
    var p, u := a.parent[z], Uncle(a, z);
    var g := a.parent[p];
    ClimbRelatives(a, sub, color, bh, z);
    UncleFacts(a, sub, color, bh, z);
    assert NodeOk(a, color, bh, p, -1, z, -1);
    assert NodeOk(a, color, bh, u, -1, z, -1);
    assert NodeOk(a, color, bh, g, -1, z, -1);
  }

  lemma RecolorFar(a: Links, sub: seq<set<int>>, color: seq<Color>, bh: seq<nat>, z: int, j: int)
    requires RedUncle(a, sub, color, bh, z)
    requires j in Nodes(a, sub) && j != z && j != a.parent[z] && j != Uncle(a, z) && j != a.parent[a.parent[z]]
    ensures var p, u := a.parent[z], Uncle(a, z);
      var g := a.parent[p];
      NodeOk(a, color[p := Black][u := Black][g := Red], bh[g := bh[g] + 1], j, -1, g, -1)
  {
    var p, u := a.parent[z], Uncle(a, z);
    var g := a.parent[p];
    var c, h := color[p := Black][u := Black][g := Red], bh[g := bh[g] + 1];
    ClimbRelatives(a, sub, color, bh, z);
    UncleFacts(a, sub, color, bh, z);
    assert NodeOk(a, color, bh, j, -1, z, -1);
    assert Local(a, sub, Sentinel, j);
    var l, r := a.left[j], a.right[j];
    assert l != p && l != u && r != p && r != u && l != z && r != z;
    assert l == g || r == g ==> color[g] == Black;
    OkKept(a, color, bh, a, c, h, j, -1, z, -1, -1, g, -1);
  }

  /** The black-uncle cases of insertFixup, by the side p hangs on below g
      and the side z hangs on below p. */
  ghost predicate BlackUncle(a: Links, sub: seq<set<int>>, color: seq<Color>, bh: seq<nat>, z: int)
  {
    Climbing(a, sub, color, bh, z) && Relatives(a, sub, z) && color[Uncle(a, z)] == Black
  }

  /** p is g's left child and z is p's right child: insertFixup rotates p
      left. */
  ghost predicate InnerLeft(a: Links, sub: seq<set<int>>, color: seq<Color>, bh: seq<nat>, z: int)
  {
    BlackUncle(a, sub, color, bh, z) && a.parent[z] == a.left[a.parent[a.parent[z]]] && z == a.right[a.parent[z]]
  }

  /** p is g's left child and z is p's left child: insertFixup recolours
      and rotates g right. */
  ghost predicate OuterLeft(a: Links, sub: seq<set<int>>, color: seq<Color>, bh: seq<nat>, z: int)
  {
    BlackUncle(a, sub, color, bh, z) && a.parent[z] == a.left[a.parent[a.parent[z]]] && z == a.left[a.parent[z]]
  }

  ghost predicate InnerRight(a: Links, sub: seq<set<int>>, color: seq<Color>, bh: seq<nat>, z: int)
  {
    BlackUncle(a, sub, color, bh, z) && a.parent[z] == a.right[a.parent[a.parent[z]]] && z == a.left[a.parent[z]]
  }

  ghost predicate OuterRight(a: Links, sub: seq<set<int>>, color: seq<Color>, bh: seq<nat>, z: int)
  {
    BlackUncle(a, sub, color, bh, z) && a.parent[z] == a.right[a.parent[a.parent[z]]] && z == a.right[a.parent[z]]
  }

  /** In the inner case, z's parent has a real right child and can be
      rotated left. */
  lemma InnerRotatable(a: Links, sub: seq<set<int>>, color: seq<Color>, bh: seq<nat>, z: int)
    requires InnerLeft(a, sub, color, bh, z)
    ensures LeftRotatable(a, sub, a.parent[z])
  {
    RotatableNode(a, sub, a.parent[z]);
  }

  /** The inner case on the left: after p is rotated left, p is z, the left
      child of its parent, and the outer case applies. */
  lemma InsertInner(a: Links, sub: seq<set<int>>, color: seq<Color>, bh: seq<nat>, z: int)
    requires InnerLeft(a, sub, color, bh, z)
    ensures LeftRotatable(a, sub, a.parent[z])
    ensures OuterLeft(LeftRotated(a, a.parent[z]), LeftRotSub(a, sub, a.parent[z]), color, bh, a.parent[z])
  {
    InnerRotatable(a, sub, color, bh, z);
    var p := a.parent[z];
    LeftRotatedShaped(a, sub, p);
    InnerShaped(a, sub, color, bh, LeftRotated(a, p), z);
  }

  /** The inner case with b standing for the rotated links. */
  ghost predicate InnerCase(a: Links, sub: seq<set<int>>, color: seq<Color>, bh: seq<nat>, b: Links, z: int)
  {
    InnerLeft(a, sub, color, bh, z) && LeftRotatable(a, sub, a.parent[z]) && LeftShaped(a, b, a.parent[z])
  }

  lemma InnerShaped(a: Links, sub: seq<set<int>>, color: seq<Color>, bh: seq<nat>, b: Links, z: int)
    requires InnerLeft(a, sub, color, bh, z) && LeftRotatable(a, sub, a.parent[z]) && LeftShaped(a, b, a.parent[z])
    ensures OuterLeft(b, LeftRotSub(a, sub, a.parent[z]), color, bh, a.parent[z])
  {
    var p := a.parent[z];
    var g := a.parent[p];
    var s := LeftRotSub(a, sub, p);
    assert InnerCase(a, sub, color, bh, b, z);
    ClimbRelatives(a, sub, color, bh, z);
    RotateFacts(a, sub, p);
    ShapedValid(a, sub, b, p);
    InnerRelatives(a, sub, color, bh, b, z);
    InnerAll(a, sub, color, bh, b, z);
  }

  lemma InnerRelatives(a: Links, sub: seq<set<int>>, color: seq<Color>, bh: seq<nat>, b: Links, z: int)
    requires InnerCase(a, sub, color, bh, b, z)
    ensures Relatives(b, LeftRotSub(a, sub, a.parent[z]), a.parent[z])
  {
    var p := a.parent[z];
    var g := a.parent[p];
    var s := LeftRotSub(a, sub, p);
    ClimbRelatives(a, sub, color, bh, z);
    RotateFacts(a, sub, p);
    ShapedValid(a, sub, b, p);
    assert Local(a, sub, Sentinel, g);
    assert Local(a, sub, Sentinel, p);
    NodeLinked(a, sub, g);
  }

  lemma InnerAll(a: Links, sub: seq<set<int>>, color: seq<Color>, bh: seq<nat>, b: Links, z: int)
    requires InnerCase(a, sub, color, bh, b, z)
    ensures Colored(b, color, bh) && AllOk(b, LeftRotSub(a, sub, a.parent[z]), color, bh, -1, a.parent[z], -1)
  {
    var p := a.parent[z];
    var g := a.parent[p];
    var s := LeftRotSub(a, sub, p);
    ShapedValid(a, sub, b, p);
    forall j | j in Nodes(b, s) && 0 <= j < |b.key|
      ensures NodeOk(b, color, bh, j, -1, p, -1)
    {
      if j == p {
        InnerAtP(a, sub, color, bh, b, z);
      } else if j == z {
        InnerAtZ(a, sub, color, bh, b, z);
      } else {
        InnerFar(a, sub, color, bh, b, z, j);
      }
    }
  }

  lemma InnerAtP(a: Links, sub: seq<set<int>>, color: seq<Color>, bh: seq<nat>, b: Links, z: int)
    requires InnerCase(a, sub, color, bh, b, z)
    ensures Colored(b, color, bh) && NodeOk(b, color, bh, a.parent[z], -1, a.parent[z], -1)
  {
    var p := a.parent[z];
    ClimbRelatives(a, sub, color, bh, z);
    RotateFacts(a, sub, p);
    assert NodeOk(a, color, bh, p, -1, z, -1);
    assert NodeOk(a, color, bh, z, -1, z, -1);
    assert Local(a, sub, Sentinel, p);
    assert Local(a, sub, Sentinel, z);
  }

  lemma InnerAtZ(a: Links, sub: seq<set<int>>, color: seq<Color>, bh: seq<nat>, b: Links, z: int)
    requires InnerCase(a, sub, color, bh, b, z)
    ensures Colored(b, color, bh) && NodeOk(b, color, bh, z, -1, a.parent[z], -1)
  {
    var p := a.parent[z];
    ClimbRelatives(a, sub, color, bh, z);
    RotateFacts(a, sub, p);
    assert NodeOk(a, color, bh, p, -1, z, -1);
    assert NodeOk(a, color, bh, z, -1, z, -1);
    assert Local(a, sub, Sentinel, z);
  }

  lemma InnerFar(a: Links, sub: seq<set<int>>, color: seq<Color>, bh: seq<nat>, b: Links, z: int, j: int)
    requires InnerCase(a, sub, color, bh, b, z)
    requires j in Nodes(a, sub) && j != z && j != a.parent[z]
    ensures 0 <= j < |b.key| && Colored(b, color, bh) && NodeOk(b, color, bh, j, -1, a.parent[z], -1)
  {
    var p := a.parent[z];
    var g := a.parent[p];
    ClimbRelatives(a, sub, color, bh, z);
    RotateFacts(a, sub, p);
    assert NodeOk(a, color, bh, j, -1, z, -1);
    assert Local(a, sub, Sentinel, j);
    if j == g {
      assert NodeOk(a, color, bh, p, -1, z, -1);
    } else {
      assert b.left[j] == a.left[j] && b.right[j] == a.right[j];
    }
  }

  /** In the outer case on the right, z's grandparent has a real right
      child (z's parent) and can be rotated left. */
  lemma OuterRotatable(a: Links, sub: seq<set<int>>, color: seq<Color>, bh: seq<nat>, z: int)
    requires OuterRight(a, sub, color, bh, z)
    ensures LeftRotatable(a, sub, a.parent[a.parent[z]])
  {
    RotatableNode(a, sub, a.parent[a.parent[z]]);
  }

  /** The outer case on the right: p turns black and g red, and g is
      rotated left. p then stands black in g's place, so the loop stops;
      no black height changes. */
  lemma InsertOuter(a: Links, sub: seq<set<int>>, color: seq<Color>, bh: seq<nat>, z: int)
    requires OuterRight(a, sub, color, bh, z)
    ensures LeftRotatable(a, sub, a.parent[a.parent[z]])
    ensures var p := a.parent[z];
      var g := a.parent[p];
      var b, c := LeftRotated(a, g), color[p := Black][g := Red];
      Fixing(b, LeftRotSub(a, sub, g), c, bh, z) && b.parent[z] == p && c[p] == Black
  {
    OuterRotatable(a, sub, color, bh, z);
    var g := a.parent[a.parent[z]];
    LeftRotatedShaped(a, sub, g);
    OuterShaped(a, sub, color, bh, LeftRotated(a, g), z);
  }

  /** The outer case with b standing for the rotated links. */
  ghost predicate OuterCase(a: Links, sub: seq<set<int>>, color: seq<Color>, bh: seq<nat>, b: Links, z: int)
  {
    OuterRight(a, sub, color, bh, z) && LeftRotatable(a, sub, a.parent[a.parent[z]]) &&
    LeftShaped(a, b, a.parent[a.parent[z]])
  }

  lemma OuterShaped(a: Links, sub: seq<set<int>>, color: seq<Color>, bh: seq<nat>, b: Links, z: int)
    requires OuterRight(a, sub, color, bh, z) && LeftRotatable(a, sub, a.parent[a.parent[z]])
    requires LeftShaped(a, b, a.parent[a.parent[z]])
    ensures var p := a.parent[z];
      var g := a.parent[p];
      var c := color[p := Black][g := Red];
      Fixing(b, LeftRotSub(a, sub, g), c, bh, z) && b.parent[z] == p && c[p] == Black
  {
    var p := a.parent[z];
    var g := a.parent[p];
    assert OuterCase(a, sub, color, bh, b, z);
    ClimbRelatives(a, sub, color, bh, z);
    RotateFacts(a, sub, g);
    ShapedValid(a, sub, b, g);
    OuterAll(a, sub, color, bh, b, z);
    assert Local(a, sub, Sentinel, p);
    assert z != a.left[p];
  }

  lemma OuterAll(a: Links, sub: seq<set<int>>, color: seq<Color>, bh: seq<nat>, b: Links, z: int)
    requires OuterCase(a, sub, color, bh, b, z)
    ensures var p := a.parent[z];
      var g := a.parent[p];
      var c := color[p := Black][g := Red];
      Colored(b, c, bh) && AllOk(b, LeftRotSub(a, sub, g), c, bh, -1, z, -1)
  {
    var p := a.parent[z];
    var g := a.parent[p];
    var c, s := color[p := Black][g := Red], LeftRotSub(a, sub, g);
    ShapedValid(a, sub, b, g);
    forall j | j in Nodes(b, s) && 0 <= j < |b.key|
      ensures NodeOk(b, c, bh, j, -1, z, -1)
    {
      if j == p {
        OuterAtP(a, sub, color, bh, b, z);
      } else if j == g {
        OuterAtG(a, sub, color, bh, b, z);
      } else if j == a.parent[g] {
        OuterAtTop(a, sub, color, bh, b, z);
      } else {
        OuterFar(a, sub, color, bh, b, z, j);
      }
    }
  }

  lemma OuterAtP(a: Links, sub: seq<set<int>>, color: seq<Color>, bh: seq<nat>, b: Links, z: int)
    requires OuterCase(a, sub, color, bh, b, z)
    ensures var p := a.parent[z];
      var g := a.parent[p];
      var c := color[p := Black][g := Red];
      Colored(b, c, bh) && NodeOk(b, c, bh, p, -1, z, -1)
  {
    var p := a.parent[z];
    var g := a.parent[p];
    ClimbRelatives(a, sub, color, bh, z);
    RotateFacts(a, sub, g);
    assert NodeOk(a, color, bh, p, -1, z, -1);
    assert NodeOk(a, color, bh, g, -1, z, -1);
  }

  lemma OuterAtG(a: Links, sub: seq<set<int>>, color: seq<Color>, bh: seq<nat>, b: Links, z: int)
    requires OuterCase(a, sub, color, bh, b, z)
    ensures var p := a.parent[z];
      var g := a.parent[p];
      var c := color[p := Black][g := Red];
      Colored(b, c, bh) && NodeOk(b, c, bh, g, -1, z, -1)
  {
    var p := a.parent[z];
    var g := a.parent[p];
    ClimbRelatives(a, sub, color, bh, z);
    RotateFacts(a, sub, g);
    assert NodeOk(a, color, bh, p, -1, z, -1);
    assert NodeOk(a, color, bh, g, -1, z, -1);
    assert Local(a, sub, Sentinel, p);
    assert Local(a, sub, Sentinel, g);
    var al := a.left[p];
    assert al != z && al != g && al != p;
  }

  lemma OuterFar(a: Links, sub: seq<set<int>>, color: seq<Color>, bh: seq<nat>, b: Links, z: int, j: int)
    requires OuterCase(a, sub, color, bh, b, z)
    requires j in Nodes(a, sub) && j != a.parent[z] && j != a.parent[a.parent[z]] && j != a.parent[a.parent[a.parent[z]]]
    ensures var p := a.parent[z];
      var g := a.parent[p];
      var c := color[p := Black][g := Red];
      0 <= j < |b.key| && Colored(b, c, bh) && NodeOk(b, c, bh, j, -1, z, -1)
  {
    var p := a.parent[z];
    var g := a.parent[p];
    var c := color[p := Black][g := Red];
    ClimbRelatives(a, sub, color, bh, z);
    RotateFacts(a, sub, g);
    assert NodeOk(a, color, bh, j, -1, z, -1);
    assert Local(a, sub, Sentinel, j);
    var l, r := a.left[j], a.right[j];
    assert b.left[j] == l && b.right[j] == r;
    assert l != p && l != g && r != p && r != g;
    OkKept(a, color, bh, b, c, bh, j, -1, z, -1, -1, z, -1);
  }

  lemma OuterAtTop(a: Links, sub: seq<set<int>>, color: seq<Color>, bh: seq<nat>, b: Links, z: int)
    requires OuterCase(a, sub, color, bh, b, z)
    requires a.parent[a.parent[a.parent[z]]] in Nodes(a, sub)
    ensures var p := a.parent[z];
      var g := a.parent[p];
      var c := color[p := Black][g := Red];
      0 <= a.parent[g] < |b.key| && Colored(b, c, bh) && NodeOk(b, c, bh, a.parent[g], -1, z, -1)
  {
    var p := a.parent[z];
    var g := a.parent[p];
    var q := a.parent[g];
    ClimbRelatives(a, sub, color, bh, z);
    RotateFacts(a, sub, g);
    assert NodeOk(a, color, bh, q, -1, z, -1);
    assert NodeOk(a, color, bh, g, -1, z, -1);
    assert Local(a, sub, Sentinel, q);
  }

  /** The colour rules do not tell left from right: they hold in the
      mirror image of a tree exactly when they hold in the tree. */
  lemma AllOkMirror(a: Links, sub: seq<set<int>>, color: seq<Color>, bh: seq<nat>, d: int, z: int, e: int)
    requires Colored(a, color, bh)
    ensures Colored(Mirror(a), color, bh)
    ensures AllOk(Mirror(a), sub, color, bh, d, z, e) <==> AllOk(a, sub, color, bh, d, z, e)
  {
    var m := Mirror(a);
    if AllOk(a, sub, color, bh, d, z, e) {
      forall j | j in Nodes(m, sub) && 0 <= j < |m.key|
        ensures NodeOk(m, color, bh, j, d, z, e)
      {
        assert NodeOk(a, color, bh, j, d, z, e);
      }
    }
    if AllOk(m, sub, color, bh, d, z, e) {
      forall j | j in Nodes(a, sub) && 0 <= j < |a.key|
        ensures NodeOk(a, color, bh, j, d, z, e)
      {
        assert NodeOk(m, color, bh, j, d, z, e);
      }
    }
  }

  lemma FixingMirror(a: Links, sub: seq<set<int>>, color: seq<Color>, bh: seq<nat>, z: int)
    ensures Fixing(Mirror(a), sub, color, bh, z) <==> Fixing(a, sub, color, bh, z)
    ensures RedBlack(Mirror(a), sub, color, bh) <==> RedBlack(a, sub, color, bh)
  {
    ValidMirror(a, sub, Sentinel);
    if Colored(a, color, bh) {
      AllOkMirror(a, sub, color, bh, -1, z, -1);
      AllOkMirror(a, sub, color, bh, -1, -1, -1);
    }
  }

  /** The mirror image of a black-uncle case is the same case on the
      other side. */
  lemma CasesMirror(a: Links, sub: seq<set<int>>, color: seq<Color>, bh: seq<nat>, z: int)
    ensures InnerLeft(Mirror(a), sub, color, bh, z) <==> InnerRight(a, sub, color, bh, z)
    ensures OuterRight(Mirror(a), sub, color, bh, z) <==> OuterLeft(a, sub, color, bh, z)
  {
    var m := Mirror(a);
    FixingMirror(a, sub, color, bh, z);
    ValidMirror(a, sub, Sentinel);
    if Relatives(a, sub, z) || Relatives(m, sub, z) {
      var g := a.parent[a.parent[z]];
      assert Local(a, sub, Sentinel, g);
      assert Uncle(m, z) == Uncle(a, z);
    }
  }

  /** The inner case on the right: p is rotated right, after which p is z,
      the right child of its parent, and the outer case applies. */
  lemma InsertInnerRight(a: Links, sub: seq<set<int>>, color: seq<Color>, bh: seq<nat>, z: int)
    requires InnerRight(a, sub, color, bh, z)
    ensures RightRotatable(a, sub, a.parent[z])
    ensures OuterRight(RightRotated(a, a.parent[z]), RightRotSub(a, sub, a.parent[z]), color, bh, a.parent[z])
  {
    var p, m := a.parent[z], Mirror(a);
    CasesMirror(a, sub, color, bh, z);
    InsertInner(m, sub, color, bh, z);
    RotatableNode(a, sub, p);
    RightMirror(a, p);
    var t := LeftRotated(m, p);
    assert RightRotSub(a, sub, p) == LeftRotSub(m, sub, p);
    CasesMirror(t, LeftRotSub(m, sub, p), color, bh, p);
  }

  /** The outer case on the left: p turns black and g red, and g is
      rotated right. */
  lemma InsertOuterLeft(a: Links, sub: seq<set<int>>, color: seq<Color>, bh: seq<nat>, z: int)
    requires OuterLeft(a, sub, color, bh, z)
    ensures RightRotatable(a, sub, a.parent[a.parent[z]])
    ensures var p := a.parent[z];
      var g := a.parent[p];
      var b, c := RightRotated(a, g), color[p := Black][g := Red];
      Fixing(b, RightRotSub(a, sub, g), c, bh, z) && b.parent[z] == p && c[p] == Black
  {
    var p, m := a.parent[z], Mirror(a);
    var g := a.parent[p];
    CasesMirror(a, sub, color, bh, z);
    InsertOuter(m, sub, color, bh, z);
    RotatableNode(a, sub, g);
    RightMirror(a, g);
    var t := LeftRotated(m, g);
    assert RightRotSub(a, sub, g) == LeftRotSub(m, sub, g);
    FixingMirror(t, LeftRotSub(m, sub, g), color[p := Black][g := Red], bh, z);
  }

  /** The insert fixup's loop stops when z's parent is black (the
      sentinel, z's parent when z is the root, is black): colouring the
      root black then leaves a red-black tree. */
  lemma FixingDone(a: Links, sub: seq<set<int>>, color: seq<Color>, bh: seq<nat>, z: int)
    requires Fixing(a, sub, color, bh, z) && 0 <= a.parent[z] < |a.key| && color[a.parent[z]] == Black
    ensures RedBlack(a, sub, color[a.root := Black], bh)
  {
    var c := color[a.root := Black];
    NodeLinked(a, sub, z);
    forall j | j in Nodes(a, sub) && 0 <= j < |a.key|
      ensures NodeOk(a, c, bh, j, -1, -1, -1)
    {
      assert NodeOk(a, color, bh, j, -1, z, -1);
      assert Local(a, sub, Sentinel, j);
      var l, r := a.left[j], a.right[j];
      assert l != a.root && r != a.root;
      OkKept(a, color, bh, a, c, bh, j, -1, z, -1, -1, -1, -1);
    }
  }
}
