/** The red-black tree of tree/redblacktree.go as an object. Its nodes are
    the arena of SearchTree with a colour each; index 0 is the shared black
    sentinel rbNilNode, which every leaf points at. Each method takes the
    steps of its Go counterpart in the same order; the ghost fields sub
    (the node set below each node) and bh (each node's black height) carry
    the proof, and every case of the two fixup loops is one lemma of
    RedBlackColor or RedBlackDelete. */
module RedBlackTree {
  import opened SearchTree
  import opened RedBlackLinks
  import opened RedBlackRotate
  import opened RedBlackColor
  import opened RedBlackDelete
  import BaseBST

  /** The descent of insert for key k: c is the cursor and y the last node
      it left (the sentinel before the first step); k fits below both. */
  ghost predicate Descending(a: Links, sub: seq<set<int>>, k: int, y: int, c: int)
    requires Valid(a, sub, Sentinel)
  {
    (c == Sentinel || c in Nodes(a, sub)) &&
    (y == Sentinel ==> c == a.root) &&
    (y != Sentinel ==>
      y in Nodes(a, sub) && Fits(a, sub, a.root, y, k) &&
      c == (if k < a.key[y] then a.left[y] else a.right[y])) &&
    (c != Sentinel ==> Fits(a, sub, a.root, c, k))
  }

  lemma DescendStart(a: Links, sub: seq<set<int>>, k: int)
    requires Valid(a, sub, Sentinel)
    ensures Descending(a, sub, k, Sentinel, a.root)
  {
    if a.root != Sentinel {
      TopBounded(a, sub, Sentinel, a.root, k);
      BoundedFits(a, sub, a.root, a.root, k);
    }
  }

  /** One step down, left exactly when k is below the node's key. */
  lemma DescendStep(a: Links, sub: seq<set<int>>, k: int, y: int, c: int)
    requires Valid(a, sub, Sentinel) && Descending(a, sub, k, y, c) && c != Sentinel
    ensures var d := if k < a.key[c] then a.left[c] else a.right[c];
      Descending(a, sub, k, c, d) && |Under(sub, d)| < |Under(sub, c)|
  {
    assert Local(a, sub, Sentinel, c);
    Shrinks(a, sub, Sentinel, c);
    var d := if k < a.key[c] then a.left[c] else a.right[c];
    if d != Sentinel {
      StepFits(a, sub, Sentinel, a.root, c, d, k);
    }
  }

  /** A new node appended to the arena changes no colour rule. */
  lemma AppendRedBlack(a: Links, sub: seq<set<int>>, color: seq<Color>, bh: seq<nat>, k: int)
    requires RedBlack(a, sub, color, bh)
    ensures RedBlack(Appended(a, k), sub + [{}], color + [Red], bh + [0])
    ensures Nodes(Appended(a, k), sub + [{}]) == Nodes(a, sub)
  {
    AppendValid(a, sub, Sentinel, k);
    var b, s, c, h := Appended(a, k), sub + [{}], color + [Red], bh + [0];
    forall j | j in Nodes(b, s) && 0 <= j < |b.key|
      ensures NodeOk(b, c, h, j, -1, -1, -1)
    {
      assert NodeOk(a, color, bh, j, -1, -1, -1);
    }
  }

  /** Resetting the sentinel's parent changes no link a tree reads. */
  lemma SentinelReset(a: Links, sub: seq<set<int>>, color: seq<Color>, bh: seq<nat>)
    requires RedBlack(a, sub, color, bh)
    ensures RedBlack(a.(parent := a.parent[Sentinel := -1]), sub, color, bh)
    ensures Nodes(a.(parent := a.parent[Sentinel := -1]), sub) == Nodes(a, sub)
  {
    var b := a.(parent := a.parent[Sentinel := -1]);
    forall j | j in Nodes(b, sub) && 0 <= j < |b.key|
      ensures Local(b, sub, Sentinel, j) && NodeOk(b, color, bh, j, -1, -1, -1)
    {
      assert Local(a, sub, Sentinel, j);
      assert NodeOk(a, color, bh, j, -1, -1, -1);
    }
  }

  class RBTree {
    var key: seq<int>
    var left: seq<int>
    var right: seq<int>
    var parent: seq<int>
    var color: seq<Color>
    var root: int
    ghost var sub: seq<set<int>>
    ghost var bh: seq<nat>

    function View(): Links
      reads this
    {
      Links(key, left, right, parent, root)
    }

    /** The nodes linked into the tree. */
    ghost function Members(): set<int>
      reads this
    {
      Nodes(View(), sub)
    }

    /** A red-black tree whose sentinel has Go's nil for its parent, as
        every operation leaves it. */
    ghost predicate Valid()
      reads this
    {
      RedBlack(View(), sub, color, bh) && parent[Sentinel] == -1
    }

    /** NewRBTree: an empty tree, rooted at the sentinel. */
    constructor ()
      ensures Valid() && Members() == {} && |key| == 1
    {
      key, left, right, parent, color, root := [0], [-1], [-1], [-1], [Black], Sentinel;
      sub, bh := [{}], [0];
    }

    /** Root: the sentinel exactly when the tree is empty. */
    function Root(): (r: int)
      reads this
      requires Valid()
      ensures r == Sentinel <==> Members() == {}
      ensures r != Sentinel ==> r in Members()
    {
      root
    }

    /** NewRBTreeNode: a fresh, unlinked node holding k, with nil links and
        the zero colour, red. */
    method NewNode(k: int) returns (x: int)
      requires Valid()
      modifies this
      ensures Valid() && Members() == old(Members()) && x == old(|key|) && x !in Members()
      ensures View() == Appended(old(View()), k) && color == old(color) + [Red]
    {
      ghost var a0, s0, c0, h0 := View(), sub, color, bh;
      x := |key|;
      key, left, right, parent, color := key + [k], left + [-1], right + [-1], parent + [-1], color + [Red];
      sub, bh := sub + [{}], bh + [0];
      AppendRedBlack(a0, s0, c0, h0, k);
    }

    /** Search: a node holding k, or -1 (Go's nil) when none does. */
    method Search(k: int) returns (n: int)
      requires Valid()
      ensures n != -1 ==> n in Members() && key[n] == k
      ensures n == -1 <==> !BaseBST.Holds(View(), sub, k)
    {
      var c, pre := NodeSearch(View(), sub, Sentinel, root, k);
      if c == -1 || c == Sentinel {
        n := -1;
      } else {
        n := c;
      }
    }

    /** Length: the number of non-Nil nodes a full walk from the root
        visits, which is the number of linked nodes. */
    function Length(): (n: int)
      reads this
      requires Valid()
      ensures n == |Members()|
    {
      var walk := Visits(View(), sub, Sentinel, root, Never);
      WalkCount(View(), sub, Sentinel, root);
      |Strip(walk, Sentinel)|
    }

    /** leftRotate(x): x's right child y takes x's place, x becomes y's left
        child and takes y's old left subtree. Go asks nothing more of x than
        a real right child; what a rotation keeps of a valid tree is stated
        by RedBlackRotate.LeftRotateShape and LeftRotateOrder. */
    method LeftRotate(x: int)
      requires Sized(View()) && |sub| == |key| && 0 < x < |key| && Linked(View(), x)
      requires right[x] != Sentinel && Linked(View(), right[x])
      modifies this
      ensures View() == LeftRotated(old(View()), x) && sub == LeftRotSub(old(View()), old(sub), x)
      ensures color == old(color) && bh == old(bh) && parent[Sentinel] == old(parent[Sentinel])
    {
      sub := LeftRotSub(View(), sub, x);
      var y, p := right[x], parent[x];
      var beta := left[y];
      right := right[x := beta];
      if beta != Sentinel {
        parent := parent[beta := x];
      }
      parent := parent[y := p];
      if p == Sentinel {
        root := y;
      } else if x == left[p] {
        left := left[p := y];
      } else {
        right := right[p := y];
      }
      left := left[y := x];
      parent := parent[x := y];
    }

    /** rightRotate(x): the mirror image of leftRotate; it tests for the
        sentinel with Nil, which also accepts Go's nil. */
    method RightRotate(x: int)
      requires Sized(View()) && |sub| == |key| && 0 < x < |key| && Linked(View(), x)
      requires left[x] != Sentinel && Linked(View(), left[x])
      modifies this
      ensures View() == RightRotated(old(View()), x) && sub == RightRotSub(old(View()), old(sub), x)
      ensures color == old(color) && bh == old(bh) && parent[Sentinel] == old(parent[Sentinel])
    {
      sub := RightRotSub(View(), sub, x);
      var y, p := left[x], parent[x];
      var beta := right[y];
      left := left[x := beta];
      if beta != -1 && beta != Sentinel {
        parent := parent[beta := x];
      }
      parent := parent[y := p];
      if p == -1 || p == Sentinel {
        root := y;
      } else if x == right[p] {
        right := right[p := y];
      } else {
        left := left[p := y];
      }
      right := right[y := x];
      parent := parent[x := y];
    }

    /** Transplant(u, v): v takes u's place below u's parent, or as the
        root, and takes u's parent as its own, the sentinel included. */
    method Transplant(u: int, v: int)
      requires Sized(View()) && 0 <= u < |key| && 0 <= v < |key| && 0 <= parent[u] < |key|
      modifies this
      ensures View() == Transplanted(old(View()), u, v)
      ensures color == old(color) && sub == old(sub) && bh == old(bh)
    {
      var p := parent[u];
      if p == Sentinel {
        root := v;
      } else if u == left[p] {
        left := left[p := v];
      } else {
        right := right[p := v];
      }
      parent := parent[v := p];
    }

    /** Replace: Transplant, then v takes over u's children and colour. */
    method Replace(u: int, v: int)
      requires Sized(View()) && |color| == |key| && 0 < u < |key| && 0 < v < |key| && Linked(View(), u)
      modifies this
      ensures View() == Replaced(old(View()), u, v) && color == old(color)[v := old(color)[u]]
      ensures sub == old(sub) && bh == old(bh)
    {
      Transplant(u, v);
      left := left[v := left[u]];
      right := right[v := right[u]];
      if left[v] != Sentinel {
        parent := parent[left[v] := v];
      }
      if right[v] != Sentinel {
        parent := parent[right[v] := v];
      }
      color := color[v := color[u]];
    }

    /** Insert: wraps k in a new red node and inserts it; the tree grows by
        exactly that node, which comes in order after every equal key. */
    method Insert(k: int) returns (x: int)
      requires Valid()
      modifies this
      ensures Valid() && key == old(key) + [k] && x == old(|key|)
      ensures x !in old(Members()) && Members() == old(Members()) + {x}
      ensures Length() == old(Length()) + 1
      ensures Placed(Listed(View(), sub, Sentinel, root), key, x, k)
    {
      x := NewNode(k);
      InsertNode(x);
    }

    /** insert: descends from the root, left exactly when x's key is Less,
        hangs x below the last node visited, and restores the colour rules
        with insertFixup. */
    method InsertNode(x: int)
      requires Valid() && 0 < x < |key| && x !in Members()
      modifies this
      ensures Valid() && key == old(key) && Members() == old(Members()) + {x}
      ensures Placed(Listed(View(), sub, Sentinel, root), key, x, key[x])
    {
      ghost var a0, s0, c0, h0 := View(), sub, color, bh;
      var k := key[x];
      var y, c := Sentinel, root;
      DescendStart(a0, s0, k);
      while c != Sentinel
        invariant View() == a0 && sub == s0 && color == c0 && bh == h0
        invariant Descending(a0, s0, k, y, c)
        decreases |Under(s0, c)|
      {
        DescendStep(a0, s0, k, y, c);
        y := c;
        if k < key[c] {
          c := left[c];
        } else {
          c := right[c];
        }
      }
      Attach(x, y);
      sub, bh := AttachSub(s0, x, y), h0[x := 1];
      InsertStart(a0, s0, c0, h0, x, y);
      AttachPlaced(a0, s0, x, y);
      InsertFixup(x);
    }

    /** The end of insert's descent: x takes y as its parent and becomes
        y's child on the side its key selects, or the root when y is the
        sentinel; x gets sentinel children and turns red. */
    method Attach(x: int, y: int)
      requires Sized(View()) && |color| == |key| && 0 < x < |key| && 0 <= y < |key| && x != y
      modifies this
      ensures View() == Attached(old(View()), x, y) && color == old(color)[x := Red]
      ensures sub == old(sub) && bh == old(bh)
    {
      parent := parent[x := y];
      if y == Sentinel {
        root := x;
      } else if key[x] < key[y] {
        left := left[y := x];
      } else {
        right := right[y := x];
      }
      left := left[x := Sentinel];
      right := right[x := Sentinel];
      color := color[x := Red];
    }

    /** insertFixup: climbs while z's parent is red, then blackens the root;
        the tree it leaves keeps every colour rule. */
    method InsertFixup(z0: int)
      requires Fixing(View(), sub, color, bh, z0) && parent[Sentinel] == -1
      modifies this
      ensures Valid() && key == old(key) && Members() == old(Members())
      ensures Order(View(), sub) == old(Order(View(), sub))
    {
      ghost var m, t := Members(), Order(View(), sub);
      var z := z0;
      NodeLinked(View(), sub, z);
      UnderBound(View(), sub, Sentinel, z);
      while color[parent[z]] == Red
        invariant Fixing(View(), sub, color, bh, z) && 0 <= parent[z] < |key|
        invariant key == old(key) && Members() == m && parent[Sentinel] == -1
        invariant |Under(sub, z)| <= |m| && Order(View(), sub) == t
        decreases if color[parent[z]] == Red then 1 else 0, |m| - |Under(sub, z)|
      {
        ClimbRelatives(View(), sub, color, bh, z);
        if parent[z] == left[parent[parent[z]]] {
          z := InsertStepLeft(z);
        } else {
          z := InsertStepRight(z);
        }
        UnderBound(View(), sub, Sentinel, z);
      }
      FixingDone(View(), sub, color, bh, z);
      color := color[root := Black];
    }

    /** One round of insertFixup's loop when z's parent is a left child. */
    method InsertStepLeft(z: int) returns (z': int)
      requires Climbing(View(), sub, color, bh, z) && Relatives(View(), sub, z)
      requires parent[z] == left[parent[parent[z]]] && parent[Sentinel] == -1
      modifies this
      ensures Fixing(View(), sub, color, bh, z') && 0 <= parent[z'] < |key|
      ensures key == old(key) && Members() == old(Members()) && parent[Sentinel] == -1
      ensures color[parent[z']] == Black || |Under(old(sub), z)| < |Under(sub, z')|
      ensures Order(View(), sub) == old(Order(View(), sub))
    {
      if color[right[parent[parent[z]]]] == Red {
        z' := Recolor(z);
      } else {
        z' := RotateLeftCase(z);
      }
    }

    /** The mirror image: z's parent is a right child. */
    method InsertStepRight(z: int) returns (z': int)
      requires Climbing(View(), sub, color, bh, z) && Relatives(View(), sub, z)
      requires parent[z] != left[parent[parent[z]]] && parent[Sentinel] == -1
      modifies this
      ensures Fixing(View(), sub, color, bh, z') && 0 <= parent[z'] < |key|
      ensures key == old(key) && Members() == old(Members()) && parent[Sentinel] == -1
      ensures color[parent[z']] == Black || |Under(old(sub), z)| < |Under(sub, z')|
      ensures Order(View(), sub) == old(Order(View(), sub))
    {
      if color[left[parent[parent[z]]]] == Red {
        z' := Recolor(z);
      } else {
        z' := RotateRightCase(z);
      }
    }

    /** insertFixup's first case, on either side: the parent and the uncle
        turn black and the grandparent red, and z moves up to the
        grandparent. */
    method Recolor(z: int) returns (g: int)
      requires RedUncle(View(), sub, color, bh, z)
      modifies this
      ensures View() == old(View()) && sub == old(sub)
      ensures Fixing(View(), sub, color, bh, g) && 0 <= parent[g] < |key|
      ensures |Under(sub, z)| < |Under(sub, g)|
    {
      var p := parent[z];
      g := parent[p];
      var u := Uncle(View(), z);
      InsertRecolor(View(), sub, color, bh, z);
      NodeLinked(View(), sub, g);
      color := color[p := Black][u := Black][g := Red];
      bh := bh[g := bh[g] + 1];
    }

    /** insertFixup's other cases when z's parent p is a left child and the
        uncle is black: if z is p's right child, z moves up to p, which is
        rotated left; then OuterLeftCase ends the loop. */
    method RotateLeftCase(z: int) returns (z': int)
      requires BlackUncle(View(), sub, color, bh, z) && parent[z] == left[parent[parent[z]]]
      requires parent[Sentinel] == -1
      modifies this
      ensures Fixing(View(), sub, color, bh, z') && 0 <= parent[z'] < |key| && color[parent[z']] == Black
      ensures key == old(key) && Members() == old(Members()) && parent[Sentinel] == -1
      ensures Order(View(), sub) == old(Order(View(), sub))
    {
      z' := z;
      if z == right[parent[z]] {
        z' := parent[z];
        ghost var a, s := View(), sub;
        InsertInner(a, s, color, bh, z);
        LeftRotateShape(a, s, z');
        LeftRotateOrder(a, s, z');
        LeftRotate(z');
      }
      OuterLeftCase(z');
    }

    /** z and its parent p are both left children and the uncle is black: p
        turns black, the grandparent g red, and g is rotated right. */
    method OuterLeftCase(z: int)
      requires OuterLeft(View(), sub, color, bh, z) && parent[Sentinel] == -1
      modifies this
      ensures Fixing(View(), sub, color, bh, z) && 0 <= parent[z] < |key| && color[parent[z]] == Black
      ensures key == old(key) && Members() == old(Members()) && parent[Sentinel] == -1
      ensures Order(View(), sub) == old(Order(View(), sub))
    {
      var p := parent[z];
      var g := parent[p];
      ghost var a, s := View(), sub;
      InsertOuterLeft(a, s, color, bh, z);
      RightRotateShape(a, s, g);
      RightRotateOrder(a, s, g);
      color := color[p := Black][g := Red];
      RightRotate(g);
    }

    /** The mirror image of RotateLeftCase. */
    method RotateRightCase(z: int) returns (z': int)
      requires BlackUncle(View(), sub, color, bh, z) && parent[z] != left[parent[parent[z]]]
      requires parent[Sentinel] == -1
      modifies this
      ensures Fixing(View(), sub, color, bh, z') && 0 <= parent[z'] < |key| && color[parent[z']] == Black
      ensures key == old(key) && Members() == old(Members()) && parent[Sentinel] == -1
      ensures Order(View(), sub) == old(Order(View(), sub))
    {
      z' := z;
      if z == left[parent[z]] {
        z' := parent[z];
        ghost var a, s := View(), sub;
        InsertInnerRight(a, s, color, bh, z);
        RightRotateShape(a, s, z');
        RightRotateOrder(a, s, z');
        RightRotate(z');
      }
      OuterRightCase(z');
    }

    /** The mirror image of OuterLeftCase. */
    method OuterRightCase(z: int)
      requires OuterRight(View(), sub, color, bh, z) && parent[Sentinel] == -1
      modifies this
      ensures Fixing(View(), sub, color, bh, z) && 0 <= parent[z] < |key| && color[parent[z]] == Black
      ensures key == old(key) && Members() == old(Members()) && parent[Sentinel] == -1
      ensures Order(View(), sub) == old(Order(View(), sub))
    {
      var p := parent[z];
      var g := parent[p];
      ghost var a, s := View(), sub;
      InsertOuter(a, s, color, bh, z);
      LeftRotateShape(a, s, g);
      LeftRotateOrder(a, s, g);
      color := color[p := Black][g := Red];
      LeftRotate(g);
    }

    /** Delete: unlinks z; with two children, z's place goes to y, the least
        node of its right subtree, which takes z's colour. When the colour
        taken out of the tree was black, deleteFixup restores the colour
        rules from the node that took y's old place; at the end the
        sentinel's parent is reset to nil. */
    method Delete(z: int)
      requires Valid() && z in Members()
      modifies this
      ensures Valid() && key == old(key) && Members() == old(Members()) - {z}
      ensures Length() == old(Length()) - 1
    {
      ghost var a0, s0, c0, h0 := View(), sub, color, bh;
      var y, x, yColor := Unlink(z);
      ghost var s1, h1 := BaseBST.DeleteSub(s0, z, y), h0[y := h0[z]];
      DeleteStart(a0, s0, c0, h0, z, y);
      RemoveShape(a0, s0, z, y);
      sub, bh := s1, h1;
      if yColor == Black {
        DeleteFixup(x);
      }
      ResetSentinel();
    }

    /** The end of Delete: the sentinel's parent, which Transplant may have
        set, goes back to nil. */
    method ResetSentinel()
      requires RedBlack(View(), sub, color, bh)
      modifies this
      ensures Valid() && key == old(key) && Members() == old(Members())
    {
      SentinelReset(View(), sub, color, bh);
      parent := parent[Sentinel := -1];
    }

    /** Delete's relinking: a z without a left (right) child is replaced by
        its other child; otherwise y is the Minimum of z's right subtree,
        and Promote moves it into z's place. */
    method Unlink(z: int) returns (y: int, x: int, yColor: Color)
      requires Valid() && z in Members()
      modifies this
      ensures Removable(old(View()), old(sub), z, y) && Linked(old(View()), z) && Linked(old(View()), y)
      ensures View() == Removed(old(View()), z, y)
      ensures x == Replacement(old(View()), z, y) && yColor == old(color)[y]
      ensures color == old(color)[y := old(color)[z]] && sub == old(sub) && bh == old(bh)
    {
      NodeLinked(View(), sub, z);
      assert Local(View(), sub, Sentinel, z);
      y := z;
      yColor := color[y];
      if left[z] == Sentinel {
        x := right[z];
        Transplant(z, right[z]);
      } else if right[z] == Sentinel {
        x := left[z];
        Transplant(z, left[z]);
      } else {
        y := Minimum(View(), sub, Sentinel, right[z]);
        NodeLinked(View(), sub, y);
        assert Removable(View(), sub, z, y);
        SpliceFacts(View(), sub, z, y);
        yColor := color[y];
        x := right[y];
        Promote(z, y);
      }
    }

    /** Delete when z has two children and y is the Minimum of its right
        subtree: unless y is z's own right child, Lift takes y out of its
        place and gives it z's right child; then y takes z's place, z's left
        child and z's colour. */
    method Promote(z: int, y: int)
      requires Sized(View()) && |color| == |key| && 0 < z < |key| && 0 < y < |key|
      requires Linked(View(), z) && Linked(View(), y) && left[z] != Sentinel && right[z] != Sentinel
      requires parent[z] != z && right[y] != z && right[z] != z
      modifies this
      ensures View() == Removed(old(View()), z, y)
      ensures color == old(color)[y := old(color)[z]] && sub == old(sub) && bh == old(bh)
    {
      ghost var a0 := View();
      ghost var a1 := if a0.parent[y] != z then Lifted(a0, y, a0.right[z]) else a0.(parent := a0.parent[a0.right[y] := y]);
      if parent[y] == z {
        parent := parent[right[y] := y];
      } else {
        Lift(y, right[z]);
      }
      assert View() == a1;
      Transplant(z, y);
      assert View() == Transplanted(a1, z, y);
      assert left[z] == a0.left[z];
      Adopt(y, left[z]);
      assert View() == BaseBST.Adopted(Transplanted(a1, z, y), y, a0.left[z]);
      color := color[y := color[z]];
    }

    /** The middle of Delete's two-children case: y's right child takes y's
        place (Transplant), and y takes r as its right child. */
    method Lift(y: int, r: int)
      requires Sized(View()) && 0 <= y < |key| && Linked(View(), y) && 0 <= r < |key|
      modifies this
      ensures View() == Lifted(old(View()), y, r)
      ensures color == old(color) && sub == old(sub) && bh == old(bh)
    {
      Transplant(y, right[y]);
      right := right[y := r];
      parent := parent[right[y] := y];
    }

    /** The end of Delete's two-children case: y takes l as its left child. */
    method Adopt(y: int, l: int)
      requires Sized(View()) && 0 <= y < |key| && 0 <= l < |key|
      modifies this
      ensures View() == BaseBST.Adopted(old(View()), y, l)
      ensures color == old(color) && sub == old(sub) && bh == old(bh)
    {
      left := left[y := l];
      parent := parent[left[y] := y];
    }

    /** deleteFixup: climbs while x is a black non-root node, then blackens
        x; the tree it leaves keeps every colour rule. */
    method DeleteFixup(x0: int)
      requires DelFix(View(), sub, color, bh, x0)
      modifies this
      ensures RedBlack(View(), sub, color, bh) && key == old(key) && Members() == old(Members())
    {
      ghost var m := Members();
      var x := x0;
      UnderBound(View(), sub, Sentinel, x);
      while x != root && color[x] == Black
        invariant DelFix(View(), sub, color, bh, x) && key == old(key) && Members() == m
        invariant |Under(sub, x)| <= |m|
        decreases if x != root && color[x] == Black then 1 else 0, |m| - |Under(sub, x)|
      {
        OneSide(View(), sub, color, bh, x);
        if x == left[parent[x]] {
          x := DeleteStepLeft(x);
        } else {
          x := DeleteStepRight(x);
        }
        UnderBound(View(), sub, Sentinel, x);
      }
      DelDone(View(), sub, color, bh, x);
      color := color[x := Black];
    }

    /** One round of deleteFixup's loop when x is a left child. */
    method DeleteStepLeft(x: int) returns (x': int)
      requires Short(View(), sub, color, bh, x) && 0 <= parent[x] < |key| && x == left[parent[x]]
      modifies this
      ensures DelFix(View(), sub, color, bh, x') && key == old(key) && Members() == old(Members())
      ensures x' == root || |Under(old(sub), x)| < |Under(sub, x')|
    {
      SiblingFacts(View(), sub, color, bh, x);
      var w := right[parent[x]];
      if color[w] == Red {
        w := TurnRedSiblingLeft(x);
      }
      x' := BlackSiblingLeft(x, w);
    }

    /** The rest of the round once x's sibling w is black. The test for a
        sentinel sibling never holds: a black x that is short of one black
        node has a real sibling. */
    method BlackSiblingLeft(x: int, w: int) returns (x': int)
      requires Short(View(), sub, color, bh, x) && 0 <= parent[x] < |key| && x == left[parent[x]]
      requires w == right[parent[x]] && 0 < w < |key| && Linked(View(), w) && color[w] == Black
      modifies this
      ensures DelFix(View(), sub, color, bh, x') && key == old(key) && Members() == old(Members())
      ensures x' == root || |Under(old(sub), x)| < |Under(sub, x')|
    {
      if w == Sentinel || (color[left[w]] == Black && color[right[w]] == Black) {
        x' := ReddenSibling(x);
      } else {
        if color[right[w]] == Black {
          var w' := TurnInnerNephewLeft(x);
        }
        x' := FinishLeft(x);
      }
    }

    /** The mirror image of DeleteStepLeft: x is a right child. */
    method DeleteStepRight(x: int) returns (x': int)
      requires Short(View(), sub, color, bh, x) && 0 <= parent[x] < |key| && x != left[parent[x]]
      modifies this
      ensures DelFix(View(), sub, color, bh, x') && key == old(key) && Members() == old(Members())
      ensures x' == root || |Under(old(sub), x)| < |Under(sub, x')|
    {
      SiblingFacts(View(), sub, color, bh, x);
      var w := left[parent[x]];
      if color[w] == Red {
        w := TurnRedSiblingRight(x);
      }
      x' := BlackSiblingRight(x, w);
    }

    /** The mirror image of BlackSiblingLeft. */
    method BlackSiblingRight(x: int, w: int) returns (x': int)
      requires Short(View(), sub, color, bh, x) && 0 <= parent[x] < |key| && x != left[parent[x]]
      requires w == left[parent[x]] && 0 < w < |key| && Linked(View(), w) && color[w] == Black
      modifies this
      ensures DelFix(View(), sub, color, bh, x') && key == old(key) && Members() == old(Members())
      ensures x' == root || |Under(old(sub), x)| < |Under(sub, x')|
    {
      if w == Sentinel || (color[right[w]] == Black && color[left[w]] == Black) {
        x' := ReddenSibling(x);
      } else {
        if color[left[w]] == Black {
          var w' := TurnInnerNephewRight(x);
        }
        x' := FinishRight(x);
      }
    }

    /** deleteFixup's first case with x on the left: the red sibling turns
        black and the parent red, and the parent is rotated left; x gets a
        black sibling. */
    method TurnRedSiblingLeft(x: int) returns (w: int)
      requires RedSibling(View(), sub, color, bh, x)
      modifies this
      ensures Short(View(), sub, color, bh, x) && parent[x] == old(parent[x]) && x == left[parent[x]]
      ensures w == right[parent[x]] && 0 < w < |key| && Linked(View(), w) && color[w] == Black
      ensures Under(sub, x) == old(Under(sub, x)) && key == old(key) && Members() == old(Members())
    {
      ghost var a, s := View(), sub;
      var d := parent[x];
      RedTurn(a, s, color, bh, x);
      color := color[right[d] := Black][d := Red];
      LeftRotate(d);
      w := right[parent[x]];
      SiblingFacts(View(), sub, color, bh, x);
    }

    /** The mirror image of TurnRedSiblingLeft. */
    method TurnRedSiblingRight(x: int) returns (w: int)
      requires RedSiblingRight(View(), sub, color, bh, x)
      modifies this
      ensures Short(View(), sub, color, bh, x) && parent[x] == old(parent[x]) && x != left[parent[x]]
      ensures w == left[parent[x]] && 0 < w < |key| && Linked(View(), w) && color[w] == Black
      ensures Under(sub, x) == old(Under(sub, x)) && key == old(key) && Members() == old(Members())
    {
      ghost var a, s := View(), sub;
      var d := parent[x];
      RedTurnRight(a, s, color, bh, x);
      color := color[left[d] := Black][d := Red];
      RightRotate(d);
      w := left[parent[x]];
      SiblingFacts(View(), sub, color, bh, x);
    }

    /** deleteFixup's second case, on either side: the black sibling with
        two black children turns red, and x moves up to its parent. */
    method ReddenSibling(x: int) returns (d: int)
      requires BlackNephews(View(), sub, color, bh, x)
      modifies this
      ensures View() == old(View()) && sub == old(sub)
      ensures DelFix(View(), sub, color, bh, d) && |Under(sub, x)| < |Under(sub, d)|
    {
      d := parent[x];
      var w := Sibling(View(), x);
      DelRecolor(View(), sub, color, bh, x);
      color := color[w := Red];
      bh := bh[d := bh[d] - 1];
    }

    /** deleteFixup's third case with x on the left: the sibling's red left
        child turns black, the sibling red, and the sibling is rotated
        right; x's new sibling has a red right child. */
    method TurnInnerNephewLeft(x: int) returns (w: int)
      requires InnerNephewLeft(View(), sub, color, bh, x)
      modifies this
      ensures OuterNephew(View(), sub, color, bh, x) && w == right[parent[x]]
      ensures Under(sub, x) == old(Under(sub, x)) && key == old(key) && Members() == old(Members())
    {
      ghost var a, s := View(), sub;
      w := right[parent[x]];
      InnerTurnLeft(a, s, color, bh, x);
      color := color[left[w] := Black][w := Red];
      RightRotate(w);
      w := right[parent[x]];
    }

    /** The mirror image of TurnInnerNephewLeft. */
    method TurnInnerNephewRight(x: int) returns (w: int)
      requires InnerNephew(View(), sub, color, bh, x)
      modifies this
      ensures OuterNephewRight(View(), sub, color, bh, x) && w == left[parent[x]]
      ensures Under(sub, x) == old(Under(sub, x)) && key == old(key) && Members() == old(Members())
    {
      ghost var a, s := View(), sub;
      w := left[parent[x]];
      InnerTurn(a, s, color, bh, x);
      color := color[right[w] := Black][w := Red];
      LeftRotate(w);
      w := left[parent[x]];
    }

    /** deleteFixup's fourth case with x on the left: the sibling takes the
        parent's colour, the parent and the far nephew turn black, and the
        parent is rotated left; the tree is whole again and x becomes the
        root, which ends the loop. */
    method FinishLeft(x: int) returns (r: int)
      requires OuterNephew(View(), sub, color, bh, x)
      modifies this
      ensures RedBlack(View(), sub, color, bh) && r == root && DelFix(View(), sub, color, bh, r)
      ensures key == old(key) && Members() == old(Members())
    {
      ghost var a, s, h := View(), sub, bh;
      var d := parent[x];
      var w := right[d];
      DelOuter(a, s, color, bh, x);
      LeftRotateShape(a, s, d);
      color := color[w := color[d]][d := Black][right[w] := Black];
      LeftRotate(d);
      bh := OuterHeights(a, h, x);
      r := root;
      RootFix(View(), sub, color, bh);
    }

    /** The mirror image of FinishLeft. */
    method FinishRight(x: int) returns (r: int)
      requires OuterNephewRight(View(), sub, color, bh, x)
      modifies this
      ensures RedBlack(View(), sub, color, bh) && r == root && DelFix(View(), sub, color, bh, r)
      ensures key == old(key) && Members() == old(Members())
    {
      ghost var a, s, h := View(), sub, bh;
      var d := parent[x];
      var w := left[d];
      DelOuterRight(a, s, color, bh, x);
      RightRotateShape(a, s, d);
      color := color[w := color[d]][d := Black][left[w] := Black];
      RightRotate(d);
      bh := OuterHeights(a, h, x);
      r := root;
      RootFix(View(), sub, color, bh);
    }
  }
}
