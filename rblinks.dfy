/** The links of the red-black tree of tree/redblacktree.go. Nodes live in
    the arena of SearchTree; index 0 is the shared black sentinel
    rbNilNode, which every leaf points at and whose own children are Go's
    nil (-1). The tree's Transplant, unlike the plain tree's, also writes
    the sentinel's parent, which the delete fixup then reads.

    Read with the sentinel as Go's nil, red-black links are plain-tree
    links (Plain below), so the insert and delete proofs of BaseBST carry
    over; rotations, which the plain tree lacks, are proved here. */
module RedBlackLinks {
  import opened SearchTree
  import BaseBST

  /** The arena index of rbNilNode. */
  const Sentinel := 0

  /** A link in the plain tree's terms: the sentinel becomes Go's nil and
      Go's nil becomes -2, which no plain link takes. */
  function Unsentinel(v: int): int
  {
    if v == Sentinel then -1 else if v == -1 then -2 else v
  }

  function UnsentinelAll(s: seq<int>): (t: seq<int>)
    ensures |t| == |s| && forall i :: 0 <= i < |s| ==> t[i] == Unsentinel(s[i])
  {
    seq(|s|, i requires 0 <= i < |s| => Unsentinel(s[i]))
  }

  /** The plain view of red-black links; the sentinel's own parent, which
      only the delete fixup reads, is dropped. */
  function Plain(a: Links): (b: Links)
    requires Sized(a) && |a.key| > 0
    ensures Sized(b) && b.key == a.key
  {
    Links(a.key, UnsentinelAll(a.left), UnsentinelAll(a.right), UnsentinelAll(a.parent)[Sentinel := -1], Unsentinel(a.root))
  }

  /** The sentinel owns no subtree and has Go's nil for children. */
  ghost predicate SentinelOk(a: Links, sub: seq<set<int>>)
  {
    Sized(a) && |sub| == |a.key| && |a.key| > 0 && sub[Sentinel] == {} &&
    a.left[Sentinel] == -1 && a.right[Sentinel] == -1
  }

  lemma UnderPlain(sub: seq<set<int>>, v: int)
    requires |sub| > 0 && sub[Sentinel] == {}
    ensures Under(sub, Unsentinel(v)) == Under(sub, v)
  {
  }

  /** A real node is locally sound in the red-black links exactly when it
      is in their plain view. */
  lemma LocalPlain(a: Links, sub: seq<set<int>>, j: int)
    requires SentinelOk(a, sub) && 0 < j < |a.key|
    ensures Local(a, sub, Sentinel, j) <==> Local(Plain(a), sub, -1, j)
  {
    var b := Plain(a);
    UnderPlain(sub, a.left[j]);
    UnderPlain(sub, a.right[j]);
    assert b.left[j] == Unsentinel(a.left[j]) && b.right[j] == Unsentinel(a.right[j]);
    var l, r := a.left[j], a.right[j];
    assert 0 < l < |a.key| ==> b.parent[l] == Unsentinel(a.parent[l]);
    assert 0 < r < |a.key| ==> b.parent[r] == Unsentinel(a.parent[r]);
  }

  lemma ValidToPlain(a: Links, sub: seq<set<int>>)
    requires Valid(a, sub, Sentinel)
    ensures SentinelOk(a, sub) && Valid(Plain(a), sub, -1) && Nodes(Plain(a), sub) == Nodes(a, sub)
  {
    var b := Plain(a);
    UnderPlain(sub, a.root);
    assert 0 < a.root < |a.key| ==> b.parent[a.root] == Unsentinel(a.parent[a.root]);
    forall j | j in Nodes(b, sub) && 0 <= j < |b.key|
      ensures Local(b, sub, -1, j)
    {
      assert Local(a, sub, Sentinel, j);
      LocalPlain(a, sub, j);
    }
  }

  lemma ValidFromPlain(a: Links, sub: seq<set<int>>)
    requires SentinelOk(a, sub) && Valid(Plain(a), sub, -1) && Sentinel !in Nodes(Plain(a), sub)
    ensures Valid(a, sub, Sentinel) && Nodes(a, sub) == Nodes(Plain(a), sub)
  {
    var b := Plain(a);
    UnderPlain(sub, a.root);
    assert 0 < a.root < |a.key| ==> b.parent[a.root] == Unsentinel(a.parent[a.root]);
    forall j | j in Nodes(a, sub) && 0 <= j < |a.key|
      ensures Local(a, sub, Sentinel, j)
    {
      assert Local(b, sub, -1, j);
      LocalPlain(a, sub, j);
    }
  }

  /** Transplant(u, v): v takes u's place below u's parent, or as the root
      when that parent is the sentinel, and v takes u's parent as its own,
      the sentinel included. */
  function Transplanted(a: Links, u: int, v: int): (b: Links)
    requires Sized(a) && 0 <= u < |a.key| && 0 <= v < |a.key| && 0 <= a.parent[u] < |a.key|
    ensures Sized(b) && b.key == a.key
  {
    var p := a.parent[u];
    var b := if p == Sentinel then a.(root := v)
             else if a.left[p] == u then a.(left := a.left[p := v])
             else a.(right := a.right[p := v]);
    b.(parent := b.parent[v := p])
  }

  /** Node i's links are arena nodes or the sentinel. */
  predicate Linked(a: Links, i: int)
    requires Sized(a) && 0 <= i < |a.key|
  {
    0 <= a.left[i] < |a.key| && 0 <= a.right[i] < |a.key| && 0 <= a.parent[i] < |a.key|
  }

  /** The least node y of z's right subtree, not that subtree's root,
      leaves its place to its right child and adopts z's right child r. */
  function Lifted(a: Links, y: int, r: int): (b: Links)
    requires Sized(a) && 0 <= y < |a.key| && Linked(a, y) && 0 <= r < |a.key|
    ensures Sized(b) && b.key == a.key
  {
    var t := Transplanted(a, y, a.right[y]);
    t.(right := t.right[y := r], parent := t.parent[r := y])
  }

  /** The links after Delete(z), where y is the least node of z's right
      subtree when z has two children. When y is z's own right child, its
      right child (possibly the sentinel) is told that y is its parent. */
  function Removed(a: Links, z: int, y: int): (b: Links)
    requires Sized(a) && 0 <= z < |a.key| && 0 <= y < |a.key| && Linked(a, z) && Linked(a, y)
    ensures Sized(b) && b.key == a.key
  {
    if a.left[z] == Sentinel then Transplanted(a, z, a.right[z])
    else if a.right[z] == Sentinel then Transplanted(a, z, a.left[z])
    else
      var a1 := if a.parent[y] != z then Lifted(a, y, a.right[z]) else a.(parent := a.parent[a.right[y] := y]);
      BaseBST.Adopted(Transplanted(a1, z, y), y, a.left[z])
  }

  lemma TransplantPlain(a: Links, u: int, v: int)
    requires Sized(a) && 0 < u < |a.key| && 0 <= v < |a.key| && 0 <= a.parent[u] < |a.key|
    ensures -1 <= Plain(a).parent[u] < |a.key| && -1 <= Unsentinel(v) < |a.key|
    ensures Plain(Transplanted(a, u, v)) == BaseBST.Transplanted(Plain(a), u, Unsentinel(v))
  {
    var pa, t := Plain(a), Transplanted(a, u, v);
    var p := a.parent[u];
    assert pa.parent[u] == Unsentinel(p);
    var c := BaseBST.Transplanted(pa, u, Unsentinel(v));
    var pt := Plain(t);
    assert pt.root == c.root;
    if p != Sentinel {
      assert pa.left[p] == u <==> a.left[p] == u;
    }
    assert pt.left == c.left;
    assert pt.right == c.right;
    assert pt.parent == c.parent;
  }

  lemma LiftPlain(a: Links, y: int, r: int)
    requires Sized(a) && 0 < y < |a.key| && Linked(a, y) && 0 < r < |a.key|
    ensures BaseBST.Linked(Plain(a), y)
    ensures Plain(Lifted(a, y, r)) == BaseBST.Lifted(Plain(a), y, r)
  {
    var pa := Plain(a);
    assert pa.right[y] == Unsentinel(a.right[y]) && pa.parent[y] == Unsentinel(a.parent[y]);
    var t := Transplanted(a, y, a.right[y]);
    TransplantPlain(a, y, a.right[y]);
    var pt := Plain(t);
    var l := t.(right := t.right[y := r], parent := t.parent[r := y]);
    var pl := Plain(l);
    var c := pt.(right := pt.right[y := r], parent := pt.parent[r := y]);
    assert pl.right == c.right;
    assert pl.parent == c.parent;
  }

  lemma AdoptPlain(a: Links, y: int, l: int)
    requires Sized(a) && 0 < y < |a.key| && 0 < l < |a.key|
    ensures Plain(BaseBST.Adopted(a, y, l)) == BaseBST.Adopted(Plain(a), y, l)
  {
    var pa, d := Plain(a), BaseBST.Adopted(a, y, l);
    var c := BaseBST.Adopted(pa, y, l);
    assert Plain(d).left == c.left;
    assert Plain(d).parent == c.parent;
  }

  /** Telling y's right child that y is its parent changes nothing in the
      plain view when that child is the sentinel or already knows. */
  lemma ReparentPlain(a: Links, y: int)
    requires Sized(a) && 0 <= y < |a.key| && 0 <= a.right[y] < |a.key|
    requires a.right[y] == Sentinel || a.parent[a.right[y]] == y
    ensures Plain(a.(parent := a.parent[a.right[y] := y])) == Plain(a)
  {
    var b := a.(parent := a.parent[a.right[y] := y]);
    assert Plain(b).parent == Plain(a).parent;
  }

  lemma RemovedPlain(a: Links, z: int, y: int)
    requires Sized(a) && 0 < z < |a.key| && 0 < y < |a.key| && Linked(a, z) && Linked(a, y)
    requires a.left[z] != Sentinel && a.right[z] != Sentinel ==> y != z
    requires a.left[z] != Sentinel && a.right[z] != Sentinel && a.parent[y] == z ==>
      a.right[z] == y && (a.right[y] == Sentinel || a.parent[a.right[y]] == y)
    requires a.left[z] != Sentinel && a.right[z] != Sentinel && a.parent[y] != z ==> a.parent[y] != Sentinel
    ensures BaseBST.Linked(Plain(a), z) && BaseBST.Linked(Plain(a), y)
    ensures Plain(Removed(a, z, y)) == BaseBST.Removed(Plain(a), z, y)
  {
    var pa := Plain(a);
    assert pa.left[z] == Unsentinel(a.left[z]) && pa.right[z] == Unsentinel(a.right[z]) && pa.parent[z] == Unsentinel(a.parent[z]);
    assert pa.left[y] == Unsentinel(a.left[y]) && pa.right[y] == Unsentinel(a.right[y]) && pa.parent[y] == Unsentinel(a.parent[y]);
    if a.left[z] == Sentinel {
      TransplantPlain(a, z, a.right[z]);
    } else if a.right[z] == Sentinel {
      TransplantPlain(a, z, a.left[z]);
    } else {
      var a1 := if a.parent[y] != z then Lifted(a, y, a.right[z]) else a.(parent := a.parent[a.right[y] := y]);
      var c1 := if pa.parent[y] != z then BaseBST.Lifted(pa, y, pa.right[z]) else pa;
      if a.parent[y] != z {
        LiftPlain(a, y, a.right[z]);
      } else {
        ReparentPlain(a, y);
      }
      assert Plain(a1) == c1;
      assert Plain(a1).parent[z] == Unsentinel(a1.parent[z]);
      TransplantPlain(a1, z, y);
      var t := Transplanted(a1, z, y);
      AdoptPlain(t, y, a.left[z]);
    }
  }

  /** What Delete knows before it relinks: z is a real linked node, and y
      is z itself when z lacks a child, else the least node of z's right
      subtree (reached by Minimum). */
  ghost predicate Removable(a: Links, sub: seq<set<int>>, z: int, y: int)
  {
    Valid(a, sub, Sentinel) && z in Nodes(a, sub) && 0 <= z < |a.key| && 0 <= y < |a.key| &&
    ((a.left[z] == Sentinel || a.right[z] == Sentinel) ==> y == z) &&
    (a.left[z] != Sentinel && a.right[z] != Sentinel ==> 0 <= a.right[z] < |a.key| && y in sub[a.right[z]] && a.left[y] == Sentinel) &&
    (a.left[z] != Sentinel && a.right[z] != Sentinel ==> forall k :: k in sub[a.right[z]] && 0 <= k < |a.key| ==> a.key[y] <= a.key[k])
  }

  /** A linked real node has arena nodes or the sentinel for links. */
  lemma NodeLinked(a: Links, sub: seq<set<int>>, i: int)
    requires Valid(a, sub, Sentinel) && i in Nodes(a, sub)
    ensures 0 < i < |a.key| && Linked(a, i)
    ensures a.parent[i] == Sentinel <==> i == a.root
    ensures i != a.root ==> a.parent[i] in Nodes(a, sub) && (a.left[a.parent[i]] == i || a.right[a.parent[i]] == i)
  {
    assert Local(a, sub, Sentinel, i);
    if i != a.root {
      ParentLink(a, sub, Sentinel, i);
    }
  }

  lemma RemovablePlain(a: Links, sub: seq<set<int>>, z: int, y: int)
    requires Removable(a, sub, z, y)
    ensures Linked(a, z) && Linked(a, y) && 0 < y
    ensures BaseBST.Removable(Plain(a), sub, z, y)
    ensures Plain(Removed(a, z, y)) == BaseBST.Removed(Plain(a), z, y)
  {
    ValidToPlain(a, sub);
    NodeLinked(a, sub, z);
    var pa := Plain(a);
    assert Local(a, sub, Sentinel, z);
    if a.left[z] != Sentinel && a.right[z] != Sentinel {
      SubClosed(a, sub, Sentinel, a.right[z], y);
      NodeLinked(a, sub, y);
      assert Local(a, sub, Sentinel, y);
      assert z !in sub[a.right[z]];
      if a.parent[y] == z {
        assert y == a.right[z] by {
          if y != a.right[z] {
            ParentInSub(a, sub, Sentinel, a.right[z], y);
            assert false;
          }
        }
      } else {
        assert y != a.root;
      }
    }
    assert pa.left[z] == Unsentinel(a.left[z]) && pa.right[z] == Unsentinel(a.right[z]) && pa.parent[z] == Unsentinel(a.parent[z]);
    assert pa.left[y] == Unsentinel(a.left[y]);
    RemovedPlain(a, z, y);
  }

  /** Transplant between real nodes leaves the sentinel's children alone. */
  lemma TransplantSentinel(a: Links, u: int, v: int)
    requires Sized(a) && 0 < u < |a.key| && 0 <= v < |a.key| && 0 <= a.parent[u] < |a.key|
    ensures Transplanted(a, u, v).left[Sentinel] == a.left[Sentinel]
    ensures Transplanted(a, u, v).right[Sentinel] == a.right[Sentinel]
  {
  }

  lemma RemovedSentinel(a: Links, z: int, y: int)
    requires Sized(a) && 0 < z < |a.key| && 0 < y < |a.key| && Linked(a, z) && Linked(a, y)
    ensures Removed(a, z, y).left[Sentinel] == a.left[Sentinel]
    ensures Removed(a, z, y).right[Sentinel] == a.right[Sentinel]
  {
    if a.left[z] == Sentinel {
      TransplantSentinel(a, z, a.right[z]);
    } else if a.right[z] == Sentinel {
      TransplantSentinel(a, z, a.left[z]);
    } else {
      var a1 := if a.parent[y] != z then Lifted(a, y, a.right[z]) else a.(parent := a.parent[a.right[y] := y]);
      if a.parent[y] != z {
        TransplantSentinel(a, y, a.right[y]);
      }
      assert a1.left[Sentinel] == a.left[Sentinel] && a1.right[Sentinel] == a.right[Sentinel];
      TransplantSentinel(a1, z, y);
    }
  }

  /** Delete keeps the links a valid search tree and removes exactly z. */
  lemma RemoveShape(a: Links, sub: seq<set<int>>, z: int, y: int)
    requires Removable(a, sub, z, y)
    ensures Linked(a, z) && Linked(a, y)
    ensures Valid(Removed(a, z, y), BaseBST.DeleteSub(sub, z, y), Sentinel)
    ensures Nodes(Removed(a, z, y), BaseBST.DeleteSub(sub, z, y)) == Nodes(a, sub) - {z}
  {
    RemovablePlain(a, sub, z, y);
    var b, s := Removed(a, z, y), BaseBST.DeleteSub(sub, z, y);
    BaseBST.DeleteShape(Plain(a), sub, z, y);
    RemovedSentinel(a, z, y);
    assert s[Sentinel] == {};
    assert SentinelOk(b, s);
    ValidFromPlain(b, s);
  }

  /** insert: x hangs below p, or becomes the root when p is the sentinel,
      on p's left exactly when its key is below p's, and gets the sentinel
      for both children. */
  function Attached(a: Links, x: int, p: int): (b: Links)
    requires Sized(a) && 0 <= x < |a.key| && 0 <= p < |a.key|
    ensures Sized(b) && b.key == a.key
  {
    var b := a.(parent := a.parent[x := p]);
    var c := if p == Sentinel then b.(root := x)
             else if a.key[x] < a.key[p] then b.(left := b.left[p := x])
             else b.(right := b.right[p := x]);
    c.(left := c.left[x := Sentinel], right := c.right[x := Sentinel])
  }

  /** The subtree sets after x is hung below p. */
  ghost function AttachSub(sub: seq<set<int>>, x: int, p: int): seq<set<int>>
  {
    BaseBST.AttachSub(sub, x, Unsentinel(p))
  }

  /** What insert knows before it links x below p: x is a real node
      outside the tree, and the descent for x's key (equal keys going
      right) ended at p's sentinel child on the key's side, or at an empty
      tree. */
  ghost predicate Attachable(a: Links, sub: seq<set<int>>, x: int, p: int)
  {
    Valid(a, sub, Sentinel) && 0 < x < |a.key| && x !in Nodes(a, sub) && 0 <= p < |a.key| &&
    (p == Sentinel ==> a.root == Sentinel) &&
    (p != Sentinel ==> p in Nodes(a, sub) && Fits(a, sub, a.root, p, a.key[x])) &&
    (p != Sentinel ==> (if a.key[x] < a.key[p] then a.left[p] else a.right[p]) == Sentinel)
  }

  lemma AttachPlain(a: Links, x: int, p: int)
    requires Sized(a) && 0 < x < |a.key| && 0 <= p < |a.key| && x != p
    ensures var a0 := a.(left := a.left[x := Sentinel], right := a.right[x := Sentinel]);
      Plain(Attached(a, x, p)) == BaseBST.Attached(Plain(a0), x, Unsentinel(p))
  {
    var a0 := a.(left := a.left[x := Sentinel], right := a.right[x := Sentinel]);
    var b, c := Plain(Attached(a, x, p)), BaseBST.Attached(Plain(a0), x, Unsentinel(p));
    assert p != Sentinel ==> Plain(a0).left[p] == Unsentinel(a.left[p]) && Plain(a0).right[p] == Unsentinel(a.right[p]);
    assert b.root == c.root;
    assert b.left == c.left;
    assert b.right == c.right;
    assert b.parent == c.parent;
  }

  lemma FitsPlain(a: Links, sub: seq<set<int>>, p: int, k: int)
    requires SentinelOk(a, sub) && Fits(a, sub, a.root, p, k)
    ensures Fits(Plain(a), sub, Plain(a).root, p, k)
  {
    var b := Plain(a);
    UnderPlain(sub, a.root);
    forall j | j in Under(sub, b.root) && 0 <= j < |b.key|
      ensures (p in Under(sub, b.left[j]) ==> k < b.key[j]) && (p in Under(sub, b.right[j]) ==> b.key[j] <= k)
    {
      UnderPlain(sub, a.left[j]);
      UnderPlain(sub, a.right[j]);
    }
  }

  lemma AttachablePlain(a: Links, sub: seq<set<int>>, x: int, p: int)
    requires Attachable(a, sub, x, p)
    ensures var a0 := a.(left := a.left[x := Sentinel], right := a.right[x := Sentinel]);
      BaseBST.Attachable(Plain(a0), sub, x, Unsentinel(p)) && Nodes(Plain(a0), sub) == Nodes(a, sub)
  {
    var a0 := a.(left := a.left[x := Sentinel], right := a.right[x := Sentinel]);
    Outsider(a, sub, Sentinel, x, Sentinel, Sentinel);
    ValidToPlain(a0, sub);
    var pa := Plain(a0);
    if p != Sentinel {
      assert Local(a, sub, Sentinel, p);
      assert Fits(a0, sub, a0.root, p, a.key[x]);
      FitsPlain(a0, sub, p, a.key[x]);
      assert pa.left[p] == Unsentinel(a.left[p]) && pa.right[p] == Unsentinel(a.right[p]);
    }
    assert pa.left[x] == -1 && pa.right[x] == -1;
  }

  /** After x is hung below p, every node above x has x on the side x's
      key selects: the left exactly when the key is below the node's. */
  lemma AttachFits(a: Links, sub: seq<set<int>>, x: int, p: int)
    requires Attachable(a, sub, x, p)
    ensures var b := Attached(a, x, p); Fits(b, AttachSub(sub, x, p), b.root, x, a.key[x])
  {
    var b, s, k := Attached(a, x, p), AttachSub(sub, x, p), a.key[x];
    assert s[Sentinel] == {};
    forall j | j in Under(s, b.root) && 0 <= j < |b.key|
      ensures (x in Under(s, b.left[j]) ==> k < b.key[j]) && (x in Under(s, b.right[j]) ==> b.key[j] <= k)
    {
      if j != x {
        assert p != Sentinel && j in Nodes(a, sub);
        assert Local(a, sub, Sentinel, j);
        var l, r := a.left[j], a.right[j];
        assert l != x && r != x;
        if j == p {
          assert p !in Under(sub, l) && p !in Under(sub, r);
        } else {
          assert b.left[j] == l && b.right[j] == r;
        }
      }
    }
  }

  /** Once hung below p, x comes in the tree's in-order list after every
      key at most its own and before every greater key. */
  lemma AttachPlaced(a: Links, sub: seq<set<int>>, x: int, p: int)
    requires Attachable(a, sub, x, p)
    ensures var b, s := Attached(a, x, p), AttachSub(sub, x, p);
      Valid(b, s, Sentinel) && Placed(Listed(b, s, Sentinel, b.root), a.key, x, a.key[x])
  {
    var b, s := Attached(a, x, p), AttachSub(sub, x, p);
    AttachShape(a, sub, x, p);
    AttachFits(a, sub, x, p);
    ListedPlace(b, s, Sentinel, b.root, x, a.key[x]);
  }

  /** insert keeps the links a valid search tree and adds exactly x. */
  lemma AttachShape(a: Links, sub: seq<set<int>>, x: int, p: int)
    requires Attachable(a, sub, x, p)
    ensures Valid(Attached(a, x, p), AttachSub(sub, x, p), Sentinel)
    ensures Nodes(Attached(a, x, p), AttachSub(sub, x, p)) == Nodes(a, sub) + {x}
  {
    var a0 := a.(left := a.left[x := Sentinel], right := a.right[x := Sentinel]);
    AttachablePlain(a, sub, x, p);
    BaseBST.AttachShape(Plain(a0), sub, x, Unsentinel(p));
    AttachPlain(a, x, p);
    var b, s := Attached(a, x, p), AttachSub(sub, x, p);
    assert s[Sentinel] == {};
    assert SentinelOk(b, s);
    ValidFromPlain(b, s);
  }

  /** Replace: Transplant puts v in u's place, then v takes u's children,
      which are told that v is their parent when they are not the sentinel. */
  function Replaced(a: Links, u: int, v: int): (b: Links)
    requires Sized(a) && 0 < u < |a.key| && 0 < v < |a.key| && Linked(a, u)
    ensures Sized(b) && b.key == a.key
  {
    var t := Transplanted(a, u, v);
    var t1 := t.(left := t.left[v := t.left[u]]);
    var t2 := t1.(right := t1.right[v := t1.right[u]]);
    var l, r := t2.left[v], t2.right[v];
    var t3 := if l != Sentinel then t2.(parent := t2.parent[l := v]) else t2;
    if r != Sentinel then t3.(parent := t3.parent[r := v]) else t3
  }

  /** Where v is none of u, u's parent and u's children, and u is not its own
      relative, v ends up in u's place: under u's parent (or as the root),
      with u's children, which name v as their parent. */
  lemma ReplacedPlaces(a: Links, u: int, v: int)
    requires Sized(a) && 0 < u < |a.key| && 0 < v < |a.key| && Linked(a, u)
    requires v != u && v != a.parent[u] && v != a.left[u] && v != a.right[u]
    requires a.parent[u] != u
    ensures Replaced(a, u, v).left[v] == a.left[u] && Replaced(a, u, v).right[v] == a.right[u]
    ensures Replaced(a, u, v).parent[v] == a.parent[u]
    ensures a.parent[u] == Sentinel ==> Replaced(a, u, v).root == v
    ensures a.parent[u] != Sentinel ==> Replaced(a, u, v).root == a.root
    ensures a.parent[u] != Sentinel && a.left[a.parent[u]] == u ==> Replaced(a, u, v).left[a.parent[u]] == v
    ensures a.parent[u] != Sentinel && a.left[a.parent[u]] != u ==> Replaced(a, u, v).right[a.parent[u]] == v
    ensures a.left[u] != Sentinel ==> Replaced(a, u, v).parent[a.left[u]] == v
    ensures a.right[u] != Sentinel ==> Replaced(a, u, v).parent[a.right[u]] == v
  {
    var t := Transplanted(a, u, v);
    assert t.left[u] == a.left[u] && t.right[u] == a.right[u];
    assert t.parent[v] == a.parent[u];
  }
}
