/** The colour side of Delete in tree/redblacktree.go: the colours and
    black heights after the splice, and the cases of deleteFixup.

    When the node Delete takes out of its place is black, the node x that
    fills the place sees one black node fewer than its sibling: its parent
    d has a deficit (DelFix). Each case of deleteFixup either moves the
    deficit up, to d, or removes it with rotations; the loop ends when x
    is the root or red, and colouring x black then leaves a red-black
    tree. */
module RedBlackDelete {
  import opened SearchTree
  import opened RedBlackLinks
  import opened RedBlackRotate
  import opened RedBlackColor

  /** The other child of x's parent. */
  function Sibling(a: Links, x: int): int
    requires Sized(a) && 0 <= x < |a.key| && 0 <= a.parent[x] < |a.key|
  {
    var d := a.parent[x];
    if x == a.left[d] then a.right[d] else a.left[d]
  }

  /** x, a child of d, sees one black node fewer than d's black height;
      d's other child sees all of it. Which child x is follows deleteFixup's
      own test (x == d.Left()). */
  ghost predicate Deficit(a: Links, color: seq<Color>, bh: seq<nat>, d: int, x: int)
    requires Colored(a, color, bh) && 0 <= d < |a.key| && 0 <= x < |a.key|
  {
    var l, r := a.left[d], a.right[d];
    0 <= l < |a.key| && 0 <= r < |a.key| && Through(color, bh, x) + 1 == bh[d] &&
    if l == x then Through(color, bh, r) == bh[d] else r == x && Through(color, bh, l) == bh[d]
  }

  /** The invariant of deleteFixup: a red-black tree but for x, which may
      be a red root, may be red below or above a red node, and, unless it
      is the root, sits one black short below its parent. x may be the
      sentinel, whose parent link then names that parent. */
  ghost predicate DelFix(a: Links, sub: seq<set<int>>, color: seq<Color>, bh: seq<nat>, x: int)
  {
    Valid(a, sub, Sentinel) && Colored(a, color, bh) && 0 <= x < |a.key| &&
    (x == Sentinel || x in Nodes(a, sub)) && (color[a.root] == Black || a.root == x) &&
    if x == a.root then AllOk(a, sub, color, bh, -1, x, x)
    else
      var d := a.parent[x];
      0 <= d < |a.key| && d in Nodes(a, sub) && Deficit(a, color, bh, d, x) && AllOk(a, sub, color, bh, d, x, x)
  }

  /** The loop of deleteFixup runs. */
  ghost predicate Short(a: Links, sub: seq<set<int>>, color: seq<Color>, bh: seq<nat>, x: int)
  {
    DelFix(a, sub, color, bh, x) && x != a.root && color[x] == Black
  }

  /** While the loop runs, x's sibling w is a real node (a black node
      sees at least two black nodes, the sentinel only one), so the
      source's test for a sentinel sibling never holds. */
  lemma SiblingFacts(a: Links, sub: seq<set<int>>, color: seq<Color>, bh: seq<nat>, x: int)
    requires Short(a, sub, color, bh, x)
    ensures var d, w := a.parent[x], Sibling(a, x);
      0 < d < |a.key| && Linked(a, d) && d != x &&
      0 < w < |a.key| && w in Nodes(a, sub) && Linked(a, w) && a.parent[w] == d && w != x && w != d &&
      (a.left[d] == x ==> a.right[d] == w) && (a.left[d] != x ==> a.right[d] == x && a.left[d] == w) &&
      Through(color, bh, w) == bh[d] && bh[d] >= 2 &&
      x !in Under(sub, w) && d !in Under(sub, w) && d !in Under(sub, x) && w !in Under(sub, x) &&
      Under(sub, x) + Under(sub, w) < sub[d]
  {
    var d := a.parent[x];
    NodeLinked(a, sub, d);
    assert Local(a, sub, Sentinel, d);
    var w := Sibling(a, x);
    assert w != Sentinel;
    NodeLinked(a, sub, w);
    if x != Sentinel {
      NodeLinked(a, sub, x);
    }
  }

  /** The loop ends at the root or at a red x: colouring x black makes a
      red-black tree (a red x makes up the missing black node). */
  lemma DelDone(a: Links, sub: seq<set<int>>, color: seq<Color>, bh: seq<nat>, x: int)
    requires DelFix(a, sub, color, bh, x) && (x == a.root || color[x] == Red)
    ensures RedBlack(a, sub, color[x := Black], bh)
  {
    var c := color[x := Black];
    var d := if x == a.root then -1 else a.parent[x];
    forall j | j in Nodes(a, sub) && 0 <= j < |a.key|
      ensures NodeOk(a, c, bh, j, -1, -1, -1)
    {
      assert NodeOk(a, color, bh, j, d, x, x);
      assert Local(a, sub, Sentinel, j);
      if j != d {
        var l, r := a.left[j], a.right[j];
        assert l != a.root && r != a.root;
        OkKept(a, color, bh, a, c, bh, j, d, x, x, -1, -1, -1);
      }
    }
  }

  /** The second case of deleteFixup, on either side: the sibling w and
      both its children are black. w turns red, so d's black height drops
      by one and the deficit moves up to d. */
  ghost predicate BlackNephews(a: Links, sub: seq<set<int>>, color: seq<Color>, bh: seq<nat>, x: int)
  {
    Short(a, sub, color, bh, x) && 0 <= a.parent[x] < |a.key| &&
    var w := Sibling(a, x);
    0 < w < |a.key| && Linked(a, w) && color[w] == Black &&
    color[a.left[w]] == Black && color[a.right[w]] == Black
  }

  lemma DelRecolor(a: Links, sub: seq<set<int>>, color: seq<Color>, bh: seq<nat>, x: int)
    requires BlackNephews(a, sub, color, bh, x)
    ensures var d, w := a.parent[x], Sibling(a, x);
      bh[d] >= 1 && DelFix(a, sub, color[w := Red], bh[d := bh[d] - 1], d) &&
      |Under(sub, x)| < |Under(sub, d)|
  {
    var d, w := a.parent[x], Sibling(a, x);
    SiblingFacts(a, sub, color, bh, x);
    NodeLinked(a, sub, d);
    BlackNephewsAll(a, sub, color, bh, x);
    if d != a.root {
      var dd := a.parent[d];
      assert NodeOk(a, color, bh, dd, d, x, x);
      assert Local(a, sub, Sentinel, dd);
    }
    Shrinks(a, sub, Sentinel, d);
  }

  lemma BlackNephewsAll(a: Links, sub: seq<set<int>>, color: seq<Color>, bh: seq<nat>, x: int)
    requires BlackNephews(a, sub, color, bh, x)
    ensures var d, w := a.parent[x], Sibling(a, x);
      var dd := if d == a.root then -1 else a.parent[d];
      bh[d] >= 1 && Colored(a, color[w := Red], bh[d := bh[d] - 1]) &&
      AllOk(a, sub, color[w := Red], bh[d := bh[d] - 1], dd, d, d)
  {
    var d, w := a.parent[x], Sibling(a, x);
    SiblingFacts(a, sub, color, bh, x);
    var c, h := color[w := Red], bh[d := bh[d] - 1];
    var dd := if d == a.root then -1 else a.parent[d];
    forall j | j in Nodes(a, sub) && 0 <= j < |a.key|
      ensures NodeOk(a, c, h, j, dd, d, d)
    {
      if j == d {
        BlackNephewsAtD(a, sub, color, bh, x);
      } else if j == w {
        BlackNephewsAtW(a, sub, color, bh, x);
      } else if j == dd {
        BlackNephewsAtDD(a, sub, color, bh, x);
      } else {
        BlackNephewsElse(a, sub, color, bh, x, j);
      }
    }
  }

  lemma BlackNephewsAtD(a: Links, sub: seq<set<int>>, color: seq<Color>, bh: seq<nat>, x: int)
    requires BlackNephews(a, sub, color, bh, x)
    ensures var d, w := a.parent[x], Sibling(a, x);
      var dd := if d == a.root then -1 else a.parent[d];
      bh[d] >= 1 && Colored(a, color[w := Red], bh[d := bh[d] - 1]) &&
      NodeOk(a, color[w := Red], bh[d := bh[d] - 1], d, dd, d, d)
  {
    SiblingFacts(a, sub, color, bh, x);
  }

  lemma BlackNephewsAtW(a: Links, sub: seq<set<int>>, color: seq<Color>, bh: seq<nat>, x: int)
    requires BlackNephews(a, sub, color, bh, x)
    ensures var d, w := a.parent[x], Sibling(a, x);
      var dd := if d == a.root then -1 else a.parent[d];
      bh[d] >= 1 && Colored(a, color[w := Red], bh[d := bh[d] - 1]) &&
      NodeOk(a, color[w := Red], bh[d := bh[d] - 1], w, dd, d, d)
  {
    var d, w := a.parent[x], Sibling(a, x);
    SiblingFacts(a, sub, color, bh, x);
    assert NodeOk(a, color, bh, w, d, x, x);
    assert Local(a, sub, Sentinel, w);
  }

  lemma BlackNephewsAtDD(a: Links, sub: seq<set<int>>, color: seq<Color>, bh: seq<nat>, x: int)
    requires BlackNephews(a, sub, color, bh, x) && a.parent[x] != a.root
    ensures var d, w := a.parent[x], Sibling(a, x);
      bh[d] >= 1 && 0 <= a.parent[d] < |a.key| && Colored(a, color[w := Red], bh[d := bh[d] - 1]) &&
      NodeOk(a, color[w := Red], bh[d := bh[d] - 1], a.parent[d], a.parent[d], d, d)
  {
    var d, w := a.parent[x], Sibling(a, x);
    SiblingFacts(a, sub, color, bh, x);
    NodeLinked(a, sub, d);
    var dd := a.parent[d];
    assert NodeOk(a, color, bh, dd, d, x, x);
    assert Local(a, sub, Sentinel, dd);
  }

  lemma BlackNephewsElse(a: Links, sub: seq<set<int>>, color: seq<Color>, bh: seq<nat>, x: int, j: int)
    requires BlackNephews(a, sub, color, bh, x)
    requires j in Nodes(a, sub) && j != a.parent[x] && j != Sibling(a, x) && (a.parent[x] == a.root || j != a.parent[a.parent[x]])
    ensures var d, w := a.parent[x], Sibling(a, x);
      var dd := if d == a.root then -1 else a.parent[d];
      bh[d] >= 1 && 0 <= j < |a.key| && Colored(a, color[w := Red], bh[d := bh[d] - 1]) &&
      NodeOk(a, color[w := Red], bh[d := bh[d] - 1], j, dd, d, d)
  {
    var d, w := a.parent[x], Sibling(a, x);
    var dd := if d == a.root then -1 else a.parent[d];
    var c, h := color[w := Red], bh[d := bh[d] - 1];
    SiblingFacts(a, sub, color, bh, x);
    NodeLinked(a, sub, d);
    assert NodeOk(a, color, bh, j, d, x, x);
    assert Local(a, sub, Sentinel, j);
    var l, r := a.left[j], a.right[j];
    assert l != w && r != w && l != d && r != d;
    OkKept(a, color, bh, a, c, h, j, d, x, x, dd, d, d);
  }

  /** The first case of deleteFixup with x on the left: the sibling w is
      red. */
  ghost predicate RedSibling(a: Links, sub: seq<set<int>>, color: seq<Color>, bh: seq<nat>, x: int)
  {
    Short(a, sub, color, bh, x) && 0 <= a.parent[x] < |a.key| && x == a.left[a.parent[x]] &&
    0 <= a.right[a.parent[x]] < |a.key| && color[a.right[a.parent[x]]] == Red
  }

  /** w turns black and d red, and d is rotated left: x keeps its parent
      d, now red, and gets a black sibling (w's old left child); no black
      height changes. */
  lemma DelRed(a: Links, sub: seq<set<int>>, color: seq<Color>, bh: seq<nat>, x: int)
    requires RedSibling(a, sub, color, bh, x)
    ensures LeftRotatable(a, sub, a.parent[x])
    ensures var d := a.parent[x];
      var b, c := LeftRotated(a, d), color[a.right[d] := Black][d := Red];
      DelFix(b, LeftRotSub(a, sub, d), c, bh, x) && b.parent[x] == d && b.left[d] == x &&
      c[d] == Red && 0 <= b.right[d] < |a.key| && c[b.right[d]] == Black &&
      Under(LeftRotSub(a, sub, d), x) == Under(sub, x)
  {
    var d := a.parent[x];
    SiblingFacts(a, sub, color, bh, x);
    RotatableNode(a, sub, d);
    LeftRotatedShaped(a, sub, d);
    DelRedShaped(a, sub, color, bh, LeftRotated(a, d), x);
  }

  /** The first case with b standing for the rotated links. */
  ghost predicate RedCase(a: Links, sub: seq<set<int>>, color: seq<Color>, bh: seq<nat>, b: Links, x: int)
  {
    RedSibling(a, sub, color, bh, x) && LeftRotatable(a, sub, a.parent[x]) && LeftShaped(a, b, a.parent[x])
  }

  lemma DelRedShaped(a: Links, sub: seq<set<int>>, color: seq<Color>, bh: seq<nat>, b: Links, x: int)
    requires RedSibling(a, sub, color, bh, x) && LeftRotatable(a, sub, a.parent[x]) && LeftShaped(a, b, a.parent[x])
    ensures var d := a.parent[x];
      var c := color[a.right[d] := Black][d := Red];
      DelFix(b, LeftRotSub(a, sub, d), c, bh, x) && b.parent[x] == d && b.left[d] == x &&
      c[d] == Red && 0 <= b.right[d] < |a.key| && c[b.right[d]] == Black &&
      Under(LeftRotSub(a, sub, d), x) == Under(sub, x)
  {
    var d, w := a.parent[x], a.right[a.parent[x]];
    assert RedCase(a, sub, color, bh, b, x);
    SiblingFacts(a, sub, color, bh, x);
    RotateFacts(a, sub, d);
    ShapedValid(a, sub, b, d);
    RedAll(a, sub, color, bh, b, x);
    assert NodeOk(a, color, bh, w, d, x, x);
    assert NodeOk(a, color, bh, d, d, x, x);
  }

  lemma RedAll(a: Links, sub: seq<set<int>>, color: seq<Color>, bh: seq<nat>, b: Links, x: int)
    requires RedCase(a, sub, color, bh, b, x)
    ensures var d := a.parent[x];
      var c := color[a.right[d] := Black][d := Red];
      Colored(b, c, bh) && AllOk(b, LeftRotSub(a, sub, d), c, bh, d, x, x)
  {
    var d, w := a.parent[x], a.right[a.parent[x]];
    var c, s := color[w := Black][d := Red], LeftRotSub(a, sub, d);
    SiblingFacts(a, sub, color, bh, x);
    ShapedValid(a, sub, b, d);
    forall j | j in Nodes(b, s) && 0 <= j < |b.key|
      ensures NodeOk(b, c, bh, j, d, x, x)
    {
      if j == d {
        RedAtD(a, sub, color, bh, b, x);
      } else if j == w {
        RedAtW(a, sub, color, bh, b, x);
      } else if j == a.parent[d] {
        RedAtTop(a, sub, color, bh, b, x);
      } else {
        RedElse(a, sub, color, bh, b, x, j);
      }
    }
  }

  lemma RedAtD(a: Links, sub: seq<set<int>>, color: seq<Color>, bh: seq<nat>, b: Links, x: int)
    requires RedCase(a, sub, color, bh, b, x)
    ensures var d := a.parent[x];
      var c := color[a.right[d] := Black][d := Red];
      Colored(b, c, bh) && NodeOk(b, c, bh, d, d, x, x)
  {
    var d, w := a.parent[x], a.right[a.parent[x]];
    SiblingFacts(a, sub, color, bh, x);
    RotateFacts(a, sub, d);
    assert NodeOk(a, color, bh, w, d, x, x);
  }

  lemma RedAtW(a: Links, sub: seq<set<int>>, color: seq<Color>, bh: seq<nat>, b: Links, x: int)
    requires RedCase(a, sub, color, bh, b, x)
    ensures var d := a.parent[x];
      var c := color[a.right[d] := Black][d := Red];
      Colored(b, c, bh) && NodeOk(b, c, bh, a.right[d], d, x, x)
  {
    var d, w := a.parent[x], a.right[a.parent[x]];
    SiblingFacts(a, sub, color, bh, x);
    RotateFacts(a, sub, d);
    assert NodeOk(a, color, bh, w, d, x, x);
    assert Local(a, sub, Sentinel, w);
  }

  lemma RedAtTop(a: Links, sub: seq<set<int>>, color: seq<Color>, bh: seq<nat>, b: Links, x: int)
    requires RedCase(a, sub, color, bh, b, x)
    requires a.parent[a.parent[x]] in Nodes(a, sub)
    ensures var d := a.parent[x];
      var c := color[a.right[d] := Black][d := Red];
      0 <= a.parent[d] < |b.key| && Colored(b, c, bh) && NodeOk(b, c, bh, a.parent[d], d, x, x)
  {
    var d, w := a.parent[x], a.right[a.parent[x]];
    var q := a.parent[d];
    SiblingFacts(a, sub, color, bh, x);
    RotateFacts(a, sub, d);
    assert NodeOk(a, color, bh, d, d, x, x);
    assert color[d] == Black;
    assert NodeOk(a, color, bh, q, d, x, x);
    assert Local(a, sub, Sentinel, q);
    var l, r := a.left[q], a.right[q];
    assert l == d || r == d;
    assert l != w && r != w;
  }

  lemma RedElse(a: Links, sub: seq<set<int>>, color: seq<Color>, bh: seq<nat>, b: Links, x: int, j: int)
    requires RedCase(a, sub, color, bh, b, x)
    requires j in Nodes(a, sub) && j != a.parent[x] && j != a.right[a.parent[x]] && j != a.parent[a.parent[x]]
    ensures var d := a.parent[x];
      var c := color[a.right[d] := Black][d := Red];
      0 <= j < |b.key| && Colored(b, c, bh) && NodeOk(b, c, bh, j, d, x, x)
  {
    var d, w := a.parent[x], a.right[a.parent[x]];
    var c := color[w := Black][d := Red];
    SiblingFacts(a, sub, color, bh, x);
    RotateFacts(a, sub, d);
    assert NodeOk(a, color, bh, j, d, x, x);
    assert Local(a, sub, Sentinel, j);
    var l, r := a.left[j], a.right[j];
    assert b.left[j] == l && b.right[j] == r;
    assert l != d && l != w && r != d && r != w;
    OkKept(a, color, bh, b, c, bh, j, d, x, x, d, x, x);
  }

  /** The third case of deleteFixup with x on the right: the sibling w is
      black, its left child (the nephew away from x) black and its right
      child red. */
  ghost predicate InnerNephew(a: Links, sub: seq<set<int>>, color: seq<Color>, bh: seq<nat>, x: int)
  {
    Short(a, sub, color, bh, x) && 0 <= a.parent[x] < |a.key| && x != a.left[a.parent[x]] &&
    var w := a.left[a.parent[x]];
    0 <= w < |a.key| && Linked(a, w) && color[w] == Black &&
    color[a.left[w]] == Black && color[a.right[w]] == Red
  }

  /** The red nephew turns black and w red, and w is rotated left: the
      nephew becomes x's black sibling, with the red w as its far child,
      which is the fourth case; no black height changes. */
  lemma DelInner(a: Links, sub: seq<set<int>>, color: seq<Color>, bh: seq<nat>, x: int)
    requires InnerNephew(a, sub, color, bh, x)
    ensures LeftRotatable(a, sub, a.left[a.parent[x]])
    ensures var d := a.parent[x];
      var w := a.left[d];
      var b, c := LeftRotated(a, w), color[a.right[w] := Black][w := Red];
      DelFix(b, LeftRotSub(a, sub, w), c, bh, x) && b.parent[x] == d && x != b.left[d] &&
      0 <= b.left[d] < |a.key| && c[b.left[d]] == Black && 0 <= b.left[b.left[d]] < |a.key| &&
      c[b.left[b.left[d]]] == Red && Under(LeftRotSub(a, sub, w), x) == Under(sub, x)
  {
    var d := a.parent[x];
    var w := a.left[d];
    SiblingFacts(a, sub, color, bh, x);
    RotatableNode(a, sub, w);
    LeftRotatedShaped(a, sub, w);
    DelInnerShaped(a, sub, color, bh, LeftRotated(a, w), x);
  }

  /** The third case with b standing for the rotated links. */
  ghost predicate InnerNephewCase(a: Links, sub: seq<set<int>>, color: seq<Color>, bh: seq<nat>, b: Links, x: int)
  {
    InnerNephew(a, sub, color, bh, x) && LeftRotatable(a, sub, a.left[a.parent[x]]) &&
    LeftShaped(a, b, a.left[a.parent[x]])
  }

  lemma DelInnerShaped(a: Links, sub: seq<set<int>>, color: seq<Color>, bh: seq<nat>, b: Links, x: int)
    requires InnerNephew(a, sub, color, bh, x) && LeftRotatable(a, sub, a.left[a.parent[x]])
    requires LeftShaped(a, b, a.left[a.parent[x]])
    ensures var d := a.parent[x];
      var w := a.left[d];
      var c := color[a.right[w] := Black][w := Red];
      DelFix(b, LeftRotSub(a, sub, w), c, bh, x) && b.parent[x] == d && x != b.left[d] &&
      0 <= b.left[d] < |a.key| && c[b.left[d]] == Black && 0 <= b.left[b.left[d]] < |a.key| &&
      c[b.left[b.left[d]]] == Red && Under(LeftRotSub(a, sub, w), x) == Under(sub, x)
  {
    var d := a.parent[x];
    var w := a.left[d];
    var y := a.right[w];
    assert InnerNephewCase(a, sub, color, bh, b, x);
    SiblingFacts(a, sub, color, bh, x);
    RotateFacts(a, sub, w);
    ShapedValid(a, sub, b, w);
    InnerNephewAll(a, sub, color, bh, b, x);
    assert NodeOk(a, color, bh, w, d, x, x);
    assert NodeOk(a, color, bh, y, d, x, x);
    assert NodeOk(a, color, bh, d, d, x, x);
    assert Local(a, sub, Sentinel, d);
    assert Local(a, sub, Sentinel, w);
  }

  lemma InnerNephewAll(a: Links, sub: seq<set<int>>, color: seq<Color>, bh: seq<nat>, b: Links, x: int)
    requires InnerNephewCase(a, sub, color, bh, b, x)
    ensures var w := a.left[a.parent[x]];
      var c := color[a.right[w] := Black][w := Red];
      Colored(b, c, bh) && AllOk(b, LeftRotSub(a, sub, w), c, bh, a.parent[x], x, x)
  {
    var d := a.parent[x];
    var w := a.left[d];
    var y := a.right[w];
    var c, s := color[y := Black][w := Red], LeftRotSub(a, sub, w);
    SiblingFacts(a, sub, color, bh, x);
    ShapedValid(a, sub, b, w);
    forall j | j in Nodes(b, s) && 0 <= j < |b.key|
      ensures NodeOk(b, c, bh, j, d, x, x)
    {
      if j == w {
        InnerNephewAtW(a, sub, color, bh, b, x);
      } else if j == y {
        InnerNephewAtY(a, sub, color, bh, b, x);
      } else if j == d {
        InnerNephewAtD(a, sub, color, bh, b, x);
      } else {
        InnerNephewElse(a, sub, color, bh, b, x, j);
      }
    }
  }

  lemma InnerNephewAtW(a: Links, sub: seq<set<int>>, color: seq<Color>, bh: seq<nat>, b: Links, x: int)
    requires InnerNephewCase(a, sub, color, bh, b, x)
    ensures var w := a.left[a.parent[x]];
      var c := color[a.right[w] := Black][w := Red];
      Colored(b, c, bh) && NodeOk(b, c, bh, w, a.parent[x], x, x)
  {
    var d := a.parent[x];
    var w := a.left[d];
    var y := a.right[w];
    SiblingFacts(a, sub, color, bh, x);
    RotateFacts(a, sub, w);
    assert NodeOk(a, color, bh, w, d, x, x);
    assert NodeOk(a, color, bh, y, d, x, x);
    assert Local(a, sub, Sentinel, w);
  }

  lemma InnerNephewAtY(a: Links, sub: seq<set<int>>, color: seq<Color>, bh: seq<nat>, b: Links, x: int)
    requires InnerNephewCase(a, sub, color, bh, b, x)
    ensures var w := a.left[a.parent[x]];
      var c := color[a.right[w] := Black][w := Red];
      0 <= a.right[w] < |b.key| && Colored(b, c, bh) && NodeOk(b, c, bh, a.right[w], a.parent[x], x, x)
  {
    var d := a.parent[x];
    var w := a.left[d];
    var y := a.right[w];
    SiblingFacts(a, sub, color, bh, x);
    RotateFacts(a, sub, w);
    assert NodeOk(a, color, bh, w, d, x, x);
    assert NodeOk(a, color, bh, y, d, x, x);
    assert Local(a, sub, Sentinel, y);
  }

  lemma InnerNephewAtD(a: Links, sub: seq<set<int>>, color: seq<Color>, bh: seq<nat>, b: Links, x: int)
    requires InnerNephewCase(a, sub, color, bh, b, x)
    ensures var w := a.left[a.parent[x]];
      var c := color[a.right[w] := Black][w := Red];
      0 <= a.parent[x] < |b.key| && Colored(b, c, bh) && NodeOk(b, c, bh, a.parent[x], a.parent[x], x, x)
  {
    var d := a.parent[x];
    var w := a.left[d];
    SiblingFacts(a, sub, color, bh, x);
    RotateFacts(a, sub, w);
    assert NodeOk(a, color, bh, d, d, x, x);
    assert Local(a, sub, Sentinel, d);
  }

  lemma InnerNephewElse(a: Links, sub: seq<set<int>>, color: seq<Color>, bh: seq<nat>, b: Links, x: int, j: int)
    requires InnerNephewCase(a, sub, color, bh, b, x)
    requires j in Nodes(a, sub) && j != a.parent[x] && j != a.left[a.parent[x]] && j != a.right[a.left[a.parent[x]]]
    ensures var w := a.left[a.parent[x]];
      var c := color[a.right[w] := Black][w := Red];
      0 <= j < |b.key| && Colored(b, c, bh) && NodeOk(b, c, bh, j, a.parent[x], x, x)
  {
    var d := a.parent[x];
    var w := a.left[d];
    var y := a.right[w];
    var c := color[y := Black][w := Red];
    SiblingFacts(a, sub, color, bh, x);
    RotateFacts(a, sub, w);
    assert NodeOk(a, color, bh, j, d, x, x);
    assert Local(a, sub, Sentinel, j);
    var l, r := a.left[j], a.right[j];
    assert b.left[j] == l && b.right[j] == r;
    assert l != y && l != w && r != y && r != w;
    OkKept(a, color, bh, b, c, bh, j, d, x, x, d, x, x);
  }

  /** The fourth case of deleteFixup with x on the left: the sibling w is
      black and its right child (the nephew away from x) red. */
  ghost predicate OuterNephew(a: Links, sub: seq<set<int>>, color: seq<Color>, bh: seq<nat>, x: int)
  {
    Short(a, sub, color, bh, x) && 0 <= a.parent[x] < |a.key| && x == a.left[a.parent[x]] &&
    var w := a.right[a.parent[x]];
    0 <= w < |a.key| && Linked(a, w) && color[w] == Black && color[a.right[w]] == Red
  }

  /** The child of x's sibling on the side away from x. */
  function FarNephew(a: Links, x: int): int
    requires Sized(a) && 0 <= x < |a.key| && 0 <= a.parent[x] < |a.key| && 0 <= Sibling(a, x) < |a.key|
  {
    var w := Sibling(a, x);
    if x == a.left[a.parent[x]] then a.right[w] else a.left[w]
  }

  /** The colours after the fourth case: the sibling w takes d's colour,
      and d and the far nephew turn black. */
  function OuterColors(a: Links, color: seq<Color>, x: int): (c: seq<Color>)
    requires Sized(a) && |color| == |a.key| && 0 <= x < |a.key| && 0 <= a.parent[x] < |a.key|
    requires 0 <= Sibling(a, x) < |a.key| && 0 <= FarNephew(a, x) < |a.key|
    ensures |c| == |color|
  {
    var d := a.parent[x];
    color[Sibling(a, x) := color[d]][d := Black][FarNephew(a, x) := Black]
  }

  /** The black heights after the fourth case: d and w trade theirs. */
  function OuterHeights(a: Links, bh: seq<nat>, x: int): (h: seq<nat>)
    requires Sized(a) && |bh| == |a.key| && 0 <= x < |a.key| && 0 <= a.parent[x] < |a.key|
    requires 0 <= Sibling(a, x) < |a.key|
    ensures |h| == |bh|
  {
    var d, w := a.parent[x], Sibling(a, x);
    bh[d := bh[w]][w := bh[d]]
  }

  /** The recolouring and the left rotation of d leave a red-black tree:
      w stands in d's place with d's colour, and the extra black node on
      x's side is d. */
  lemma DelOuter(a: Links, sub: seq<set<int>>, color: seq<Color>, bh: seq<nat>, x: int)
    requires OuterNephew(a, sub, color, bh, x)
    ensures LeftRotatable(a, sub, a.parent[x])
    ensures RedBlack(LeftRotated(a, a.parent[x]), LeftRotSub(a, sub, a.parent[x]), OuterColors(a, color, x), OuterHeights(a, bh, x))
  {
    var d := a.parent[x];
    SiblingFacts(a, sub, color, bh, x);
    RotatableNode(a, sub, d);
    LeftRotatedShaped(a, sub, d);
    DelOuterShaped(a, sub, color, bh, LeftRotated(a, d), x);
  }

  /** The fourth case with b standing for the rotated links. */
  ghost predicate OuterNephewCase(a: Links, sub: seq<set<int>>, color: seq<Color>, bh: seq<nat>, b: Links, x: int)
  {
    OuterNephew(a, sub, color, bh, x) && LeftRotatable(a, sub, a.parent[x]) && LeftShaped(a, b, a.parent[x])
  }

  lemma DelOuterShaped(a: Links, sub: seq<set<int>>, color: seq<Color>, bh: seq<nat>, b: Links, x: int)
    requires OuterNephew(a, sub, color, bh, x) && LeftRotatable(a, sub, a.parent[x]) && LeftShaped(a, b, a.parent[x])
    ensures RedBlack(b, LeftRotSub(a, sub, a.parent[x]), OuterColors(a, color, x), OuterHeights(a, bh, x))
  {
    var d := a.parent[x];
    assert OuterNephewCase(a, sub, color, bh, b, x);
    SiblingFacts(a, sub, color, bh, x);
    RotateFacts(a, sub, d);
    ShapedValid(a, sub, b, d);
    OuterNephewAll(a, sub, color, bh, b, x);
  }

  lemma OuterNephewAll(a: Links, sub: seq<set<int>>, color: seq<Color>, bh: seq<nat>, b: Links, x: int)
    requires OuterNephewCase(a, sub, color, bh, b, x)
    ensures var c, h := OuterColors(a, color, x), OuterHeights(a, bh, x);
      Colored(b, c, h) && AllOk(b, LeftRotSub(a, sub, a.parent[x]), c, h, -1, -1, -1)
  {
    var d := a.parent[x];
    var w := a.right[d];
    var c, h, s := OuterColors(a, color, x), OuterHeights(a, bh, x), LeftRotSub(a, sub, d);
    SiblingFacts(a, sub, color, bh, x);
    ShapedValid(a, sub, b, d);
    forall j | j in Nodes(b, s) && 0 <= j < |b.key|
      ensures NodeOk(b, c, h, j, -1, -1, -1)
    {
      if j == d {
        OuterNephewAtD(a, sub, color, bh, b, x);
      } else if j == w {
        OuterNephewAtW(a, sub, color, bh, b, x);
      } else if j == a.parent[d] {
        OuterNephewAtTop(a, sub, color, bh, b, x);
      } else {
        OuterNephewElse(a, sub, color, bh, b, x, j);
      }
    }
  }

  lemma OuterNephewAtD(a: Links, sub: seq<set<int>>, color: seq<Color>, bh: seq<nat>, b: Links, x: int)
    requires OuterNephewCase(a, sub, color, bh, b, x)
    ensures var c, h := OuterColors(a, color, x), OuterHeights(a, bh, x);
      Colored(b, c, h) && NodeOk(b, c, h, a.parent[x], -1, -1, -1)
  {
    var d := a.parent[x];
    var w := a.right[d];
    SiblingFacts(a, sub, color, bh, x);
    RotateFacts(a, sub, d);
    assert NodeOk(a, color, bh, w, d, x, x);
    assert Local(a, sub, Sentinel, w);
  }

  lemma OuterNephewAtW(a: Links, sub: seq<set<int>>, color: seq<Color>, bh: seq<nat>, b: Links, x: int)
    requires OuterNephewCase(a, sub, color, bh, b, x)
    ensures var c, h := OuterColors(a, color, x), OuterHeights(a, bh, x);
      0 <= a.right[a.parent[x]] < |b.key| && Colored(b, c, h) && NodeOk(b, c, h, a.right[a.parent[x]], -1, -1, -1)
  {
    var d := a.parent[x];
    var w := a.right[d];
    SiblingFacts(a, sub, color, bh, x);
    RotateFacts(a, sub, d);
    assert NodeOk(a, color, bh, w, d, x, x);
    assert Local(a, sub, Sentinel, w);
  }

  lemma OuterNephewAtTop(a: Links, sub: seq<set<int>>, color: seq<Color>, bh: seq<nat>, b: Links, x: int)
    requires OuterNephewCase(a, sub, color, bh, b, x)
    requires a.parent[a.parent[x]] in Nodes(a, sub)
    ensures var c, h := OuterColors(a, color, x), OuterHeights(a, bh, x);
      0 <= a.parent[a.parent[x]] < |b.key| && Colored(b, c, h) && NodeOk(b, c, h, a.parent[a.parent[x]], -1, -1, -1)
  {
    var d := a.parent[x];
    var q := a.parent[d];
    OuterAbove(a, sub, color, bh, x);
    RotateFacts(a, sub, d);
  }

  /** d's parent q sees through w, after the fourth case, what it saw
      through d before it, and w is black if q is red. */
  lemma OuterAbove(a: Links, sub: seq<set<int>>, color: seq<Color>, bh: seq<nat>, x: int)
    requires OuterNephew(a, sub, color, bh, x) && a.parent[a.parent[x]] in Nodes(a, sub)
    ensures var d, c, h := a.parent[x], OuterColors(a, color, x), OuterHeights(a, bh, x);
      var q, w := a.parent[d], a.right[d];
      var o := if a.left[q] == d then a.right[q] else a.left[q];
      0 <= q < |a.key| && 0 <= o < |a.key| && 0 <= w < |a.key| && Colored(a, c, h) &&
      (a.left[q] == d || a.right[q] == d) && q != d && q != w &&
      Through(c, h, w) == h[q] && Through(c, h, o) == h[q] && (c[q] == Red ==> c[w] == Black && c[o] == Black)
  {
    var d := a.parent[x];
    var w := a.right[d];
    var q := a.parent[d];
    var c, h := OuterColors(a, color, x), OuterHeights(a, bh, x);
    SiblingFacts(a, sub, color, bh, x);
    NodeLinked(a, sub, d);
    assert NodeOk(a, color, bh, q, d, x, x);
    assert NodeOk(a, color, bh, w, d, x, x);
    assert Local(a, sub, Sentinel, q);
    assert Local(a, sub, Sentinel, w);
    var o := if a.left[q] == d then a.right[q] else a.left[q];
    assert o != w && o != d && o != a.right[w];
  }

  lemma OuterNephewElse(a: Links, sub: seq<set<int>>, color: seq<Color>, bh: seq<nat>, b: Links, x: int, j: int)
    requires OuterNephewCase(a, sub, color, bh, b, x)
    requires j in Nodes(a, sub) && j != a.parent[x] && j != a.right[a.parent[x]] && j != a.parent[a.parent[x]]
    ensures var c, h := OuterColors(a, color, x), OuterHeights(a, bh, x);
      0 <= j < |b.key| && Colored(b, c, h) && NodeOk(b, c, h, j, -1, -1, -1)
  {
    var d := a.parent[x];
    OuterRecolored(a, sub, color, bh, x, j);
    RotateFacts(a, sub, d);
    assert b.left[j] == a.left[j] && b.right[j] == a.right[j];
  }

  /** Away from d, w and d's parent, the fourth case only recolours. */
  lemma OuterRecolored(a: Links, sub: seq<set<int>>, color: seq<Color>, bh: seq<nat>, x: int, j: int)
    requires OuterNephew(a, sub, color, bh, x)
    requires j in Nodes(a, sub) && j != a.parent[x] && j != a.right[a.parent[x]] && j != a.parent[a.parent[x]]
    ensures var c, h := OuterColors(a, color, x), OuterHeights(a, bh, x);
      0 <= j < |a.key| && Colored(a, c, h) && NodeOk(a, c, h, j, -1, -1, -1)
  {
    var d := a.parent[x];
    var w := a.right[d];
    var y := a.right[w];
    var c, h := OuterColors(a, color, x), OuterHeights(a, bh, x);
    SiblingFacts(a, sub, color, bh, x);
    assert NodeOk(a, color, bh, j, d, x, x);
    assert NodeOk(a, color, bh, w, d, x, x);
    assert Local(a, sub, Sentinel, j);
    assert Local(a, sub, Sentinel, w);
    var l, r := a.left[j], a.right[j];
    assert l != d && l != w && r != d && r != w && l != y && r != y;
    OkKept(a, color, bh, a, c, h, j, d, x, x, -1, -1, -1);
  }

  /** Unless x is the root, it is exactly one of its parent's children. */
  lemma OneSide(a: Links, sub: seq<set<int>>, color: seq<Color>, bh: seq<nat>, x: int)
    requires DelFix(a, sub, color, bh, x) && x != a.root
    ensures 0 <= a.parent[x] < |a.key| && (a.left[a.parent[x]] == x <==> a.right[a.parent[x]] != x)
  {
  }

  /** The invariant does not tell left from right. */
  lemma DelFixMirror(a: Links, sub: seq<set<int>>, color: seq<Color>, bh: seq<nat>, x: int)
    ensures DelFix(Mirror(a), sub, color, bh, x) <==> DelFix(a, sub, color, bh, x)
  {
    var m := Mirror(a);
    ValidMirror(a, sub, Sentinel);
    if Colored(a, color, bh) && 0 <= x < |a.key| {
      var d := if x == a.root then -1 else a.parent[x];
      AllOkMirror(a, sub, color, bh, d, x, x);
    }
  }

  /** The first case with x on the right: the sibling w, d's left child,
      is red. */
  ghost predicate RedSiblingRight(a: Links, sub: seq<set<int>>, color: seq<Color>, bh: seq<nat>, x: int)
  {
    Short(a, sub, color, bh, x) && 0 <= a.parent[x] < |a.key| && x != a.left[a.parent[x]] &&
    0 <= a.left[a.parent[x]] < |a.key| && color[a.left[a.parent[x]]] == Red
  }

  /** The third case with x on the left: w's right child is black and its
      left child red. */
  ghost predicate InnerNephewLeft(a: Links, sub: seq<set<int>>, color: seq<Color>, bh: seq<nat>, x: int)
  {
    Short(a, sub, color, bh, x) && 0 <= a.parent[x] < |a.key| && x == a.left[a.parent[x]] &&
    var w := a.right[a.parent[x]];
    0 <= w < |a.key| && Linked(a, w) && color[w] == Black &&
    color[a.right[w]] == Black && color[a.left[w]] == Red
  }

  /** The fourth case with x on the right: w's left child is red. */
  ghost predicate OuterNephewRight(a: Links, sub: seq<set<int>>, color: seq<Color>, bh: seq<nat>, x: int)
  {
    Short(a, sub, color, bh, x) && 0 <= a.parent[x] < |a.key| && x != a.left[a.parent[x]] &&
    var w := a.left[a.parent[x]];
    0 <= w < |a.key| && Linked(a, w) && color[w] == Black && color[a.left[w]] == Red
  }

  /** Each case on one side is the mirror image of the case on the other,
      with the same sibling and far nephew. */
  lemma CasesMirror(a: Links, sub: seq<set<int>>, color: seq<Color>, bh: seq<nat>, x: int)
    requires Short(a, sub, color, bh, x)
    ensures Short(Mirror(a), sub, color, bh, x)
    ensures Sibling(Mirror(a), x) == Sibling(a, x)
    ensures RedSibling(Mirror(a), sub, color, bh, x) <==> RedSiblingRight(a, sub, color, bh, x)
    ensures InnerNephew(Mirror(a), sub, color, bh, x) <==> InnerNephewLeft(a, sub, color, bh, x)
    ensures OuterNephew(Mirror(a), sub, color, bh, x) <==> OuterNephewRight(a, sub, color, bh, x)
    ensures 0 <= Sibling(a, x) < |a.key| && Linked(a, Sibling(a, x)) ==> FarNephew(Mirror(a), x) == FarNephew(a, x)
  {
    DelFixMirror(a, sub, color, bh, x);
    OneSide(a, sub, color, bh, x);
  }

  /** The first case on the right: w turns black and d red, and d is
      rotated right. */
  lemma DelRedRight(a: Links, sub: seq<set<int>>, color: seq<Color>, bh: seq<nat>, x: int)
    requires RedSiblingRight(a, sub, color, bh, x)
    ensures RightRotatable(a, sub, a.parent[x])
    ensures var d := a.parent[x];
      var b, c := RightRotated(a, d), color[a.left[d] := Black][d := Red];
      DelFix(b, RightRotSub(a, sub, d), c, bh, x) && b.parent[x] == d && x != b.left[d] &&
      c[d] == Red && 0 <= b.left[d] < |a.key| && c[b.left[d]] == Black &&
      Under(RightRotSub(a, sub, d), x) == Under(sub, x)
  {
    var d, m := a.parent[x], Mirror(a);
    CasesMirror(a, sub, color, bh, x);
    DelRed(m, sub, color, bh, x);
    SiblingFacts(a, sub, color, bh, x);
    RotatableNode(a, sub, d);
    RightMirror(a, d);
    var t := LeftRotated(m, d);
    assert RightRotSub(a, sub, d) == LeftRotSub(m, sub, d);
    var c := color[a.left[d] := Black][d := Red];
    DelFixMirror(t, LeftRotSub(m, sub, d), c, bh, x);
    OneSide(t, LeftRotSub(m, sub, d), c, bh, x);
  }

  /** The third case on the left: the red nephew turns black and w red,
      and w is rotated right. */
  lemma DelInnerLeft(a: Links, sub: seq<set<int>>, color: seq<Color>, bh: seq<nat>, x: int)
    requires InnerNephewLeft(a, sub, color, bh, x)
    ensures RightRotatable(a, sub, a.right[a.parent[x]])
    ensures var d := a.parent[x];
      var w := a.right[d];
      var b, c := RightRotated(a, w), color[a.left[w] := Black][w := Red];
      DelFix(b, RightRotSub(a, sub, w), c, bh, x) && b.parent[x] == d && x == b.left[d] &&
      0 <= b.right[d] < |a.key| && c[b.right[d]] == Black && 0 <= b.right[b.right[d]] < |a.key| &&
      c[b.right[b.right[d]]] == Red && Under(RightRotSub(a, sub, w), x) == Under(sub, x)
  {
    var d, m := a.parent[x], Mirror(a);
    var w := a.right[d];
    CasesMirror(a, sub, color, bh, x);
    DelInner(m, sub, color, bh, x);
    SiblingFacts(a, sub, color, bh, x);
    RotatableNode(a, sub, w);
    RightMirror(a, w);
    var t := LeftRotated(m, w);
    assert RightRotSub(a, sub, w) == LeftRotSub(m, sub, w);
    var c := color[a.left[w] := Black][w := Red];
    DelFixMirror(t, LeftRotSub(m, sub, w), c, bh, x);
  }

  /** The fourth case on the right: w takes d's colour, d and the far
      nephew turn black, and d is rotated right. */
  lemma DelOuterRight(a: Links, sub: seq<set<int>>, color: seq<Color>, bh: seq<nat>, x: int)
    requires OuterNephewRight(a, sub, color, bh, x)
    ensures RightRotatable(a, sub, a.parent[x])
    ensures RedBlack(RightRotated(a, a.parent[x]), RightRotSub(a, sub, a.parent[x]), OuterColors(a, color, x), OuterHeights(a, bh, x))
  {
    var d, m := a.parent[x], Mirror(a);
    CasesMirror(a, sub, color, bh, x);
    DelOuter(m, sub, color, bh, x);
    SiblingFacts(a, sub, color, bh, x);
    RotatableNode(a, sub, d);
    RightMirror(a, d);
    var t := LeftRotated(m, d);
    assert RightRotSub(a, sub, d) == LeftRotSub(m, sub, d);
    assert OuterColors(m, color, x) == OuterColors(a, color, x);
    assert OuterHeights(m, bh, x) == OuterHeights(a, bh, x);
    FixingMirror(t, LeftRotSub(m, sub, d), OuterColors(a, color, x), OuterHeights(a, bh, x), Sentinel);
  }

  /** The node that fills the place Delete empties (nodeAtOriginalY): z's
      other child when z lacks one, else the right child of y, the least
      node of z's right subtree. */
  function Replacement(a: Links, z: int, y: int): int
    requires Sized(a) && 0 <= z < |a.key| && 0 <= y < |a.key|
  {
    if a.left[z] == Sentinel then a.right[z] else if a.right[z] == Sentinel then a.left[z] else a.right[y]
  }

  /** The parent x gets: z's parent when z lacks a child (-1 when z was
      the root), y when y is z's right child, else y's parent. */
  function Gap(a: Links, z: int, y: int): int
    requires Sized(a) && 0 <= z < |a.key| && 0 <= y < |a.key|
  {
    if a.left[z] == Sentinel || a.right[z] == Sentinel then (if a.parent[z] == Sentinel then -1 else a.parent[z])
    else if a.parent[y] == z then y
    else a.parent[y]
  }

  /** The nodes Delete relinks, read in the tree before it: z's parent p
      (the sentinel exactly when z is the root), z's children, y and, when
      y lies deeper, y's parent q, and the replacement x; none of them
      coincide where the proof needs them apart. */
  lemma SpliceFacts(a: Links, sub: seq<set<int>>, z: int, y: int)
    requires Removable(a, sub, z, y)
    ensures 0 < z < |a.key| && Linked(a, z) && Linked(a, y) && 0 < y < |a.key| && y in Nodes(a, sub)
    ensures var p, x := a.parent[z], Replacement(a, z, y);
      0 <= x < |a.key| && (x != Sentinel ==> x in Nodes(a, sub) && Linked(a, x)) && x != z && x != y &&
      (p == Sentinel <==> z == a.root) && p != z && (x != Sentinel ==> p != x) &&
      (p != Sentinel ==> p in Nodes(a, sub) && (a.left[p] == z || a.right[p] == z) && Linked(a, p))
    ensures a.left[z] == Sentinel || a.right[z] == Sentinel ==>
      y == z && (Replacement(a, z, y) != Sentinel ==> a.parent[Replacement(a, z, y)] == z)
    ensures a.left[z] != Sentinel && a.right[z] != Sentinel ==> TwoFacts(a, sub, z, y)
  {
    NodeLinked(a, sub, z);
    assert Local(a, sub, Sentinel, z);
    var p, zl, zr := a.parent[z], a.left[z], a.right[z];
    if p != Sentinel {
      NodeLinked(a, sub, p);
      assert Local(a, sub, Sentinel, p);
    }
    if zl == Sentinel || zr == Sentinel {
      var x := Replacement(a, z, y);
      if x != Sentinel {
        NodeLinked(a, sub, x);
        assert x in sub[z];
      }
    } else {
      SpliceTwo(a, sub, z, y);
      var x := a.right[y];
      if x != Sentinel {
        SubClosed(a, sub, Sentinel, zr, x);
        NodeLinked(a, sub, x);
        assert x in sub[z];
      }
    }
  }

  /** When z has two children: y lies in z's right subtree with no left
      child, and is z's right child exactly when z is its parent. */
  ghost predicate TwoFacts(a: Links, sub: seq<set<int>>, z: int, y: int)
    requires Sized(a) && 0 <= z < |a.key| && 0 <= y < |a.key|
  {
    var p, x, zl, zr := a.parent[z], a.right[y], a.left[z], a.right[z];
    |sub| == |a.key| && 0 <= x < |a.key| && 0 < zl < |a.key| && 0 < zr < |a.key| &&
    zl in Nodes(a, sub) && zr in Nodes(a, sub) && a.parent[zl] == z && a.parent[zr] == z && zl != zr &&
    y != z && y != zl && y != p && a.left[y] == Sentinel && x != zl && x != zr &&
    (x != Sentinel ==> a.parent[x] == y && x in sub[zr]) && zr != p && zl != p &&
    y in sub[zr] &&
    (a.parent[y] == z ==> y == zr) &&
    (a.parent[y] != z ==>
      var q := a.parent[y];
      0 < q < |a.key| && q in Nodes(a, sub) && (a.left[q] == y || a.right[q] == y) &&
      q != z && q != p && q != y && q != zl && q != x && y != zr && Linked(a, q))
  }

  lemma SpliceTwo(a: Links, sub: seq<set<int>>, z: int, y: int)
    requires Removable(a, sub, z, y) && a.left[z] != Sentinel && a.right[z] != Sentinel
    ensures TwoFacts(a, sub, z, y)
  {
    NodeLinked(a, sub, z);
    assert Local(a, sub, Sentinel, z);
    var p, zl, zr := a.parent[z], a.left[z], a.right[z];
    if p != Sentinel {
      assert Local(a, sub, Sentinel, p);
    }
    NodeLinked(a, sub, zl);
    NodeLinked(a, sub, zr);
    SubClosed(a, sub, Sentinel, zr, y);
    NodeLinked(a, sub, y);
    assert Local(a, sub, Sentinel, y);
    var x := a.right[y];
    if x != Sentinel {
      NodeLinked(a, sub, x);
    }
    if a.parent[y] == z {
      assert y == zr by {
        if y != zr {
          ParentInSub(a, sub, Sentinel, zr, y);
          assert false;
        }
      }
    } else {
      assert y != zr;
      ParentInSub(a, sub, Sentinel, zr, y);
      var q := a.parent[y];
      NodeLinked(a, sub, q);
      SubClosed(a, sub, Sentinel, zr, q);
      assert Local(a, sub, Sentinel, q);
    }
  }

  /** j's child u is v in b, and j's other child is unchanged. */
  ghost predicate Relinked(a: Links, b: Links, j: int, u: int, v: int)
    requires Sized(a) && Sized(b) && |b.key| == |a.key| && 0 <= j < |a.key|
  {
    (a.left[j] == u ==> b.left[j] == v && b.right[j] == a.right[j]) &&
    (a.left[j] != u ==> b.right[j] == v && b.left[j] == a.left[j])
  }

  /** The child links after Delete(z), read off the links before it: z's
      parent p takes the node that moves up (x when z lacks a child, else
      y), y takes z's children (its own right child x when y was z's right
      child), y's old parent q, when y lay deeper, takes x, and x learns
      its new parent; every other node keeps its children. */
  ghost predicate Spliced(a: Links, b: Links, z: int, y: int)
    requires Sized(a) && Sized(b) && |b.key| == |a.key| && 0 <= z < |a.key| && 0 <= y < |a.key|
  {
    var p, x, g := a.parent[z], Replacement(a, z, y), Gap(a, z, y);
    var two := a.left[z] != Sentinel && a.right[z] != Sentinel;
    var top := if two then y else x;
    var q := if two && g != y then g else -1;
    0 <= p < |a.key| && 0 <= x < |a.key| &&
    b.key == a.key && b.root == (if p == Sentinel then top else a.root) &&
    b.parent[x] == (if g == -1 then Sentinel else g) &&
    (p != Sentinel ==> Relinked(a, b, p, z, top)) &&
    (two ==> b.left[y] == a.left[z] && b.right[y] == (if g == y then x else a.right[z])) &&
    (0 <= q < |a.key| ==> Relinked(a, b, q, y, x)) &&
    forall j :: 0 <= j < |a.key| && j != p && j != q && (!two || j != y) ==> b.left[j] == a.left[j] && b.right[j] == a.right[j]
  }

  lemma SplicedShort(a: Links, sub: seq<set<int>>, z: int, y: int)
    requires Removable(a, sub, z, y) && (a.left[z] == Sentinel || a.right[z] == Sentinel)
    ensures Linked(a, z) && Linked(a, y)
    ensures Spliced(a, Removed(a, z, y), z, y)
  {
    SpliceFacts(a, sub, z, y);
    var x := Replacement(a, z, y);
    assert Removed(a, z, y) == Transplanted(a, z, x);
  }

  lemma SplicedNear(a: Links, sub: seq<set<int>>, z: int, y: int)
    requires Removable(a, sub, z, y) && a.left[z] != Sentinel && a.right[z] != Sentinel && a.parent[y] == z
    ensures Linked(a, z) && Linked(a, y)
    ensures Spliced(a, Removed(a, z, y), z, y)
  {
    SpliceFacts(a, sub, z, y);
    var p, x, zl := a.parent[z], a.right[y], a.left[z];
    var a0 := a.(parent := a.parent[x := y]);
    var t := Transplanted(a0, z, y);
    assert a0.parent[z] == p;
    var b := BaseBST.Adopted(t, y, zl);
    assert Removed(a, z, y) == b;
    assert b.parent[x] == y;
  }

  /** The first step of a deep splice: y's parent q takes y's right child
      x, and y takes z's right child. */
  ghost predicate LiftedAt(a: Links, a1: Links, z: int, y: int)
    requires Sized(a) && Sized(a1) && |a1.key| == |a.key| && 0 <= z < |a.key| && 0 <= y < |a.key|
  {
    var q, x := a.parent[y], a.right[y];
    0 <= q < |a.key| && 0 <= x < |a.key| &&
    a1.key == a.key && a1.root == a.root && a1.parent[z] == a.parent[z] && a1.parent[x] == q &&
    Relinked(a, a1, q, y, x) && a1.right[y] == a.right[z] &&
    forall j :: 0 <= j < |a.key| && j != q && j != y ==> a1.left[j] == a.left[j] && a1.right[j] == a.right[j]
  }

  lemma LiftStep(a: Links, z: int, y: int)
    requires Sized(a) && 0 <= z < |a.key| && 0 <= y < |a.key| && Linked(a, y) && 0 <= a.right[z] < |a.key|
    requires var q, x, zr := a.parent[y], a.right[y], a.right[z];
      q != Sentinel && q != y && z != x && z != zr && x != zr
    ensures LiftedAt(a, Lifted(a, y, a.right[z]), z, y)
  {
    var x, zr := a.right[y], a.right[z];
    var t1 := Transplanted(a, y, x);
    assert Lifted(a, y, zr) == t1.(right := t1.right[y := zr], parent := t1.parent[zr := y]);
  }

  /** Assembles the deep splice from its lift step, with Removed out of
      view. */
  lemma FarCompose(a: Links, a1: Links, b: Links, z: int, y: int)
    requires Sized(a) && Sized(a1) && |a1.key| == |a.key| && 0 <= z < |a.key| && 0 <= y < |a.key|
    requires Linked(a, z) && LiftedAt(a, a1, z, y)
    requires var p, q, x, zl, zr := a.parent[z], a.parent[y], a.right[y], a.left[z], a.right[z];
      zl != Sentinel && zr != Sentinel && q != z && p != q && p != y && q != y && p != z &&
      zl != x && x != y && y != z && (p != Sentinel ==> a.left[p] == z || a.right[p] == z) &&
      q != Sentinel
    requires b == BaseBST.Adopted(Transplanted(a1, z, y), y, a.left[z])
    ensures Spliced(a, b, z, y)
  {
    var p := a.parent[z];
    assert p != Sentinel ==> (a1.left[p] == z <==> a.left[p] == z) && a1.right[p] == a.right[p];
  }

  lemma SplicedFar(a: Links, sub: seq<set<int>>, z: int, y: int)
    requires Removable(a, sub, z, y) && a.left[z] != Sentinel && a.right[z] != Sentinel && a.parent[y] != z
    ensures Linked(a, z) && Linked(a, y)
    ensures Spliced(a, Removed(a, z, y), z, y)
  {
    SpliceFacts(a, sub, z, y);
    LiftStep(a, z, y);
    var a1 := Lifted(a, y, a.right[z]);
    FarCompose(a, a1, Removed(a, z, y), z, y);
  }

  lemma RemovedSpliced(a: Links, sub: seq<set<int>>, z: int, y: int)
    requires Removable(a, sub, z, y)
    ensures Linked(a, z) && Linked(a, y)
    ensures Spliced(a, Removed(a, z, y), z, y)
  {
    if a.left[z] == Sentinel || a.right[z] == Sentinel {
      SplicedShort(a, sub, z, y);
    } else if a.parent[y] == z {
      SplicedNear(a, sub, z, y);
    } else {
      SplicedFar(a, sub, z, y);
    }
  }

  /** The node whose children may disagree once Delete has spliced out a
      black node: the parent x gets; -1 when the removed colour was red. */
  function StartGap(a: Links, color: seq<Color>, z: int, y: int): int
    requires Sized(a) && |color| == |a.key| && 0 <= z < |a.key| && 0 <= y < |a.key|
  {
    if color[y] == Black then Gap(a, z, y) else -1
  }

  /** The node that may then be a black short: x, or -1 when the removed
      colour was red. */
  function StartShort(a: Links, color: seq<Color>, z: int, y: int): int
    requires Sized(a) && |color| == |a.key| && 0 <= z < |a.key| && 0 <= y < |a.key|
  {
    if color[y] == Black then Replacement(a, z, y) else -1
  }

  /** What every step of the start-of-delete proof assumes: a red-black
      tree, a removable z with its y, and links b spliced as Delete does. */
  ghost predicate StartCase(a: Links, sub: seq<set<int>>, color: seq<Color>, bh: seq<nat>, z: int, y: int, b: Links)
  {
    RedBlack(a, sub, color, bh) && Removable(a, sub, z, y) && y != Sentinel &&
    Sized(b) && |b.key| == |a.key| && Spliced(a, b, z, y)
  }

  /** z's parent p: it takes x (z lacking a child) or y in z's place; when
      a black z with a missing child goes, p is where the black is short. */
  lemma StartAtP(a: Links, sub: seq<set<int>>, color: seq<Color>, bh: seq<nat>, z: int, y: int, b: Links)
    requires StartCase(a, sub, color, bh, z, y, b) && a.parent[z] != Sentinel
    ensures var c, h, d, e := color[y := color[z]], bh[y := bh[z]], StartGap(a, color, z, y), StartShort(a, color, z, y);
      Colored(b, c, h) && NodeOk(b, c, h, a.parent[z], d, e, e) &&
      (d == a.parent[z] ==> Deficit(b, c, h, d, Replacement(a, z, y)))
  {
    SpliceFacts(a, sub, z, y);
    var p, x := a.parent[z], Replacement(a, z, y);
    assert Local(a, sub, Sentinel, p);
    assert Local(a, sub, Sentinel, z);
    assert NodeOk(a, color, bh, p, -1, -1, -1);
    assert NodeOk(a, color, bh, z, -1, -1, -1);
    if a.left[z] != Sentinel && a.right[z] != Sentinel {
      assert a.parent[y] != p;
    }
  }

  /** y, when z had two children: it takes z's children and z's colour and
      height; when y was z's black right child, y is where the black is
      short. */
  lemma StartAtY(a: Links, sub: seq<set<int>>, color: seq<Color>, bh: seq<nat>, z: int, y: int, b: Links)
    requires StartCase(a, sub, color, bh, z, y, b) && a.left[z] != Sentinel && a.right[z] != Sentinel
    ensures var c, h, d, e := color[y := color[z]], bh[y := bh[z]], StartGap(a, color, z, y), StartShort(a, color, z, y);
      Colored(b, c, h) && NodeOk(b, c, h, y, d, e, e) &&
      (d == y ==> Deficit(b, c, h, y, Replacement(a, z, y)))
  {
    SpliceFacts(a, sub, z, y);
    assert NodeOk(a, color, bh, y, -1, -1, -1);
    assert NodeOk(a, color, bh, z, -1, -1, -1);
  }

  /** y's old parent q, when y lay deeper: it takes x in y's place; when y
      was black, q is where the black is short. */
  lemma StartAtQ(a: Links, sub: seq<set<int>>, color: seq<Color>, bh: seq<nat>, z: int, y: int, b: Links)
    requires StartCase(a, sub, color, bh, z, y, b) && a.left[z] != Sentinel && a.right[z] != Sentinel && a.parent[y] != z
    ensures 0 <= a.parent[y] < |a.key|
    ensures var c, h, d, e := color[y := color[z]], bh[y := bh[z]], StartGap(a, color, z, y), StartShort(a, color, z, y);
      Colored(b, c, h) && NodeOk(b, c, h, a.parent[y], d, e, e)
  {
    SpliceFacts(a, sub, z, y);
    var q := a.parent[y];
    assert Local(a, sub, Sentinel, q);
    assert NodeOk(a, color, bh, q, -1, -1, -1);
    assert NodeOk(a, color, bh, y, -1, -1, -1);
  }

  /** When y was black, its old parent q is one black short on x's side. */
  lemma StartShortAtQ(a: Links, sub: seq<set<int>>, color: seq<Color>, bh: seq<nat>, z: int, y: int, b: Links)
    requires StartCase(a, sub, color, bh, z, y, b) && a.left[z] != Sentinel && a.right[z] != Sentinel && a.parent[y] != z
    ensures 0 <= a.parent[y] < |a.key|
    ensures var c, h, d := color[y := color[z]], bh[y := bh[z]], StartGap(a, color, z, y);
      Colored(b, c, h) && (d == a.parent[y] ==> Deficit(b, c, h, d, Replacement(a, z, y)))
  {
    StartAtQ(a, sub, color, bh, z, y, b);
    SpliceFacts(a, sub, z, y);
    assert TwoFacts(a, sub, z, y);
    var q, x := a.parent[y], a.right[y];
    var c, h := color[y := color[z]], bh[y := bh[z]];
    if StartGap(a, color, z, y) == q {
      assert Local(a, sub, Sentinel, q);
      assert NodeOk(a, color, bh, q, -1, -1, -1);
      assert NodeOk(a, color, bh, y, -1, -1, -1);
      assert Relinked(a, b, q, y, x);
      var other := if a.left[q] == y then a.right[q] else a.left[q];
      assert other != y && x != y && q != y;
      assert Through(c, h, x) == Through(color, bh, x) == bh[y];
      assert Through(c, h, other) == Through(color, bh, other) == bh[q] == h[q];
      assert Through(color, bh, y) == bh[y] + 1;
    }
  }

  /** Every other node keeps its children, their colours and heights. */
  lemma StartElse(a: Links, sub: seq<set<int>>, color: seq<Color>, bh: seq<nat>, z: int, y: int, b: Links, j: int)
    requires StartCase(a, sub, color, bh, z, y, b) && j in Nodes(a, sub) && 0 <= j < |a.key|
    requires j != z && j != a.parent[z] && (a.left[z] != Sentinel && a.right[z] != Sentinel ==> j != y && j != a.parent[y])
    ensures var c, h, d, e := color[y := color[z]], bh[y := bh[z]], StartGap(a, color, z, y), StartShort(a, color, z, y);
      Colored(b, c, h) && NodeOk(b, c, h, j, d, e, e)
  {
    assert Local(a, sub, Sentinel, j);
    assert NodeOk(a, color, bh, j, -1, -1, -1);
  }

  lemma StartAll(a: Links, sub: seq<set<int>>, color: seq<Color>, bh: seq<nat>, z: int, y: int, b: Links, s: seq<set<int>>)
    requires StartCase(a, sub, color, bh, z, y, b) && Nodes(b, s) == Nodes(a, sub) - {z}
    ensures var c, h, d, e := color[y := color[z]], bh[y := bh[z]], StartGap(a, color, z, y), StartShort(a, color, z, y);
      Colored(b, c, h) && AllOk(b, s, c, h, d, e, e) &&
      (d != -1 ==> 0 <= d < |a.key| && Deficit(b, c, h, d, Replacement(a, z, y)))
  {
    var c, h, d, e := color[y := color[z]], bh[y := bh[z]], StartGap(a, color, z, y), StartShort(a, color, z, y);
    var p := a.parent[z];
    var two := a.left[z] != Sentinel && a.right[z] != Sentinel;
    forall j | j in Nodes(b, s) && 0 <= j < |b.key|
      ensures NodeOk(b, c, h, j, d, e, e)
    {
      if j == p {
        StartAtP(a, sub, color, bh, z, y, b);
      } else if two && j == y {
        StartAtY(a, sub, color, bh, z, y, b);
      } else if two && j == a.parent[y] && a.parent[y] != z {
        StartAtQ(a, sub, color, bh, z, y, b);
      } else {
        StartElse(a, sub, color, bh, z, y, b, j);
      }
    }
    if d != -1 {
      if !two {
        StartAtP(a, sub, color, bh, z, y, b);
      } else if a.parent[y] == z {
        StartAtY(a, sub, color, bh, z, y, b);
      } else {
        StartShortAtQ(a, sub, color, bh, z, y, b);
      }
    }
  }

  /** A black y spliced out leaves the delete fixup's invariant at x. */
  lemma StartBlack(a: Links, sub: seq<set<int>>, color: seq<Color>, bh: seq<nat>, z: int, y: int, b: Links, s: seq<set<int>>)
    requires StartCase(a, sub, color, bh, z, y, b) && color[y] == Black
    requires Valid(b, s, Sentinel) && Nodes(b, s) == Nodes(a, sub) - {z}
    ensures DelFix(b, s, color[y := color[z]], bh[y := bh[z]], Replacement(a, z, y))
  {
    SpliceFacts(a, sub, z, y);
    var x := Replacement(a, z, y);
    StartAll(a, sub, color, bh, z, y, b, s);
    if a.left[z] != Sentinel && a.right[z] != Sentinel {
      assert TwoFacts(a, sub, z, y);
      assert a.root != y;
    }
    if x != Sentinel {
      assert x in Nodes(b, s);
    }
  }

  /** A red y spliced out leaves a red-black tree. */
  lemma StartRed(a: Links, sub: seq<set<int>>, color: seq<Color>, bh: seq<nat>, z: int, y: int, b: Links, s: seq<set<int>>)
    requires StartCase(a, sub, color, bh, z, y, b) && color[y] == Red
    requires Valid(b, s, Sentinel) && Nodes(b, s) == Nodes(a, sub) - {z}
    ensures RedBlack(b, s, color[y := color[z]], bh[y := bh[z]])
  {
    SpliceFacts(a, sub, z, y);
    StartAll(a, sub, color, bh, z, y, b, s);
    assert a.root != y by {
      if a.left[z] != Sentinel && a.right[z] != Sentinel {
        assert TwoFacts(a, sub, z, y);
      }
    }
  }

  /** Delete(z) splices out y (z itself when z lacks a child) and hands y
      z's colour: when y was black, the tree is in the delete fixup's
      invariant at y's replacement x; when y was red, it is already a
      red-black tree and the fixup is skipped. */
  lemma DeleteStart(a: Links, sub: seq<set<int>>, color: seq<Color>, bh: seq<nat>, z: int, y: int)
    requires RedBlack(a, sub, color, bh) && Removable(a, sub, z, y)
    ensures Linked(a, z) && Linked(a, y)
    ensures var b, s, c, h := Removed(a, z, y), BaseBST.DeleteSub(sub, z, y), color[y := color[z]], bh[y := bh[z]];
      (color[y] == Black ==> DelFix(b, s, c, h, Replacement(a, z, y))) &&
      (color[y] == Red ==> RedBlack(b, s, c, h))
  {
    SpliceFacts(a, sub, z, y);
    RemovedSpliced(a, sub, z, y);
    RemoveShape(a, sub, z, y);
    var b, s := Removed(a, z, y), BaseBST.DeleteSub(sub, z, y);
    if color[y] == Black {
      StartBlack(a, sub, color, bh, z, y, b, s);
    } else {
      StartRed(a, sub, color, bh, z, y, b, s);
    }
  }

  /** A node with a linked parent is not the root. */
  lemma NotRoot(a: Links, sub: seq<set<int>>, x: int)
    requires Valid(a, sub, Sentinel) && 0 <= x < |a.key| && 0 <= a.parent[x] < |a.key| && a.parent[x] in Nodes(a, sub)
    ensures x != a.root
  {
  }

  /** The fourth case ends the loop at the root of a red-black tree. */
  lemma RootFix(a: Links, sub: seq<set<int>>, color: seq<Color>, bh: seq<nat>)
    requires RedBlack(a, sub, color, bh)
    ensures DelFix(a, sub, color, bh, a.root)
  {
    forall j | j in Nodes(a, sub) && 0 <= j < |a.key|
      ensures NodeOk(a, color, bh, j, -1, a.root, a.root)
    {
      assert NodeOk(a, color, bh, j, -1, -1, -1);
    }
  }

  /** After the first case on the left, x is still short, now with a black
      sibling, and its subtree and the tree's nodes are as before. */
  lemma RedTurn(a: Links, sub: seq<set<int>>, color: seq<Color>, bh: seq<nat>, x: int)
    requires RedSibling(a, sub, color, bh, x)
    ensures LeftRotatable(a, sub, a.parent[x])
    ensures var d := a.parent[x];
      var b, s, c := LeftRotated(a, d), LeftRotSub(a, sub, d), color[a.right[d] := Black][d := Red];
      Short(b, s, c, bh, x) && b.parent[x] == d && x == b.left[d] && 0 <= b.right[d] < |a.key| &&
      c[b.right[d]] == Black && Under(s, x) == Under(sub, x) && Nodes(b, s) == Nodes(a, sub)
  {
    var d := a.parent[x];
    SiblingFacts(a, sub, color, bh, x);
    DelRed(a, sub, color, bh, x);
    LeftRotateShape(a, sub, d);
    NotRoot(LeftRotated(a, d), LeftRotSub(a, sub, d), x);
  }

  lemma RedTurnRight(a: Links, sub: seq<set<int>>, color: seq<Color>, bh: seq<nat>, x: int)
    requires RedSiblingRight(a, sub, color, bh, x)
    ensures RightRotatable(a, sub, a.parent[x])
    ensures var d := a.parent[x];
      var b, s, c := RightRotated(a, d), RightRotSub(a, sub, d), color[a.left[d] := Black][d := Red];
      Short(b, s, c, bh, x) && b.parent[x] == d && x != b.left[d] && 0 <= b.left[d] < |a.key| &&
      c[b.left[d]] == Black && Under(s, x) == Under(sub, x) && Nodes(b, s) == Nodes(a, sub)
  {
    var d := a.parent[x];
    SiblingFacts(a, sub, color, bh, x);
    DelRedRight(a, sub, color, bh, x);
    RightRotateShape(a, sub, d);
    NotRoot(RightRotated(a, d), RightRotSub(a, sub, d), x);
  }

  /** After the third case on the left, the fourth applies. */
  lemma InnerTurnLeft(a: Links, sub: seq<set<int>>, color: seq<Color>, bh: seq<nat>, x: int)
    requires InnerNephewLeft(a, sub, color, bh, x)
    ensures RightRotatable(a, sub, a.right[a.parent[x]])
    ensures var w := a.right[a.parent[x]];
      var b, s, c := RightRotated(a, w), RightRotSub(a, sub, w), color[a.left[w] := Black][w := Red];
      OuterNephew(b, s, c, bh, x) && b.parent[x] == a.parent[x] &&
      Under(s, x) == Under(sub, x) && Nodes(b, s) == Nodes(a, sub)
  {
    var d := a.parent[x];
    var w := a.right[d];
    SiblingFacts(a, sub, color, bh, x);
    assert Local(a, sub, Sentinel, w);
    DelInnerLeft(a, sub, color, bh, x);
    RightRotateShape(a, sub, w);
    NotRoot(RightRotated(a, w), RightRotSub(a, sub, w), x);
  }

  lemma InnerTurn(a: Links, sub: seq<set<int>>, color: seq<Color>, bh: seq<nat>, x: int)
    requires InnerNephew(a, sub, color, bh, x)
    ensures LeftRotatable(a, sub, a.left[a.parent[x]])
    ensures var w := a.left[a.parent[x]];
      var b, s, c := LeftRotated(a, w), LeftRotSub(a, sub, w), color[a.right[w] := Black][w := Red];
      OuterNephewRight(b, s, c, bh, x) && b.parent[x] == a.parent[x] &&
      Under(s, x) == Under(sub, x) && Nodes(b, s) == Nodes(a, sub)
  {
    var d := a.parent[x];
    var w := a.left[d];
    SiblingFacts(a, sub, color, bh, x);
    assert Local(a, sub, Sentinel, w);
    DelInner(a, sub, color, bh, x);
    LeftRotateShape(a, sub, w);
    NotRoot(LeftRotated(a, w), LeftRotSub(a, sub, w), x);
  }
}
