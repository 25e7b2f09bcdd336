/** MinPriorityQueue (src/gogve/queue.go): a slice of items, each pointing
    at the priority it is ordered by and remembering its own position. */
module PriorityQueue {
  import opened Results
  import opened Graph

  /** A shortest-path estimate: a `float32` that is either finite (an
      integer here) or +Inf. */
  datatype Estimate = Finite(value: int) | Infinity

  /** `a < b` on estimates; nothing is below a finite value's own value and
      +Inf is below nothing. */
  predicate EstLess(a: Estimate, b: Estimate)
  {
    match (a, b)
    case (Finite(x), Finite(y)) => x < y
    case (Finite(_), Infinity) => true
    case (Infinity, _) => false
  }

  /** `a + w` on an estimate: +Inf absorbs any finite weight. */
  function Plus(a: Estimate, w: int): (r: Estimate)
    ensures r.Infinity? <==> a.Infinity?
    ensures w >= 0 ==> !EstLess(r, a)
  {
    match a
    case Finite(x) => Finite(x + w)
    case Infinity => Infinity
  }

  /** The value a priority pointer points at. */
  class Cell {
    var value: Estimate

    constructor (value: Estimate)
      ensures this.value == value
    {
      this.value := value;
    }
  }

  /** VertexPriorityItem. */
  class Item {
    const vertex: Vertex
    const priority: Cell
    var index: int

    constructor (vertex: Vertex, priority: Cell, index: int)
      ensures this.vertex == vertex && this.priority == priority && this.index == index
    {
      this.vertex := vertex;
      this.priority := priority;
      this.index := index;
    }
  }

  /** The lowest priority among `s`, at position m. */
  ghost predicate IsMinAt(s: seq<Estimate>, m: int)
  {
    0 <= m < |s| && forall k :: 0 <= k < |s| ==> !EstLess(s[k], s[m])
  }

  /** A non-empty list of estimates has a lowest one. */
  lemma {:induction false} MinExists(s: seq<Estimate>)
    requires |s| > 0
    ensures exists m :: IsMinAt(s, m)
  {
    if |s| == 1 {
      assert IsMinAt(s, 0);
    } else {
      var init := s[..|s| - 1];
      MinExists(init);
      var m :| IsMinAt(init, m);
      if EstLess(s[|s| - 1], s[m]) {
        assert IsMinAt(s, |s| - 1);
      } else {
        assert IsMinAt(s, m);
      }
    }
  }

  class MinPriorityQueue {
    var items: seq<Item>

    /** Every item knows its position, which also makes the items distinct. */
    ghost predicate Valid()
      reads this, items
    {
      forall k :: 0 <= k < |items| ==> items[k].index == k
    }

    /** The priorities the items point at, in slice order. */
    ghost function Priorities(): (p: seq<Estimate>)
      reads this, items, set k | 0 <= k < |items| :: items[k].priority
      ensures |p| == |items|
      ensures forall k :: 0 <= k < |items| ==> p[k] == items[k].priority.value
    {
      var its := items;
      seq(|its|, k requires 0 <= k < |its| reads if 0 <= k < |its| then {its[k].priority} else {} => its[k].priority.value)
    }

    constructor ()
      ensures items == [] && Valid()
    {
      items := [];
    }

    /** Len. */
    function Len(): (n: int)
      reads this
      ensures n == |items| && n >= 0
    {
      |items|
    }

    /** Less(i, j): the pointed-to priority of item i is below item j's. */
    function Less(i: int, j: int): (r: bool)
      reads this, items, set k | 0 <= k < |items| :: items[k].priority
      requires 0 <= i < |items| && 0 <= j < |items|
      ensures r <==> EstLess(Priorities()[i], Priorities()[j])
    {
      EstLess(items[i].priority.value, items[j].priority.value)
    }

    /** Swap(i, j): exchanges two items and tells each its new position. */
    method Swap(i: int, j: int)
      requires 0 <= i < |items| && 0 <= j < |items|
      modifies this, items[i], items[j]
      ensures items == old(items)[i := old(items[j])][j := old(items[i])]
      ensures items[j].index == j
      ensures items[i] != items[j] ==> items[i].index == i
      ensures old(Valid()) ==> Valid()
    {
      ghost var wasValid := Valid();
      ghost var o := items;
      items := items[i := items[j]][j := items[i]];
      items[i].index := i;
      items[j].index := j;
      if wasValid {
        assert i != j ==> o[i] != o[j];
        forall k | 0 <= k < |items| && k != i && k != j
          ensures items[k].index == k
        {
          assert items[k] == o[k];
          assert o[k] != o[i] && o[k] != o[j];
        }
      }
    }

    /** Push(x): appends x, which learns its position. */
    method Push(x: Item)
      modifies this, x
      ensures items == old(items) + [x]
      ensures x.index == old(|items|)
      ensures old(Valid()) && x !in old(items) ==> Valid()
    {
      var n := |items|;
      x.index := n;
      items := items + [x];
    }

    /** Pop: removes and returns the last item, marked with index -1;
        an empty queue panics (None). */
    method Pop() returns (item: Option<Item>)
      modifies this, if |items| > 0 then {items[|items| - 1]} else {}
      ensures item.None? <==> old(|items|) == 0
      ensures item.None? ==> items == old(items)
      ensures item.Some? ==> item.value == old(items[|items| - 1])
      ensures item.Some? ==> items == old(items[..|items| - 1]) && item.value.index == -1
      ensures old(Valid()) ==> Valid()
    {
      var n := |items|;
      if n == 0 {
        return None;
      }
      var it := items[n - 1];
      it.index := -1;
      items := items[..n - 1];
      return Some(it);
    }

    /** heap.Pop on a queue whose order container/heap maintains: an item
        of lowest priority leaves the queue. Which position the heap keeps
        it at is not modelled; the lowest one is brought to the end with
        Swap and taken off with Pop. */
    method ExtractMin() returns (item: Item, ghost at: int)
      requires Valid() && |items| > 0
      modifies this, items
      ensures Valid()
      ensures 0 <= at < |old(items)| && item == old(items)[at]
      ensures |items| == |old(items)| - 1 && items == old(items)[at := old(items)[|items|]][..|items|]
      ensures item in old(items) && item !in items && item.index == -1
      ensures multiset(items) + multiset{item} == multiset(old(items))
      ensures forall k :: 0 <= k < |items| ==> !EstLess(items[k].priority.value, item.priority.value)
      ensures forall it :: it in old(items) ==> it.priority.value == old(it.priority.value)
    {
      var n := |items|;
      MinExists(Priorities());
      ghost var g :| IsMinAt(Priorities(), g);
      assert 0 <= g < n && forall k :: 0 <= k < n ==> !Less(k, g);
      var m :| 0 <= m < n && forall k :: 0 <= k < n ==> !Less(k, m);
      ghost var before := items;
      ghost var pri := Priorities();
      forall k | 0 <= k < n
        ensures !EstLess(pri[k], pri[m])
      {
        assert !Less(k, m);
      }
      Swap(m, n - 1);
      var r := Pop();
      item := r.value;
      at := m;
      SwapPop(before, m, items, item);
      assert item.priority.value == pri[m];
      forall k | 0 <= k < |items|
        ensures !EstLess(items[k].priority.value, item.priority.value)
      {
        if k == m {
          assert items[k].priority.value == pri[n - 1];
        } else {
          assert items[k].priority.value == pri[k];
        }
      }
    }
  }

  /** Moving position m to the end and dropping it leaves the other items:
      the same multiset less that one, each of them from the old list. */
  lemma SwapPop<T>(s: seq<T>, m: int, rest: seq<T>, x: T)
    requires 0 <= m < |s|
    requires rest == s[m := s[|s| - 1]][|s| - 1 := s[m]][..|s| - 1] && x == s[m]
    ensures multiset(rest) + multiset{x} == multiset(s)
    ensures forall k :: 0 <= k < |rest| ==> (k == m && rest[k] == s[|s| - 1]) || (k != m && rest[k] == s[k])
  {
    var sw := s[m := s[|s| - 1]][|s| - 1 := s[m]];
    SwapPerm(s, m, |s| - 1);
    assert sw == rest + [x];
  }

  /** Exchanging two positions keeps the same items. */
  lemma SwapPerm<T>(s: seq<T>, i: int, j: int)
    requires 0 <= i < |s| && 0 <= j < |s|
    ensures multiset(s[i := s[j]][j := s[i]]) == multiset(s)
  {
    if i != j {
      calc {
        multiset(s[i := s[j]][j := s[i]]);
        multiset(s[i := s[j]]) - multiset{s[i := s[j]][j]} + multiset{s[i]};
        multiset(s) - multiset{s[i]} + multiset{s[j]} - multiset{s[j]} + multiset{s[i]};
        multiset(s);
      }
    }
  }
}
