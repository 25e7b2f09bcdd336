/** Vectors and comparison results of the `util` package (util/util.go).
    Coordinates are `real`: an abstraction of `float64` without rounding,
    infinities or NaN. */
module Util {
  import opened Results

  /** util.ComparableResult: -1, 0 and 1. */
  datatype Cmp = Less | Equal | Greater

  /** The result of comparing the other way round. */
  function Flip(c: Cmp): Cmp
  {
    match c
    case Less => Greater
    case Equal => Equal
    case Greater => Less
  }

  /** A vector with a fixed degree over a slice of members; SetX and SetY
      write the slice in place, so vectors are objects with identity. */
  class FVec {
    const degree: int
    var members: seq<real>

    constructor (degree: int, members: seq<real>)
      requires degree >= 2
      ensures this.degree == degree && this.members == members
    {
      this.degree := degree;
      this.members := members;
    }

    /** `members[0]`; None where indexing the slice panics. */
    function X(): Option<real>
      reads this
    {
      if |members| > 0 then Some(members[0]) else None
    }

    /** `members[1]`; None where indexing the slice panics. */
    function Y(): Option<real>
      reads this
    {
      if |members| > 1 then Some(members[1]) else None
    }

    /** Member `idx`, or 0 past the degree; None where the slice panics. */
    function M(idx: int): Option<real>
      reads this
    {
      if idx >= degree then Some(0.0)
      else if 0 <= idx < |members| then Some(members[idx])
      else None
    }

    /** The third member, 0 for a 2-vector. */
    function Z(): (r: Option<real>)
      reads this
      ensures degree >= 2 ==> r == M(2)
    {
      if degree == 2 then Some(0.0)
      else if |members| > 2 then Some(members[2])
      else None
    }

    /** The fourth member, 0 up to degree 3. */
    function W(): (r: Option<real>)
      reads this
      ensures r == M(3)
    {
      if degree <= 3 then Some(0.0)
      else if |members| > 3 then Some(members[3])
      else None
    }

    /** Writes member 0; `panicked` when the slice is empty. */
    method SetX(x: real) returns (panicked: bool)
      modifies this
      ensures panicked <==> old(|members|) == 0
      ensures !panicked ==> X() == Some(x) && Y() == old(Y())
      ensures !panicked ==> members == old(members)[0 := x]
      ensures panicked ==> members == old(members)
    {
      panicked := |members| == 0;
      if !panicked {
        members := members[0 := x];
      }
    }

    /** Writes member 1; `panicked` when the slice has fewer than two members. */
    method SetY(y: real) returns (panicked: bool)
      modifies this
      ensures panicked <==> old(|members|) < 2
      ensures !panicked ==> Y() == Some(y) && X() == old(X())
      ensures !panicked ==> members == old(members)[1 := y]
      ensures panicked ==> members == old(members)
    {
      panicked := |members| < 2;
      if !panicked {
        members := members[1 := y];
      }
    }
  }

  /** FVec.Cross: the 2D cross product for a 2-vector, 0 for any other
      degree. */
  function Cross(f: FVec, f1: FVec): (r: Option<real>)
    reads f, f1
    ensures f.degree != 2 ==> r == Some(0.0)
    ensures f.degree == 2 ==> (r.Some? <==> |f.members| > 1 && |f1.members| > 1)
    ensures f.degree == 2 && r.Some? ==> r.value == -Cross2(f1.members[0], f1.members[1], f.members[0], f.members[1])
  {
    if f.degree == 2 then Vec2CrossProduct(f, f1) else Some(0.0)
  }

  /** NewFVec: panics (None) for a degree below 2; the members are taken
      as given, without checking their number against the degree. */
  method NewFVec(degree: int, members: seq<real>) returns (r: Option<FVec>)
    ensures r.None? <==> degree < 2
    ensures r.Some? ==> fresh(r.value) && r.value.degree == degree && r.value.members == members
  {
    if degree < 2 {
      return None;
    }
    var v := new FVec(degree, members);
    return Some(v);
  }

  /** NewFVec2. */
  method NewFVec2(x: real, y: real) returns (v: FVec)
    ensures fresh(v) && v.degree == 2 && v.X() == Some(x) && v.Y() == Some(y)
  {
    v := new FVec(2, [x, y]);
  }

  /** The z-component of the cross product of (x0, y0) and (x1, y1). */
  function Cross2(x0: real, y0: real, x1: real, y1: real): real
  {
    x0 * y1 - x1 * y0
  }

  lemma Cross2Antisymmetric(x0: real, y0: real, x1: real, y1: real)
    ensures Cross2(x0, y0, x1, y1) == -Cross2(x1, y1, x0, y0)
  {
  }

  /** Vec2CrossProduct; None where reading a coordinate panics. */
  function Vec2CrossProduct(p0: FVec, p1: FVec): (r: Option<real>)
    reads p0, p1
    ensures r.Some? <==> p0.X().Some? && p0.Y().Some? && p1.X().Some? && p1.Y().Some?
    ensures r.Some? ==> r.value == Cross2(p0.X().value, p0.Y().value, p1.X().value, p1.Y().value)
  {
    if |p0.members| > 1 && |p1.members| > 1 then
      Some(Cross2(p0.members[0], p0.members[1], p1.members[0], p1.members[1]))
    else None
  }

  /** Swapping the arguments of Vec2CrossProduct negates it. */
  lemma Vec2CrossProductAntisymmetric(p0: FVec, p1: FVec)
    ensures Vec2CrossProduct(p0, p1).Some? <==> Vec2CrossProduct(p1, p0).Some?
    ensures Vec2CrossProduct(p0, p1).Some? ==>
      Vec2CrossProduct(p0, p1).value == -Vec2CrossProduct(p1, p0).value
  {
  }

  /** The dynamic types a util.Comparable can have, as far as
      ComparableFloat.Compare can tell them apart. */
  datatype Comparable = ComparableFloat(v: real) | OtherComparable

  /** ComparableFloat.Compare: a three-way comparison of two floats; None
      (a panic) when the argument is not a ComparableFloat. */
  function CompareFloat(i: real, n: Comparable): (r: Option<Cmp>)
    ensures r.None? <==> !n.ComparableFloat?
    ensures r == Some(Less) <==> n.ComparableFloat? && i < n.v
    ensures r == Some(Equal) <==> n.ComparableFloat? && i == n.v
    ensures r == Some(Greater) <==> n.ComparableFloat? && i > n.v
  {
    match n
    case ComparableFloat(num) =>
      if i < num then Some(Less) else if i == num then Some(Equal) else Some(Greater)
    case OtherComparable => None
  }

  /** Comparing floats the other way round flips the result. */
  lemma CompareFloatAntisymmetric(a: real, b: real)
    ensures CompareFloat(b, ComparableFloat(a)) == Some(Flip(CompareFloat(a, ComparableFloat(b)).value))
  {
  }

  /** CompareBool: equal booleans are Equal, otherwise true is Greater. */
  function CompareBool(a: bool, b: bool): (r: Cmp)
    ensures r == Equal <==> a == b
    ensures r == Greater <==> a && !b
    ensures r == Less <==> !a && b
  {
    if a == b then Equal
    else if a then Greater
    else Less
  }

  lemma CompareBoolAntisymmetric(a: bool, b: bool)
    ensures CompareBool(b, a) == Flip(CompareBool(a, b))
  {
  }
}
