/** The parabola type of util/parabola.go: a focus, a directrix line and
    the axis the directrix runs along. */
module Parabola {
  import opened Results
  import Util

  /** DirectrixDirection is a Go `int`; only two values are named. */
  type DirectrixDirection = int

  const DirectrixX: DirectrixDirection := 0
  const DirectrixY: DirectrixDirection := 1

  /** The package-level `directions` slice. */
  const Directions: seq<DirectrixDirection> := [DirectrixX, DirectrixY]

  /** Position of `d` in Directions, or |Directions| when it is not there:
      where the counting loop of NextDirectrixDirection stops. */
  function IndexOf(d: DirectrixDirection): (i: nat)
    ensures i <= |Directions|
    ensures i < |Directions| ==> Directions[i] == d
    ensures forall k :: 0 <= k < i ==> Directions[k] != d
  {
    if d == DirectrixX then 0 else if d == DirectrixY then 1 else 2
  }

  /** The direction that follows `d`, wrapping around the slice. */
  function Next(d: DirectrixDirection): DirectrixDirection
  {
    Directions[(IndexOf(d) + 1) % |Directions|]
  }

  /** NextDirectrixDirection: counts the position of the current direction
      in the slice and returns the one after it. */
  method NextDirectrixDirection(currentDirection: DirectrixDirection) returns (next: DirectrixDirection)
    ensures next == Next(currentDirection)
    ensures currentDirection == DirectrixX ==> next == DirectrixY
    ensures currentDirection == DirectrixY ==> next == DirectrixX
    ensures currentDirection !in Directions ==> next == DirectrixY
  {
    var i := 0;
    var k := 0;
    while k < |Directions|
      invariant 0 <= k <= |Directions| && i == k
      invariant forall m :: 0 <= m < k ==> Directions[m] != currentDirection
    {
      if Directions[k] == currentDirection {
        break;
      }
      i := i + 1;
      k := k + 1;
    }
    assert i == IndexOf(currentDirection);
    next := Directions[(i + 1) % |Directions|];
  }

  /** Two steps from a named direction come back to it. */
  lemma NextTwice(d: DirectrixDirection)
    requires d in Directions
    ensures Next(Next(d)) == d
  {
  }

  /** getParabolaPointDX: the x at height py of the parabola with focus
      (a, b) and the vertical directrix x = k. */
  function PointDX(a: real, b: real, k: real, py: real): real
    requires a != k
  {
    (a + k) / 2.0 + (py - b) * (py - b) / (2.0 * (a - k))
  }

  /** getParabolaPointDY: the y above px of the parabola with focus (a, b)
      and the horizontal directrix y = k. */
  function PointDY(a: real, b: real, k: real, px: real): real
    requires b != k
  {
    (b + k) / 2.0 + (px - a) * (px - a) / (2.0 * (b - k))
  }

  /** The point PointDX gives is as far from the focus as from the
      directrix: (x - k)^2 == (x - a)^2 + (py - b)^2. */
  lemma PointDXEquidistant(a: real, b: real, k: real, py: real)
    requires a != k
    ensures var x := PointDX(a, b, k, py);
      (x - k) * (x - k) == (x - a) * (x - a) + (py - b) * (py - b)
  {
    var x, u := PointDX(a, b, k, py), (a - k) / 2.0;
    var d := (py - b) * (py - b) / (2.0 * (a - k));
    assert d * (2.0 * (a - k)) == (py - b) * (py - b);
    assert x - k == u + d && x - a == d - u;
    assert (u + d) * (u + d) - (d - u) * (d - u) == 4.0 * u * d;
  }

  /** The same for PointDY: (y - k)^2 == (y - b)^2 + (px - a)^2. */
  lemma PointDYEquidistant(a: real, b: real, k: real, px: real)
    requires b != k
    ensures var y := PointDY(a, b, k, px);
      (y - k) * (y - k) == (y - b) * (y - b) + (px - a) * (px - a)
  {
    var y, u := PointDY(a, b, k, px), (b - k) / 2.0;
    var d := (px - a) * (px - a) / (2.0 * (b - k));
    assert d * (2.0 * (b - k)) == (px - a) * (px - a);
    assert y - k == u + d && y - b == d - u;
    assert (u + d) * (u + d) - (d - u) * (d - u) == 4.0 * u * d;
  }

  class Parabola {
    var focus: Util.FVec
    var directrix: real
    var directrixDirection: DirectrixDirection

    constructor (focus: Util.FVec, directrix: real, direction: DirectrixDirection)
      ensures this.focus == focus && this.directrix == directrix
      ensures this.directrixDirection == direction
    {
      this.focus := focus;
      this.directrix := directrix;
      this.directrixDirection := direction;
    }

    method SetDirectrix(d: real)
      modifies this
      ensures directrix == d
      ensures focus == old(focus) && directrixDirection == old(directrixDirection)
    {
      directrix := d;
    }

    method SetFocus(f: Util.FVec)
      modifies this
      ensures focus == f
      ensures directrix == old(directrix) && directrixDirection == old(directrixDirection)
    {
      focus := f;
    }

    method SetDirectrixDirection(dd: DirectrixDirection)
      modifies this
      ensures directrixDirection == dd
      ensures focus == old(focus) && directrix == old(directrix)
    {
      directrixDirection := dd;
    }

    /** GetParabolaPoint: a directrix along X gives the x of the parabola
        at height `point`, one along Y the y above `point`; any other
        direction panics (None), as does a focus without two members. A
        focus on the directrix divides by zero, which has no real value
        (None). */
    function GetParabolaPoint(point: real): (r: Option<real>)
      reads this, focus
      ensures directrixDirection !in Directions || |focus.members| < 2 ==> r.None?
      ensures r.Some? && directrixDirection == DirectrixX ==>
        var a, b, k := focus.members[0], focus.members[1], directrix;
        (r.value - k) * (r.value - k) == (r.value - a) * (r.value - a) + (point - b) * (point - b)
      ensures r.Some? && directrixDirection == DirectrixY ==>
        var a, b, k := focus.members[0], focus.members[1], directrix;
        (r.value - k) * (r.value - k) == (r.value - b) * (r.value - b) + (point - a) * (point - a)
      ensures r.None? && directrixDirection in Directions && |focus.members| >= 2 ==>
        focus.members[if directrixDirection == DirectrixX then 0 else 1] == directrix
    {
      if directrixDirection !in Directions || |focus.members| < 2 then None
      else
        var a, b, k := focus.members[0], focus.members[1], directrix;
        if directrixDirection == DirectrixX then
          if a == k then None
          else
            PointDXEquidistant(a, b, k, point);
            Some(PointDX(a, b, k, point))
        else
          if b == k then None
          else
            PointDYEquidistant(a, b, k, point);
            Some(PointDY(a, b, k, point))
    }
  }
}
