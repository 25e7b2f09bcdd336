/** Polynomials with dense coefficient lists (util/polynomial.go).
    Coefficient i multiplies x^i; `degree` is the number of coefficients
    Calculate reads, not the mathematical degree. */
module Polynomial {
  import opened Results

  /** RPolynomial: real coefficients and a declared degree. */
  datatype RPolynomial = RPolynomial(coeffs: seq<real>, degree: int)
  {
    /** The shape every constructor of the package produces. */
    predicate WellFormed()
    {
      |coeffs| == degree
    }
  }

  /** ZPolynomial: integer coefficients and a declared degree. */
  datatype ZPolynomial = ZPolynomial(coeffs: seq<int>, degree: int)

  /** x^n for a natural exponent, as math.Pow computes it for whole floats. */
  function Pow(x: real, n: nat): real
  {
    if n == 0 then 1.0 else x * Pow(x, n - 1)
  }

  /** The value of the polynomial with coefficient list `c` at `x`. */
  function Eval(c: seq<real>, x: real): real
  {
    if |c| == 0 then 0.0 else Eval(c[..|c| - 1], x) + c[|c| - 1] * Pow(x, |c| - 1)
  }

  /** The dense list of `degree` coefficients a sparse map stands for. */
  function Dense<T>(sparse: map<int, T>, degree: nat, zero: T): (r: seq<T>)
    ensures |r| == degree
  {
    seq(degree, i requires 0 <= i < degree => if i in sparse then sparse[i] else zero)
  }

  /** The sparse map holding every entry of a dense list. */
  function SparseOf<T>(s: seq<T>): map<int, T>
  {
    map i | 0 <= i < |s| :: s[i]
  }

  /** Expanding the sparse form of a dense list gives the list back. */
  lemma DenseSparseRoundTrip<T>(s: seq<T>, zero: T)
    ensures Dense(SparseOf(s), |s|, zero) == s
  {
    var d := Dense(SparseOf(s), |s|, zero);
    forall i | 0 <= i < |s|
      ensures d[i] == s[i]
    {
      assert i in SparseOf(s);
    }
  }

  /** coeffsFromSparseZCoeffs / coeffsFromSparseRCoeffs: a fresh array of
      `degree` zero values, with each index that the map holds overwritten;
      keys outside 0..degree-1 are never looked up. `make` panics (None) on
      a negative length. */
  method CoeffsFromSparse<T(0)>(sparse: map<int, T>, degree: int, zero: T) returns (r: Option<seq<T>>)
    ensures r.None? <==> degree < 0
    ensures r.Some? ==> |r.value| == degree
    ensures r.Some? ==> forall i :: 0 <= i < degree ==>
      r.value[i] == (if i in sparse then sparse[i] else zero)
    ensures r.Some? ==> r.value == Dense(sparse, degree, zero)
  {
    if degree < 0 {
      return None;
    }
    var coeffs := new T[degree](_ => zero);
    var i := 0;
    while i < degree
      invariant 0 <= i <= degree
      invariant forall k :: 0 <= k < i ==> coeffs[k] == (if k in sparse then sparse[k] else zero)
      invariant forall k :: i <= k < degree ==> coeffs[k] == zero
    {
      if i in sparse {
        coeffs[i] := sparse[i];
      }
      i := i + 1;
    }
    return Some(coeffs[..]);
  }

  /** NewZPolynomial. */
  method NewZPolynomial(sparse: map<int, int>, degree: int) returns (r: Option<ZPolynomial>)
    ensures r.None? <==> degree < 0
    ensures r.Some? ==> r.value.degree == degree && r.value.coeffs == Dense(sparse, degree, 0)
  {
    var c := CoeffsFromSparse(sparse, degree, 0);
    if c.None? {
      return None;
    }
    return Some(ZPolynomial(c.value, degree));
  }

  /** NewRPolynomial. */
  method NewRPolynomial(sparse: map<int, real>, degree: int) returns (r: Option<RPolynomial>)
    ensures r.None? <==> degree < 0
    ensures r.Some? ==> r.value.WellFormed() && r.value.degree == degree
    ensures r.Some? ==> r.value.coeffs == Dense(sparse, degree, 0.0)
  {
    var c := CoeffsFromSparse(sparse, degree, 0.0);
    if c.None? {
      return None;
    }
    return Some(RPolynomial(c.value, degree));
  }

  /** NewQuadratic(a, b, c) stands for a*x^2 + b*x + c. */
  function NewQuadratic(a: real, b: real, c: real): (p: RPolynomial)
    ensures p.WellFormed() && p.degree == 3
    ensures forall x :: Eval(p.coeffs, x) == a * x * x + b * x + c
  {
    var p := RPolynomial([c, b, a], 3);
    EvalQuadratic(p.coeffs);
    p
  }

  /** RPolynomial.Calculate: coefficient 0, plus coefficient i times x^i for
      each i from 1 below the degree. Indexing past the coefficient list
      panics (None). */
  method Calculate(p: RPolynomial, x: real) returns (y: Option<real>)
    ensures y.None? <==> |p.coeffs| == 0 || |p.coeffs| < p.degree
    ensures y.Some? ==> y.value == Eval(p.coeffs[..if p.degree < 1 then 1 else p.degree], x)
    ensures y.Some? && p.WellFormed() ==> y.value == Eval(p.coeffs, x)
  {
    if |p.coeffs| == 0 || |p.coeffs| < p.degree {
      return None;
    }
    var acc := p.coeffs[0];
    assert p.coeffs[..1][..0] == [];
    var i := 1;
    while i < p.degree
      invariant 1 <= i <= |p.coeffs|
      invariant i <= p.degree || i == 1
      invariant acc == Eval(p.coeffs[..i], x)
    {
      assert p.coeffs[..i + 1][..i] == p.coeffs[..i];
      acc := acc + p.coeffs[i] * Pow(x, i);
      i := i + 1;
    }
    assert p.coeffs[..|p.coeffs|] == p.coeffs;
    return Some(acc);
  }

  /** The coefficients of a*x^2 + b*x + c that the root formula is
      applied to. */
  datatype QuadraticTerms = QuadraticTerms(a: real, b: real, c: real)

  /** The coefficient list QuadraticRoots reads from: lists shorter than 3
      are copied into three zeros, longer ones are used as they are. */
  method PadCoefficients(coeffs: seq<real>) returns (tc: seq<real>)
    ensures |tc| == if |coeffs| < 3 then 3 else |coeffs|
    ensures forall i :: 0 <= i < |coeffs| ==> tc[i] == coeffs[i]
    ensures forall i :: |coeffs| <= i < |tc| ==> tc[i] == 0.0
  {
    if |coeffs| >= 3 {
      return coeffs;
    }
    var t := new real[3](_ => 0.0);
    var i := 0;
    while i < |coeffs|
      invariant 0 <= i <= |coeffs|
      invariant forall k :: 0 <= k < i ==> t[k] == coeffs[k]
      invariant forall k :: i <= k < 3 ==> t[k] == 0.0
    {
      t[i] := coeffs[i];
      i := i + 1;
    }
    tc := t[..];
  }

  /** QuadraticRoots as written: the degree guard, the padding, then
      a, b, c read from entries 0, 1 and 2 — which makes the constant term
      the leading coefficient of the equation that is solved. */
  method QuadraticRootsAsWritten(p: RPolynomial) returns (r: Result<QuadraticTerms, string>)
    ensures r.Err? <==> p.degree > 3
    ensures r.Ok? ==> var tc := Padded(p.coeffs);
      r.value == QuadraticTerms(tc[0], tc[1], tc[2])
  {
    if p.degree > 3 {
      return Err("this only works for quadratic or lower polynomials");
    }
    var tc := PadCoefficients(p.coeffs);
    return Ok(QuadraticTerms(tc[0], tc[1], tc[2]));
  }

  /** The first three entries of the padded coefficient list. */
  function Padded(c: seq<real>): (tc: seq<real>)
    ensures |tc| == 3
    ensures forall i :: 0 <= i < 3 ==> tc[i] == if i < |c| then c[i] else 0.0
  {
    seq(3, i requires 0 <= i < 3 => if i < |c| then c[i] else 0.0)
  }

  /** The equation the as-written reading solves for x^2 - 3x + 2 (roots 1
      and 2) is 2x^2 - 3x + 1, which x = 1/2 satisfies; the polynomial
      itself is 3/4 there, not 0. */
  lemma QuadraticRootsReadsReversed()
    ensures var p := NewQuadratic(1.0, -3.0, 2.0);
      var t := QuadraticTerms(Padded(p.coeffs)[0], Padded(p.coeffs)[1], Padded(p.coeffs)[2]);
      t == QuadraticTerms(2.0, -3.0, 1.0) &&
      t.a * 0.5 * 0.5 + t.b * 0.5 + t.c == 0.0 &&
      Eval(p.coeffs, 0.5) == 0.75
  {
  }

  /** QuadraticRoots with the leading coefficient read from entry 2 and the
      constant from entry 0, as the coefficient order of the package
      requires. */
  method QuadraticRoots(p: RPolynomial) returns (r: Result<QuadraticTerms, string>)
    ensures r.Err? <==> p.degree > 3
    ensures r.Ok? ==> var tc := Padded(p.coeffs);
      r.value == QuadraticTerms(tc[2], tc[1], tc[0])
    ensures r.Ok? && p.WellFormed() ==>
      forall x :: r.value.a * x * x + r.value.b * x + r.value.c == Eval(p.coeffs, x)
  {
    if p.degree > 3 {
      return Err("this only works for quadratic or lower polynomials");
    }
    var tc := PadCoefficients(p.coeffs);
    r := Ok(QuadraticTerms(tc[2], tc[1], tc[0]));
    ghost var t := Padded(p.coeffs);
    assert r.value == QuadraticTerms(t[2], t[1], t[0]);
    if p.WellFormed() {
      forall x: real
        ensures r.value.a * x * x + r.value.b * x + r.value.c == Eval(p.coeffs, x)
      {
        EvalShort(p.coeffs, x);
      }
    }
  }

  /** A list of at most three coefficients evaluates as its padded
      quadratic. */
  lemma EvalShort(c: seq<real>, x: real)
    requires |c| <= 3
    ensures Eval(c, x) == Quad(Padded(c), x)
  {
    var t := Padded(c);
    assert Quad(t, x) == t[2] * x * x + t[1] * x + t[0];
    assert Pow(x, 0) == 1.0 && Pow(x, 1) == x;
    if |c| == 0 {
      assert t[0] == 0.0 && t[1] == 0.0 && t[2] == 0.0;
    } else if |c| == 1 {
      assert c[..0] == [];
      assert Eval(c, x) == c[0];
      assert t[0] == c[0] && t[1] == 0.0 && t[2] == 0.0;
    } else if |c| == 2 {
      assert c[..1][..0] == [];
      assert Eval(c[..1], x) == c[0];
      assert Eval(c, x) == c[0] + c[1] * x;
      assert t[0] == c[0] && t[1] == c[1] && t[2] == 0.0;
    } else {
      EvalThree(c, x);
      assert t[0] == c[0] && t[1] == c[1] && t[2] == c[2];
    }
  }

  /** The value of a*x^2 + b*x + c for the three coefficients [c, b, a]. */
  function Quad(t: seq<real>, x: real): real
    requires |t| == 3
  {
    t[2] * x * x + t[1] * x + t[0]
  }

  /** Three coefficients evaluate as a quadratic. */
  lemma EvalThree(t: seq<real>, x: real)
    requires |t| == 3
    ensures Eval(t, x) == t[2] * x * x + t[1] * x + t[0]
  {
    assert t[..2][..1] == t[..1] && t[..1][..0] == [];
    assert Pow(x, 1) == x && Pow(x, 2) == x * x;
    assert Eval(t[..1], x) == t[0];
    assert Eval(t[..2], x) == t[0] + t[1] * x;
  }

  /** Three coefficients evaluate as a quadratic everywhere. */
  lemma EvalQuadratic(t: seq<real>)
    requires |t| == 3
    ensures forall x :: Eval(t, x) == t[2] * x * x + t[1] * x + t[0]
  {
    forall x: real
      ensures Eval(t, x) == t[2] * x * x + t[1] * x + t[0]
    {
      EvalThree(t, x);
    }
  }

  /** Pointwise difference of two lists of at most three coefficients
      evaluates to the difference of their values; the shorter list counts
      as zero-padded. */
  lemma EvalDiff(big: seq<real>, small: seq<real>, d: seq<real>, x: real)
    requires |small| <= |big| == |d| <= 3
    requires forall i :: 0 <= i < |d| ==> d[i] == big[i] - (if i < |small| then small[i] else 0.0)
    ensures Eval(d, x) == Eval(big, x) - Eval(small, x)
  {
    PaddedDiff(big, small, d);
    QuadraticDiff(Padded(big), Padded(small), Padded(d), x);
    EvalShort(d, x);
    EvalShort(big, x);
    EvalShort(small, x);
  }

  /** The padded difference list is the difference of the padded lists. */
  lemma PaddedDiff(big: seq<real>, small: seq<real>, d: seq<real>)
    requires |small| <= |big| == |d|
    requires forall i :: 0 <= i < |d| ==> d[i] == big[i] - (if i < |small| then small[i] else 0.0)
    ensures forall i :: 0 <= i < 3 ==> Padded(d)[i] == Padded(big)[i] - Padded(small)[i]
  {
  }

  /** Quadratics whose coefficients differ term by term have values that
      differ by the same amount. */
  lemma QuadraticDiff(b: seq<real>, s: seq<real>, d: seq<real>, x: real)
    requires |b| == |s| == |d| == 3
    requires forall i :: 0 <= i < 3 ==> d[i] == b[i] - s[i]
    ensures Quad(d, x) == Quad(b, x) - Quad(s, x)
  {
  }

  /** The result of QuadraticIntersection up to the root formula: the
      lower-degree polynomial, the difference polynomial whose roots are
      the intersections, and the equation solved for them. */
  datatype Intersection = Intersection(small: RPolynomial, diff: RPolynomial, terms: QuadraticTerms)

  /** QuadraticIntersection: both degrees at most 3; `small` is the first
      argument only when its degree is strictly lower; the difference takes
      big minus small below small's degree and big alone above it; its
      coefficients go to QuadraticRoots, and small is then evaluated at the
      roots. Reading small's coefficients past their end panics, as does a
      negative big degree and evaluating a small polynomial without
      coefficients. */
  method QuadraticIntersection(p: RPolynomial, q: RPolynomial) returns (r: Result<Intersection, string>)
    ensures var small := if p.degree < q.degree then p else q;
      var big := if p.degree < q.degree then q else p;
      r.Err? <==> p.degree > 3 || q.degree > 3 || big.degree < 0 ||
                  |small.coeffs| == 0 || |small.coeffs| < small.degree
    ensures r.Ok? ==> r.value.small == (if p.degree < q.degree then p else q)
    ensures r.Ok? ==> var big := if p.degree < q.degree then q else p;
      r.value.diff.degree == big.degree && r.value.diff.WellFormed()
    ensures r.Ok? ==> var tc := Padded(r.value.diff.coeffs);
      r.value.terms == QuadraticTerms(tc[0], tc[1], tc[2])
    ensures r.Ok? && p.WellFormed() && q.WellFormed() ==>
      var big := if p.degree < q.degree then q else p;
      forall x :: Eval(r.value.diff.coeffs, x) == Eval(big.coeffs, x) - Eval(r.value.small.coeffs, x)
  {
    if p.degree > 3 || q.degree > 3 {
      return Err("this only works for quadratic or lower polynomials");
    }
    var small, big := q, p;
    if p.degree < q.degree {
      small, big := p, q;
    }
    var diffCoeffs: map<int, real> := map[];
    var i := 0;
    while i < |big.coeffs|
      invariant 0 <= i <= |big.coeffs|
      invariant forall k :: k in diffCoeffs <==> 0 <= k < i
      invariant (if i < small.degree then i else small.degree) <= |small.coeffs|
      invariant forall k :: 0 <= k < i ==>
        diffCoeffs[k] == big.coeffs[k] - (if k < small.degree then small.coeffs[k] else 0.0)
    {
      if i < small.degree {
        if i >= |small.coeffs| {
          return Err("index out of range");
        }
        diffCoeffs := diffCoeffs[i := big.coeffs[i] - small.coeffs[i]];
      } else {
        diffCoeffs := diffCoeffs[i := big.coeffs[i]];
      }
      i := i + 1;
    }
    var np := NewRPolynomial(diffCoeffs, big.degree);
    if np.None? {
      return Err("negative degree");
    }
    var terms := QuadraticRootsAsWritten(np.value);
    // Whether Calculate panics does not depend on the point, so the roots,
    // which the root formula would give, are not needed for it.
    var y := Calculate(small, 0.0);
    if y.None? {
      return Err("index out of range");
    }
    if p.WellFormed() && q.WellFormed() {
      forall x: real
        ensures Eval(np.value.coeffs, x) == Eval(big.coeffs, x) - Eval(small.coeffs, x)
      {
        EvalDiff(big.coeffs, small.coeffs, np.value.coeffs, x);
      }
    }
    return Ok(Intersection(small, np.value, terms.value));
  }
}
