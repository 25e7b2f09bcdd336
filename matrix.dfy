/** Dense real matrices with 1-based entry access (util/matrix.go). */
module Matrix {
  import opened Results

  /** The package's error values. */
  datatype MatErr = ErrCannotMul | ErrNoEntry | ErrNoRow | ErrNoColumn

  /** `e` has `m` rows of `n` entries each. */
  ghost predicate Rect(e: seq<seq<real>>, m: int, n: int)
  {
    |e| == m && forall r :: 0 <= r < |e| ==> |e[r]| == n
  }

  /** The m-by-n entries NewMatrix builds from the optional row list `src`:
      what a row supplies is copied, the rest is zero. */
  function Filled(m: nat, n: nat, src: Option<seq<seq<real>>>): (e: seq<seq<real>>)
    ensures |e| == m && forall r :: 0 <= r < m ==> |e[r]| == n
    ensures forall r, c :: 0 <= r < m && 0 <= c < n ==>
      e[r][c] == if src.Some? && r < |src.value| && c < |src.value[r]| then src.value[r][c] else 0.0
  {
    seq(m, r requires 0 <= r < m =>
      seq(n, c requires 0 <= c < n =>
        if src.Some? && r < |src.value| && c < |src.value[r]| then src.value[r][c] else 0.0))
  }

  /** Rows that already have the full shape are copied unchanged. */
  lemma FilledRect(e: seq<seq<real>>, m: nat, n: nat)
    requires Rect(e, m, n)
    ensures Filled(m, n, Some(e)) == e
  {
    var f := Filled(m, n, Some(e));
    forall r | 0 <= r < m
      ensures f[r] == e[r]
    {
    }
  }

  /** The transpose of an m-by-n entry list. */
  function Transposed(e: seq<seq<real>>, m: nat, n: nat): (t: seq<seq<real>>)
    requires Rect(e, m, n)
    ensures Rect(t, n, m)
    ensures forall c, r :: 0 <= c < n && 0 <= r < m ==> t[c][r] == e[r][c]
  {
    seq(n, c requires 0 <= c < n => seq(m, r requires 0 <= r < m => e[r][c]))
  }

  /** Every entry multiplied by `v`. */
  function Scaled(e: seq<seq<real>>, v: real): (s: seq<seq<real>>)
    ensures |s| == |e| && forall r :: 0 <= r < |e| ==> |s[r]| == |e[r]|
    ensures forall r, c :: 0 <= r < |e| && 0 <= c < |e[r]| ==> s[r][c] == e[r][c] * v
  {
    seq(|e|, r requires 0 <= r < |e| => seq(|e[r]|, c requires 0 <= c < |e[r]| => e[r][c] * v))
  }

  /** The sum over k < p of a[r][k] * b[k][c]. */
  function Dot(a: seq<seq<real>>, b: seq<seq<real>>, r: nat, c: nat, p: nat): real
    requires r < |a| && p <= |a[r]| && p <= |b| && forall k :: 0 <= k < p ==> c < |b[k]|
  {
    if p == 0 then 0.0 else Dot(a, b, r, c, p - 1) + a[r][p - 1] * b[p - 1][c]
  }

  /** The matrix product of an m-by-p and a p-by-n entry list. */
  function Product(a: seq<seq<real>>, b: seq<seq<real>>, m: nat, p: nat, n: nat): (e: seq<seq<real>>)
    requires Rect(a, m, p) && Rect(b, p, n)
    ensures Rect(e, m, n)
  {
    seq(m, r requires 0 <= r < m => seq(n, c requires 0 <= c < n => Dot(a, b, r, c, p)))
  }

  /** The n-by-n identity. */
  function Identity(n: nat): (e: seq<seq<real>>)
    ensures Rect(e, n, n)
  {
    seq(n, r requires 0 <= r < n => seq(n, c requires 0 <= c < n => if r == c then 1.0 else 0.0))
  }

  /** Transposing twice gives the entries back. */
  lemma TransposeInvolution(e: seq<seq<real>>, m: nat, n: nat)
    requires Rect(e, m, n)
    ensures Transposed(Transposed(e, m, n), n, m) == e
  {
    var t := Transposed(Transposed(e, m, n), n, m);
    forall r | 0 <= r < m
      ensures t[r] == e[r]
    {
    }
  }

  /** A partial dot product with an identity column picks out one entry. */
  lemma {:induction false} DotIdentity(a: seq<seq<real>>, r: nat, c: nat, n: nat, p: nat)
    requires Rect(a, |a|, n) && r < |a| && c < n && p <= n
    ensures Dot(a, Identity(n), r, c, p) == if c < p then a[r][c] else 0.0
  {
    if p > 0 {
      DotIdentity(a, r, c, n, p - 1);
    }
  }

  /** Multiplying by the identity on the right changes nothing. */
  lemma ProductIdentity(a: seq<seq<real>>, m: nat, n: nat)
    requires Rect(a, m, n)
    ensures Product(a, Identity(n), m, n, n) == a
  {
    var e := Product(a, Identity(n), m, n, n);
    forall r, c | 0 <= r < m && 0 <= c < n
      ensures e[r][c] == a[r][c]
    {
      DotIdentity(a, r, c, n, n);
    }
    forall r | 0 <= r < m
      ensures e[r] == a[r]
    {
    }
  }

  /** `matrix`: a row count, a column count and the rows of entries, which
      SetEntry and ScalarMul overwrite in place. */
  class Matrix {
    var nRows: int
    var nColumns: int
    var entries: seq<seq<real>>

    /** What every matrix built with non-negative dimensions satisfies. */
    ghost predicate Valid()
      reads this
    {
      nRows >= 0 && nColumns >= 0 && Rect(entries, nRows, nColumns)
    }

    constructor (m: int, n: int, e: seq<seq<real>>)
      ensures nRows == m && nColumns == n && entries == e
    {
      nRows := m;
      nColumns := n;
      entries := e;
    }

    /** Dimensions: rows, then columns. */
    function Dimensions(): (int, int)
      reads this
    {
      (nRows, nColumns)
    }

    /** Entry(i, j): the entry in row i, column j, counted from 1; bounds
        are checked against the stored rows, not the stored dimensions. */
    function Entry(i: int, j: int): (r: Result<real, MatErr>)
      reads this
      ensures r.Err? <==> !(1 <= i <= |entries| && 1 <= j <= |entries[i - 1]|)
      ensures r.Err? ==> r.error == ErrNoEntry
      ensures Valid() ==> (r.Ok? <==> 1 <= i <= nRows && 1 <= j <= nColumns)
      ensures r.Ok? ==> r.value == entries[i - 1][j - 1]
    {
      if i - 1 < 0 || j - 1 < 0 || i > |entries| || j > |entries[i - 1]| then Err(ErrNoEntry)
      else Ok(entries[i - 1][j - 1])
    }

    /** SetEntry(i, j, value): writes one entry, under the same bounds as
        Entry; out of bounds nothing changes and ErrNoEntry is returned. */
    method SetEntry(i: int, j: int, value: real) returns (err: Option<MatErr>)
      modifies this
      ensures err.Some? <==> old(Entry(i, j)).Err?
      ensures err.Some? ==> err.value == ErrNoEntry && entries == old(entries)
      ensures err.None? ==> entries == old(entries)[i - 1 := old(entries)[i - 1][j - 1 := value]]
      ensures err.None? ==> Entry(i, j) == Ok(value)
      ensures nRows == old(nRows) && nColumns == old(nColumns)
      ensures old(Valid()) ==> Valid()
    {
      if i - 1 < 0 || j - 1 < 0 || i > |entries| || j > |entries[i - 1]| {
        return Some(ErrNoEntry);
      }
      entries := entries[i - 1 := entries[i - 1][j - 1 := value]];
      return None;
    }

    /** Row(i): row i counted from 1, or ErrNoRow. */
    function Row(i: int): (r: Result<seq<real>, MatErr>)
      reads this
      requires Valid()
      ensures r.Err? <==> !(1 <= i <= nRows)
      ensures r.Err? ==> r.error == ErrNoRow
      ensures r.Ok? ==> |r.value| == nColumns
      ensures r.Ok? ==> forall j :: 1 <= j <= nColumns ==> Entry(i, j) == Ok(r.value[j - 1])
    {
      if i - 1 < 0 || i > nRows then Err(ErrNoRow) else Ok(entries[i - 1])
    }

    /** Column(j): entry j of every row, counted from 1, or ErrNoColumn. */
    method Column(j: int) returns (r: Result<seq<real>, MatErr>)
      requires Valid()
      ensures r.Err? <==> !(1 <= j <= nColumns)
      ensures r.Err? ==> r.error == ErrNoColumn
      ensures r.Ok? ==> |r.value| == nRows
      ensures r.Ok? ==> forall i :: 1 <= i <= nRows ==> Entry(i, j) == Ok(r.value[i - 1])
    {
      if j - 1 < 0 || j > nColumns {
        return Err(ErrNoColumn);
      }
      var col := new real[nRows](_ => 0.0);
      var i := 0;
      while i < |entries|
        invariant 0 <= i <= |entries|
        invariant forall k :: 0 <= k < i ==> col[k] == entries[k][j - 1]
      {
        col[i] := entries[i][j - 1];
        i := i + 1;
      }
      return Ok(col[..]);
    }

    /** ScalarMul: multiplies every entry by `val` in place. */
    method ScalarMul(val: real)
      modifies this
      ensures entries == Scaled(old(entries), val)
      ensures nRows == old(nRows) && nColumns == old(nColumns)
      ensures old(Valid()) ==> Valid()
    {
      ghost var e0 := entries;
      var r := 0;
      while r < |entries|
        invariant 0 <= r <= |entries| == |e0|
        invariant nRows == old(nRows) && nColumns == old(nColumns)
        invariant forall k :: 0 <= k < r ==> entries[k] == Scaled(e0, val)[k]
        invariant forall k :: r <= k < |e0| ==> entries[k] == e0[k]
      {
        var c := 0;
        while c < |entries[r]|
          invariant |entries| == |e0| && r < |e0|
          invariant 0 <= c <= |entries[r]| == |e0[r]|
          invariant nRows == old(nRows) && nColumns == old(nColumns)
          invariant forall k :: 0 <= k < r ==> entries[k] == Scaled(e0, val)[k]
          invariant forall k :: r < k < |e0| ==> entries[k] == e0[k]
          invariant forall k :: 0 <= k < c ==> entries[r][k] == e0[r][k] * val
          invariant forall k :: c <= k < |e0[r]| ==> entries[r][k] == e0[r][k]
        {
          entries := entries[r := entries[r][c := entries[r][c] * val]];
          c := c + 1;
        }
        assert |Scaled(e0, val)[r]| == |entries[r]|;
        assert forall k :: 0 <= k < |e0[r]| ==> Scaled(e0, val)[r][k] == e0[r][k] * val;
        assert entries[r] == Scaled(e0, val)[r];
        r := r + 1;
      }
      assert entries == Scaled(e0, val);
    }

    /** Mul: does nothing and reports no error. */
    function Mul(m1: Matrix): (err: Option<MatErr>)
      ensures err.None?
    {
      None
    }

    /** Transpose: a new matrix with the dimensions swapped, filled entry
        by entry through Entry and SetEntry. Building it panics (None) when
        the new row count is negative. */
    method Transpose() returns (t: Matrix)
      requires Valid()
      ensures fresh(t) && t.Valid()
      ensures t.nRows == nColumns && t.nColumns == nRows
      ensures t.entries == Transposed(entries, nRows, nColumns)
      ensures forall i, j :: t.Entry(i, j).Ok? <==> Entry(j, i).Ok?
      ensures forall i, j :: t.Entry(i, j).Ok? ==> t.Entry(i, j) == Entry(j, i)
    {
      var tr := NewMatrix(nColumns, nRows, None);
      t := tr.value;
      var r := 0;
      while r < |entries|
        invariant 0 <= r <= nRows
        invariant fresh(t) && t.nRows == nColumns && t.nColumns == nRows
        invariant Rect(t.entries, nColumns, nRows)
        invariant forall i, k :: 0 <= i < nColumns && 0 <= k < r ==> t.entries[i][k] == entries[k][i]
        invariant forall i, k :: 0 <= i < nColumns && r <= k < nRows ==> t.entries[i][k] == 0.0
      {
        var c := 0;
        while c < |entries[r]|
          invariant 0 <= c <= nColumns
          invariant fresh(t) && t.nRows == nColumns && t.nColumns == nRows
          invariant Rect(t.entries, nColumns, nRows)
          invariant forall i, k :: 0 <= i < nColumns && 0 <= k < r ==> t.entries[i][k] == entries[k][i]
          invariant forall i, k :: 0 <= i < nColumns && r < k < nRows ==> t.entries[i][k] == 0.0
          invariant forall i :: 0 <= i < c ==> t.entries[i][r] == entries[r][i]
          invariant forall i :: c <= i < nColumns ==> t.entries[i][r] == 0.0
        {
          var e := Entry(r + 1, c + 1);
          var err := t.SetEntry(c + 1, r + 1, e.value);
          assert err.None?;
          c := c + 1;
        }
        r := r + 1;
      }
      ghost var tt := Transposed(entries, nRows, nColumns);
      forall i | 0 <= i < nColumns
        ensures t.entries[i] == tt[i]
      {
        assert forall k :: 0 <= k < nRows ==> t.entries[i][k] == tt[i][k];
      }
      assert t.entries == tt;
    }
  }

  /** NewMatrix(m, n, entries...): m rows of n entries, each copied from
      the matching supplied row as far as that row reaches and zero
      elsewhere. `src` None is a call without rows. It panics (None) on a
      negative row count, on a negative column count when there are rows,
      and when rows were supplied but fewer than m while n > 0. */
  method NewMatrix(m: int, n: int, src: Option<seq<seq<real>>>) returns (r: Option<Matrix>)
    ensures r.None? <==> m < 0 || (m > 0 && n < 0) || (src.Some? && n > 0 && |src.value| < m)
    ensures r.Some? ==> fresh(r.value) && r.value.nRows == m && r.value.nColumns == n
    ensures r.Some? && n >= 0 ==> r.value.Valid() && r.value.entries == Filled(m, n, src)
    ensures r.Some? && n < 0 ==> r.value.entries == []
  {
    if m < 0 || (m > 0 && n < 0) {
      return None;
    }
    if m == 0 {
      var mat := new Matrix(m, n, []);
      return Some(mat);
    }
    var rows: seq<seq<real>> := [];
    var j := 0;
    while j < m
      invariant 0 <= j <= m && |rows| == j
      invariant forall k :: 0 <= k < j ==> rows[k] == Filled(m, n, src)[k]
      invariant src.Some? && n > 0 ==> j <= |src.value|
    {
      var row := new real[n](_ => 0.0);
      var i := 0;
      while i < n
        invariant 0 <= i <= n
        invariant forall k :: 0 <= k < i ==> row[k] == Filled(m, n, src)[j][k]
        invariant forall k :: i <= k < n ==> row[k] == 0.0
        invariant src.Some? && i > 0 ==> j < |src.value|
      {
        if src.Some? && j >= |src.value| {
          return None;
        }
        if src.None? || i >= |src.value[j]| {
          break;
        }
        row[i] := src.value[j][i];
        i := i + 1;
      }
      assert row[..] == Filled(m, n, src)[j];
      rows := rows + [row[..]];
      j := j + 1;
    }
    assert rows == Filled(m, n, src);
    var mat := new Matrix(m, n, rows);
    return Some(mat);
  }

  /** MatrixEntryNoErr: Entry, panicking (None) where Entry errs. */
  function MatrixEntryNoErr(m0: Matrix, i: int, j: int): (v: Option<real>)
    reads m0
    ensures v.None? <==> m0.Entry(i, j).Err?
    ensures v.Some? ==> m0.Entry(i, j) == Ok(v.value)
  {
    match m0.Entry(i, j)
    case Ok(e) => Some(e)
    case Err(_) => None
  }

  /** MatrixMul: ErrCannotMul unless m0 has as many columns as m1 has rows;
      otherwise a new m0-rows by m1-columns matrix of row-by-column sums. */
  method MatrixMul(m0: Matrix, m1: Matrix) returns (r: Result<Matrix, MatErr>)
    requires m0.Valid() && m1.Valid()
    ensures r.Err? <==> m0.nColumns != m1.nRows
    ensures r.Err? ==> r.error == ErrCannotMul
    ensures r.Ok? ==> fresh(r.value) && r.value.Valid()
    ensures r.Ok? ==> r.value.nRows == m0.nRows && r.value.nColumns == m1.nColumns
    ensures r.Ok? ==>
      r.value.entries == Product(m0.entries, m1.entries, m0.nRows, m0.nColumns, m1.nColumns)
  {
    var m0m, m0n := m0.nRows, m0.nColumns;
    var m1m, m1n := m1.nRows, m1.nColumns;
    if m0n != m1m {
      return Err(ErrCannotMul);
    }
    ghost var prod := Product(m0.entries, m1.entries, m0m, m0n, m1n);
    var out: seq<seq<real>> := [];
    var i := 0;
    while i < m0m
      invariant 0 <= i <= m0m && |out| == i
      invariant forall k :: 0 <= k < i ==> out[k] == prod[k]
    {
      var row := new real[m1n](_ => 0.0);
      var j := 0;
      while j < m1n
        invariant 0 <= j <= m1n
        invariant forall c :: 0 <= c < j ==> row[c] == prod[i][c]
      {
        var sum := 0.0;
        var k := 1;
        while k <= m0n
          invariant 1 <= k <= m0n + 1
          invariant sum == Dot(m0.entries, m1.entries, i, j, k - 1)
        {
          var a := MatrixEntryNoErr(m0, i + 1, k);
          var b := MatrixEntryNoErr(m1, k, j + 1);
          sum := sum + a.value * b.value;
          k := k + 1;
        }
        row[j] := sum;
        j := j + 1;
      }
      assert row[..] == prod[i];
      out := out + [row[..]];
      i := i + 1;
    }
    assert out == prod;
    var mat := NewMatrix(m0m, m1n, Some(out));
    FilledRect(out, m0m, m1n);
    return Ok(mat.value);
  }

  /** MatrixScalarMul: a new matrix of the same dimensions with every entry
      multiplied by `val`; the argument is left as it is. */
  method MatrixScalarMul(m0: Matrix, val: real) returns (r: Matrix)
    requires m0.Valid()
    ensures fresh(r) && r.Valid()
    ensures r.nRows == m0.nRows && r.nColumns == m0.nColumns
    ensures r.entries == Scaled(m0.entries, val)
  {
    var m0m, m0n := m0.nRows, m0.nColumns;
    var me: seq<seq<real>> := [];
    var j := 0;
    while j < m0m
      invariant 0 <= j <= m0m && |me| == j
      invariant forall k :: 0 <= k < j ==> me[k] == Scaled(m0.entries, val)[k]
    {
      var row := new real[m0n](_ => 0.0);
      var i := 0;
      while i < m0n
        invariant 0 <= i <= m0n
        invariant forall c :: 0 <= c < i ==> row[c] == m0.entries[j][c] * val
      {
        var e := m0.Entry(j + 1, i + 1);
        row[i] := e.value * val;
        i := i + 1;
      }
      assert |Scaled(m0.entries, val)[j]| == m0n;
      assert forall k :: 0 <= k < m0n ==> Scaled(m0.entries, val)[j][k] == m0.entries[j][k] * val;
      assert row[..] == Scaled(m0.entries, val)[j];
      me := me + [row[..]];
      j := j + 1;
    }
    assert me == Scaled(m0.entries, val);
    var mat := NewMatrix(m0m, m0n, Some(me));
    FilledRect(me, m0m, m0n);
    return mat.value;
  }
}
