/** The row-major n-by-n grid of the diffusion solver: cell indices, the
    border, the zero-Dirichlet boundary operator and the 5-point explicit
    stencil, all as functions on the flattened field. */
module Grid {
  import opened Scalar

  /** `a * m >= m` for a positive factor. */
  lemma MulAtLeast(a: int, m: int)
    requires a >= 1 && m >= 0
    ensures a * m >= m
  {
    assert a * m == (a - 1) * m + m;
  }

  /** `(y*n + x) % n == x` and `(y*n + x) / n == y` for an in-range column. */
  lemma {:induction false} DivModCell(n: nat, x: int, y: int)
    requires 0 <= x < n && 0 <= y
    ensures (y * n + x) % n == x && (y * n + x) / n == y
  {
    var i := y * n + x;
    var q, r := i / n, i % n;
    assert i == q * n + r;
    assert (q - y) * n == x - r;
    if q - y >= 1 {
      MulAtLeast(q - y, n);
    } else if y - q >= 1 {
      MulAtLeast(y - q, n);
    }
  }

  /** Where cell (x, y) sits in the flattened field. */
  lemma CellIndex(n: nat, x: int, y: int)
    requires 0 <= x < n && 0 <= y < n
    ensures 0 <= y * n + x < n * n
    ensures (y * n + x) % n == x && (y * n + x) / n == y
    ensures y * n + x < n <==> y == 0
    ensures y * n + x >= n * n - n <==> y == n - 1
  {
    DivModCell(n, x, y);
    if y >= 1 { MulAtLeast(y, n); }
    if n - 1 - y >= 1 { MulAtLeast(n - 1 - y, n); }
    assert n * n - n == (n - 1) * n;
  }

  /** Every index of the field is some cell (i % n, i / n). */
  lemma IndexCell(n: nat, i: int)
    requires 0 <= i < n * n
    ensures 0 <= i / n < n && 0 <= i % n < n
    ensures i == (i / n) * n + i % n
  {
    if i / n >= n {
      MulAtLeast(i / n - n + 1, n);
    }
  }

  /** Row 0, row n-1, column 0 or column n-1. */
  predicate IsBorder(n: nat, i: int)
    requires n >= 1
  {
    i < n || i >= n * n - n || i % n == 0 || i % n == n - 1
  }

  /** The border of the grid holds exactly zero. */
  predicate BorderZero(s: seq<real>, n: nat)
    requires n >= 1
  {
    forall i :: 0 <= i < |s| && IsBorder(n, i) ==> s[i] == 0.0
  }

  /** The zero-Dirichlet boundary operator: border cells become 0, interior
      cells keep their value. */
  function Dirichlet(s: seq<real>, n: nat): (r: seq<real>)
    requires n >= 1
  {
    seq(|s|, i requires 0 <= i < |s| => if IsBorder(n, i) then 0.0 else s[i])
  }

  /** Boundary enforcement zeroes the border, keeps the interior and the
      length, and keeps cells in [0,1]. */
  lemma DirichletProperties(s: seq<real>, n: nat)
    requires n >= 1
    ensures |Dirichlet(s, n)| == |s|
    ensures BorderZero(Dirichlet(s, n), n)
    ensures forall i :: 0 <= i < |s| && !IsBorder(n, i) ==> Dirichlet(s, n)[i] == s[i]
    ensures InUnit(s) ==> InUnit(Dirichlet(s, n))
  {
  }

  /** A field whose border is already zero is a fixed point of the boundary
      operator; in particular the operator is idempotent. */
  lemma DirichletFixesBorderZero(s: seq<real>, n: nat)
    requires n >= 1
    ensures BorderZero(s, n) <==> Dirichlet(s, n) == s
    ensures Dirichlet(Dirichlet(s, n), n) == Dirichlet(s, n)
  {
    if Dirichlet(s, n) == s {
      forall i | 0 <= i < |s| && IsBorder(n, i) ensures s[i] == 0.0 {
        assert Dirichlet(s, n)[i] == 0.0;
      }
    }
  }

  /** An interior index: its four neighbours exist. */
  lemma InteriorNeighbours(n: nat, i: int)
    requires n >= 1 && 0 <= i < n * n && !IsBorder(n, i)
    ensures 0 <= i - n && i + n < n * n && 0 <= i - 1 && i + 1 < n * n
  {
  }

  /** The clamped explicit update of one interior cell from the pre-step
      field `s`, with diffusion number `c = alpha * dt / dx^2`. */
  function NewValue(s: seq<real>, n: nat, c: real, i: int): (r: real)
    requires n >= 1 && |s| == n * n && 0 <= i < n * n && !IsBorder(n, i)
    ensures 0.0 <= r <= 1.0
  {
    var u := s[i];
    var lap := (s[i - n] + s[i + n] + s[i - 1] + s[i + 1]) - 4.0 * u;
    Clamp(u + c * lap, 0.0, 1.0)
  }

  /** One explicit substep: interior cells get the stencil update computed
      only from `s`, border cells are 0. */
  function StencilStep(s: seq<real>, n: nat, c: real): (r: seq<real>)
    requires n >= 1 && |s| == n * n
    ensures |r| == n * n && BorderZero(r, n) && InUnit(r)
  {
    seq(n * n, i requires 0 <= i < n * n =>
      if IsBorder(n, i) then 0.0 else NewValue(s, n, c, i))
  }

  /** k substeps with the same diffusion number. */
  function Iterate(s: seq<real>, n: nat, c: real, k: nat): (r: seq<real>)
    requires n >= 1 && |s| == n * n
    ensures |r| == n * n
  {
    if k == 0 then s else StencilStep(Iterate(s, n, c, k - 1), n, c)
  }

  /** After at least one substep the border is zero and every cell is in
      [0,1]; with no substep the field is unchanged. */
  lemma {:induction false} IterateKeepsInvariants(s: seq<real>, n: nat, c: real, k: nat)
    requires n >= 1 && |s| == n * n
    ensures k == 0 ==> Iterate(s, n, c, k) == s
    ensures k >= 1 ==> BorderZero(Iterate(s, n, c, k), n) && InUnit(Iterate(s, n, c, k))
    ensures InUnit(s) ==> InUnit(Iterate(s, n, c, k))
  {
    if k >= 1 {
      IterateKeepsInvariants(s, n, c, k - 1);
    }
  }

  /** With a stable diffusion number (0 <= c <= 1/4) the explicit update of a
      field in [0,1] is a convex combination of the cell and its neighbours, so
      the clamp never changes it. */
  lemma StableUpdateNeedsNoClamp(s: seq<real>, n: nat, c: real, i: int)
    requires n >= 1 && |s| == n * n && 0 <= i < n * n && !IsBorder(n, i)
    requires InUnit(s) && 0.0 <= c <= 0.25
    ensures NewValue(s, n, c, i)
         == s[i] + c * ((s[i - n] + s[i + n] + s[i - 1] + s[i + 1]) - 4.0 * s[i])
  {
    var u := s[i];
    var nb := s[i - n] + s[i + n] + s[i - 1] + s[i + 1];
    var v := u + c * (nb - 4.0 * u);
    assert v == (1.0 - 4.0 * c) * u + c * nb;
    MulNonNegative(1.0 - 4.0 * c, u);
    MulNonNegative(1.0 - 4.0 * c, 1.0 - u);
    MulNonNegative(c, nb);
    MulNonNegative(c, 4.0 - nb);
    assert 0.0 <= v <= 1.0;
  }


  /** The scratch buffer after the substep loop has handled every interior
      cell with index below `lim`: those hold their update, all else is 0. */
  ghost function StencilPrefix(s: seq<real>, n: nat, c: real, lim: int): (r: seq<real>)
    requires n >= 1 && |s| == n * n
    ensures |r| == n * n
  {
    seq(n * n, i requires 0 <= i < n * n =>
      if !IsBorder(n, i) && i < lim then NewValue(s, n, c, i) else 0.0)
  }

  /** Before the first interior cell (n + 1) the prefix is all zero. */
  lemma StencilPrefixStart(z: seq<real>, s: seq<real>, n: nat, c: real)
    requires n >= 1 && |s| == n * n && |z| == n * n && AllZero(z)
    ensures z == StencilPrefix(s, n, c, n + 1)
  {
    forall i | 0 <= i < n * n && i < n + 1
      ensures IsBorder(n, i)
    {
      if i == n {
        DivModCell(n, 0, 1);
      }
    }
  }

  /** Writing the update of interior cell `lim` extends the prefix by one. */
  lemma StencilPrefixStep(p: seq<real>, s: seq<real>, n: nat, c: real, lim: int)
    requires n >= 1 && |s| == n * n && 0 <= lim < n * n && !IsBorder(n, lim)
    requires p == StencilPrefix(s, n, c, lim)
    ensures p[lim := NewValue(s, n, c, lim)] == StencilPrefix(s, n, c, lim + 1)
  {
  }

  /** The last column of row y and the first column of row y+1 are border
      cells, so the prefix jumps from (y, n-1) to (y+1, 1). */
  lemma StencilPrefixRow(s: seq<real>, n: nat, c: real, y: int)
    requires n >= 3 && |s| == n * n && 1 <= y < n - 1
    ensures StencilPrefix(s, n, c, y * n + (n - 1)) == StencilPrefix(s, n, c, (y + 1) * n + 1)
  {
    CellIndex(n, n - 1, y);
    CellIndex(n, 0, y + 1);
    assert (y + 1) * n == y * n + n;
  }

  /** Once the last interior row is done the prefix is the whole substep. */
  lemma StencilPrefixDone(s: seq<real>, n: nat, c: real)
    requires n >= 1 && |s| == n * n
    ensures StencilPrefix(s, n, c, (n - 1) * n + 1) == StencilStep(s, n, c)
  {
    assert (n - 1) * n == n * n - n;
  }

  /** The field after the row phase of the boundary operator has zeroed
      columns `0..x` of rows 0 and n-1. */
  ghost function RowsZeroed(s: seq<real>, n: nat, x: int): (r: seq<real>)
    requires n >= 1 && |s| == n * n
    ensures |r| == n * n
  {
    seq(n * n, i requires 0 <= i < n * n =>
      if i < x || n * n - n <= i < n * n - n + x then 0.0 else s[i])
  }

  /** The field after the column phase has also zeroed columns 0 and n-1 of
      rows `0..y`. */
  ghost function ColumnsZeroed(s: seq<real>, n: nat, y: int): (r: seq<real>)
    requires n >= 1 && |s| == n * n
    ensures |r| == n * n
  {
    seq(n * n, i requires 0 <= i < n * n =>
      if i < n || i >= n * n - n || ((i % n == 0 || i % n == n - 1) && i < y * n)
      then 0.0 else s[i])
  }

  lemma RowsZeroedStep(p: seq<real>, s: seq<real>, n: nat, x: int)
    requires n >= 1 && |s| == n * n && 0 <= x < n
    requires p == RowsZeroed(s, n, x)
    ensures n * n - n + x < n * n
    ensures p[x := 0.0][n * n - n + x := 0.0] == RowsZeroed(s, n, x + 1)
  {
  }

  lemma RowsThenColumns(s: seq<real>, n: nat)
    requires n >= 1 && |s| == n * n
    ensures RowsZeroed(s, n, n) == ColumnsZeroed(s, n, 0)
  {
  }

  lemma ColumnsZeroedStep(p: seq<real>, s: seq<real>, n: nat, y: int)
    requires n >= 1 && |s| == n * n && 0 <= y < n
    requires p == ColumnsZeroed(s, n, y)
    ensures 0 <= y * n && y * n + (n - 1) < n * n
    ensures p[y * n := 0.0][y * n + (n - 1) := 0.0] == ColumnsZeroed(s, n, y + 1)
  {
    CellIndex(n, 0, y);
    CellIndex(n, n - 1, y);
    assert (y + 1) * n == y * n + n;
    var q := ColumnsZeroed(s, n, y + 1);
    forall i | 0 <= i < n * n
      ensures p[y * n := 0.0][y * n + (n - 1) := 0.0][i] == q[i]
    {
      if y * n <= i < y * n + n {
        DivModCell(n, i - y * n, y);
      }
    }
  }

  lemma ColumnsDone(s: seq<real>, n: nat)
    requires n >= 1 && |s| == n * n
    ensures ColumnsZeroed(s, n, n) == Dirichlet(s, n)
  {
  }
}
