/** Row-major sweeps over a rectangle of an n-by-n field, the loop shape
    every initial-condition generator uses: rows y0..=y1 outer, columns
    x0..=x1 inner, each visited cell (x, y) updated from its own old value. */
module Cells {
  import opened Scalar
  import opened Grid

  /** Cell (x, y) lies in the inclusive rectangle [x0, x1] x [y0, y1]. */
  predicate InRect(x: int, y: int, x0: int, x1: int, y0: int, y1: int)
  {
    x0 <= x <= x1 && y0 <= y <= y1
  }

  /** Row-major order: (x, y) is visited before (xx, yy). */
  predicate Before(x: int, y: int, xx: int, yy: int)
  {
    y < yy || (y == yy && x < xx)
  }

  /** The field after the sweep: every cell inside the rectangle becomes
      `g(x, y, old value)`, every other cell keeps its value. */
  function RectMap(s: seq<real>, n: nat, x0: int, x1: int, y0: int, y1: int,
                   g: (int, int, real) -> real): (r: seq<real>)
    requires |s| == n * n
    ensures |r| == n * n
  {
    seq(n * n, i requires 0 <= i < n * n =>
      if InRect(i % n, i / n, x0, x1, y0, y1) then g(i % n, i / n, s[i]) else s[i])
  }

  /** The sweep read cell by cell: cell (x, y) of the result. */
  lemma RectMapAt(s: seq<real>, n: nat, x0: int, x1: int, y0: int, y1: int,
                  g: (int, int, real) -> real, x: int, y: int)
    requires |s| == n * n && 0 <= x < n && 0 <= y < n
    ensures 0 <= y * n + x < n * n
    ensures RectMap(s, n, x0, x1, y0, y1, g)[y * n + x]
         == if InRect(x, y, x0, x1, y0, y1) then g(x, y, s[y * n + x]) else s[y * n + x]
  {
    CellIndex(n, x, y);
  }

  /** The field part-way through the sweep, when (xx, yy) is the next cell:
      rectangle cells before it are updated, all others unchanged. */
  ghost function RectMapUpTo(s: seq<real>, n: nat, x0: int, x1: int, y0: int, y1: int,
                             g: (int, int, real) -> real, xx: int, yy: int): (r: seq<real>)
    requires |s| == n * n
    ensures |r| == n * n
  {
    seq(n * n, i requires 0 <= i < n * n =>
      if InRect(i % n, i / n, x0, x1, y0, y1) && Before(i % n, i / n, xx, yy)
      then g(i % n, i / n, s[i]) else s[i])
  }

  lemma UpToStart(s: seq<real>, n: nat, x0: int, x1: int, y0: int, y1: int,
                  g: (int, int, real) -> real)
    requires |s| == n * n
    ensures RectMapUpTo(s, n, x0, x1, y0, y1, g, x0, y0) == s
  {
    var r := RectMapUpTo(s, n, x0, x1, y0, y1, g, x0, y0);
    forall i | 0 <= i < n * n
      ensures r[i] == s[i]
    {
      assert !(InRect(i % n, i / n, x0, x1, y0, y1) && Before(i % n, i / n, x0, y0));
    }
  }

  lemma UpToStep(p: seq<real>, s: seq<real>, n: nat, x0: int, x1: int, y0: int, y1: int,
                 g: (int, int, real) -> real, xx: int, yy: int)
    requires |s| == n * n && 0 <= xx < n && 0 <= yy < n
    requires InRect(xx, yy, x0, x1, y0, y1)
    requires p == RectMapUpTo(s, n, x0, x1, y0, y1, g, xx, yy)
    ensures 0 <= yy * n + xx < n * n && p[yy * n + xx] == s[yy * n + xx]
    ensures p[yy * n + xx := g(xx, yy, s[yy * n + xx])]
         == RectMapUpTo(s, n, x0, x1, y0, y1, g, xx + 1, yy)
  {
    CellIndex(n, xx, yy);
    var k := yy * n + xx;
    assert !Before(xx, yy, xx, yy);
    assert p[k] == s[k];
    var q := RectMapUpTo(s, n, x0, x1, y0, y1, g, xx + 1, yy);
    forall i | 0 <= i < n * n
      ensures p[k := g(xx, yy, s[k])][i] == q[i]
    {
      if i != k {
        IndexCell(n, i);
        assert !(i / n == yy && i % n == xx);
        assert Before(i % n, i / n, xx, yy) <==> Before(i % n, i / n, xx + 1, yy);
        assert p[i] == q[i];
      } else {
        assert Before(xx, yy, xx + 1, yy);
        assert q[k] == g(xx, yy, s[k]);
      }
    }
  }

  lemma UpToRow(s: seq<real>, n: nat, x0: int, x1: int, y0: int, y1: int,
                g: (int, int, real) -> real, xx: int, yy: int)
    requires |s| == n * n && xx == (if x1 < x0 then x0 else x1 + 1)
    ensures RectMapUpTo(s, n, x0, x1, y0, y1, g, xx, yy)
         == RectMapUpTo(s, n, x0, x1, y0, y1, g, x0, yy + 1)
  {
    var a := RectMapUpTo(s, n, x0, x1, y0, y1, g, xx, yy);
    var b := RectMapUpTo(s, n, x0, x1, y0, y1, g, x0, yy + 1);
    forall i | 0 <= i < n * n
      ensures a[i] == b[i]
    {
      if InRect(i % n, i / n, x0, x1, y0, y1) {
        assert Before(i % n, i / n, xx, yy) <==> Before(i % n, i / n, x0, yy + 1);
      }
    }
  }

  lemma UpToDone(s: seq<real>, n: nat, x0: int, x1: int, y0: int, y1: int,
                 g: (int, int, real) -> real, yy: int)
    requires |s| == n * n && y1 < yy
    ensures RectMapUpTo(s, n, x0, x1, y0, y1, g, x0, yy) == RectMap(s, n, x0, x1, y0, y1, g)
  {
    var a := RectMapUpTo(s, n, x0, x1, y0, y1, g, x0, yy);
    var b := RectMap(s, n, x0, x1, y0, y1, g);
    forall i | 0 <= i < n * n
      ensures a[i] == b[i]
    {
      if InRect(i % n, i / n, x0, x1, y0, y1) {
        assert Before(i % n, i / n, x0, yy);
      }
    }
  }

  /** The nested sweep itself: rows y0..=y1, columns x0..=x1 (either range
      may be empty), each visited cell set to `g(x, y, cell)`. */
  method MapRect(f: array<real>, n: nat, x0: int, x1: int, y0: int, y1: int,
                 g: (int, int, real) -> real)
    requires f.Length == n * n
    requires 0 <= x0 && x1 < n && 0 <= y0 && y1 < n
    modifies f
    ensures f[..] == RectMap(old(f[..]), n, x0, x1, y0, y1, g)
  {
    ghost var s := f[..];
    UpToStart(s, n, x0, x1, y0, y1, g);
    var y := y0;
    while y <= y1
      invariant y0 <= y && (y <= y1 + 1 || y == y0)
      invariant f[..] == RectMapUpTo(s, n, x0, x1, y0, y1, g, x0, y)
    {
      var x := x0;
      while x <= x1
        invariant x0 <= x && (x <= x1 + 1 || x == x0)
        invariant f[..] == RectMapUpTo(s, n, x0, x1, y0, y1, g, x, y)
      {
        UpToStep(f[..], s, n, x0, x1, y0, y1, g, x, y);
        f[y * n + x] := g(x, y, f[y * n + x]);
        x := x + 1;
      }
      UpToRow(s, n, x0, x1, y0, y1, g, x, y);
      y := y + 1;
    }
    UpToDone(s, n, x0, x1, y0, y1, g, y);
  }
}
