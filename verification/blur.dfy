/** `box_blur` of the initial-condition generator: each pass replaces every
    cell by the mean of the in-bounds cells of its 3x3 neighbourhood (no
    zero padding), reading only the previous pass's buffer. */
module Blur {
  import opened Scalar
  import opened Grid
  import opened Cells

  /** `c.saturating_sub(1)`: the first row or column of a window. */
  function WinLo(c: nat): (r: nat)
    ensures r <= c
  {
    if c == 0 then 0 else c - 1
  }

  /** `(c + 1).min(n - 1)`: the last row or column of a window. */
  function WinHi(c: nat, n: nat): (r: nat)
    requires c < n
    ensures c <= r < n
  {
    if c + 1 < n - 1 then c + 1 else n - 1
  }

  /** Cell (x, y) of a row-major n-by-n field. */
  function At(s: seq<real>, n: nat, x: nat, y: nat): real
    requires |s| == n * n && x < n && y < n
  {
    CellIndex(n, x, y);
    s[y * n + x]
  }

  /** The sum of cells (xx, yy) for columns xx in [xlo, xend) of row yy. */
  function RowSum(s: seq<real>, n: nat, yy: nat, xlo: nat, xend: nat): real
    requires |s| == n * n && yy < n && xend <= n
    decreases xend
  {
    if xend <= xlo then 0.0
    else RowSum(s, n, yy, xlo, xend - 1) + At(s, n, xend - 1, yy)
  }

  /** The sum over rows yy in [ylo, yend) of their [xlo, xend) parts. */
  function WindowSum(s: seq<real>, n: nat, ylo: nat, yend: nat, xlo: nat, xend: nat): real
    requires |s| == n * n && yend <= n && xend <= n
    decreases yend
  {
    if yend <= ylo then 0.0
    else WindowSum(s, n, ylo, yend - 1, xlo, xend) + RowSum(s, n, yend - 1, xlo, xend)
  }

  /** The number of cells of rows [ylo, yend) by columns [xlo, xend),
      counted row by row as the loops of `box_blur` count them. */
  function Area(ylo: nat, yend: nat, xlo: nat, xend: nat): nat
    requires xlo <= xend
    decreases yend
  {
    if yend <= ylo then 0 else Area(ylo, yend - 1, xlo, xend) + (xend - xlo)
  }

  /** The number of in-bounds cells of the window of (x, y). */
  function WindowCount(n: nat, x: nat, y: nat): int
    requires x < n && y < n
  {
    Area(WinLo(y), WinHi(y, n) + 1, WinLo(x), WinHi(x, n) + 1)
  }

  /** The blurred value of cell (x, y): the window sum over the window count. */
  function BlurAt(s: seq<real>, n: nat, x: nat, y: nat): real
    requires |s| == n * n && x < n && y < n
  {
    WindowCountPositive(n, x, y);
    WindowSum(s, n, WinLo(y), WinHi(y, n) + 1, WinLo(x), WinHi(x, n) + 1)
      / (WindowCount(n, x, y) as real)
  }

  /** One pass: every cell blurred from `s`. */
  function BlurPass(s: seq<real>, n: nat): (r: seq<real>)
    requires |s| == n * n
    ensures |r| == n * n
  {
    seq(n * n, i requires 0 <= i < n * n => (IndexCell(n, i); BlurAt(s, n, i % n, i / n)))
  }

  /** `passes` passes, each reading the previous one's result. */
  function BlurN(s: seq<real>, n: nat, passes: nat): (r: seq<real>)
    requires |s| == n * n
    ensures |r| == n * n
  {
    if passes == 0 then s else BlurPass(BlurN(s, n, passes - 1), n)
  }

  lemma WindowCountPositive(n: nat, x: nat, y: nat)
    requires x < n && y < n
    ensures WindowCount(n, x, y) >= 1
  {
    var ylo, yend := WinLo(y), WinHi(y, n) + 1;
    assert Area(ylo, yend, WinLo(x), WinHi(x, n) + 1)
        == Area(ylo, yend - 1, WinLo(x), WinHi(x, n) + 1) + (WinHi(x, n) + 1 - WinLo(x));
  }

  /** The window of a corner holds 4 cells, of another border cell 6, of an
      interior cell 9 (on a grid of at least 2 by 2). */
  lemma WindowCountCases(n: nat, x: nat, y: nat)
    requires 2 <= n && x < n && y < n
    ensures WindowCount(n, x, y)
         == (if x == 0 || x == n - 1 then 2 else 3) * (if y == 0 || y == n - 1 then 2 else 3)
    ensures (x == 0 || x == n - 1) && (y == 0 || y == n - 1) ==> WindowCount(n, x, y) == 4
    ensures (x == 0 || x == n - 1) != (y == 0 || y == n - 1) ==> WindowCount(n, x, y) == 6
    ensures 0 < x < n - 1 && 0 < y < n - 1 ==> WindowCount(n, x, y) == 9
  {
    var ylo, yend, xlo, xend := WinLo(y), WinHi(y, n) + 1, WinLo(x), WinHi(x, n) + 1;
    var w := xend - xlo;
    assert w == (if x == 0 || x == n - 1 then 2 else 3);
    assert Area(ylo, ylo, xlo, xend) == 0;
    assert Area(ylo, ylo + 1, xlo, xend) == w;
    assert Area(ylo, ylo + 2, xlo, xend) == w + w;
    assert Area(ylo, ylo + 3, xlo, xend) == w + w + w;
    assert yend - ylo == (if y == 0 || y == n - 1 then 2 else 3);
  }

  /** Over cells in [0,1] a row part of length w sums to a value in [0, w]. */
  lemma {:induction false} RowSumBounds(s: seq<real>, n: nat, yy: nat, xlo: nat, xend: nat)
    requires |s| == n * n && yy < n && xlo <= xend <= n && InUnit(s)
    ensures 0.0 <= RowSum(s, n, yy, xlo, xend) <= (xend - xlo) as real
  {
    if xend > xlo {
      RowSumBounds(s, n, yy, xlo, xend - 1);
      CellIndex(n, xend - 1, yy);
    }
  }

  /** Over cells in [0,1] a window of h rows of width w sums into [0, h*w]. */
  lemma {:induction false} WindowSumBounds(s: seq<real>, n: nat, ylo: nat, yend: nat, xlo: nat, xend: nat)
    requires |s| == n * n && ylo <= yend <= n && xlo <= xend <= n && InUnit(s)
    ensures 0.0 <= WindowSum(s, n, ylo, yend, xlo, xend) <= Area(ylo, yend, xlo, xend) as real
  {
    if yend > ylo {
      WindowSumBounds(s, n, ylo, yend - 1, xlo, xend);
      RowSumBounds(s, n, yend - 1, xlo, xend);
    }
  }

  /** k copies of v added up. */
  function Times(v: real, k: nat): real
  {
    if k == 0 then 0.0 else Times(v, k - 1) + v
  }

  lemma {:induction false} TimesAdd(v: real, a: nat, b: nat)
    ensures Times(v, a) + Times(v, b) == Times(v, a + b)
    decreases b
  {
    if b > 0 {
      TimesAdd(v, a, b - 1);
    }
  }

  lemma {:induction false} TimesMul(v: real, k: nat)
    ensures Times(v, k) == v * (k as real)
  {
    if k > 0 {
      TimesMul(v, k - 1);
      RealMulSucc(v, (k - 1) as real);
    }
  }

  lemma RealMulSucc(v: real, a: real)
    ensures v * a + v == v * (a + 1.0)
  {
  }

  lemma AtConstant(s: seq<real>, n: nat, v: real, x: nat, y: nat)
    requires |s| == n * n && x < n && y < n
    requires forall i :: 0 <= i < |s| ==> s[i] == v
    ensures At(s, n, x, y) == v
  {
    CellIndex(n, x, y);
  }

  /** Over a field that holds v everywhere a row part of length w sums to
      w copies of v. */
  lemma {:induction false} RowSumConstant(s: seq<real>, n: nat, v: real, yy: nat, xlo: nat, xend: nat)
    requires |s| == n * n && yy < n && xlo <= xend <= n
    requires forall i :: 0 <= i < |s| ==> s[i] == v
    ensures RowSum(s, n, yy, xlo, xend) == Times(v, xend - xlo)
  {
    if xend > xlo {
      RowSumConstant(s, n, v, yy, xlo, xend - 1);
      AtConstant(s, n, v, xend - 1, yy);
    }
  }

  /** ... and a window sums to as many copies of v as it has cells. */
  lemma {:induction false} WindowSumConstant(s: seq<real>, n: nat, v: real, ylo: nat, yend: nat, xlo: nat, xend: nat)
    requires |s| == n * n && ylo <= yend <= n && xlo <= xend <= n
    requires forall i :: 0 <= i < |s| ==> s[i] == v
    ensures WindowSum(s, n, ylo, yend, xlo, xend) == Times(v, Area(ylo, yend, xlo, xend))
  {
    if yend > ylo {
      WindowSumConstant(s, n, v, ylo, yend - 1, xlo, xend);
      RowSumConstant(s, n, v, yend - 1, xlo, xend);
      TimesAdd(v, Area(ylo, yend - 1, xlo, xend), xend - xlo);
    }
  }

  /** A pass maps a field in [0,1] into [0,1]. */
  lemma BlurPassInUnit(s: seq<real>, n: nat)
    requires |s| == n * n && InUnit(s)
    ensures InUnit(BlurPass(s, n))
  {
    var r := BlurPass(s, n);
    forall i | 0 <= i < n * n
      ensures 0.0 <= r[i] <= 1.0
    {
      IndexCell(n, i);
      var x, y := i % n, i / n;
      var ylo, yend, xlo, xend := WinLo(y), WinHi(y, n) + 1, WinLo(x), WinHi(x, n) + 1;
      WindowSumBounds(s, n, ylo, yend, xlo, xend);
      WindowCountPositive(n, x, y);
      var sum := WindowSum(s, n, ylo, yend, xlo, xend);
      var cnt := WindowCount(n, x, y) as real;
      DivNonNegative(sum, cnt);
      DivAtMostOne(sum, cnt);
    }
  }

  /** No zero padding: a cell whose window holds v everywhere blurs to v,
      whatever the window's size. */
  lemma BlurAtConstant(s: seq<real>, n: nat, v: real, x: nat, y: nat)
    requires |s| == n * n && x < n && y < n
    requires forall i :: 0 <= i < |s| ==> s[i] == v
    ensures BlurAt(s, n, x, y) == v
  {
    var ylo, yend, xlo, xend := WinLo(y), WinHi(y, n) + 1, WinLo(x), WinHi(x, n) + 1;
    var k := WindowCount(n, x, y);
    WindowCountPositive(n, x, y);
    assert BlurAt(s, n, x, y) == WindowSum(s, n, ylo, yend, xlo, xend) / (k as real);
    WindowSumConstant(s, n, v, ylo, yend, xlo, xend);
    MeanOfCopies(WindowSum(s, n, ylo, yend, xlo, xend), v, k);
  }

  /** ... so a field that is the same value everywhere is left unchanged by
      a pass, border cells included. */
  lemma BlurPassKeepsConstant(s: seq<real>, n: nat, v: real)
    requires |s| == n * n && forall i :: 0 <= i < |s| ==> s[i] == v
    ensures BlurPass(s, n) == s
  {
    var r := BlurPass(s, n);
    forall i | 0 <= i < n * n
      ensures r[i] == v
    {
      IndexCell(n, i);
      BlurAtConstant(s, n, v, i % n, i / n);
    }
  }

  /** k copies of v, divided by k, give v back. */
  lemma MeanOfCopies(sum: real, v: real, k: nat)
    requires k >= 1 && sum == Times(v, k)
    ensures sum / (k as real) == v
  {
    TimesMul(v, k);
    MulDiv(v, k as real);
  }

  lemma MulDiv(v: real, c: real)
    requires c != 0.0
    ensures (v * c) / c == v
  {
  }

  /** Any number of passes keeps a field in [0,1] and keeps its length; zero
      passes return the input itself. */
  lemma {:induction false} BlurNInUnit(s: seq<real>, n: nat, passes: nat)
    requires |s| == n * n && InUnit(s)
    ensures InUnit(BlurN(s, n, passes))
  {
    if passes > 0 {
      BlurNInUnit(s, n, passes - 1);
      BlurPassInUnit(BlurN(s, n, passes - 1), n);
    }
  }

  /** The inner two loops of `box_blur` for cell (x, y): sum and count the
      in-bounds neighbourhood of `cur`, then divide. */
  method BlurCell(cur: array<real>, n: nat, x: nat, y: nat) returns (v: real)
    requires cur.Length == n * n && x < n && y < n
    ensures v == BlurAt(cur[..], n, x, y)
  {
    var ylo, yhi := WinLo(y), WinHi(y, n);
    var xlo, xhi := WinLo(x), WinHi(x, n);
    var sum := 0.0;
    var cnt := 0.0;
    for yy := ylo to yhi + 1
      invariant sum == WindowSum(cur[..], n, ylo, yy, xlo, xhi + 1)
      invariant cnt == Area(ylo, yy, xlo, xhi + 1) as real
    {
      for xx := xlo to xhi + 1
        invariant sum == WindowSum(cur[..], n, ylo, yy, xlo, xhi + 1) + RowSum(cur[..], n, yy, xlo, xx)
        invariant cnt == (Area(ylo, yy, xlo, xhi + 1) + (xx - xlo)) as real
      {
        CellIndex(n, xx, yy);
        assert At(cur[..], n, xx, yy) == cur[yy * n + xx];
        sum := sum + cur[yy * n + xx];
        cnt := cnt + 1.0;
      }
    }
    WindowCountPositive(n, x, y);
    v := sum / cnt;
  }

  lemma SweepApply(c: seq<real>, n: nat, g: (int, int, real) -> real, x: nat, y: nat, w: real)
    requires |c| == n * n && x < n && y < n
    requires forall x, y, v :: 0 <= x < n && 0 <= y < n ==> g(x, y, v) == BlurAt(c, n, x, y)
    ensures g(x, y, w) == BlurAt(c, n, x, y)
  {
  }

  lemma SweepCell(t0: seq<real>, c: seq<real>, n: nat, g: (int, int, real) -> real, i: nat)
    requires |t0| == n * n && |c| == n * n && i < n * n && 0 <= i % n < n && 0 <= i / n < n
    requires forall x, y, v :: 0 <= x < n && 0 <= y < n ==> g(x, y, v) == BlurAt(c, n, x, y)
    ensures RectMap(t0, n, 0, n - 1, 0, n - 1, g)[i] == BlurPass(c, n)[i]
  {
    SweepApply(c, n, g, i % n, i / n, t0[i]);
    assert InRect(i % n, i / n, 0, n - 1, 0, n - 1);
  }

  /** A sweep over the whole field that sets every cell to its blurred value
      is one pass. */
  lemma SweepIsBlurPass(t0: seq<real>, c: seq<real>, n: nat, g: (int, int, real) -> real)
    requires |t0| == n * n && |c| == n * n
    requires forall x, y, v :: 0 <= x < n && 0 <= y < n ==> g(x, y, v) == BlurAt(c, n, x, y)
    ensures RectMap(t0, n, 0, n - 1, 0, n - 1, g) == BlurPass(c, n)
  {
    forall i | 0 <= i < n * n
      ensures RectMap(t0, n, 0, n - 1, 0, n - 1, g)[i] == BlurPass(c, n)[i]
    {
      IndexCell(n, i);
      SweepCell(t0, c, n, g, i);
    }
  }

  /** One pass of `box_blur`: every cell of `tmp` gets the blurred value of
      `cur`, row by row. */
  method BlurPassInto(cur: array<real>, tmp: array<real>, n: nat)
    requires cur != tmp && cur.Length == n * n && tmp.Length == n * n
    modifies tmp
    ensures tmp[..] == BlurPass(cur[..], n)
  {
    ghost var c := cur[..];
    ghost var t0 := tmp[..];
    ghost var g := (x: int, y: int, v: real) =>
      if 0 <= x < n && 0 <= y < n then BlurAt(c, n, x, y) else v;
    UpToStart(t0, n, 0, n - 1, 0, n - 1, g);
    for y := 0 to n
      invariant tmp[..] == RectMapUpTo(t0, n, 0, n - 1, 0, n - 1, g, 0, y)
    {
      BlurRowInto(cur, tmp, n, y, c, t0, g);
    }
    UpToDone(t0, n, 0, n - 1, 0, n - 1, g, n);
    SweepIsBlurPass(t0, c, n, g);
  }

  /** Row y of one pass: cells (0, y) .. (n-1, y) of `tmp` in order. */
  method BlurRowInto(cur: array<real>, tmp: array<real>, n: nat, y: nat,
                     ghost c: seq<real>, ghost t0: seq<real>, ghost g: (int, int, real) -> real)
    requires cur != tmp && cur.Length == n * n && tmp.Length == n * n && y < n
    requires c == cur[..] && |t0| == n * n
    requires forall x, y, v :: 0 <= x < n && 0 <= y < n ==> g(x, y, v) == BlurAt(c, n, x, y)
    requires tmp[..] == RectMapUpTo(t0, n, 0, n - 1, 0, n - 1, g, 0, y)
    modifies tmp
    ensures tmp[..] == RectMapUpTo(t0, n, 0, n - 1, 0, n - 1, g, 0, y + 1)
  {
    for x := 0 to n
      invariant tmp[..] == RectMapUpTo(t0, n, 0, n - 1, 0, n - 1, g, x, y)
    {
      BlurCellInto(cur, tmp, n, x, y, c, t0, g);
    }
    UpToRow(t0, n, 0, n - 1, 0, n - 1, g, n, y);
  }

  /** Cell (x, y) of one pass: `tmp[y*n + x]` gets the blurred value. */
  method BlurCellInto(cur: array<real>, tmp: array<real>, n: nat, x: nat, y: nat,
                      ghost c: seq<real>, ghost t0: seq<real>, ghost g: (int, int, real) -> real)
    requires cur != tmp && cur.Length == n * n && tmp.Length == n * n && x < n && y < n
    requires c == cur[..] && |t0| == n * n
    requires forall x, y, v :: 0 <= x < n && 0 <= y < n ==> g(x, y, v) == BlurAt(c, n, x, y)
    requires tmp[..] == RectMapUpTo(t0, n, 0, n - 1, 0, n - 1, g, x, y)
    modifies tmp
    ensures tmp[..] == RectMapUpTo(t0, n, 0, n - 1, 0, n - 1, g, x + 1, y)
  {
    var v := BlurCell(cur, n, x, y);
    UpToStep(tmp[..], t0, n, 0, n - 1, 0, n - 1, g, x, y);
    SweepApply(c, n, g, x, y, t0[y * n + x]);
    tmp[y * n + x] := v;
  }

  /** `box_blur`: `passes` passes over a copy of `src`, swapping the two
      buffers after each pass. */
  method BoxBlur(src: seq<real>, n: nat, passes: nat) returns (r: seq<real>)
    requires |src| == n * n
    ensures r == BlurN(src, n, passes)
    ensures passes == 0 ==> r == src
    ensures InUnit(src) ==> InUnit(r)
  {
    var cur := new real[n * n](i requires 0 <= i < n * n => src[i]);
    var tmp := new real[n * n](_ => 0.0);
    for p := 0 to passes
      invariant cur != tmp && cur.Length == n * n && tmp.Length == n * n
      invariant fresh(cur) && fresh(tmp)
      invariant cur[..] == BlurN(src, n, p)
    {
      BlurPassInto(cur, tmp, n);
      cur, tmp := tmp, cur;
    }
    r := cur[..];
    if InUnit(src) {
      BlurNInUnit(src, n, passes);
    }
  }
}
