/** The explicit diffusion engine (`SolverCore` of solver-core/src/lib.rs): an
    n-by-n row-major field with one scratch buffer, clamping parameter setters,
    zero-Dirichlet boundary enforcement and the "advance by tau" operation that
    runs k explicit 5-point-stencil substeps with double buffering. */
module Solver {
  import opened Scalar
  import opened Grid

  const ALPHA_FLOOR: real := 0.00000001
  const S_MIN: real := 0.05
  const S_MAX: real := 0.99
  const DEFAULT_ALPHA: real := 0.2
  const DEFAULT_MU: real := 10.0
  const DEFAULT_S_RUN: real := 0.8
  const DEFAULT_S_REF: real := 0.35

  /** The macro interval `tau = mu * dx^2 / alpha`. */
  function Tau(mu: real, dx: real, alpha: real): real
    requires alpha > 0.0
  {
    (mu * Sq(dx)) / alpha
  }

  /** The target substep `dt = s * dt_max` with `dt_max = dx^2 / (4 alpha)`. */
  function TargetDt(s: real, dx: real, alpha: real): (dt: real)
    requires alpha > 0.0
    ensures s > 0.0 && dx != 0.0 ==> dt > 0.0
  {
    if s > 0.0 && dx != 0.0 then
      DivPositive(Sq(dx), 4.0 * alpha);
      MulPositive(s, Sq(dx) / (4.0 * alpha));
      s * (Sq(dx) / (4.0 * alpha))
    else
      s * (Sq(dx) / (4.0 * alpha))
  }

  /** `ceil(tau / dt) as u32`, raised to 1 when it is 0. */
  function SubstepCount(tau: real, dt: real): (k: nat)
    requires dt > 0.0
    ensures 1 <= k <= U32_MAX
  {
    var k := SatU32(Ceil(tau / dt));
    if k < 1 then 1 else k
  }

  /** The diffusion number `c = alpha * dt / dx^2` of one substep. */
  function DiffusionNumber(alpha: real, dt: real, dx: real): real
    requires dx != 0.0
  {
    alpha * dt / Sq(dx)
  }

  /** tau is never negative and is zero exactly when mu is zero. */
  lemma TauSign(mu: real, dx: real, alpha: real)
    requires mu >= 0.0 && dx != 0.0 && alpha > 0.0
    ensures Tau(mu, dx, alpha) >= 0.0 && (Tau(mu, dx, alpha) == 0.0 <==> mu == 0.0)
  {
    if mu > 0.0 {
      MulPositive(mu, Sq(dx));
      DivPositive(mu * Sq(dx), alpha);
    } else {
      assert mu * Sq(dx) == 0.0;
    }
  }

  /** `tau / dt = 4 mu / s`: the substep count depends only on mu and the
      margin, not on alpha or the grid spacing. */
  lemma TauOverDt(mu: real, dx: real, alpha: real, s: real)
    requires dx != 0.0 && alpha > 0.0 && s > 0.0
    ensures TargetDt(s, dx, alpha) > 0.0
    ensures Tau(mu, dx, alpha) / TargetDt(s, dx, alpha) == 4.0 * mu / s
  {
    var d2 := Sq(dx);
    var tau := Tau(mu, dx, alpha);
    var h := d2 / (4.0 * alpha);
    DivMul(mu * d2, alpha);
    DivMul(d2, 4.0 * alpha);
    var dt := TargetDt(s, dx, alpha);
    assert dt == s * h;
    var q := tau / dt;
    DivMul(tau, dt);
    assert q * s * h * (4.0 * alpha) == tau * (4.0 * alpha);
    assert q * s * d2 == 4.0 * mu * d2;
    assert (q * s - 4.0 * mu) * d2 == 0.0;
    assert q * s == 4.0 * mu;
    DivMul(4.0 * mu, s);
  }

  /** Unless the u32 cast saturates, `k = max(1, ceil(tau / dt))`, the
      realised substep `dt' = tau / k` is in [0, dt], and k substeps of
      length dt' make up tau exactly. */
  lemma {:induction false} CountCoversTau(tau: real, dt: real)
    requires tau >= 0.0 && dt > 0.0 && Ceil(tau / dt) <= U32_MAX
    ensures var k := SubstepCount(tau, dt);
            && k == (if Ceil(tau / dt) < 1 then 1 else Ceil(tau / dt))
            && 0.0 <= tau / (k as real) <= dt
            && (k as real) * (tau / (k as real)) == tau
  {
    var k := SubstepCount(tau, dt);
    var q := tau / dt;
    DivNonNegative(tau, dt);
    DivMul(tau, dt);
    assert (k as real) >= q;
    MulNonNegative((k as real) - q, dt);
    assert (k as real) * dt >= tau;
    var dtp := tau / (k as real);
    DivMul(tau, k as real);
    DivNonNegative(tau, k as real);
    assert tau <= dt * (k as real);
    DivAtMost(tau, k as real, dt);
  }

  /** A substep no longer than `dt = s dx^2 / (4 alpha)` has diffusion number
      in [0, s/4]. */
  lemma DiffusionNumberBound(alpha: real, dtp: real, dx: real, s: real)
    requires alpha > 0.0 && dx != 0.0 && s > 0.0
    requires 0.0 <= dtp <= TargetDt(s, dx, alpha)
    ensures 0.0 <= DiffusionNumber(alpha, dtp, dx) <= s / 4.0
  {
    var d2 := Sq(dx);
    var dt := TargetDt(s, dx, alpha);
    var c := DiffusionNumber(alpha, dtp, dx);
    DivMul(alpha * dtp, d2);
    DivMul(d2, 4.0 * alpha);
    assert dt * (4.0 * alpha) == s * d2;
    MulNonNegative(alpha, dtp);
    DivNonNegative(alpha * dtp, d2);
    MulNonNegative(alpha, dt - dtp);
    assert alpha * dt - alpha * dtp == alpha * (dt - dtp);
    assert c * d2 <= s / 4.0 * d2;
  }

  /** The substep arithmetic of `step_tau_with_s`, in exact arithmetic: the
      count is at least 1 and is `max(1, ceil(4 mu / s))` unless the u32
      cast saturates; then the realised substep `dt' = tau / k` does not
      exceed `dt`, k substeps of length dt' make up tau exactly, and the
      diffusion number of a substep is in [0, s/4], below the stability
      limit 1/4. */
  lemma SubstepArithmetic(mu: real, dx: real, alpha: real, s: real)
    requires mu >= 0.0 && dx > 0.0 && alpha > 0.0 && s > 0.0
    ensures var tau := Tau(mu, dx, alpha);
            var dt := TargetDt(s, dx, alpha);
            var k := SubstepCount(tau, dt);
            && tau >= 0.0 && dt > 0.0 && k >= 1
            && tau / dt == 4.0 * mu / s
            && (Ceil(4.0 * mu / s) <= U32_MAX ==>
                  && k == (if Ceil(4.0 * mu / s) < 1 then 1 else Ceil(4.0 * mu / s))
                  && tau / (k as real) <= dt
                  && (k as real) * (tau / (k as real)) == tau
                  && 0.0 <= DiffusionNumber(alpha, tau / (k as real), dx) <= s / 4.0)
  {
    var tau := Tau(mu, dx, alpha);
    var dt := TargetDt(s, dx, alpha);
    TauSign(mu, dx, alpha);
    TauOverDt(mu, dx, alpha, s);
    if Ceil(4.0 * mu / s) <= U32_MAX {
      CountCoversTau(tau, dt);
      var k := SubstepCount(tau, dt);
      DiffusionNumberBound(alpha, tau / (k as real), dx, s);
    }
  }

  class SolverCore {
    const n: nat
    const dx: real
    var alpha: real
    var mu: real
    var sRun: real
    var sRef: real
    /** The field, row-major, `n * n` cells. */
    var field: array<real>
    /** The scratch buffer a substep writes; all zero between calls. */
    var next: array<real>
    ghost var Repr: set<object>

    /** Dimensions, parameter ranges and the two distinct buffers. */
    ghost predicate Shape()
      reads this, Repr
    {
      && Repr == {this, field, next}
      && field != next
      && n >= 3
      && field.Length == n * n && next.Length == n * n
      && dx == 1.0 / ((n - 1) as real) && dx > 0.0
      && alpha >= ALPHA_FLOOR && mu >= 0.0
      && S_MIN <= sRun <= S_MAX && S_MIN <= sRef <= S_MAX
    }

    /** The object invariant between public calls: every cell is in [0,1]
        and the scratch buffer is all zero. */
    ghost predicate Valid()
      reads this, Repr
    {
      Shape() && InUnit(field[..]) && AllZero(next[..])
    }

    constructor Init(n: nat)
      requires n >= 3
      ensures Valid() && fresh(Repr)
      ensures this.n == n && dx == 1.0 / ((n - 1) as real)
      ensures alpha == DEFAULT_ALPHA && mu == DEFAULT_MU
      ensures sRun == DEFAULT_S_RUN && sRef == DEFAULT_S_REF
      ensures AllZero(field[..])
    {
      this.n := n;
      dx := 1.0 / ((n - 1) as real);
      DivPositive(1.0, (n - 1) as real);
      alpha, mu, sRun, sRef := DEFAULT_ALPHA, DEFAULT_MU, DEFAULT_S_RUN, DEFAULT_S_REF;
      var f := new real[n * n](_ => 0.0);
      var g := new real[n * n](_ => 0.0);
      field, next := f, g;
      Repr := {this, f, g};
    }

    /** `SolverCore::new`: an error exactly when n < 3; otherwise a zero
        field and zero scratch buffer of n*n cells, dx = 1/(n-1) and the
        default parameters. */
    static method New(n: nat) returns (r: Option<SolverCore>)
      ensures r.None? <==> n < 3
      ensures r.Some? ==> && r.value.Valid() && fresh(r.value.Repr)
                          && r.value.n == n && r.value.dx == 1.0 / ((n - 1) as real)
                          && r.value.alpha == DEFAULT_ALPHA && r.value.mu == DEFAULT_MU
                          && r.value.sRun == DEFAULT_S_RUN && r.value.sRef == DEFAULT_S_REF
                          && AllZero(r.value.field[..]) && AllZero(r.value.next[..])
    {
      if n < 3 {
        return None;
      }
      var s := new SolverCore.Init(n);
      r := Some(s);
    }

    /** `set_alpha`: alpha becomes `max(a, 1e-8)`; nothing else changes. */
    method SetAlpha(a: real)
      requires Valid()
      modifies this
      ensures Valid() && Repr == old(Repr)
      ensures alpha == Max(a, ALPHA_FLOOR)
      ensures mu == old(mu) && sRun == old(sRun) && sRef == old(sRef)
      ensures field == old(field) && next == old(next) && field[..] == old(field[..])
    {
      alpha := Max(a, ALPHA_FLOOR);
    }

    /** `set_mu`: mu becomes `max(m, 0)`; nothing else changes. */
    method SetMu(m: real)
      requires Valid()
      modifies this
      ensures Valid() && Repr == old(Repr)
      ensures mu == Max(m, 0.0)
      ensures alpha == old(alpha) && sRun == old(sRun) && sRef == old(sRef)
      ensures field == old(field) && next == old(next) && field[..] == old(field[..])
    {
      mu := Max(m, 0.0);
    }

    /** `set_s_run`: s_run becomes `clamp(s, 0.05, 0.99)`; nothing else changes. */
    method SetSRun(s: real)
      requires Valid()
      modifies this
      ensures Valid() && Repr == old(Repr)
      ensures sRun == Clamp(s, S_MIN, S_MAX)
      ensures alpha == old(alpha) && mu == old(mu) && sRef == old(sRef)
      ensures field == old(field) && next == old(next) && field[..] == old(field[..])
    {
      sRun := Clamp(s, S_MIN, S_MAX);
    }

    /** `set_s_ref`: s_ref becomes `clamp(s, 0.05, 0.99)`; nothing else changes. */
    method SetSRef(s: real)
      requires Valid()
      modifies this
      ensures Valid() && Repr == old(Repr)
      ensures sRef == Clamp(s, S_MIN, S_MAX)
      ensures alpha == old(alpha) && mu == old(mu) && sRun == old(sRun)
      ensures field == old(field) && next == old(next) && field[..] == old(field[..])
    {
      sRef := Clamp(s, S_MIN, S_MAX);
    }

    /** `get_dx`: the grid spacing, 1/(n-1). */
    function GetDx(): (r: real)
      reads this, Repr
      requires Valid()
      ensures r > 0.0 && r * ((n - 1) as real) == 1.0
    {
      dx
    }

    /** `get_tau`: recomputed from the current mu and alpha; never negative,
        zero exactly when mu is zero. */
    function GetTau(): (r: real)
      reads this, Repr
      requires Valid()
      ensures r == Tau(mu, dx, alpha)
      ensures r >= 0.0 && (r == 0.0 <==> mu == 0.0)
    {
      TauSign(mu, dx, alpha);
      (mu * Sq(dx)) / alpha
    }

    /** `get_s_run`. */
    function GetSRun(): (r: real)
      reads this, Repr
      requires Valid()
      ensures S_MIN <= r <= S_MAX && r == sRun
    {
      sRun
    }

    /** `get_s_ref`. */
    function GetSRef(): (r: real)
      reads this, Repr
      requires Valid()
      ensures S_MIN <= r <= S_MAX && r == sRef
    {
      sRef
    }

    /** `clear`: both buffers become all zero. */
    method Clear()
      requires Valid()
      modifies field, next
      ensures Valid() && AllZero(field[..]) && AllZero(next[..])
    {
      forall i | 0 <= i < field.Length {
        field[i] := 0.0;
      }
      forall i | 0 <= i < next.Length {
        next[i] := 0.0;
      }
    }

    /** `add_hotspot`: out of bounds it changes nothing; otherwise cell
        (x, y) becomes `clamp(old + v, 0, 1)` and the boundary is then
        re-applied. */
    method AddHotspot(x: nat, y: nat, v: real)
      requires Valid()
      modifies field
      ensures Valid()
      ensures x >= n || y >= n ==> field[..] == old(field[..])
      ensures x < n && y < n ==>
                && y * n + x < n * n
                && field[..] == Dirichlet(old(field[..])[y * n + x := Clamp(old(field[y * n + x]) + v, 0.0, 1.0)], n)
    {
      if x >= n || y >= n {
        return;
      }
      CellIndex(n, x, y);
      var idx := y * n + x;
      field[idx] := Clamp(field[idx] + v, 0.0, 1.0);
      ApplyDirichletBc();
    }

    /** `set_cell`: out of bounds it changes nothing; otherwise only cell
        (x, y) changes, to `clamp(v, 0, 1)`; the boundary is not re-applied. */
    method SetCell(x: nat, y: nat, v: real)
      requires Valid()
      modifies field
      ensures Valid()
      ensures x >= n || y >= n ==> field[..] == old(field[..])
      ensures x < n && y < n ==>
                && y * n + x < n * n
                && field[..] == old(field[..])[y * n + x := Clamp(v, 0.0, 1.0)]
    {
      if x >= n || y >= n {
        return;
      }
      var idx := y * n + x;
      assert idx < n * n by {
        CellIndex(n, x, y);
      }
      InUnitUpdate(field[..], idx, Clamp(v, 0.0, 1.0));
      field[idx] := Clamp(v, 0.0, 1.0);
    }

    /** `finalize_ic`: applies the boundary condition once. */
    method FinalizeIc()
      requires Valid()
      modifies field
      ensures Valid()
      ensures field[..] == Dirichlet(old(field[..]), n)
    {
      ApplyDirichletBc();
    }

    /** `clone_field`: a snapshot of the field (a value, so later mutation of
        the solver cannot reach it). */
    method CloneField() returns (r: seq<real>)
      requires Valid()
      ensures r == field[..]
      ensures |r| == n * n && InUnit(r)
    {
      r := field[..];
    }

    /** `step_tau_with_s`: returns `tau = mu dx^2 / alpha` and the substep
        count k of `SubstepCount`, and advances the field by exactly k
        explicit substeps of length `tau / k`. */
    method StepTauWithS(s: real) returns (k: nat, tau: real)
      requires Valid() && S_MIN <= s <= S_MAX
      modifies Repr
      ensures Valid() && Repr == old(Repr)
      ensures alpha == old(alpha) && mu == old(mu) && sRun == old(sRun) && sRef == old(sRef)
      ensures tau == Tau(mu, dx, alpha)
      ensures k == SubstepCount(tau, TargetDt(s, dx, alpha))
      ensures field[..] == Iterate(old(field[..]), n, DiffusionNumber(alpha, tau / (k as real), dx), k)
    {
      var dtMax := Sq(dx) / (4.0 * alpha);
      var dt := s * dtMax;
      tau := GetTau();
      assert dt == TargetDt(s, dx, alpha);
      k := SatU32(Ceil(tau / dt));
      if k < 1 {
        k := 1;
      }
      var dtPrime := tau / (k as real);
      ghost var c := DiffusionNumber(alpha, dtPrime, dx);
      ghost var f0 := field[..];
      for j := 0 to k
        invariant Valid() && Repr == old(Repr)
        invariant alpha == old(alpha) && mu == old(mu) && sRun == old(sRun) && sRef == old(sRef)
        invariant field[..] == Iterate(f0, n, c, j)
      {
        ExplicitStep(dtPrime);
      }
    }

    /** `step_tau_run`: one macro interval with margin s_run. */
    method StepTauRun() returns (k: nat, tau: real)
      requires Valid()
      modifies Repr
      ensures Valid() && Repr == old(Repr)
      ensures alpha == old(alpha) && mu == old(mu) && sRun == old(sRun) && sRef == old(sRef)
      ensures tau == Tau(mu, dx, alpha)
      ensures k == SubstepCount(tau, TargetDt(sRun, dx, alpha))
      ensures field[..] == Iterate(old(field[..]), n, DiffusionNumber(alpha, tau / (k as real), dx), k)
    {
      k, tau := StepTauWithS(sRun);
    }

    /** `step_tau_ref`: one macro interval with margin s_ref. */
    method StepTauRef() returns (k: nat, tau: real)
      requires Valid()
      modifies Repr
      ensures Valid() && Repr == old(Repr)
      ensures alpha == old(alpha) && mu == old(mu) && sRun == old(sRun) && sRef == old(sRef)
      ensures tau == Tau(mu, dx, alpha)
      ensures k == SubstepCount(tau, TargetDt(sRef, dx, alpha))
      ensures field[..] == Iterate(old(field[..]), n, DiffusionNumber(alpha, tau / (k as real), dx), k)
    {
      k, tau := StepTauWithS(sRef);
    }

    /** `explicit_step`: one substep. Interior cells of the scratch buffer get
        the stencil update read from the unchanged field, the buffers are
        swapped and the boundary re-applied. */
    method ExplicitStep(dt: real)
      requires Valid()
      modifies Repr
      ensures Valid() && Repr == old(Repr)
      ensures alpha == old(alpha) && mu == old(mu) && sRun == old(sRun) && sRef == old(sRef)
      ensures field[..] == StencilStep(old(field[..]), n, DiffusionNumber(alpha, dt, dx))
    {
      var dx2 := Sq(dx);
      var c := alpha * dt / dx2;
      ghost var g := StencilStep(field[..], n, c);
      StencilInterior(c);
      SwapBuffers();
      DirichletFixesBorderZero(g, n);
      ApplyDirichletBc();
    }

    /** The two loops of `explicit_step`: every interior cell of the (zero)
        scratch buffer gets its update read from the unchanged field. */
    method StencilInterior(c: real)
      requires Valid()
      modifies next
      ensures next[..] == StencilStep(field[..], n, c)
    {
      StencilPrefixStart(next[..], field[..], n, c);
      for y := 1 to n - 1
        invariant next[..] == StencilPrefix(field[..], n, c, y * n + 1)
      {
        StencilRow(c, y);
      }
      StencilPrefixDone(field[..], n, c);
    }

    /** The inner loop of `explicit_step` for interior row y. */
    method StencilRow(c: real, y: nat)
      requires Shape() && 1 <= y < n - 1
      requires next[..] == StencilPrefix(field[..], n, c, y * n + 1)
      modifies next
      ensures next[..] == StencilPrefix(field[..], n, c, (y + 1) * n + 1)
    {
      var row := y * n;
      var x := 1;
      while x < n - 1
        invariant 1 <= x <= n - 1
        invariant next[..] == StencilPrefix(field[..], n, c, row + x)
      {
        CellIndex(n, x, y);
        StencilCell(c, row + x);
        x := x + 1;
      }
      StencilPrefixRow(field[..], n, c, y);
    }

    /** The body of the inner loop of `explicit_step`: interior cell i of the
        scratch buffer gets the clamped update read from the field. */
    method StencilCell(c: real, i: nat)
      requires Shape() && i < n * n && !IsBorder(n, i)
      requires next[..] == StencilPrefix(field[..], n, c, i)
      modifies next
      ensures next[..] == StencilPrefix(field[..], n, c, i + 1)
    {
      var u := field[i];
      var up := field[i - n];
      var down := field[i + n];
      var left := field[i - 1];
      var right := field[i + 1];
      var lap := (up + down + left + right) - 4.0 * u;
      ghost var f := field[..];
      assert NewValue(f, n, c, i) == Clamp(u + c * lap, 0.0, 1.0);
      StencilPrefixStep(next[..], f, n, c, i);
      next[i] := Clamp(u + c * lap, 0.0, 1.0);
      assert field[..] == f;
    }

    /** `apply_dirichlet_bc`: rows 0 and n-1, then columns 0 and n-1, are
        set to 0; interior cells are untouched. */
    method ApplyDirichletBc()
      requires Valid()
      modifies field
      ensures Valid()
      ensures field[..] == Dirichlet(old(field[..]), n)
    {
      ghost var f0 := field[..];
      ZeroTopAndBottomRows();
      RowsThenColumns(f0, n);
      ZeroSideColumns(f0);
      ColumnsDone(f0, n);
      DirichletProperties(f0, n);
    }

    /** The first loop of `apply_dirichlet_bc`: rows 0 and n-1. */
    method ZeroTopAndBottomRows()
      requires Shape()
      modifies field
      ensures Shape()
      ensures field[..] == RowsZeroed(old(field[..]), n, n)
    {
      ghost var f0 := field[..];
      assert (n - 1) * n == n * n - n;
      var x := 0;
      while x < n
        invariant 0 <= x <= n
        invariant field[..] == RowsZeroed(f0, n, x)
      {
        RowsZeroedStep(field[..], f0, n, x);
        field[x] := 0.0;
        field[(n - 1) * n + x] := 0.0;
        x := x + 1;
      }
    }

    /** The second loop of `apply_dirichlet_bc`: columns 0 and n-1. */
    method ZeroSideColumns(ghost f0: seq<real>)
      requires Shape() && |f0| == n * n
      requires field[..] == ColumnsZeroed(f0, n, 0)
      modifies field
      ensures Shape()
      ensures field[..] == ColumnsZeroed(f0, n, n)
    {
      var y := 0;
      while y < n
        invariant 0 <= y <= n
        invariant field[..] == ColumnsZeroed(f0, n, y)
      {
        ColumnsZeroedStep(field[..], f0, n, y);
        field[y * n] := 0.0;
        field[y * n + (n - 1)] := 0.0;
        y := y + 1;
      }
    }

    /** `swap_buffers`: the two buffers change roles and the new scratch
        buffer (the old field) is zero-filled. */
    method SwapBuffers()
      requires Shape() && InUnit(next[..])
      modifies this, field
      ensures Valid() && Repr == old(Repr)
      ensures alpha == old(alpha) && mu == old(mu) && sRun == old(sRun) && sRef == old(sRef)
      ensures field == old(next) && next == old(field)
      ensures field[..] == old(next[..])
    {
      field, next := next, field;
      forall i | 0 <= i < next.Length {
        next[i] := 0.0;
      }
    }
  }
}
