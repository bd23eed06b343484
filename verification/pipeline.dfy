/** The generator's main loop as the program runs it: validate the
    arguments, then for each trajectory seed its stream, draw alpha and the
    initial field, build a solver, load the field cell by cell, and roll it
    forward `t_steps` times, writing the field before and after each step to
    the two binary files and one metadata row per step. Each method is
    proved to produce exactly what `Dataset` says the run produces. */
module Pipeline {
  import opened Scalar
  import opened Grid
  import opened Rng
  import opened Ic
  import opened Solver
  import opened Seed
  import opened Encode
  import opened MuSet
  import opened Dataset

  /** meta.jsonl: the rows written so far. */
  class RowSink {
    var rows: seq<MetaRow>

    constructor ()
      ensures rows == []
    {
      rows := [];
    }

    /** One JSON line. */
    method WriteRow(row: MetaRow)
      modifies this
      ensures rows == old(rows) + [row]
    {
      rows := rows + [row];
    }
  }

  /** The field after `set_cell` has stored the first i cells of `ic`,
      in row-major order, into `base`. */
  function Loaded(base: seq<real>, ic: seq<real>, i: nat): seq<real>
    requires |ic| == |base|
  {
    seq(|base|, c requires 0 <= c < |base| => if c < i then Clamp(ic[c], 0.0, 1.0) else base[c])
  }

  /** Storing cell i next extends the loaded prefix by one. */
  lemma LoadedNext(base: seq<real>, ic: seq<real>, i: nat)
    requires |ic| == |base| && i < |base|
    ensures Loaded(base, ic, i)[i := Clamp(ic[i], 0.0, 1.0)] == Loaded(base, ic, i + 1)
  {
  }

  /** One row of the load loop: `set_cell(x, y, ic[y * n + x])` for every x. */
  method LoadRow(s: SolverCore, ic: seq<real>, y: nat, ghost base: seq<real>)
    requires s.Valid() && |ic| == s.n * s.n && |base| == s.n * s.n && y < s.n
    requires s.field[..] == Loaded(base, ic, y * s.n)
    modifies s.field
    ensures s.Valid()
    ensures s.field[..] == Loaded(base, ic, (y + 1) * s.n)
  {
    var n := s.n;
    for x := 0 to n
      invariant s.Valid()
      invariant s.field[..] == Loaded(base, ic, y * n + x)
    {
      CellIndex(n, x, y);
      s.SetCell(x, y, ic[y * n + x]);
      LoadedNext(base, ic, y * n + x);
    }
    MulSucc(y, n);
  }

  /** The load loop: every cell is set, so the field becomes `ic` with each
      value clamped into [0,1], whatever it held before. */
  method LoadIc(s: SolverCore, ic: seq<real>)
    requires s.Valid() && |ic| == s.n * s.n
    modifies s.field
    ensures s.Valid()
    ensures s.field[..] == ClampAll(ic)
  {
    ghost var base := s.field[..];
    for y := 0 to s.n
      invariant s.Valid()
      invariant s.field[..] == Loaded(base, ic, y * s.n)
    {
      LoadRow(s, ic, y, base);
    }
    assert s.field[..] == ClampAll(ic);
  }

  lemma AppendAssoc<T>(a: seq<T>, b: seq<T>, c: seq<T>)
    ensures (a + b) + c == a + (b + c)
  {
  }

  /** The solver state a trajectory's steps rely on: the grid of the run,
      the drawn alpha (floored by `set_alpha`) and the clamped margin. */
  ghost predicate Configured(s: SolverCore, args: Args, start: Start)
    reads s, s.Repr
  {
    && s.Valid()
    && args.n >= 3
    && s.n == args.n
    && s.dx == Dx(args.n)
    && s.alpha == Max(start.alpha, ALPHA_FLOOR)
    && s.sRef == Clamp(args.sRef, S_MIN, S_MAX)
  }

  /** The solver part of one iteration of the step loop: draw mu, set it,
      clone the field, advance by tau with the reference margin and clone
      again. The clones are the fields before and after the modelled step,
      and mu, k and tau are the ones it reports. */
  method AdvanceStep(s: SolverCore, args: Args, mus: seq<real>, start: Start, j: nat, pos: nat)
    returns (mu: real, uIn: seq<real>, k: nat, tau: real, uOut: seq<real>, nextPos: nat)
    requires |mus| > 0 && ValidStart(args, start) && Configured(s, args, start)
    requires s.field[..] == Rolled(args, mus, start, j).field && pos == Rolled(args, mus, start, j).pos
    modifies s.Repr
    ensures Configured(s, args, start) && s.Repr == old(s.Repr)
    ensures var t := StepOf(args, mus, start, old(s.field[..]), pos);
      && mu == t.mu && k == t.k && tau == t.tau
      && uIn == Rolled(args, mus, start, j).field
      && uOut == Rolled(args, mus, start, j + 1).field && nextPos == Rolled(args, mus, start, j + 1).pos
    ensures s.field[..] == uOut
  {
    ghost var step := StepOf(args, mus, start, s.field[..], pos);
    var d := Choose(mus, start.st, pos).value;
    s.SetMu(d.value);
    uIn := s.CloneField();
    k, tau := s.StepTauRef();
    assert k == step.k && tau == step.tau && s.field[..] == step.target;
    uOut := s.CloneField();
    mu, nextPos := d.value, d.pos;
  }

  /** One iteration of the step loop: the solver step, then both fields and
      the row written. The solver then holds the field before the next
      step, and exactly this step's sample has been written. */
  method RunStep(s: SolverCore, args: Args, mus: seq<real>, start: Start, l: nat, j: nat,
                 globalIdx: nat, pos: nat, dxVal: real, bits: real -> Word,
                 input: ByteSink, target: ByteSink, meta: RowSink)
    returns (nextPos: nat)
    requires |mus| > 0 && ValidStart(args, start) && Configured(s, args, start)
    requires s.field[..] == Rolled(args, mus, start, j).field && pos == Rolled(args, mus, start, j).pos
    requires globalIdx == l * args.tSteps + j && dxVal == Dx(args.n)
    requires input != target
    requires input !in s.Repr && target !in s.Repr && meta !in s.Repr
    modifies s.Repr, input, target, meta
    ensures Configured(s, args, start) && s.Repr == old(s.Repr)
    ensures s.field[..] == Rolled(args, mus, start, j + 1).field && nextPos == Rolled(args, mus, start, j + 1).pos
    ensures meta.rows == old(meta.rows) + [SampleOf(args, mus, start, l, j).row]
    ensures input.bytes == old(input.bytes) + Encoded(SampleOf(args, mus, start, l, j).input, bits)
    ensures target.bytes == old(target.bytes) + Encoded(SampleOf(args, mus, start, l, j).target, bits)
  {
    ghost var x := SampleOf(args, mus, start, l, j);
    var mu, uIn, k, tau, uOut;
    mu, uIn, k, tau, uOut, nextPos := AdvanceStep(s, args, mus, start, j, pos);
    var row := MetaRow(globalIdx, args.split, start.idx, j, args.seed, start.seed, args.n, dxVal,
                       start.alpha, mu, tau, args.sRef, k, AsStr(start.ic));
    assert row == x.row;
    WriteSample(input, target, meta, uIn, uOut, row, bits);
  }

  /** The writes of one step: the input field, the target field, then the
      metadata row. */
  method WriteSample(input: ByteSink, target: ByteSink, meta: RowSink,
                     uIn: seq<real>, uOut: seq<real>, row: MetaRow, bits: real -> Word)
    requires input != target
    modifies input, target, meta
    ensures input.bytes == old(input.bytes) + Encoded(uIn, bits)
    ensures target.bytes == old(target.bytes) + Encoded(uOut, bits)
    ensures meta.rows == old(meta.rows) + [row]
  {
    WriteF32Vec(input, uIn, bits);
    WriteF32Vec(target, uOut, bits);
    meta.WriteRow(row);
  }

  /** The start of a trajectory: its seed and stream, alpha, the kind and
      the field, a new solver with alpha and the margin set, the field
      loaded and the boundary condition applied. It fails exactly as the
      modelled start does; otherwise the new solver holds the clamped
      initial field with its border zeroed. */
  method StartTrajectory(args: Args, streams: U64 -> Stream, exp: real -> real, l: nat)
    returns (r: Outcome<Start>, s: SolverCore?)
    requires args.alphaMin < args.alphaMax
    ensures r == StartOf(args, streams, exp, l)
    ensures r.Done? ==>
      && s != null && fresh(s.Repr) && Configured(s, args, r.value)
      && s.field[..] == Dirichlet(ClampAll(r.value.field), args.n)
  {
    s := null;
    var trajIdx := TrajIdx(args, l);
    var trajSeed := TrajSeed(args.seed, trajIdx);
    var st := streams(trajSeed);
    var alpha := GenReal(st, 0, args.alphaMin, args.alphaMax);
    var icT := SampleIcType(st, alpha.pos);
    var icField := GenerateIc(st, icT.pos, args.n, icT.value, exp);
    if icField.None? {
      return Failed(IcPanic), null;
    }
    var created := SolverCore.New(args.n);
    if created.None? {
      return Failed(SolverTooSmall), null;
    }
    s := created.value;
    s.SetAlpha(alpha.value);
    s.SetSRef(args.sRef);
    LoadIc(s, icField.value.value);
    s.FinalizeIc();
    r := Done(Start(trajIdx, trajSeed, st, alpha.value, icT.value, icField.value.value, icField.value.pos));
  }

  /** The step loop of a trajectory that has started: it writes exactly the
      trajectory's samples, in order, and advances the global sample counter
      by `t_steps`. */
  method RollTrajectory(s: SolverCore, args: Args, mus: seq<real>, start: Start, l: nat, globalIdx: nat,
                        bits: real -> Word, input: ByteSink, target: ByteSink, meta: RowSink)
    returns (nextIdx: nat)
    requires |mus| > 0 && ValidStart(args, start) && Configured(s, args, start)
    requires s.field[..] == Rolled(args, mus, start, 0).field
    requires globalIdx == l * args.tSteps
    requires input != target
    requires input !in s.Repr && target !in s.Repr && meta !in s.Repr
    modifies s.Repr, input, target, meta
    ensures var xs := TrajSamples(args, mus, start, l);
      && nextIdx == globalIdx + args.tSteps
      && meta.rows == old(meta.rows) + Rows(xs)
      && input.bytes == old(input.bytes) + FileBytes(Inputs(xs), bits)
      && target.bytes == old(target.bytes) + FileBytes(Targets(xs), bits)
  {
    var dxVal := s.GetDx();
    ghost var xs := TrajSamples(args, mus, start, l);
    var pos := start.pos;
    nextIdx := globalIdx;
    for j := 0 to args.tSteps
      invariant Configured(s, args, start) && s.Repr == old(s.Repr)
      invariant s.field[..] == Rolled(args, mus, start, j).field && pos == Rolled(args, mus, start, j).pos
      invariant nextIdx == l * args.tSteps + j
      invariant meta.rows == old(meta.rows) + Rows(xs[..j])
      invariant input.bytes == old(input.bytes) + FileBytes(Inputs(xs[..j]), bits)
      invariant target.bytes == old(target.bytes) + FileBytes(Targets(xs[..j]), bits)
    {
      assert xs[j] == SampleOf(args, mus, start, l, j);
      ghost var inBefore, outBefore := input.bytes, target.bytes;
      pos := RunStep(s, args, mus, start, l, j, nextIdx, pos, dxVal, bits, input, target, meta);
      nextIdx := nextIdx + 1;
      PrefixSnoc(xs, j, bits);
      AppendAssoc(old(meta.rows), Rows(xs[..j]), [xs[j].row]);
      AppendAssoc(old(input.bytes), FileBytes(Inputs(xs[..j]), bits), Encoded(xs[j].input, bits));
      AppendAssoc(old(target.bytes), FileBytes(Targets(xs[..j]), bits), Encoded(xs[j].target, bits));
    }
    assert xs[..args.tSteps] == xs;
  }

  /** One trajectory: its start, then its steps. It fails exactly when the
      start fails, before writing anything; otherwise it writes exactly the
      trajectory's samples and advances the global sample counter by
      `t_steps`. */
  method RunTrajectory(args: Args, mus: seq<real>, streams: U64 -> Stream, exp: real -> real, l: nat,
                       globalIdx: nat, bits: real -> Word, input: ByteSink, target: ByteSink, meta: RowSink)
    returns (r: Outcome<nat>)
    requires args.alphaMin < args.alphaMax && |mus| > 0
    requires globalIdx == l * args.tSteps
    requires input != target
    modifies input, target, meta
    ensures r.Failed? <==> StartOf(args, streams, exp, l).Failed?
    ensures r.Failed? ==>
      && r.error == StartOf(args, streams, exp, l).error
      && input.bytes == old(input.bytes) && target.bytes == old(target.bytes) && meta.rows == old(meta.rows)
    ensures r.Done? ==>
      var xs := TrajSamples(args, mus, StartOf(args, streams, exp, l).value, l);
      && r.value == globalIdx + args.tSteps
      && meta.rows == old(meta.rows) + Rows(xs)
      && input.bytes == old(input.bytes) + FileBytes(Inputs(xs), bits)
      && target.bytes == old(target.bytes) + FileBytes(Targets(xs), bits)
  {
    var start, s := StartTrajectory(args, streams, exp, l);
    if start.Failed? {
      return Failed(start.error);
    }
    var nextIdx := RollTrajectory(s, args, mus, start.value, l, globalIdx, bits, input, target, meta);
    return Done(nextIdx);
  }

  /** What the files hold after one more trajectory: what they held, then
      that trajectory's samples. */
  lemma WrittenSnoc(args: Args, mus: seq<real>, streams: U64 -> Stream, exp: real -> real, l: nat,
                    bits: real -> Word, rows0: seq<MetaRow>, input0: seq<Byte>, target0: seq<Byte>)
    requires args.alphaMin < args.alphaMax && |mus| > 0
    requires forall i :: 0 <= i < l + 1 ==> StartOf(args, streams, exp, i).Done?
    ensures var done := Completed(args, mus, streams, exp, l);
      var block := TrajSamples(args, mus, StartOf(args, streams, exp, l).value, l);
      var next := Completed(args, mus, streams, exp, l + 1);
      && (rows0 + Rows(done)) + Rows(block) == rows0 + Rows(next)
      && (input0 + FileBytes(Inputs(done), bits)) + FileBytes(Inputs(block), bits) == input0 + FileBytes(Inputs(next), bits)
      && (target0 + FileBytes(Targets(done), bits)) + FileBytes(Targets(block), bits) == target0 + FileBytes(Targets(next), bits)
  {
    var done := Completed(args, mus, streams, exp, l);
    var block := TrajSamples(args, mus, StartOf(args, streams, exp, l).value, l);
    CompletedSnoc(args, mus, streams, exp, l);
    SamplesAppend(done, block);
    FileBytesAppend(Inputs(done), Inputs(block), bits);
    FileBytesAppend(Targets(done), Targets(block), bits);
    AppendAssoc(rows0, Rows(done), Rows(block));
    AppendAssoc(input0, FileBytes(Inputs(done), bits), FileBytes(Inputs(block), bits));
    AppendAssoc(target0, FileBytes(Targets(done), bits), FileBytes(Targets(block), bits));
  }

  /** One more trajectory started. */
  lemma StartedSnoc(args: Args, streams: U64 -> Stream, exp: real -> real, l: nat)
    requires args.alphaMin < args.alphaMax
    requires forall i :: 0 <= i < l ==> StartOf(args, streams, exp, i).Done?
    requires StartOf(args, streams, exp, l).Done?
    ensures forall i :: 0 <= i < l + 1 ==> StartOf(args, streams, exp, i).Done?
  {
  }

  /** One pass of the trajectory loop: trajectory `l` after the first `l`
      have been written. It either stops the run with the error of the
      first trajectory that fails, or leaves the files holding the first
      `l + 1` trajectories. */
  method RunNext(args: Args, mus: seq<real>, streams: U64 -> Stream, exp: real -> real, l: nat,
                 globalIdx: nat, bits: real -> Word, input: ByteSink, target: ByteSink, meta: RowSink,
                 ghost rows0: seq<MetaRow>, ghost input0: seq<Byte>, ghost target0: seq<Byte>)
    returns (r: Outcome<nat>)
    requires args.alphaMin < args.alphaMax && |mus| > 0 && l < args.trajCount
    requires input != target
    requires forall i :: 0 <= i < l ==> StartOf(args, streams, exp, i).Done?
    requires globalIdx == l * args.tSteps
    requires meta.rows == rows0 + Rows(Completed(args, mus, streams, exp, l))
    requires input.bytes == input0 + FileBytes(Inputs(Completed(args, mus, streams, exp, l)), bits)
    requires target.bytes == target0 + FileBytes(Targets(Completed(args, mus, streams, exp, l)), bits)
    modifies input, target, meta
    ensures r.Failed? ==>
      Trajectories(args, mus, streams, exp, args.trajCount) == Failed(r.error)
    ensures r.Done? ==>
      && (forall i :: 0 <= i < l + 1 ==> StartOf(args, streams, exp, i).Done?)
      && r.value == (l + 1) * args.tSteps
      && meta.rows == rows0 + Rows(Completed(args, mus, streams, exp, l + 1))
      && input.bytes == input0 + FileBytes(Inputs(Completed(args, mus, streams, exp, l + 1)), bits)
      && target.bytes == target0 + FileBytes(Targets(Completed(args, mus, streams, exp, l + 1)), bits)
  {
    r := RunTrajectory(args, mus, streams, exp, l, globalIdx, bits, input, target, meta);
    if r.Failed? {
      TrajectoriesFirstFailure(args, mus, streams, exp, l, args.trajCount);
      return;
    }
    StartedSnoc(args, streams, exp, l);
    WrittenSnoc(args, mus, streams, exp, l, bits, rows0, input0, target0);
    MulSucc(l, args.tSteps);
  }

  /** The trajectory loop of `main`, after the checks: every trajectory in
      order. It fails exactly when the modelled trajectories do, with the
      error of the first that fails; otherwise the rows and files hold
      exactly their samples, and the returned counter is their number. */
  method RunTrajectories(args: Args, mus: seq<real>, streams: U64 -> Stream, exp: real -> real,
                         bits: real -> Word, input: ByteSink, target: ByteSink, meta: RowSink)
    returns (r: Outcome<nat>)
    requires args.alphaMin < args.alphaMax && |mus| > 0
    requires input != target
    modifies input, target, meta
    ensures r.Failed? <==> Trajectories(args, mus, streams, exp, args.trajCount).Failed?
    ensures r.Failed? ==> r.error == Trajectories(args, mus, streams, exp, args.trajCount).error
    ensures r.Done? ==>
      var xs := Trajectories(args, mus, streams, exp, args.trajCount).value;
      && r.value == |xs|
      && meta.rows == old(meta.rows) + Rows(xs)
      && input.bytes == old(input.bytes) + FileBytes(Inputs(xs), bits)
      && target.bytes == old(target.bytes) + FileBytes(Targets(xs), bits)
  {
    var globalIdx := 0;
    for l := 0 to args.trajCount
      invariant forall i :: 0 <= i < l ==> StartOf(args, streams, exp, i).Done?
      invariant globalIdx == l * args.tSteps
      invariant meta.rows == old(meta.rows) + Rows(Completed(args, mus, streams, exp, l))
      invariant input.bytes == old(input.bytes) + FileBytes(Inputs(Completed(args, mus, streams, exp, l)), bits)
      invariant target.bytes == old(target.bytes) + FileBytes(Targets(Completed(args, mus, streams, exp, l)), bits)
    {
      var t := RunNext(args, mus, streams, exp, l, globalIdx, bits, input, target, meta,
                       old(meta.rows), old(input.bytes), old(target.bytes));
      if t.Failed? {
        return t;
      }
      globalIdx := t.value;
    }
    TrajectoriesCompleted(args, mus, streams, exp, args.trajCount);
    TrajectoriesLength(args, mus, streams, exp, args.trajCount);
    return Done(globalIdx);
  }

  /** `main`: the checks, then every trajectory in order. It fails exactly
      when the modelled run fails, with the same error, and writes nothing
      when a check fails; otherwise the metadata rows and the two binary
      files hold exactly the run's samples, in order, and the returned count
      is their number. */
  method Run(args: Args, parse: string -> Option<real>, streams: U64 -> Stream, exp: real -> real,
             bits: real -> Word, input: ByteSink, target: ByteSink, meta: RowSink)
    returns (r: Outcome<nat>)
    requires input != target
    modifies input, target, meta
    ensures r.Failed? <==> Generate(args, parse, streams, exp).Failed?
    ensures r.Failed? ==> r.error == Generate(args, parse, streams, exp).error
    ensures Validated(args, parse).Failed? ==>
      input.bytes == old(input.bytes) && target.bytes == old(target.bytes) && meta.rows == old(meta.rows)
    ensures r.Done? ==>
      var xs := Generate(args, parse, streams, exp).value;
      && r.value == |xs|
      && meta.rows == old(meta.rows) + Rows(xs)
      && input.bytes == old(input.bytes) + FileBytes(Inputs(xs), bits)
      && target.bytes == old(target.bytes) + FileBytes(Targets(xs), bits)
  {
    if args.alphaMax <= args.alphaMin {
      return Failed(AlphaRange);
    }
    var parsed := ParseMuSet(args.muSet, parse);
    if parsed.Err? {
      return Failed(BadMuSet(parsed.error));
    }
    var mus := parsed.value;
    if |mus| == 0 {
      return Failed(EmptyMuSet);
    }
    assert Validated(args, parse) == Done(mus);
    r := RunTrajectories(args, mus, streams, exp, bits, input, target, meta);
  }
}
