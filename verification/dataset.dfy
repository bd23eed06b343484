/** What the data generator produces, as functions of its arguments: the
    checks made before any output, the per-trajectory seed and random
    stream, the initial field, the sequence of (input, target, metadata)
    samples of every trajectory, and the bytes of the two binary files.
    The seeded generator is a parameter `streams` (the stream of draws of
    the generator seeded with a given 64-bit word); number parsing, `exp`
    and the f32 bit pattern are parameters too. */
module Dataset {
  import opened Scalar
  import opened Grid
  import opened Rng
  import opened Ic
  import opened Solver
  import opened Seed
  import opened Encode
  import opened MuSet

  /** The command-line arguments that shape the data (the output directory
      is left out). */
  datatype Args = Args(
    split: string, n: nat, trajStart: U64, trajCount: nat, tSteps: nat,
    alphaMin: real, alphaMax: real, muSet: string, sRef: real, seed: U64)

  /** Why a run stops without completing: one of the argument checks,
      a panic while drawing a rectangles field on a small grid, or the
      solver refusing a grid smaller than 3. */
  datatype RunError = AlphaRange | BadMuSet(e: MuError) | EmptyMuSet | IcPanic | SolverTooSmall

  datatype Outcome<T> = Done(value: T) | Failed(error: RunError)

  /** The checks made before any output: a non-empty alpha range, then a
      mu set that parses and is not empty. */
  function Validated(args: Args, parse: string -> Option<real>): Outcome<seq<real>>
  {
    if args.alphaMax <= args.alphaMin then Failed(AlphaRange)
    else match ParsedMuSet(args.muSet, parse)
      case Err(e) => Failed(BadMuSet(e))
      case Ok(xs) => if |xs| == 0 then Failed(EmptyMuSet) else Done(xs)
  }

  /** The grid spacing `1 / (n - 1)`. */
  function Dx(n: nat): (r: real)
    requires n >= 2
    ensures r > 0.0
  {
    DivPositive(1.0, (n - 1) as real);
    1.0 / ((n - 1) as real)
  }

  /** The global index of local trajectory l: `traj_start + l` as a 64-bit
      word. */
  function TrajIdx(args: Args, l: nat): U64
  {
    (args.trajStart + l) % WORD
  }

  /** Everything fixed at the start of a trajectory: its index and seed,
      its stream, the drawn alpha and kind, the normalised initial field and
      the stream position after drawing it. */
  datatype Start = Start(idx: U64, seed: U64, st: Stream, alpha: real, ic: IcType, field: seq<real>, pos: nat)

  predicate ValidStart(args: Args, s: Start) {
    args.n >= 3 && |s.field| == args.n * args.n
  }

  /** The start of local trajectory l: alpha from [alpha_min, alpha_max),
      then the kind, then the field; a rectangles field on a grid with
      n / 2 <= 2 panics, and otherwise a grid below 3 is refused by the
      solver. */
  function StartOf(args: Args, streams: U64 -> Stream, exp: real -> real, l: nat): (r: Outcome<Start>)
    requires args.alphaMin < args.alphaMax
    ensures r.Done? ==> ValidStart(args, r.value)
  {
    var idx := TrajIdx(args, l);
    var seed := TrajSeed(args.seed, idx);
    var st := streams(seed);
    var a := GenReal(st, 0, args.alphaMin, args.alphaMax);
    var t := SampleIcType(st, a.pos);
    match Generated(st, t.pos, args.n, t.value, exp)
    case None => Failed(IcPanic)
    case Some(g) =>
      if args.n < 3 then Failed(SolverTooSmall)
      else Done(Start(idx, seed, st, a.value, t.value, g.value, g.pos))
  }

  /** Every cell through `f32::clamp(0, 1)`, as `set_cell` stores it. */
  function ClampAll(s: seq<real>): (r: seq<real>)
    ensures |r| == |s| && InUnit(r)
  {
    seq(|s|, i requires 0 <= i < |s| => Clamp(s[i], 0.0, 1.0))
  }

  /** One labelled step: the mu drawn, the substep count and tau reported
      by `step_tau_ref`, the field after it, and the stream position. */
  datatype Step = Step(mu: real, k: nat, tau: real, target: seq<real>, pos: nat)

  function StepOf(args: Args, mus: seq<real>, s: Start, field: seq<real>, pos: nat): (r: Step)
    requires |mus| > 0 && args.n >= 3 && |field| == args.n * args.n
    ensures |r.target| == args.n * args.n
  {
    var d := Choose(mus, s.st, pos).value;
    var alpha := Max(s.alpha, ALPHA_FLOOR);
    var dx := Dx(args.n);
    var tau := Tau(Max(d.value, 0.0), dx, alpha);
    var k := SubstepCount(tau, TargetDt(Clamp(args.sRef, S_MIN, S_MAX), dx, alpha));
    Step(d.value, k, tau, Iterate(field, args.n, DiffusionNumber(alpha, tau / (k as real), dx), k), d.pos)
  }

  /** The solver field and stream position before step j. */
  datatype Roll = Roll(field: seq<real>, pos: nat)

  function Rolled(args: Args, mus: seq<real>, s: Start, j: nat): (r: Roll)
    requires |mus| > 0 && ValidStart(args, s)
    ensures |r.field| == args.n * args.n
  {
    if j == 0 then Roll(Dirichlet(ClampAll(s.field), args.n), s.pos)
    else
      var r := Rolled(args, mus, s, j - 1);
      var t := StepOf(args, mus, s, r.field, r.pos);
      Roll(t.target, t.pos)
  }

  /** One line of meta.jsonl. */
  datatype MetaRow = MetaRow(
    globalSampleIdx: nat, split: string, trajIdx: U64, stepIdx: nat,
    baseSeed: U64, trajSeed: U64, n: nat, dx: real, alpha: real, mu: real,
    tau: real, sRef: real, kUsedRef: nat, icType: string)

  /** One sample: the field before a step, the field after it, and its
      metadata row. */
  datatype Sample = Sample(input: seq<real>, target: seq<real>, row: MetaRow)

  /** Step j of local trajectory l. The row reports the drawn alpha and the
      `--s-ref` argument as given (not the values the solver clamps them
      to), and the global index l * t_steps + j. */
  function SampleOf(args: Args, mus: seq<real>, s: Start, l: nat, j: nat): (r: Sample)
    requires |mus| > 0 && ValidStart(args, s)
  {
    var r := Rolled(args, mus, s, j);
    var t := StepOf(args, mus, s, r.field, r.pos);
    Sample(r.field, t.target,
      MetaRow(l * args.tSteps + j, args.split, s.idx, j, args.seed, s.seed, args.n, Dx(args.n),
              s.alpha, t.mu, t.tau, args.sRef, t.k, AsStr(s.ic)))
  }

  function TrajSamples(args: Args, mus: seq<real>, s: Start, l: nat): (r: seq<Sample>)
    requires |mus| > 0 && ValidStart(args, s)
    ensures |r| == args.tSteps
  {
    seq(args.tSteps, j requires 0 <= j < args.tSteps => SampleOf(args, mus, s, l, j))
  }

  /** The starts of the first `count` trajectories. */
  function Starts(args: Args, streams: U64 -> Stream, exp: real -> real, count: nat): (r: seq<Outcome<Start>>)
    requires args.alphaMin < args.alphaMax
    ensures |r| == count
  {
    seq(count, l requires 0 <= l < count => StartOf(args, streams, exp, l))
  }

  /** The error of the first start that fails, if any: trajectories run in
      order and the first failure ends the run. */
  function FirstFailure(starts: seq<Outcome<Start>>): Option<RunError>
  {
    if |starts| == 0 then None
    else if starts[0].Failed? then Some(starts[0].error)
    else FirstFailure(starts[1..])
  }

  /** The blocks of samples, trajectory by trajectory, concatenated. */
  function Concat<T>(bs: seq<seq<T>>): seq<T>
  {
    if |bs| == 0 then [] else Concat(bs[..|bs| - 1]) + bs[|bs| - 1]
  }

  /** The samples of the first `count` trajectories, when all of them
      start. */
  function Completed(args: Args, mus: seq<real>, streams: U64 -> Stream, exp: real -> real, count: nat): seq<Sample>
    requires args.alphaMin < args.alphaMax && |mus| > 0
    requires forall l :: 0 <= l < count ==> StartOf(args, streams, exp, l).Done?
  {
    Concat(Blocks(args, mus, streams, exp, count))
  }

  /** The samples of each of the first `count` trajectories. */
  function Blocks(args: Args, mus: seq<real>, streams: U64 -> Stream, exp: real -> real, count: nat): seq<seq<Sample>>
    requires args.alphaMin < args.alphaMax && |mus| > 0
    requires forall l :: 0 <= l < count ==> StartOf(args, streams, exp, l).Done?
  {
    seq(count, l requires 0 <= l < count => TrajSamples(args, mus, StartOf(args, streams, exp, l).value, l))
  }

  /** The samples of the first `count` trajectories, or the first failure. */
  function Trajectories(args: Args, mus: seq<real>, streams: U64 -> Stream, exp: real -> real, count: nat)
    : Outcome<seq<Sample>>
    requires args.alphaMin < args.alphaMax && |mus| > 0
  {
    var starts := Starts(args, streams, exp, count);
    match FirstFailure(starts)
    case Some(e) => Failed(e)
    case None =>
      FirstFailureNone(starts);
      assert forall l :: 0 <= l < count ==> starts[l] == StartOf(args, streams, exp, l);
      Done(Completed(args, mus, streams, exp, count))
  }

  /** The whole run. */
  function Generate(args: Args, parse: string -> Option<real>, streams: U64 -> Stream, exp: real -> real)
    : Outcome<seq<Sample>>
  {
    match Validated(args, parse)
    case Failed(e) => Failed(e)
    case Done(mus) => Trajectories(args, mus, streams, exp, args.trajCount)
  }

  /** meta.jsonl, one row per sample. */
  function Rows(xs: seq<Sample>): (r: seq<MetaRow>)
    ensures |r| == |xs|
  {
    seq(|xs|, i requires 0 <= i < |xs| => xs[i].row)
  }

  /** The input fields of the samples, in order. */
  function Inputs(xs: seq<Sample>): (r: seq<seq<real>>)
    ensures |r| == |xs|
  {
    seq(|xs|, i requires 0 <= i < |xs| => xs[i].input)
  }

  /** The target fields of the samples, in order. */
  function Targets(xs: seq<Sample>): (r: seq<seq<real>>)
    ensures |r| == |xs|
  {
    seq(|xs|, i requires 0 <= i < |xs| => xs[i].target)
  }

  /** A binary file: the fields one after another, each as written by
      `write_f32_vec`. */
  function FileBytes(fs: seq<seq<real>>, bits: real -> Word): seq<Byte>
  {
    if |fs| == 0 then [] else FileBytes(fs[..|fs| - 1], bits) + Encoded(fs[|fs| - 1], bits)
  }

  /** Writing one more field appends its bytes. */
  lemma FileBytesSnoc(fs: seq<seq<real>>, f: seq<real>, bits: real -> Word)
    ensures FileBytes(fs + [f], bits) == FileBytes(fs, bits) + Encoded(f, bits)
  {
    assert (fs + [f])[..|fs|] == fs;
  }

  /** With every field of m cells, the file is 4m bytes per field. */
  lemma {:induction false} FileBytesLength(fs: seq<seq<real>>, bits: real -> Word, m: nat)
    requires forall i :: 0 <= i < |fs| ==> |fs[i]| == m
    ensures |FileBytes(fs, bits)| == |fs| * (4 * m)
    decreases |fs|
  {
    if |fs| > 0 {
      FileBytesLength(fs[..|fs| - 1], bits, m);
      assert |FileBytes(fs, bits)| == (|fs| - 1) * (4 * m) + 4 * m;
    }
  }

  /** ... and field g occupies bytes 4mg .. 4m(g+1): record g of input.bin
      and target.bin belongs to line g of meta.jsonl. */
  lemma {:induction false} FileBytesLayout(fs: seq<seq<real>>, bits: real -> Word, m: nat, g: nat)
    requires forall i :: 0 <= i < |fs| ==> |fs[i]| == m
    requires g < |fs|
    ensures g * (4 * m) + 4 * m <= |FileBytes(fs, bits)|
    ensures FileBytes(fs, bits)[g * (4 * m) .. g * (4 * m) + 4 * m] == Encoded(fs[g], bits)
    decreases |fs|
  {
    var w := 4 * m;
    var init := fs[..|fs| - 1];
    var pre := FileBytes(init, bits);
    var last := Encoded(fs[|fs| - 1], bits);
    FileBytesLength(init, bits, m);
    assert FileBytes(fs, bits) == pre + last;
    if g < |fs| - 1 {
      FileBytesLayout(init, bits, m, g);
      SliceLeft(pre, last, g * w, g * w + w);
      assert init[g] == fs[g];
    } else {
      assert g * w == |pre|;
      SliceRight(pre, last);
    }
  }

  /** A slice inside the left operand of a concatenation. */
  lemma SliceLeft<T>(a: seq<T>, b: seq<T>, i: nat, j: nat)
    requires i <= j <= |a|
    ensures (a + b)[i..j] == a[i..j]
  {
  }

  /** The right operand of a concatenation, sliced back out. */
  lemma SliceRight<T>(a: seq<T>, b: seq<T>)
    ensures (a + b)[|a|..|a| + |b|] == b
  {
  }

  /** One more block of `t`: one more row of cells, or one more
      trajectory of samples. */
  lemma MulSucc(l: nat, t: nat)
    ensures (l + 1) * t == l * t + t
  {
  }

  /** `a * t >= b * t` for a >= b and t >= 0. */
  lemma MulMonotone(a: int, b: int, t: int)
    ensures a >= b && t >= 0 ==> a * t >= b * t
  {
    if a > b && t > 0 {
      MulAtLeast(a - b, t);
      assert a * t == b * t + (a - b) * t;
    }
  }

  /** Every line number g < count * t is step g % t of trajectory g / t. */
  lemma LineIndex(g: nat, t: nat, count: nat)
    requires g < count * t
    ensures t > 0 && 0 <= g / t < count && 0 <= g % t < t && g == (g / t) * t + g % t
  {
    assert t == 0 ==> count * t == 0;
    MulMonotone(g / t, count, t);
  }

  /** No failure exactly when every start succeeds. */
  lemma {:induction false} FirstFailureNone(starts: seq<Outcome<Start>>)
    ensures FirstFailure(starts).None? <==> forall l :: 0 <= l < |starts| ==> starts[l].Done?
    decreases |starts|
  {
    if |starts| > 0 {
      FirstFailureNone(starts[1..]);
      assert forall l :: 1 <= l < |starts| ==> starts[l] == starts[1..][l - 1];
    }
  }

  /** When the starts before l succeed and start l fails, the run fails
      with start l's error. */
  lemma {:induction false} FirstFailureAt(starts: seq<Outcome<Start>>, l: nat)
    requires l < |starts| && starts[l].Failed?
    requires forall i :: 0 <= i < l ==> starts[i].Done?
    ensures FirstFailure(starts) == Some(starts[l].error)
    decreases l
  {
    if l > 0 {
      assert starts[0].Done?;
      FirstFailureAt(starts[1..], l - 1);
    }
  }

  /** Concatenating blocks of t elements puts element j of block l at
      l * t + j. */
  lemma {:induction false} ConcatAt<T>(bs: seq<seq<T>>, t: nat, l: nat, j: nat)
    requires forall i :: 0 <= i < |bs| ==> |bs[i]| == t
    requires l < |bs| && j < t
    ensures |Concat(bs)| == |bs| * t
    ensures l * t + j < |Concat(bs)| && Concat(bs)[l * t + j] == bs[l][j]
    decreases |bs|
  {
    var init := bs[..|bs| - 1];
    var c := |bs| - 1;
    ConcatLength(init, t);
    assert Concat(bs) == Concat(init) + bs[c];
    assert |bs| * t == c * t + t;
    if l < c {
      ConcatAt(init, t, l, j);
      assert init[l] == bs[l];
    }
  }

  lemma {:induction false} ConcatLength<T>(bs: seq<seq<T>>, t: nat)
    requires forall i :: 0 <= i < |bs| ==> |bs[i]| == t
    ensures |Concat(bs)| == |bs| * t
    decreases |bs|
  {
    if |bs| > 0 {
      ConcatLength(bs[..|bs| - 1], t);
      assert |bs| * t == (|bs| - 1) * t + t;
    }
  }

  /** The run fails exactly when some trajectory's start fails, and then
      with the error of the first such start. */
  lemma TrajectoriesFail(args: Args, mus: seq<real>, streams: U64 -> Stream, exp: real -> real, count: nat)
    requires args.alphaMin < args.alphaMax && |mus| > 0
    ensures Trajectories(args, mus, streams, exp, count).Failed? <==>
      exists l :: 0 <= l < count && StartOf(args, streams, exp, l).Failed?
  {
    var starts := Starts(args, streams, exp, count);
    FirstFailureNone(starts);
    assert Trajectories(args, mus, streams, exp, count).Failed? <==> FirstFailure(starts).Some?;
    assert forall l :: 0 <= l < count ==> starts[l] == StartOf(args, streams, exp, l);
  }

  /** The samples come trajectory by trajectory, `t_steps` each ... */
  lemma TrajectoriesLength(args: Args, mus: seq<real>, streams: U64 -> Stream, exp: real -> real, count: nat)
    requires args.alphaMin < args.alphaMax && |mus| > 0
    requires Trajectories(args, mus, streams, exp, count).Done?
    ensures |Trajectories(args, mus, streams, exp, count).value| == count * args.tSteps
  {
    TrajectoriesStarted(args, mus, streams, exp, count);
    ConcatLength(Blocks(args, mus, streams, exp, count), args.tSteps);
  }

  /** A run that completes started every trajectory, and its samples are
      theirs. */
  lemma TrajectoriesStarted(args: Args, mus: seq<real>, streams: U64 -> Stream, exp: real -> real, count: nat)
    requires args.alphaMin < args.alphaMax && |mus| > 0
    requires Trajectories(args, mus, streams, exp, count).Done?
    ensures forall l :: 0 <= l < count ==> StartOf(args, streams, exp, l).Done?
    ensures Trajectories(args, mus, streams, exp, count) == Done(Completed(args, mus, streams, exp, count))
  {
    var starts := Starts(args, streams, exp, count);
    FirstFailureNone(starts);
    assert forall l :: 0 <= l < count ==> starts[l] == StartOf(args, streams, exp, l);
  }

  /** Step j of trajectory l is sample l * t_steps + j of the completed
      trajectories. */
  lemma CompletedAt(args: Args, mus: seq<real>, streams: U64 -> Stream, exp: real -> real, count: nat, l: nat, j: nat)
    requires args.alphaMin < args.alphaMax && |mus| > 0
    requires forall i :: 0 <= i < count ==> StartOf(args, streams, exp, i).Done?
    requires l < count && j < args.tSteps
    ensures 0 <= l * args.tSteps + j < |Completed(args, mus, streams, exp, count)|
    ensures Completed(args, mus, streams, exp, count)[l * args.tSteps + j]
         == SampleOf(args, mus, StartOf(args, streams, exp, l).value, l, j)
  {
    MulMonotone(l, 0, args.tSteps);
    ConcatAt(Blocks(args, mus, streams, exp, count), args.tSteps, l, j);
  }

  /** ... and step j of trajectory l is sample l * t_steps + j. */
  lemma TrajectoriesAt(args: Args, mus: seq<real>, streams: U64 -> Stream, exp: real -> real, count: nat, l: nat, j: nat)
    requires args.alphaMin < args.alphaMax && |mus| > 0
    requires Trajectories(args, mus, streams, exp, count).Done?
    requires l < count && j < args.tSteps
    ensures StartOf(args, streams, exp, l).Done?
    ensures 0 <= l * args.tSteps + j < |Trajectories(args, mus, streams, exp, count).value|
    ensures Trajectories(args, mus, streams, exp, count).value[l * args.tSteps + j]
         == SampleOf(args, mus, StartOf(args, streams, exp, l).value, l, j)
  {
    TrajectoriesStarted(args, mus, streams, exp, count);
    CompletedAt(args, mus, streams, exp, count, l, j);
  }

  /** The checks before any output: alpha_max <= alpha_min is reported
      first; otherwise the run goes ahead exactly when every non-blank piece
      of the mu set is a non-negative number and at least one piece is not
      blank, with the distinct values read, strictly ascending. */
  lemma ValidatedProperties(args: Args, parse: string -> Option<real>)
    ensures Validated(args, parse) == Failed(AlphaRange) <==> args.alphaMax <= args.alphaMin
    ensures Validated(args, parse).Done? <==>
      && args.alphaMin < args.alphaMax
      && AllAccepted(Split(args.muSet), parse)
      && !AllBlank(Split(args.muSet))
    ensures Validated(args, parse).Done? ==>
      var mus := Validated(args, parse).value;
      && |mus| > 0
      && StrictlyAscending(mus)
      && (forall v :: v in mus <==> ReadFrom(Split(args.muSet), parse, v))
      && (forall v :: v in mus ==> v >= 0.0)
  {
    ParsedMuSetProperties(args.muSet, parse);
  }

  /** The kind drawn for local trajectory l: the second draw of its
      stream. */
  function KindDrawn(args: Args, streams: U64 -> Stream, l: nat): IcType
  {
    SampleIcType(streams(TrajSeed(args.seed, TrajIdx(args, l))), 1).value
  }

  /** A trajectory's start fails with a panic exactly when it draws a
      rectangles field on a grid with n / 2 <= 2, and otherwise is refused
      by the solver exactly when n < 3. A start that succeeds runs on the
      stream of its own seed, with alpha in [alpha_min, alpha_max) and an
      initial field in [0,1]. */
  lemma StartProperties(args: Args, streams: U64 -> Stream, exp: real -> real, l: nat)
    requires args.alphaMin < args.alphaMax
    requires forall z :: exp(z) > 0.0
    ensures var r := StartOf(args, streams, exp, l);
      var panics := KindDrawn(args, streams, l) == Rectangles && args.n / 2 <= 2;
      && (r == Failed(IcPanic) <==> panics)
      && (r == Failed(SolverTooSmall) <==> !panics && args.n < 3)
      && (r.Done? <==> !panics && args.n >= 3)
    ensures var r := StartOf(args, streams, exp, l);
      r.Done? ==>
      && r.value.idx == TrajIdx(args, l)
      && r.value.seed == TrajSeed(args.seed, r.value.idx)
      && r.value.st == streams(r.value.seed)
      && args.alphaMin <= r.value.alpha < args.alphaMax
      && r.value.ic == KindDrawn(args, streams, l)
      && |r.value.field| == args.n * args.n
      && InUnit(r.value.field)
  {
    var st := streams(TrajSeed(args.seed, TrajIdx(args, l)));
    var a := GenReal(st, 0, args.alphaMin, args.alphaMax);
    var t := SampleIcType(st, a.pos);
    GeneratedInUnit(st, t.pos, args.n, t.value, exp);
  }

  /** Before every step the solver field is in [0,1] and zero on the
      border. */
  lemma {:induction false} RolledInvariants(args: Args, mus: seq<real>, s: Start, j: nat)
    requires |mus| > 0 && ValidStart(args, s)
    ensures InUnit(Rolled(args, mus, s, j).field)
    ensures BorderZero(Rolled(args, mus, s, j).field, args.n)
  {
    var n := args.n;
    if j == 0 {
      DirichletProperties(ClampAll(s.field), n);
    } else {
      var r := Rolled(args, mus, s, j - 1);
      RolledInvariants(args, mus, s, j - 1);
      var t := StepOf(args, mus, s, r.field, r.pos);
      assert Rolled(args, mus, s, j).field == t.target;
      var x := StepFacts(args, mus, s, r.field, r.pos);
    }
  }

  /** A step draws a mu from the set, uses at least one substep, and its
      target is that many stencil substeps applied to its input: in [0,1]
      and zero on the border. The returned value is the floored alpha. */
  lemma StepFacts(args: Args, mus: seq<real>, s: Start, field: seq<real>, pos: nat) returns (alpha: real)
    requires |mus| > 0 && args.n >= 3 && |field| == args.n * args.n
    ensures alpha == Max(s.alpha, ALPHA_FLOOR) && alpha > 0.0
    ensures var t := StepOf(args, mus, s, field, pos);
      && t.mu in mus
      && t.pos == pos + 1
      && t.k >= 1
      && t.target == Iterate(field, args.n, DiffusionNumber(alpha, t.tau / (t.k as real), Dx(args.n)), t.k)
      && InUnit(t.target) && BorderZero(t.target, args.n)
  {
    alpha := Max(s.alpha, ALPHA_FLOOR);
    var t := StepOf(args, mus, s, field, pos);
    IterateKeepsInvariants(field, args.n, DiffusionNumber(alpha, t.tau / (t.k as real), Dx(args.n)), t.k);
  }

  /** Sample (l, j) of a trajectory: its mu comes from the set and its tau
      is non-negative, it uses at least one substep, input and target are
      fields of n * n cells in [0,1] that are zero on the border, the target
      is the input advanced by k stencil substeps, the first input is the
      clamped initial field with its border zeroed, and each target is the
      next sample's input. */
  lemma SampleProperties(args: Args, mus: seq<real>, s: Start, l: nat, j: nat)
    requires |mus| > 0 && ValidStart(args, s)
    requires forall v :: v in mus ==> v >= 0.0
    ensures var x := SampleOf(args, mus, s, l, j);
      && x.row.mu in mus
      && x.row.tau >= 0.0
      && x.row.kUsedRef >= 1
      && |x.input| == args.n * args.n && |x.target| == args.n * args.n
      && InUnit(x.input) && BorderZero(x.input, args.n)
      && InUnit(x.target) && BorderZero(x.target, args.n)
      && x.target == Iterate(x.input, args.n,
           DiffusionNumber(Max(s.alpha, ALPHA_FLOOR), x.row.tau / (x.row.kUsedRef as real), Dx(args.n)),
           x.row.kUsedRef)
    ensures j == 0 ==> SampleOf(args, mus, s, l, j).input == Dirichlet(ClampAll(s.field), args.n)
    ensures SampleOf(args, mus, s, l, j + 1).input == SampleOf(args, mus, s, l, j).target
  {
    var r := Rolled(args, mus, s, j);
    RolledInvariants(args, mus, s, j);
    var alpha := StepFacts(args, mus, s, r.field, r.pos);
    var t := StepOf(args, mus, s, r.field, r.pos);
    TauSign(t.mu, Dx(args.n), alpha);
  }

  /** The stability of every step: with the effective margin s (the
      `--s-ref` argument clamped to [0.05, 0.99]), the substep count is
      `max(1, ceil(4 mu / s))` and the diffusion number of each substep is
      in [0, s/4], below the stability limit 1/4, unless that count does not
      fit in a u32. */
  lemma SampleStability(args: Args, mus: seq<real>, s: Start, l: nat, j: nat)
    requires |mus| > 0 && ValidStart(args, s)
    requires forall v :: v in mus ==> v >= 0.0
    ensures var x := SampleOf(args, mus, s, l, j);
      var sE := Clamp(args.sRef, S_MIN, S_MAX);
      var k := x.row.kUsedRef;
      Ceil(4.0 * x.row.mu / sE) <= U32_MAX ==>
        && k == (if Ceil(4.0 * x.row.mu / sE) < 1 then 1 else Ceil(4.0 * x.row.mu / sE))
        && 0.0 <= DiffusionNumber(Max(s.alpha, ALPHA_FLOOR), x.row.tau / (k as real), Dx(args.n)) <= sE / 4.0
  {
    var r := Rolled(args, mus, s, j);
    var alpha := StepFacts(args, mus, s, r.field, r.pos);
    var t := StepOf(args, mus, s, r.field, r.pos);
    SubstepArithmetic(t.mu, Dx(args.n), alpha, Clamp(args.sRef, S_MIN, S_MAX));
  }

  /** Line g of the output is step g % t_steps of local trajectory
      g / t_steps, and its row records g, that step, that trajectory's
      global index and seed, and the run's split and base seed. */
  lemma GeneratedRow(args: Args, parse: string -> Option<real>, streams: U64 -> Stream, exp: real -> real, g: nat)
    requires Generate(args, parse, streams, exp).Done?
    requires g < |Generate(args, parse, streams, exp).value|
    ensures args.tSteps > 0 && 0 <= g / args.tSteps < args.trajCount
    ensures var x := Generate(args, parse, streams, exp).value[g];
      && x.row.globalSampleIdx == g
      && x.row.stepIdx == g % args.tSteps
      && x.row.trajIdx == TrajIdx(args, g / args.tSteps)
      && x.row.trajSeed == TrajSeed(args.seed, x.row.trajIdx)
      && x.row.baseSeed == args.seed
      && x.row.split == args.split
      && x.row.n == args.n
      && x.row.sRef == args.sRef
  {
    var mus := Validated(args, parse).value;
    var t := args.tSteps;
    TrajectoriesLength(args, mus, streams, exp, args.trajCount);
    LineIndex(g, t, args.trajCount);
    var l, j := g / t, g % t;
    TrajectoriesAt(args, mus, streams, exp, args.trajCount, l, j);
    assert g == l * t + j;
    var st := StartOf(args, streams, exp, l).value;
    assert st.idx == TrajIdx(args, l) && st.seed == TrajSeed(args.seed, st.idx);
    var x := SampleOf(args, mus, st, l, j);
    assert x.row.trajIdx == st.idx && x.row.trajSeed == st.seed;
  }

  /** The whole run: it produces output exactly when the checks pass and
      every trajectory starts, and then `traj_count * t_steps` samples. */
  lemma GenerateProperties(args: Args, parse: string -> Option<real>, streams: U64 -> Stream, exp: real -> real)
    ensures Generate(args, parse, streams, exp).Done? <==>
      && Validated(args, parse).Done?
      && args.alphaMin < args.alphaMax
      && forall l :: 0 <= l < args.trajCount ==> StartOf(args, streams, exp, l).Done?
    ensures Generate(args, parse, streams, exp).Done? ==>
      |Generate(args, parse, streams, exp).value| == args.trajCount * args.tSteps
  {
    ValidatedProperties(args, parse);
    if Validated(args, parse).Done? {
      var mus := Validated(args, parse).value;
      TrajectoriesFail(args, mus, streams, exp, args.trajCount);
      if Generate(args, parse, streams, exp).Done? {
        TrajectoriesLength(args, mus, streams, exp, args.trajCount);
      }
    }
  }

  /** (a + l) % 2^64 for a < 2^64 and l < 2^64 is a + l or a + l - 2^64. */
  lemma WrapSum(a: U64, l: nat)
    requires l < WORD
    ensures (a + l) % WORD == (if a + l < WORD then a + l else a + l - WORD)
  {
    if a + l < WORD {
      ModUnique(a + l, WORD, 0, a + l);
    } else {
      ModUnique(a + l, WORD, 1, a + l - WORD);
    }
  }

  /** Within one run, distinct local trajectories (fewer than 2^64 of them)
      have distinct global indices and distinct seeds. */
  lemma DistinctTrajSeeds(args: Args, l1: nat, l2: nat)
    requires l1 < WORD && l2 < WORD && l1 != l2
    ensures TrajIdx(args, l1) != TrajIdx(args, l2)
    ensures TrajSeed(args.seed, TrajIdx(args, l1)) != TrajSeed(args.seed, TrajIdx(args, l2))
  {
    WrapSum(args.trajStart, l1);
    WrapSum(args.trajStart, l2);
    TrajSeedInjective(args.seed, TrajIdx(args, l1), TrajIdx(args, l2));
  }

  /** Two runs that agree on the arguments that shape a trajectory. */
  predicate SameShape(a: Args, b: Args) {
    a.n == b.n && a.alphaMin == b.alphaMin && a.alphaMax == b.alphaMax && a.sRef == b.sRef && a.seed == b.seed
  }

  /** For a given start and the same parsed mu set, the field before step j
      depends only on the grid size and the margin, not on which run the
      trajectory belongs to. */
  lemma {:induction false} RolledSame(a: Args, b: Args, mus: seq<real>, s: Start, j: nat)
    requires |mus| > 0 && ValidStart(a, s) && SameShape(a, b)
    ensures ValidStart(b, s) && Rolled(a, mus, s, j) == Rolled(b, mus, s, j)
  {
    if j > 0 {
      RolledSame(a, b, mus, s, j - 1);
    }
  }

  /** The stable split by range: a trajectory is determined by its global
      index, so two runs with the same shape that reach the same global
      index (say a run over [0, 10) and a run over [5, 10) reaching index
      7 as their 7th and 2nd trajectory) start it identically, whatever
      their mu sets; given the same parsed mu set they also produce the
      same samples, whose rows differ at most in the sample index and the
      split name. */
  lemma SplitByRange(a: Args, b: Args, mus: seq<real>, streams: U64 -> Stream, exp: real -> real, l1: nat, l2: nat, j: nat)
    requires a.alphaMin < a.alphaMax && |mus| > 0 && SameShape(a, b)
    requires TrajIdx(a, l1) == TrajIdx(b, l2)
    ensures StartOf(a, streams, exp, l1) == StartOf(b, streams, exp, l2)
    ensures StartOf(a, streams, exp, l1).Done? ==>
      var s := StartOf(a, streams, exp, l1).value;
      var x := SampleOf(a, mus, s, l1, j);
      var y := SampleOf(b, mus, s, l2, j);
      && x.input == y.input && x.target == y.target
      && x.row.(globalSampleIdx := 0, split := []) == y.row.(globalSampleIdx := 0, split := [])
  {
    if StartOf(a, streams, exp, l1).Done? {
      var s := StartOf(a, streams, exp, l1).value;
      RolledSame(a, b, mus, s, j);
    }
  }

  /** Running one more trajectory appends its samples. */
  lemma CompletedSnoc(args: Args, mus: seq<real>, streams: U64 -> Stream, exp: real -> real, count: nat)
    requires args.alphaMin < args.alphaMax && |mus| > 0
    requires forall l :: 0 <= l <= count ==> StartOf(args, streams, exp, l).Done?
    ensures Completed(args, mus, streams, exp, count + 1)
         == Completed(args, mus, streams, exp, count) + TrajSamples(args, mus, StartOf(args, streams, exp, count).value, count)
  {
    var bs := Blocks(args, mus, streams, exp, count + 1);
    assert bs[..count] == Blocks(args, mus, streams, exp, count);
    assert Concat(bs) == Concat(bs[..count]) + bs[count];
  }

  /** When every trajectory starts, the run's samples are those of all of
      them. */
  lemma TrajectoriesCompleted(args: Args, mus: seq<real>, streams: U64 -> Stream, exp: real -> real, count: nat)
    requires args.alphaMin < args.alphaMax && |mus| > 0
    requires forall l :: 0 <= l < count ==> StartOf(args, streams, exp, l).Done?
    ensures Trajectories(args, mus, streams, exp, count) == Done(Completed(args, mus, streams, exp, count))
  {
    var starts := Starts(args, streams, exp, count);
    FirstFailureNone(starts);
  }

  /** When the first `count` trajectories start and trajectory `count`
      does not, the run fails with its error. */
  lemma TrajectoriesFirstFailure(args: Args, mus: seq<real>, streams: U64 -> Stream, exp: real -> real, count: nat, total: nat)
    requires args.alphaMin < args.alphaMax && |mus| > 0 && count < total
    requires forall l :: 0 <= l < count ==> StartOf(args, streams, exp, l).Done?
    requires StartOf(args, streams, exp, count).Failed?
    ensures Trajectories(args, mus, streams, exp, total) == Failed(StartOf(args, streams, exp, count).error)
  {
    var starts := Starts(args, streams, exp, total);
    FirstFailureAt(starts, count);
  }

  /** Rows and fields of a concatenation are the concatenations. */
  lemma SamplesAppend(a: seq<Sample>, b: seq<Sample>)
    ensures Rows(a + b) == Rows(a) + Rows(b)
    ensures Inputs(a + b) == Inputs(a) + Inputs(b)
    ensures Targets(a + b) == Targets(a) + Targets(b)
  {
  }

  /** A file holding one batch of fields after another holds the
      concatenation. */
  lemma {:induction false} FileBytesAppend(fs: seq<seq<real>>, gs: seq<seq<real>>, bits: real -> Word)
    ensures FileBytes(fs + gs, bits) == FileBytes(fs, bits) + FileBytes(gs, bits)
    decreases |gs|
  {
    if |gs| > 0 {
      var init := gs[..|gs| - 1];
      assert (fs + gs)[..|fs + gs| - 1] == fs + init;
      FileBytesAppend(fs, init, bits);
    } else {
      assert fs + gs == fs;
    }
  }

  /** Writing sample j after samples 0 .. j-1 gives the files and rows of
      samples 0 .. j. */
  lemma PrefixSnoc(xs: seq<Sample>, j: nat, bits: real -> Word)
    requires j < |xs|
    ensures Rows(xs[..j + 1]) == Rows(xs[..j]) + [xs[j].row]
    ensures FileBytes(Inputs(xs[..j + 1]), bits) == FileBytes(Inputs(xs[..j]), bits) + Encoded(xs[j].input, bits)
    ensures FileBytes(Targets(xs[..j + 1]), bits) == FileBytes(Targets(xs[..j]), bits) + Encoded(xs[j].target, bits)
  {
    assert xs[..j + 1] == xs[..j] + [xs[j]];
    SamplesAppend(xs[..j], [xs[j]]);
    FileBytesSnoc(Inputs(xs[..j]), xs[j].input, bits);
    FileBytesSnoc(Targets(xs[..j]), xs[j].target, bits);
  }
}
