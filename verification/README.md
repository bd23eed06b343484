# thermal-ai dataset generator, modelled in Dafny

This project models the core of the thermal-ai data generator, a command-line program that writes training data for a learned heat-diffusion surrogate. It has three parts.

- **The explicit diffusion engine `SolverCore`** (module `Solver`). It is a class with an `n × n` row-major field and a scratch buffer. It has clamping setters, bounds-checked cell writes and zero-Dirichlet boundary enforcement. Its "advance by tau" operation picks a substep count `k` and runs the 5-point stencil `k` times with double buffering. Its class invariant `Valid()` holds:
  - `n ≥ 3`, and both buffers have `n*n` cells;
  - `alpha ≥ 1e-8`, `mu ≥ 0`, and `s_run` and `s_ref` lie in `[0.05, 0.99]`;
  - every cell lies in `[0, 1]`;
  - the scratch buffer is all zero between calls.
- **The initial-condition synthesizer** (modules `Ic`, `Normalize`, `Blur`, `Cells`, `Rng`). It has four generators: additive Gaussian blobs, max-stamped rectangles, white noise plus box blur, and a ramp plus one bump. All four share `normalize_01`. Each generator is a function of an oracle stream of random draws, so generation is deterministic. The in-place array code (`normalize_01`, `box_blur`, the fill loops) is kept as methods over arrays. Each such method is proved equal to the function.
- **The pipeline of `main`** (modules `MuSet`, `Seed`, `Encode`, `Dataset`, `Pipeline`). It covers:
  - `parse_mu_set`;
  - the checks before any output;
  - the per-trajectory seed `seed ^ (traj_idx * 0x9E3779B97F4A7C15 mod 2^64)`;
  - the loading of the initial field into the solver;
  - the trajectory and step loops with the global sample counter;
  - `write_f32_vec`.

  `Dataset` states what a run produces as pure functions. `Generate` gives the samples in order, or the error that stops the run. `Rows`, `Inputs`, `Targets` and `FileBytes` give the metadata lines and the bytes of the two binary files. `Pipeline` holds the loops themselves: methods that drive a `SolverCore` and append to byte sinks and a row sink. `Pipeline.Run` is proved to leave exactly `Rows(xs)`, `FileBytes(Inputs(xs))` and `FileBytes(Targets(xs))` in the three sinks. It fails exactly when `Generate` fails, and with the same error.

Modelling choices:
- `f32` values are `real`s.
- `exp`, `str::parse::<f32>` and the f32 bit pattern (`f32::to_bits`) are parameters: `exp: real -> real`, `parse: string -> Option<real>` and `bits: real -> Word`.
- The ChaCha8 generator seeded with a word is a parameter `streams: U64 -> Stream`. A stream is a sequence of raw draws in `[0, 1)`. Every `gen_range`/`choose` consumes one draw and maps it into its range. An empty integer range is the panic of `gen_range`, modelled as `None`.
- `traj_idx = traj_start + l` wraps modulo 2^64, as in a release build.

Two behaviours of the code worth knowing:
- `parse_mu_set("")` returns an empty list rather than an error (solver-cli/src/main.rs:213-230); `main` then rejects the empty set (solver-cli/src/main.rs:93-96).
- `n` is not checked before any output (solver-cli/src/main.rs:124-129). A grid with `n / 2 ≤ 2` panics while drawing a rectangles field. Otherwise `SolverCore::new` refuses `n < 3` inside the trajectory loop, after the output files exist. With `traj_count = 0` a run with `n < 3` succeeds and writes nothing.

## Model

| member | source | states |
|---|---|---|
| Scalar.Clamp | solver-core/src/lib.rs:43 | `f32::clamp`: the result lies in [lo, hi], equals v inside the range, and equals the nearer bound outside it |
| Scalar.Max | solver-core/src/lib.rs:35 | `f32::max`: the result is one of the two arguments and is at least both |
| Scalar.Ceil | solver-core/src/lib.rs:97 | `ceil`: the least integer not below x, so x ≤ r < x + 1 |
| Scalar.SatU32 | solver-core/src/lib.rs:97 | the saturating `as u32` cast: the result lies in [0, 2^32-1] and equals v when v is already in range |
| Grid.CellIndex | solver-core/src/lib.rs:119 | `y*n + x` with x, y < n is a cell index; it lies in the first row iff y = 0 and in the last row iff y = n-1; x and y can be recovered by `%` and `/` |
| Grid.DirichletProperties | solver-core/src/lib.rs:159-169 | after the boundary pass every border cell is 0, every interior cell is unchanged, the length is kept, and a field in [0,1] stays in [0,1] |
| Grid.DirichletFixesBorderZero | solver-core/src/lib.rs:159-169 | the boundary pass leaves a field unchanged iff its border is already zero; applying it twice is the same as once |
| Grid.NewValue | solver-core/src/lib.rs:144-151 | the new value of an interior cell lies in [0,1] |
| Grid.StableUpdateNeedsNoClamp | solver-core/src/lib.rs:150-151 | with cells in [0,1] and c ≤ 1/4, the stencil value `u + c*(up+down+left+right-4u)` is already in [0,1], so the clamp is the identity |
| Grid.StencilStep | solver-core/src/lib.rs:134-157 | one substep gives n*n cells, all in [0,1], with a zero border |
| Grid.IterateKeepsInvariants | solver-core/src/lib.rs:102-104 | zero substeps leave the field unchanged; one or more give a zero border and cells in [0,1]; cells in [0,1] stay in [0,1] for any count |
| Solver.TargetDt | solver-core/src/lib.rs:93-94 | `dt = s * dx²/(4 alpha)` is positive for positive s and non-zero dx |
| Solver.SubstepCount | solver-core/src/lib.rs:97-98 | k = max(1, the saturated `ceil(tau/dt)`) lies in [1, 2^32-1] |
| Solver.TauSign | solver-core/src/lib.rs:50-52 | `tau = mu dx²/alpha` is non-negative, and zero iff mu = 0 |
| Solver.TauOverDt | solver-core/src/lib.rs:92-97 | `tau/dt = 4 mu / s`: the substep count depends only on mu and the margin, not on alpha or dx |
| Solver.CountCoversTau | solver-core/src/lib.rs:97-100 | when `ceil(tau/dt)` fits in u32, k = max(1, ceil(tau/dt)), the substep `dt' = tau/k` satisfies 0 ≤ dt' ≤ dt, and k·dt' = tau |
| Solver.DiffusionNumberBound | solver-core/src/lib.rs:137 | a substep no longer than dt gives a diffusion number `alpha dt'/dx²` in [0, s/4] |
| Solver.SubstepArithmetic | solver-core/src/lib.rs:92-107 | for one call: tau ≥ 0, dt > 0, k ≥ 1 and tau/dt = 4mu/s; when ceil(4mu/s) fits in u32, k = max(1, ceil(4mu/s)), dt' ≤ dt, k·dt' = tau, and the diffusion number lies in [0, s/4] |
| Solver.SolverCore.Init | solver-core/src/lib.rs:17-29 | a valid solver of size n with dx = 1/(n-1), the defaults alpha 0.2, mu 10, s_run 0.8, s_ref 0.35, and a zero field |
| Solver.SolverCore.New | solver-core/src/lib.rs:13-30 | `None` exactly when n < 3; otherwise a fresh valid solver with zero field and zero scratch buffer of n*n cells, dx = 1/(n-1) and the default parameters |
| Solver.SolverCore.SetAlpha | solver-core/src/lib.rs:34-36 | alpha becomes max(a, 1e-8); no other parameter and no cell changes; the invariant holds |
| Solver.SolverCore.SetMu | solver-core/src/lib.rs:38-40 | mu becomes max(m, 0); nothing else changes |
| Solver.SolverCore.SetSRun | solver-core/src/lib.rs:42-44 | s_run becomes clamp(s, 0.05, 0.99); nothing else changes |
| Solver.SolverCore.SetSRef | solver-core/src/lib.rs:67-69 | s_ref becomes clamp(s, 0.05, 0.99); nothing else changes |
| Solver.SolverCore.GetDx | solver-core/src/lib.rs:46-48 | dx is positive and dx·(n-1) = 1 |
| Solver.SolverCore.GetTau | solver-core/src/lib.rs:50-52 | tau is recomputed from the current mu, dx and alpha; it is non-negative and zero iff mu = 0 |
| Solver.SolverCore.GetSRun | solver-core/src/lib.rs:71-73 | s_run, always in [0.05, 0.99] |
| Solver.SolverCore.GetSRef | solver-core/src/lib.rs:75-77 | s_ref, always in [0.05, 0.99] |
| Solver.SolverCore.Clear | solver-core/src/lib.rs:54-57 | both buffers become all zero and the invariant holds |
| Solver.SolverCore.AddHotspot | solver-core/src/lib.rs:59-66 | out of bounds changes nothing; otherwise cell y*n+x becomes clamp(old + v, 0, 1) and then the border is zeroed |
| Solver.SolverCore.SetCell | solver-core/src/lib.rs:117-121 | out of bounds changes nothing; otherwise only cell y*n+x changes, to clamp(v, 0, 1), and the border is not re-enforced |
| Solver.SolverCore.FinalizeIc | solver-core/src/lib.rs:122-124 | the field becomes its boundary-zeroed version |
| Solver.SolverCore.CloneField | solver-core/src/lib.rs:125-127 | a value copy of the field: n*n cells, all in [0,1] |
| Solver.SolverCore.StepTauWithS | solver-core/src/lib.rs:92-107 | returns tau = mu dx²/alpha and k = max(1, ceil(tau/dt)) for dt = s dx²/(4 alpha); the field becomes k stencil substeps with diffusion number alpha (tau/k)/dx²; the parameters are unchanged |
| Solver.SolverCore.StepTauRun | solver-core/src/lib.rs:109-111 | the same as StepTauWithS with margin s_run |
| Solver.SolverCore.StepTauRef | solver-core/src/lib.rs:113-115 | the same as StepTauWithS with margin s_ref |
| Solver.SolverCore.ExplicitStep | solver-core/src/lib.rs:134-157 | the field becomes one stencil substep of the old field with c = alpha dt/dx², computed only from the old field; the scratch buffer is zero again |
| Solver.SolverCore.StencilInterior | solver-core/src/lib.rs:139-153 | the scratch buffer receives the stencil value of every interior cell, computed from the field, with zero border |
| Solver.SolverCore.StencilRow | solver-core/src/lib.rs:141-152 | one row of the interior loop extends the computed prefix by that row |
| Solver.SolverCore.StencilCell | solver-core/src/lib.rs:142-151 | one interior cell extends the computed prefix by that cell |
| Solver.SolverCore.ApplyDirichletBc | solver-core/src/lib.rs:159-169 | the field becomes its boundary-zeroed version |
| Solver.SolverCore.ZeroTopAndBottomRows | solver-core/src/lib.rs:161-164 | the first loop zeroes row 0 and row n-1 |
| Solver.SolverCore.ZeroSideColumns | solver-core/src/lib.rs:165-168 | the second loop zeroes column 0 and column n-1 |
| Solver.SolverCore.SwapBuffers | solver-core/src/lib.rs:171-174 | the two buffers exchange roles, so the field is the old scratch content and the new scratch buffer is all zero |
| Rng.Unit | solver-cli/src/main.rs:122 | a raw draw read as a fraction in [0, 1) |
| Rng.Scaled | solver-cli/src/main.rs:122 | a fraction mapped into [lo, lo + d) |
| Rng.GenInt | solver-cli/src/ic.rs:61-64 | `gen_range(lo..hi)` panics (None) iff the range is empty; otherwise the value lies in [lo, hi) and one draw is consumed |
| Rng.GenReal | solver-cli/src/main.rs:122 | `gen_range(lo..hi)` on reals gives a value in [lo, hi) and consumes one draw |
| Rng.Choose | solver-cli/src/main.rs:146 | `choose` is None iff the slice is empty; otherwise it gives a member and consumes one draw |
| Cells.RectMapAt | solver-cli/src/ic.rs:70-74 | a nested loop over an inclusive rectangle applies its update to exactly the cells inside the rectangle and leaves the others alone |
| Cells.MapRect | solver-cli/src/ic.rs:70-74 | the in-place nested loop over an inclusive rectangle leaves the array equal to the function RectMap of its old contents |
| Normalize.Peak | solver-cli/src/ic.rs:124-127 | the maximum scan started from 0: it bounds every cell, is non-negative, and is either 0 or the value of some cell |
| Normalize.Normalize01 | solver-cli/src/ic.rs:123-133 | the in-place update leaves the array equal to Normalized of its old contents |
| Normalize.NormalizedCell | solver-cli/src/ic.rs:128-131 | with a positive peak every cell becomes clamp(v/peak, 0, 1), a non-negative cell becomes v/peak, and a cell at the peak becomes exactly 1; with peak 0 the cell is unchanged |
| Normalize.NormalizedProperties | solver-cli/src/ic.rs:123-133 | a positive peak gives cells in [0,1]; a zero peak leaves the field unchanged; a non-negative field always ends in [0,1] |
| Normalize.NormalizedReachesOne | solver-cli/src/ic.rs:128-131 | if some cell is positive, some cell becomes exactly 1, and a non-negative field then has peak exactly 1 |
| Normalize.NormalizedIdempotent | solver-cli/src/ic.rs:123-133 | normalizing a non-negative field twice is the same as once |
| Normalize.NormalizedPeakOne | solver-cli/src/ic.rs:123-133 | a non-negative field with peak 1 is left unchanged |
| Blur.WinLo | solver-cli/src/ic.rs:144-145 | `saturating_sub(1)` never exceeds the coordinate |
| Blur.WinHi | solver-cli/src/ic.rs:144-145 | `(c+1).min(n-1)` lies between the coordinate and n-1 |
| Blur.BlurPass | solver-cli/src/ic.rs:140-152 | one blur pass keeps n*n cells |
| Blur.BlurN | solver-cli/src/ic.rs:139-155 | any number of passes keeps n*n cells |
| Blur.WindowCountPositive | solver-cli/src/ic.rs:143-147 | every window holds at least one cell, so the division is defined |
| Blur.WindowCountCases | solver-cli/src/ic.rs:144-147 | the window counts its in-bounds neighbours with no padding: 4 at a corner, 6 on an edge, 9 inside |
| Blur.BlurPassInUnit | solver-cli/src/ic.rs:140-152 | a field in [0,1] stays in [0,1] after a pass |
| Blur.BlurAtConstant | solver-cli/src/ic.rs:142-150 | the mean of a constant window is that constant |
| Blur.BlurPassKeepsConstant | solver-cli/src/ic.rs:140-152 | a constant field is a fixed point of a pass |
| Blur.BlurNInUnit | solver-cli/src/ic.rs:139-155 | a field in [0,1] stays in [0,1] for any number of passes |
| Blur.BlurCell | solver-cli/src/ic.rs:142-150 | the neighbour loop of one cell computes the window mean BlurAt |
| Blur.SweepIsBlurPass | solver-cli/src/ic.rs:140-152 | the cell-by-cell sweep over the whole grid produces exactly BlurPass of the current buffer |
| Blur.BlurPassInto | solver-cli/src/ic.rs:140-152 | one pass of the loop writes BlurPass of `cur` into `tmp`, reading only `cur` |
| Blur.BlurRowInto | solver-cli/src/ic.rs:141-151 | one row of the pass extends the written prefix by that row |
| Blur.BlurCellInto | solver-cli/src/ic.rs:142-150 | one cell of the pass extends the written prefix by that cell |
| Blur.BoxBlur | solver-cli/src/ic.rs:135-156 | `box_blur` returns BlurN of its input: zero passes give a copy, and input in [0,1] gives output in [0,1] |
| Ic.AsStr | solver-cli/src/ic.rs:12-19 | every tag is a non-empty string |
| Ic.AsStrInjective | solver-cli/src/ic.rs:12-19 | the four tags are distinct: equal tags iff equal kinds |
| Ic.KindOf | solver-cli/src/ic.rs:25-30 | draw 0 is Gaussians, 1 Rectangles, 2 SmoothNoise, and any other value GradientMix |
| Ic.SampleIcType | solver-cli/src/ic.rs:22-31 | the kind is that of a draw in 0..4, and one draw is consumed |
| Ic.Zeros | solver-cli/src/ic.rs:35 | `vec![0.0; len]`: len cells, all zero |
| Ic.DrawBump | solver-cli/src/ic.rs:41-44 | four draws; sigma and amplitude lie in their ranges |
| Ic.AddBump | solver-cli/src/ic.rs:46-54 | adding a bump keeps n*n cells |
| Ic.BumpPositive | solver-cli/src/ic.rs:51 | with a positive exp every bump value is positive |
| Ic.AddBumpAt | solver-cli/src/ic.rs:46-54 | the bump is added to each cell's existing value, so with a positive exp every cell strictly grows |
| Ic.AddBumpGrows | solver-cli/src/ic.rs:46-54 | with a positive exp every cell of a non-negative field grows, so the result is non-negative |
| Ic.Blobs | solver-cli/src/ic.rs:39-55 | count blobs consume four draws each and keep n*n cells |
| Ic.BlobsPositive | solver-cli/src/ic.rs:39-55 | blobs on a non-negative field keep it non-negative, and one or more blobs make every cell positive |
| Ic.DrawRect | solver-cli/src/ic.rs:61-68 | five draws; a panic exactly when n/2 ≤ 2; otherwise 1 ≤ x0 ≤ x1 ≤ n-2, 1 ≤ y0 ≤ y1 ≤ n-2 and the value lies in [0.5, 1) |
| Ic.Stamp | solver-cli/src/ic.rs:70-74 | stamping keeps n*n cells |
| Ic.StampAt | solver-cli/src/ic.rs:70-74 | stamping by max never lowers a cell, raises cells inside the rectangle to at least its value, and leaves the cells outside it alone |
| Ic.StampKeepsBorder | solver-cli/src/ic.rs:67-74 | a rectangle pulled in to n-2 leaves every border cell alone, and no cell decreases |
| Ic.Rects | solver-cli/src/ic.rs:59-75 | count rectangles panic iff count ≥ 1 and n/2 ≤ 2; otherwise they consume five draws each and keep n*n cells |
| Ic.RectsBorderZero | solver-cli/src/ic.rs:59-75 | stamping rectangles onto a non-negative field with zero border keeps both properties |
| Ic.Noise | solver-cli/src/ic.rs:80-82 | the white-noise field has the requested length |
| Ic.NoiseInUnit | solver-cli/src/ic.rs:80-82 | every white-noise cell lies in [0, 1) |
| Ic.RampBounds | solver-cli/src/ic.rs:92-97 | the ramp value t lies in [0, 1] in all four directions |
| Ic.RampField | solver-cli/src/ic.rs:90-100 | the ramp field keeps n*n cells |
| Ic.RampFieldAt | solver-cli/src/ic.rs:90-100 | each ramp cell is 0.6·t, so it lies in [0, 0.6] |
| Ic.RampFieldNonNegative | solver-cli/src/ic.rs:90-100 | the ramp field is non-negative |
| Ic.RawIc | solver-cli/src/ic.rs:34-116 | the field before normalization: a panic exactly for Rectangles with n/2 ≤ 2, otherwise n*n cells |
| Ic.Generated | solver-cli/src/ic.rs:34-121 | `generate_ic`: a panic exactly for Rectangles with n/2 ≤ 2, otherwise n*n cells |
| Ic.RawIcNonNegative | solver-cli/src/ic.rs:34-116 | with a positive exp every raw field is non-negative |
| Ic.RectsZeroStart | solver-cli/src/ic.rs:58-76 | rectangles stamped on the zero field are non-negative with a zero border |
| Ic.GeneratedInUnit | solver-cli/src/ic.rs:34-121 | with a positive exp every generated field has n*n cells, all in [0,1] |
| Ic.GeneratedReachesOne | solver-cli/src/ic.rs:38-56 | the Gaussians and GradientMix fields never panic and have peak exactly 1 after normalization |
| Ic.RectanglesBorderZero | solver-cli/src/ic.rs:58-76 | a Rectangles field exists only for n ≥ 6, and its border is zero, before the solver enforces it |
| Ic.NormalizedKeepsBorderZero | solver-cli/src/ic.rs:123-133 | normalization keeps a zero border zero |
| Ic.GenerateIc | solver-cli/src/ic.rs:34-121 | the method equals the function Generated |
| Ic.FillIc | solver-cli/src/ic.rs:35-116 | the in-place filling loops equal the function RawIc |
| Ic.FillNoise | solver-cli/src/ic.rs:80-82 | the white-noise loop fills the array with Noise |
| Ic.AddBlobs | solver-cli/src/ic.rs:39-55 | the blob loop adds Blobs to the array in place and returns the stream position |
| Ic.StampRects | solver-cli/src/ic.rs:59-75 | the rectangle loop stamps Rects in place, and panics exactly when Rects does |
| Seed.TrajSeedZero | solver-cli/src/main.rs:118 | trajectory index 0 runs on the base seed itself |
| Seed.MixInverse | solver-cli/src/main.rs:118 | the wrapping multiply by the odd constant is undone by its inverse modulo 2^64 |
| Seed.XorCancel | solver-cli/src/main.rs:118 | XOR with the base seed is undone by XOR with it again |
| Seed.TrajSeedInjective | solver-cli/src/main.rs:118 | for a fixed base seed, two trajectory indices give equal seeds iff they are equal |
| Encode.LeBytes | solver-cli/src/main.rs:208 | `to_le_bytes` of a 32-bit word is four bytes |
| Encode.LeBytesRoundTrip | solver-cli/src/main.rs:208 | reading the four little-endian bytes back gives the word |
| Encode.FromLeBytesRoundTrip | solver-cli/src/main.rs:208 | every four bytes are the bytes of exactly one word |
| Encode.Encoded | solver-cli/src/main.rs:206-211 | the encoding is exactly 4·\|v\| bytes |
| Encode.EncodedAt | solver-cli/src/main.rs:206-211 | element i occupies bytes 4i to 4i+3, least significant byte first |
| Encode.EncodedRoundTrip | solver-cli/src/main.rs:206-211 | decoding the bytes gives back every element's bit pattern, in order |
| Encode.EncodedAppend | solver-cli/src/main.rs:206-211 | encoding a concatenation is the concatenation of the encodings |
| Encode.ByteSink.WriteAll | solver-cli/src/main.rs:208 | `write_all` appends exactly its bytes |
| Encode.WriteF32Vec | solver-cli/src/main.rs:206-211 | the write loop appends exactly Encoded(v) to the writer |
| MuSet.Split | solver-cli/src/main.rs:215 | `split(',')` gives at least one piece, and no piece holds a comma |
| MuSet.JoinSplit | solver-cli/src/main.rs:215 | joining the pieces with commas gives the text back |
| MuSet.SplitJoin | solver-cli/src/main.rs:215 | splitting comma-free pieces joined by commas gives the pieces back |
| MuSet.TrimStartProperties | solver-cli/src/main.rs:216 | `trim_start` drops exactly the leading white space: the result is a suffix that does not start with white space |
| MuSet.TrimEndProperties | solver-cli/src/main.rs:216 | `trim_end` drops exactly the trailing white space |
| MuSet.TrimProperties | solver-cli/src/main.rs:216 | `trim` gives a slice with only white space outside it, and when non-empty it neither starts nor ends with white space |
| MuSet.TrimBlank | solver-cli/src/main.rs:216-219 | a piece trims to empty, and is skipped, iff it is all white space |
| MuSet.CollectOk | solver-cli/src/main.rs:215-225 | the loop succeeds iff every non-blank piece parses to a non-negative number; then it holds exactly the values read, and is empty iff every piece is blank |
| MuSet.CollectErr | solver-cli/src/main.rs:220-223 | an error names a non-blank piece that does not parse, or a negative value read from some piece |
| MuSet.ParseMuSet | solver-cli/src/main.rs:213-230 | the method, with its loop, equals the function ParsedMuSet |
| MuSet.InsertAscending | solver-cli/src/main.rs:227-228 | inserting into a strictly ascending list keeps it strictly ascending |
| MuSet.InsertElems | solver-cli/src/main.rs:227-228 | inserting adds exactly the new value to the set of elements |
| MuSet.SortDedupProperties | solver-cli/src/main.rs:227-228 | sort then dedup gives a strictly ascending list with the same elements |
| MuSet.SortDedupMembers | solver-cli/src/main.rs:227-228 | a value is in the sorted, deduplicated list iff it is in the input, and the result is empty iff the input is |
| MuSet.AscendingUnique | solver-cli/src/main.rs:227-228 | two strictly ascending lists with the same elements are equal, so the result of sort then dedup is determined by the values read |
| MuSet.ParsedMuSetProperties | solver-cli/src/main.rs:213-230 | success iff every non-blank piece parses to a non-negative number; the result is strictly ascending, holds exactly the values read, all non-negative, and is empty iff every piece is blank; an error names its cause |
| MuSet.ParsedMuSetEmptyText | solver-cli/src/main.rs:213-230 | the empty text gives the empty list, not an error |
| MuSet.SplitExample | solver-cli/src/main.rs:215 | "10,2,2,5" splits into "10", "2", "2", "5" |
| MuSet.TrimDigits | solver-cli/src/main.rs:216 | digit strings trim to themselves |
| MuSet.CollectExample | solver-cli/src/main.rs:215-225 | four pieces read as 10, 2, 2, 5 are collected in that order |
| MuSet.SortDedupExample | solver-cli/src/main.rs:227-228 | [10, 2, 2, 5] becomes [2, 5, 10] |
| MuSet.ParsedMuSetExample | solver-cli/src/main.rs:213-230 | "10,2,2,5" parses to [2, 5, 10] |
| Dataset.Dx | solver-core/src/lib.rs:17 | the grid spacing 1/(n-1) is positive |
| Dataset.ValidatedProperties | solver-cli/src/main.rs:89-96 | the alpha-range error comes first, exactly when alpha_max ≤ alpha_min; the run goes ahead iff the range is non-empty, every non-blank mu piece is a non-negative number, and some piece is not blank; the mu values are then non-empty, strictly ascending, non-negative, and exactly the values read |
| Dataset.StartOf | solver-cli/src/main.rs:114-139 | a trajectory that starts has a grid of at least 3 and an initial field of n*n cells |
| Dataset.StartProperties | solver-cli/src/main.rs:114-139 | a start panics iff the drawn kind is Rectangles and n/2 ≤ 2; otherwise the solver refuses it iff n < 3; a started trajectory has index traj_start + l, the mixed seed, the stream of that seed, alpha in [alpha_min, alpha_max), the drawn kind, and a field of n*n cells in [0,1] |
| Dataset.ClampAll | solver-cli/src/main.rs:134-138 | the loaded field keeps the length and lies in [0,1] |
| Dataset.StepOf | solver-cli/src/main.rs:146-156 | one step keeps n*n cells |
| Dataset.Rolled | solver-cli/src/main.rs:144-156 | the field before any step keeps n*n cells |
| Dataset.TrajSamples | solver-cli/src/main.rs:144-190 | a trajectory emits exactly t_steps samples |
| Dataset.RolledInvariants | solver-cli/src/main.rs:139-156 | before every step the solver field lies in [0,1] with a zero border |
| Dataset.StepFacts | solver-cli/src/main.rs:146-156 | the drawn mu is a member of the mu set, one draw is consumed, k ≥ 1, and the target is k stencil substeps of the input, in [0,1] with a zero border |
| Dataset.SampleProperties | solver-cli/src/main.rs:146-184 | every sample has mu in the set, tau ≥ 0 and k ≥ 1; input and target have n*n cells in [0,1] with a zero border; the target is k substeps of the input; step 0's input is the loaded and boundary-zeroed initial field; the target of step j is the input of step j+1 |
| Dataset.SampleStability | solver-cli/src/main.rs:150-156 | with the clamped margin s' = clamp(s_ref, 0.05, 0.99), whenever ceil(4mu/s') fits in u32 a step uses k = max(1, ceil(4mu/s')) substeps, and each substep has diffusion number in [0, s'/4], the range where the stencil needs no clamp |
| Dataset.FileBytesSnoc | solver-cli/src/main.rs:159-160 | writing one more field appends its encoding |
| Dataset.FileBytesLength | solver-cli/src/main.rs:159-160 | with fields of m cells, a file is 4m bytes per field |
| Dataset.FileBytesLayout | solver-cli/src/main.rs:159-160 | field g occupies bytes 4mg to 4m(g+1): record g of each binary file is the field of sample g |
| Dataset.FirstFailureNone | solver-cli/src/main.rs:113-129 | no trajectory fails iff every start succeeds |
| Dataset.FirstFailureAt | solver-cli/src/main.rs:113-129 | the run stops with the error of the first trajectory that fails |
| Dataset.TrajectoriesFail | solver-cli/src/main.rs:113-139 | the trajectories fail iff some trajectory fails to start |
| Dataset.TrajectoriesLength | solver-cli/src/main.rs:111-191 | a completed run emits exactly traj_count · t_steps samples |
| Dataset.TrajectoriesStarted | solver-cli/src/main.rs:113-191 | a completed run started every trajectory, and its samples are those of all of them |
| Dataset.CompletedAt | solver-cli/src/main.rs:144-189 | step j of trajectory l is sample l·t_steps + j |
| Dataset.TrajectoriesAt | solver-cli/src/main.rs:111-191 | in a completed run, step j of trajectory l is sample l·t_steps + j |
| Dataset.GeneratedRow | solver-cli/src/main.rs:163-184 | row g of a completed run has global index g, step index g mod t_steps, trajectory index traj_start + g / t_steps, the mixed seed of that index, and the base seed, split, n and raw s_ref of the arguments |
| Dataset.GenerateProperties | solver-cli/src/main.rs:86-191 | a run completes iff the checks pass and every trajectory starts; it then emits exactly traj_count · t_steps samples |
| Dataset.WrapSum | solver-cli/src/main.rs:114 | traj_start + l wraps around 2^64 at most once |
| Dataset.DistinctTrajSeeds | solver-cli/src/main.rs:114-118 | distinct local trajectories (fewer than 2^64) get distinct indices and distinct seeds |
| Dataset.RolledSame | solver-cli/src/main.rs:144-156 | for a given start and the same parsed mu set, the fields of a trajectory depend only on n, the alpha range, s_ref and the seed, not on the rest of the arguments |
| Dataset.SplitByRange | solver-cli/src/main.rs:29-31 | two runs that agree on n, the alpha range, s_ref and the seed start every trajectory with the same global index identically, whatever their mu sets; with the same parsed mu set they also produce the same fields and the same metadata, up to the global index and split |
| Dataset.CompletedSnoc | solver-cli/src/main.rs:113-191 | running one more trajectory appends its samples |
| Dataset.TrajectoriesCompleted | solver-cli/src/main.rs:113-191 | when every trajectory starts, the run's samples are those of all of them |
| Dataset.TrajectoriesFirstFailure | solver-cli/src/main.rs:113-139 | when the first l trajectories start and trajectory l does not, the run fails with its error |
| Dataset.SamplesAppend | solver-cli/src/main.rs:159-187 | the rows, inputs and targets of two runs of samples concatenate |
| Dataset.FileBytesAppend | solver-cli/src/main.rs:159-160 | the file bytes of two runs of fields concatenate |
| Dataset.PrefixSnoc | solver-cli/src/main.rs:159-187 | one more sample appends its row and the encodings of its two fields |
| Pipeline.RowSink.WriteRow | solver-cli/src/main.rs:186-187 | writing a row appends exactly that row |
| Pipeline.LoadRow | solver-cli/src/main.rs:135-137 | one row of the load loop stores the clamped values of that row's cells |
| Pipeline.LoadIc | solver-cli/src/main.rs:134-138 | the load loop sets every cell, so the field becomes the initial field with each value clamped into [0,1], whatever it held before |
| Pipeline.AdvanceStep | solver-cli/src/main.rs:146-156 | draws mu, sets it, snapshots the input, steps with s_ref and snapshots the target; the results are those of StepOf, and the solver keeps its configuration |
| Pipeline.WriteSample | solver-cli/src/main.rs:159-187 | appends the input encoding, the target encoding and the row, each to its own sink |
| Pipeline.RunStep | solver-cli/src/main.rs:144-190 | one step appends exactly sample j's row and the encodings of its input and target, and leaves the solver at the field before step j+1 |
| Pipeline.StartTrajectory | solver-cli/src/main.rs:114-141 | the start equals StartOf; a started solver is fresh, has the drawn alpha (floored), the clamped s_ref, and the loaded, boundary-zeroed initial field |
| Pipeline.RollTrajectory | solver-cli/src/main.rs:144-190 | the step loop appends exactly the trajectory's rows and field encodings and advances the global index by t_steps |
| Pipeline.RunTrajectory | solver-cli/src/main.rs:113-190 | a trajectory that fails to start fails with its error and writes nothing; otherwise it appends exactly its samples |
| Pipeline.WrittenSnoc | solver-cli/src/main.rs:113-191 | after one more trajectory the sinks hold the samples of the first l+1 trajectories |
| Pipeline.RunNext | solver-cli/src/main.rs:113-191 | one pass of the trajectory loop either stops with the run's error or leaves the sinks holding the first l+1 trajectories |
| Pipeline.RunTrajectories | solver-cli/src/main.rs:111-191 | the trajectory loop fails exactly when Trajectories fails, with the same error; otherwise the sinks hold exactly the rows and field bytes of all samples, and the counter is their number |
| Pipeline.Run | solver-cli/src/main.rs:86-204 | `main` fails exactly when Generate fails, with the same error, and writes nothing when a check fails; otherwise the metadata rows and both binary files hold exactly the run's samples in order, and the returned count is their number |

## Left out

- File-system effects: creating the output directory and files, `BufWriter` buffering and flushing, and I/O errors. The three sinks stand for freshly created, empty files. On a failure the model does not specify which bytes reached the disk.
- serde_json serialization of `MetaRow`: a row is modelled as a record, not as its JSON text, and the newline separator is not modelled.
- clap argument parsing, and the output directory argument.
- The `println!` summary at the end of `main`.
- The ChaCha8 generator and the distribution of `gen_range` and `choose`. Only range membership and the order of draws are modelled.
- f32 arithmetic: rounding, NaN and infinities (including NaN in `clamp`, `max` and the `partial_cmp().unwrap()` of the sort), and the exact bit pattern of `to_le_bytes`. `exp`, `str::parse::<f32>` and `f32::to_bits` are parameters.
- The 64-bit `global_idx` counter is a mathematical natural number; its overflow after 2^64 samples is not modelled.
- The browser binding crate (solver-rust-wasm) is not part of this model. Its stepping and boundary code repeats the solver core.
- Numerical accuracy and stability of the diffusion scheme.
- Ic.Ramp: on a grid with n < 2 the gradient-mix ramp divides 0 by 0 and gives NaN; the model uses 0 there.
- Ic.Generated: for GradientMix on a grid with n < 2 the field therefore differs from the program's NaN field. A run never shows the difference, because `SolverCore::new` refuses such a grid.
