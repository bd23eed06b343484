/** The initial-condition generator: the four kinds of initial field, the
    tag each is reported under, and `generate_ic`, which builds a field of
    the chosen kind from the random stream and normalises it into [0,1].
    `exp` is a parameter (only its sign matters to the properties). */
module Ic {
  import opened Scalar
  import opened Grid
  import opened Cells
  import opened Rng
  import opened Normalize
  import opened Blur

  datatype IcType = Gaussians | Rectangles | SmoothNoise | GradientMix

  /** `IcType::as_str`: the tag written into the metadata. */
  function AsStr(t: IcType): (s: string)
    ensures |s| > 0
  {
    match t
    case Gaussians => "gaussians"
    case Rectangles => "rectangles"
    case SmoothNoise => "smooth_noise"
    case GradientMix => "gradient_mix"
  }

  /** The four tags are pairwise distinct, so a tag names its kind. */
  lemma AsStrInjective(a: IcType, b: IcType)
    ensures AsStr(a) == AsStr(b) <==> a == b
  {
    if a != b {
      assert AsStr(a)[..2] != AsStr(b)[..2] || AsStr(a)[2] != AsStr(b)[2];
    }
  }

  /** The kind chosen by an integer draw: 0, 1 and 2 select the first three
      kinds, every other value the gradient mix. */
  function KindOf(d: int): (t: IcType)
    ensures t == Gaussians <==> d == 0
    ensures t == Rectangles <==> d == 1
    ensures t == SmoothNoise <==> d == 2
    ensures t == GradientMix <==> d != 0 && d != 1 && d != 2
  {
    if d == 0 then Gaussians
    else if d == 1 then Rectangles
    else if d == 2 then SmoothNoise
    else GradientMix
  }

  /** `sample_ic_type`: one draw from 0..4, mapped by `KindOf`. */
  function SampleIcType(st: Stream, pos: nat): (r: Drawn<IcType>)
    ensures r.pos == pos + 1
    ensures exists d :: 0 <= d < 4 && r.value == KindOf(d)
  {
    var d := GenInt(st, pos, 0, 4).value;
    Drawn(KindOf(d.value), d.pos)
  }

  /** The all-zero field of `len` cells that `generate_ic` starts from. */
  function Zeros(len: nat): (r: seq<real>)
    ensures |r| == len && AllZero(r)
  {
    seq(len, _ => 0.0)
  }

  /** `n as f32 - 1.0` times a fraction: a bump centre coordinate. */
  function Centre(u: real, n: nat): real
  {
    u * ((n as real) - 1.0)
  }

  // ---------------------------------------------------------------------
  // Gaussian bumps

  type Positive = r: real | r > 0.0 witness 1.0

  /** One Gaussian bump: centre, width and amplitude. */
  datatype Bump = Bump(cx: real, cy: real, sigma: Positive, amp: Positive)

  /** The ranges a bump is drawn from. */
  datatype BumpRanges = BumpRanges(clo: real, chi: real, slo: real, shi: real, alo: real, ahi: real)

  /** The ranges of a Gaussians-kind bump. */
  const BLOB_RANGES := BumpRanges(0.15, 0.85, 1.5, 6.0, 0.6, 1.0)

  /** The ranges of the one bump of the gradient mix. */
  const MIX_BUMP_RANGES := BumpRanges(0.2, 0.8, 2.0, 7.0, 0.4, 0.9)

  predicate ValidRanges(k: BumpRanges)
  {
    k.clo < k.chi && 0.0 < k.slo < k.shi && 0.0 < k.alo < k.ahi
  }

  /** Four draws, in the order cx, cy, sigma, amp. */
  function DrawBump(st: Stream, pos: nat, n: nat, k: BumpRanges): (r: Drawn<Bump>)
    requires ValidRanges(k)
    ensures r.pos == pos + 4
    ensures k.slo <= r.value.sigma < k.shi && k.alo <= r.value.amp < k.ahi
  {
    var cx := GenReal(st, pos, k.clo, k.chi);
    var cy := GenReal(st, cx.pos, k.clo, k.chi);
    var sigma := GenReal(st, cy.pos, k.slo, k.shi);
    var amp := GenReal(st, sigma.pos, k.alo, k.ahi);
    Drawn(Bump(Centre(cx.value, n), Centre(cy.value, n), sigma.value, amp.value), amp.pos)
  }

  /** `amp * exp(-0.5 * r2 / (sigma * sigma))` at cell (x, y). */
  function BumpAt(exp: real -> real, b: Bump, x: int, y: int): real
  {
    var r2 := Sq(x as real - b.cx) + Sq(y as real - b.cy);
    b.amp * exp(-0.5 * r2 / Sq(b.sigma))
  }

  /** The cell update of one bump: add its value to the cell. */
  function AddBumpFn(exp: real -> real, b: Bump): (int, int, real) -> real
  {
    (x: int, y: int, v: real) => v + BumpAt(exp, b, x, y)
  }

  /** One bump added to every cell of the field. */
  function AddBump(s: seq<real>, n: nat, exp: real -> real, b: Bump): (r: seq<real>)
    requires |s| == n * n
    ensures |r| == n * n
  {
    RectMap(s, n, 0, n - 1, 0, n - 1, AddBumpFn(exp, b))
  }

  /** With a positive `exp` a bump is positive everywhere. */
  lemma BumpPositive(exp: real -> real, b: Bump, x: int, y: int)
    requires forall z :: exp(z) > 0.0
    ensures BumpAt(exp, b, x, y) > 0.0
  {
    var r2 := Sq(x as real - b.cx) + Sq(y as real - b.cy);
    MulPositive(b.amp, exp(-0.5 * r2 / Sq(b.sigma)));
  }

  /** A bump is added on top of what the cell already holds; with a
      positive `exp` every cell strictly grows. */
  lemma AddBumpAt(s: seq<real>, n: nat, exp: real -> real, b: Bump, x: int, y: int)
    requires |s| == n * n && 0 <= x < n && 0 <= y < n
    ensures 0 <= y * n + x < n * n
    ensures AddBump(s, n, exp, b)[y * n + x] == s[y * n + x] + BumpAt(exp, b, x, y)
    ensures (forall z :: exp(z) > 0.0) ==> AddBump(s, n, exp, b)[y * n + x] > s[y * n + x]
  {
    RectMapAt(s, n, 0, n - 1, 0, n - 1, AddBumpFn(exp, b), x, y);
    if forall z :: exp(z) > 0.0 {
      BumpPositive(exp, b, x, y);
    }
  }

  /** With a positive `exp` every cell grows, so a non-negative field
      becomes a positive one. */
  lemma AddBumpGrows(s: seq<real>, n: nat, exp: real -> real, b: Bump)
    requires |s| == n * n && NonNegative(s)
    requires forall z :: exp(z) > 0.0
    ensures forall i :: 0 <= i < n * n ==> AddBump(s, n, exp, b)[i] > s[i] >= 0.0
    ensures NonNegative(AddBump(s, n, exp, b))
  {
    forall i | 0 <= i < n * n
      ensures AddBump(s, n, exp, b)[i] > s[i]
    {
      IndexCell(n, i);
      AddBumpAt(s, n, exp, b, i % n, i / n);
    }
  }

  /** `count` Gaussians-kind bumps drawn from `pos` and added in turn. */
  function Blobs(st: Stream, pos: nat, n: nat, s: seq<real>, exp: real -> real, count: nat): (r: Drawn<seq<real>>)
    requires |s| == n * n
    ensures |r.value| == n * n && r.pos == pos + 4 * count
    decreases count
  {
    if count == 0 then Drawn(s, pos)
    else
      var prev := Blobs(st, pos, n, s, exp, count - 1);
      var b := DrawBump(st, prev.pos, n, BLOB_RANGES);
      Drawn(AddBump(prev.value, n, exp, b.value), b.pos)
  }

  /** After at least one blob over a non-negative start, every cell is
      positive when `exp` is. */
  lemma {:induction false} BlobsPositive(st: Stream, pos: nat, n: nat, s: seq<real>, exp: real -> real, count: nat)
    requires |s| == n * n && NonNegative(s)
    requires forall z :: exp(z) > 0.0
    ensures NonNegative(Blobs(st, pos, n, s, exp, count).value)
    ensures count >= 1 ==> forall i :: 0 <= i < n * n ==> Blobs(st, pos, n, s, exp, count).value[i] > 0.0
  {
    if count > 0 {
      BlobsPositive(st, pos, n, s, exp, count - 1);
      var prev := Blobs(st, pos, n, s, exp, count - 1);
      var b := DrawBump(st, prev.pos, n, BLOB_RANGES);
      AddBumpGrows(prev.value, n, exp, b.value);
    }
  }

  // ---------------------------------------------------------------------
  // Rectangles

  /** One stamped rectangle: inclusive corners and the stamped value. */
  datatype Rect = Rect(x0: int, x1: int, y0: int, y1: int, val: real)

  /** Five draws: x0, y0 from 1..n/2, w, h from 2..n/2, the value from
      [0.5, 1). The draws panic (`None`) exactly when n/2 <= 2, where the
      range 2..n/2 is empty. The far corner is pulled in to column and row n-2. */
  function DrawRect(st: Stream, pos: nat, n: nat): (r: Option<Drawn<Rect>>)
    ensures r.None? <==> n / 2 <= 2
    ensures r.Some? ==> r.value.pos == pos + 5
    ensures r.Some? ==> 1 <= r.value.value.x0 <= r.value.value.x1 <= n - 2
    ensures r.Some? ==> 1 <= r.value.value.y0 <= r.value.value.y1 <= n - 2
    ensures r.Some? ==> 0.5 <= r.value.value.val < 1.0
  {
    match GenInt(st, pos, 1, n / 2)
    case None => None
    case Some(x0) =>
      match GenInt(st, x0.pos, 1, n / 2)
      case None => None
      case Some(y0) =>
        match GenInt(st, y0.pos, 2, n / 2)
        case None => None
        case Some(w) =>
          match GenInt(st, w.pos, 2, n / 2)
          case None => None
          case Some(h) =>
            var v := GenReal(st, h.pos, 0.5, 1.0);
            var x1 := if x0.value + w.value < n - 2 then x0.value + w.value else n - 2;
            var y1 := if y0.value + h.value < n - 2 then y0.value + h.value else n - 2;
            Some(Drawn(Rect(x0.value, x1, y0.value, y1, v.value), v.pos))
  }

  /** The cell update of a stamp: the larger of the cell and the value. */
  function StampFn(val: real): (int, int, real) -> real
  {
    (x: int, y: int, v: real) => Max(v, val)
  }

  /** A rectangle stamped onto the field. */
  function Stamp(s: seq<real>, n: nat, q: Rect): (r: seq<real>)
    requires |s| == n * n
    ensures |r| == n * n
  {
    RectMap(s, n, q.x0, q.x1, q.y0, q.y1, StampFn(q.val))
  }

  /** Overlaps combine by maximum: no cell ever decreases, and inside the
      rectangle every cell reaches the stamped value. */
  lemma StampAt(s: seq<real>, n: nat, q: Rect, x: int, y: int)
    requires |s| == n * n && 0 <= x < n && 0 <= y < n
    ensures 0 <= y * n + x < n * n
    ensures Stamp(s, n, q)[y * n + x] >= s[y * n + x]
    ensures InRect(x, y, q.x0, q.x1, q.y0, q.y1) ==> Stamp(s, n, q)[y * n + x] >= q.val
    ensures !InRect(x, y, q.x0, q.x1, q.y0, q.y1) ==> Stamp(s, n, q)[y * n + x] == s[y * n + x]
  {
    RectMapAt(s, n, q.x0, q.x1, q.y0, q.y1, StampFn(q.val), x, y);
  }

  /** A border index lies in row 0, row n-1, column 0 or column n-1. */
  lemma BorderCell(n: nat, i: int)
    requires n >= 1 && 0 <= i < n * n && IsBorder(n, i)
    ensures i % n == 0 || i % n == n - 1 || i / n == 0 || i / n == n - 1
  {
    IndexCell(n, i);
    CellIndex(n, i % n, i / n);
  }

  /** A stamp kept to columns and rows 1..n-2 leaves the border alone and
      keeps a non-negative field non-negative. */
  lemma StampKeepsBorder(s: seq<real>, n: nat, q: Rect)
    requires |s| == n * n && n >= 1
    requires 1 <= q.x0 && q.x1 <= n - 2 && 1 <= q.y0 && q.y1 <= n - 2
    ensures forall i :: 0 <= i < n * n && IsBorder(n, i) ==> Stamp(s, n, q)[i] == s[i]
    ensures forall i :: 0 <= i < n * n ==> Stamp(s, n, q)[i] >= s[i]
  {
    forall i | 0 <= i < n * n
      ensures Stamp(s, n, q)[i] >= s[i]
      ensures IsBorder(n, i) ==> Stamp(s, n, q)[i] == s[i]
    {
      IndexCell(n, i);
      StampAt(s, n, q, i % n, i / n);
      if IsBorder(n, i) {
        BorderCell(n, i);
      }
    }
  }

  /** `count` rectangles drawn from `pos` and stamped in turn; `None` when
      the draws panic. */
  function Rects(st: Stream, pos: nat, n: nat, s: seq<real>, count: nat): (r: Option<Drawn<seq<real>>>)
    requires |s| == n * n
    ensures r.None? <==> count >= 1 && n / 2 <= 2
    ensures r.Some? ==> |r.value.value| == n * n && r.value.pos == pos + 5 * count
    decreases count
  {
    if count == 0 then Some(Drawn(s, pos))
    else
      match Rects(st, pos, n, s, count - 1)
      case None => None
      case Some(prev) =>
        match DrawRect(st, prev.pos, n)
        case None => None
        case Some(q) => Some(Drawn(Stamp(prev.value, n, q.value), q.pos))
  }

  /** Stamping from a field with a zero border keeps the border zero, and
      from a non-negative field keeps it non-negative. */
  lemma {:induction false} RectsBorderZero(st: Stream, pos: nat, n: nat, s: seq<real>, count: nat)
    requires |s| == n * n && n >= 1 && BorderZero(s, n) && NonNegative(s)
    requires Rects(st, pos, n, s, count).Some?
    ensures BorderZero(Rects(st, pos, n, s, count).value.value, n)
    ensures NonNegative(Rects(st, pos, n, s, count).value.value)
  {
    if count > 0 {
      RectsBorderZero(st, pos, n, s, count - 1);
      var prev := Rects(st, pos, n, s, count - 1).value;
      var q := DrawRect(st, prev.pos, n).value;
      StampKeepsBorder(prev.value, n, q.value);
    }
  }

  // ---------------------------------------------------------------------
  // Smooth noise

  /** `len` cells of white noise, one draw from [0, 1) each. */
  function Noise(st: Stream, pos: nat, len: nat): (r: seq<real>)
    ensures |r| == len
  {
    seq(len, i requires 0 <= i < len => GenReal(st, pos + i, 0.0, 1.0).value)
  }

  /** Every noise cell lies in [0, 1). */
  lemma NoiseInUnit(st: Stream, pos: nat, len: nat)
    ensures InUnit(Noise(st, pos, len))
  {
    forall i | 0 <= i < len
      ensures 0.0 <= Noise(st, pos, len)[i] < 1.0
    {
      var d := GenReal(st, pos + i, 0.0, 1.0);
      assert Noise(st, pos, len)[i] == d.value;
    }
  }

  // ---------------------------------------------------------------------
  // Gradient mix

  /** The ramp parameter t of cell (x, y) for direction `dir`: rising along
      x, rising along y, falling along x, falling along y. On a grid of one
      column the source divides by zero; the model uses 0 there. */
  function Ramp(dir: int, n: nat, x: int, y: int): real
  {
    if n < 2 then 0.0
    else
      var d := (n - 1) as real;
      if dir == 0 then (x as real) / d
      else if dir == 1 then (y as real) / d
      else if dir == 2 then 1.0 - (x as real) / d
      else 1.0 - (y as real) / d
  }

  /** Inside the grid the ramp parameter lies in [0, 1]. */
  lemma RampBounds(dir: int, n: nat, x: int, y: int)
    requires 0 <= x < n && 0 <= y < n
    ensures 0.0 <= Ramp(dir, n, x, y) <= 1.0
  {
    if n >= 2 {
      var d := (n - 1) as real;
      DivNonNegative(x as real, d);
      DivNonNegative(y as real, d);
      DivAtMostOne(x as real, d);
      DivAtMostOne(y as real, d);
    }
  }

  /** The cell update of the ramp: `0.6 * t`, whatever the cell held. */
  function RampFn(dir: int, n: nat): (int, int, real) -> real
  {
    (x: int, y: int, v: real) => 0.6 * Ramp(dir, n, x, y)
  }

  /** The ramp field. */
  function RampField(s: seq<real>, n: nat, dir: int): (r: seq<real>)
    requires |s| == n * n
    ensures |r| == n * n
  {
    RectMap(s, n, 0, n - 1, 0, n - 1, RampFn(dir, n))
  }

  /** Before the bump every cell is `0.6 * t` with t in [0, 1]. */
  lemma RampFieldAt(s: seq<real>, n: nat, dir: int, x: int, y: int)
    requires |s| == n * n && 0 <= x < n && 0 <= y < n
    ensures 0 <= y * n + x < n * n
    ensures RampField(s, n, dir)[y * n + x] == 0.6 * Ramp(dir, n, x, y)
    ensures 0.0 <= RampField(s, n, dir)[y * n + x] <= 0.6
  {
    RectMapAt(s, n, 0, n - 1, 0, n - 1, RampFn(dir, n), x, y);
    RampBounds(dir, n, x, y);
  }

  lemma RampFieldNonNegative(s: seq<real>, n: nat, dir: int)
    requires |s| == n * n
    ensures NonNegative(RampField(s, n, dir))
  {
    forall i | 0 <= i < n * n
      ensures RampField(s, n, dir)[i] >= 0.0
    {
      IndexCell(n, i);
      RampFieldAt(s, n, dir, i % n, i / n);
    }
  }

  // ---------------------------------------------------------------------
  // generate_ic

  /** The field `generate_ic` builds before `normalize_01`, with the stream
      position after its draws; `None` when a draw panics. */
  function RawIc(st: Stream, pos: nat, n: nat, ic: IcType, exp: real -> real): (r: Option<Drawn<seq<real>>>)
    ensures r.None? <==> ic == Rectangles && n / 2 <= 2
    ensures r.Some? ==> |r.value.value| == n * n
  {
    match ic
    case Gaussians =>
      (match GenInt(st, pos, 1, 4)
       case None => None
       case Some(k) => Some(Blobs(st, k.pos, n, Zeros(n * n), exp, k.value)))
    case Rectangles =>
      (match GenInt(st, pos, 1, 5)
       case None => None
       case Some(k) => Rects(st, k.pos, n, Zeros(n * n), k.value))
    case SmoothNoise =>
      Some(Drawn(BlurN(Noise(st, pos, n * n), n, 2), pos + n * n))
    case GradientMix =>
      (match GenInt(st, pos, 0, 4)
       case None => None
       case Some(dir) =>
         var b := DrawBump(st, dir.pos, n, MIX_BUMP_RANGES);
         Some(Drawn(AddBump(RampField(Zeros(n * n), n, dir.value), n, exp, b.value), b.pos)))
  }

  /** `generate_ic`: the raw field, normalised. */
  function Generated(st: Stream, pos: nat, n: nat, ic: IcType, exp: real -> real): (r: Option<Drawn<seq<real>>>)
    ensures r.None? <==> ic == Rectangles && n / 2 <= 2
    ensures r.Some? ==> |r.value.value| == n * n
  {
    match RawIc(st, pos, n, ic, exp)
    case None => None
    case Some(f) => Some(Drawn(Normalized(f.value), f.pos))
  }

  /** The raw field of every kind is non-negative when `exp` is positive. */
  lemma RawIcNonNegative(st: Stream, pos: nat, n: nat, ic: IcType, exp: real -> real)
    requires forall z :: exp(z) > 0.0
    requires RawIc(st, pos, n, ic, exp).Some?
    ensures NonNegative(RawIc(st, pos, n, ic, exp).value.value)
  {
    match ic
    case Gaussians =>
      var k := GenInt(st, pos, 1, 4).value;
      BlobsPositive(st, k.pos, n, Zeros(n * n), exp, k.value);
    case Rectangles =>
      var k := GenInt(st, pos, 1, 5).value;
      RectsZeroStart(st, k.pos, n, k.value);
    case SmoothNoise =>
      NoiseInUnit(st, pos, n * n);
      BlurNInUnit(Noise(st, pos, n * n), n, 2);
    case GradientMix =>
      var dir := GenInt(st, pos, 0, 4).value;
      var b := DrawBump(st, dir.pos, n, MIX_BUMP_RANGES);
      RampFieldNonNegative(Zeros(n * n), n, dir.value);
      AddBumpGrows(RampField(Zeros(n * n), n, dir.value), n, exp, b.value);
  }

  /** The rectangles kind starting from the zero field. */
  lemma RectsZeroStart(st: Stream, pos: nat, n: nat, count: nat)
    requires Rects(st, pos, n, Zeros(n * n), count).Some?
    ensures NonNegative(Rects(st, pos, n, Zeros(n * n), count).value.value)
    ensures n >= 1 ==> BorderZero(Rects(st, pos, n, Zeros(n * n), count).value.value, n)
  {
    if n >= 1 {
      RectsBorderZero(st, pos, n, Zeros(n * n), count);
    } else {
      assert n * n == 0;
    }
  }

  /** Every generated field has n*n cells, all in [0,1] (for a positive
      `exp`); only the rectangles kind on a grid with n/2 <= 2 panics. */
  lemma GeneratedInUnit(st: Stream, pos: nat, n: nat, ic: IcType, exp: real -> real)
    requires forall z :: exp(z) > 0.0
    ensures Generated(st, pos, n, ic, exp).None? <==> ic == Rectangles && n / 2 <= 2
    ensures Generated(st, pos, n, ic, exp).Some? ==>
              |Generated(st, pos, n, ic, exp).value.value| == n * n
              && InUnit(Generated(st, pos, n, ic, exp).value.value)
  {
    if RawIc(st, pos, n, ic, exp).Some? {
      var f := RawIc(st, pos, n, ic, exp).value.value;
      RawIcNonNegative(st, pos, n, ic, exp);
      NormalizedProperties(f);
    }
  }

  /** The Gaussians kind and the gradient mix end with a peak of exactly 1:
      every raw cell is positive. */
  lemma GeneratedReachesOne(st: Stream, pos: nat, n: nat, ic: IcType, exp: real -> real)
    requires forall z :: exp(z) > 0.0
    requires n >= 1 && (ic == Gaussians || ic == GradientMix)
    ensures Generated(st, pos, n, ic, exp).Some?
    ensures Peak(Generated(st, pos, n, ic, exp).value.value) == 1.0
  {
    var f := RawIc(st, pos, n, ic, exp).value.value;
    assert 0 < n * n by { MulPositiveNat(n); }
    match ic {
      case Gaussians =>
        var k := GenInt(st, pos, 1, 4).value;
        BlobsPositive(st, k.pos, n, Zeros(n * n), exp, k.value);
        assert f[0] > 0.0;
      case GradientMix =>
        var dir := GenInt(st, pos, 0, 4).value;
        var b := DrawBump(st, dir.pos, n, MIX_BUMP_RANGES);
        RampFieldNonNegative(Zeros(n * n), n, dir.value);
        AddBumpGrows(RampField(Zeros(n * n), n, dir.value), n, exp, b.value);
        assert f[0] > 0.0;
    }
    RawIcNonNegative(st, pos, n, ic, exp);
    NormalizedReachesOne(f);
  }

  lemma MulPositiveNat(n: nat)
    requires n >= 1
    ensures n * n >= 1
  {
  }

  /** The rectangles kind leaves the border zero (before and after
      normalisation). */
  lemma RectanglesBorderZero(st: Stream, pos: nat, n: nat, exp: real -> real)
    requires Generated(st, pos, n, Rectangles, exp).Some?
    ensures n >= 6
    ensures BorderZero(Generated(st, pos, n, Rectangles, exp).value.value, n)
  {
    var k := GenInt(st, pos, 1, 5).value;
    RectsZeroStart(st, k.pos, n, k.value);
    NormalizedKeepsBorderZero(RawIc(st, pos, n, Rectangles, exp).value.value, n);
  }

  /** Normalisation maps a zero cell to zero, so a zero border stays zero. */
  lemma NormalizedKeepsBorderZero(f: seq<real>, n: nat)
    requires n >= 1 && BorderZero(f, n)
    ensures BorderZero(Normalized(f), n)
  {
    forall i | 0 <= i < |f| && IsBorder(n, i)
      ensures Normalized(f)[i] == 0.0
    {
      NormalizedCell(f, i);
    }
  }

  // ---------------------------------------------------------------------
  // The imperative generator

  /** `generate_ic`: allocate the zero field, fill it as the kind says,
      normalise it in place. */
  method GenerateIc(st: Stream, pos: nat, n: nat, ic: IcType, exp: real -> real)
    returns (r: Option<Drawn<seq<real>>>)
    ensures r == Generated(st, pos, n, ic, exp)
  {
    var raw := FillIc(st, pos, n, ic, exp);
    if raw.None? {
      return None;
    }
    var f := new real[n * n](i requires 0 <= i < n * n => raw.value.value[i]);
    assert f[..] == raw.value.value;
    Normalize01(f);
    r := Some(Drawn(f[..], raw.value.pos));
  }

  /** The `match` of `generate_ic`: the raw field of the chosen kind. */
  method FillIc(st: Stream, pos: nat, n: nat, ic: IcType, exp: real -> real)
    returns (r: Option<Drawn<seq<real>>>)
    ensures r == RawIc(st, pos, n, ic, exp)
  {
    var f := new real[n * n](_ => 0.0);
    assert f[..] == Zeros(n * n);
    match ic {
      case Gaussians =>
        var k := GenInt(st, pos, 1, 4).value;
        var p := AddBlobs(f, st, k.pos, n, exp, k.value);
        r := Some(Drawn(f[..], p));
      case Rectangles =>
        var k := GenInt(st, pos, 1, 5);
        if k.None? {
          return None;
        }
        var q := StampRects(f, st, k.value.pos, n, k.value.value);
        if q.None? {
          return None;
        }
        r := Some(Drawn(f[..], q.value));
      case SmoothNoise =>
        var noise := FillNoise(f, st, pos);
        var blurred := BoxBlur(noise, n, 2);
        r := Some(Drawn(blurred, pos + n * n));
      case GradientMix =>
        var dir := GenInt(st, pos, 0, 4).value;
        MapRect(f, n, 0, n - 1, 0, n - 1, RampFn(dir.value, n));
        var b := DrawBump(st, dir.pos, n, MIX_BUMP_RANGES);
        MapRect(f, n, 0, n - 1, 0, n - 1, AddBumpFn(exp, b.value));
        r := Some(Drawn(f[..], b.pos));
    }
  }

  /** The white-noise loop of the smooth-noise kind: one draw per cell. */
  method FillNoise(f: array<real>, st: Stream, pos: nat) returns (noise: seq<real>)
    modifies f
    ensures noise == f[..] == Noise(st, pos, f.Length)
  {
    for i := 0 to f.Length
      invariant f[..i] == Noise(st, pos, i)
    {
      f[i] := GenReal(st, pos + i, 0.0, 1.0).value;
      assert f[..i + 1] == Noise(st, pos, i + 1);
    }
    assert f[..] == f[..f.Length];
    noise := f[..];
  }

  /** The blob loop of the Gaussians kind. */
  method AddBlobs(f: array<real>, st: Stream, pos: nat, n: nat, exp: real -> real, count: nat)
    returns (p: nat)
    requires f.Length == n * n
    modifies f
    ensures Drawn(f[..], p) == Blobs(st, pos, n, old(f[..]), exp, count)
  {
    ghost var s := f[..];
    p := pos;
    for j := 0 to count
      invariant Drawn(f[..], p) == Blobs(st, pos, n, s, exp, j)
    {
      var b := DrawBump(st, p, n, BLOB_RANGES);
      MapRect(f, n, 0, n - 1, 0, n - 1, AddBumpFn(exp, b.value));
      p := b.pos;
    }
  }

  /** The stamp loop of the rectangles kind; `None` when a draw panics
      (before anything is stamped, since every rectangle draws from the
      same ranges). */
  method StampRects(f: array<real>, st: Stream, pos: nat, n: nat, count: nat)
    returns (p: Option<nat>)
    requires f.Length == n * n
    modifies f
    ensures p.None? <==> Rects(st, pos, n, old(f[..]), count).None?
    ensures p.Some? ==> Drawn(f[..], p.value) == Rects(st, pos, n, old(f[..]), count).value
  {
    ghost var s := f[..];
    var cur := pos;
    for j := 0 to count
      invariant Rects(st, pos, n, s, j) == Some(Drawn(f[..], cur))
    {
      var q := DrawRect(st, cur, n);
      if q.None? {
        return None;
      }
      MapRect(f, n, q.value.value.x0, q.value.value.x1, q.value.value.y0, q.value.value.y1,
              StampFn(q.value.value.val));
      cur := q.value.pos;
    }
    p := Some(cur);
  }
}
