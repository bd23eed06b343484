/** The random number generator of the data generator, as an oracle: the
    seeded generator is a fixed stream of raw draws, and every `gen_range`
    or `choose` call consumes the draw at the current position and moves to
    the next one. Generation is then a deterministic function of the stream
    and the position. Only range membership is modelled, not the
    distribution. */
module Rng {
  import opened Scalar

  /** The raw draws of one seeded generator, position by position. */
  type Stream = nat -> real

  /** A drawn value and the stream position after the draw. */
  datatype Drawn<T> = Drawn(value: T, pos: nat)

  /** The draw at `pos` as a fraction in [0, 1). */
  function Unit(st: Stream, pos: nat): (u: real)
    ensures 0.0 <= u < 1.0
  {
    var x := st(pos);
    if 0.0 <= x < 1.0 then x else 0.0
  }

  /** The point a fraction u of the way along [lo, lo + d). */
  function Scaled(u: real, lo: real, d: real): (v: real)
    requires 0.0 <= u < 1.0 && d > 0.0
    ensures lo <= v < lo + d
  {
    FractionBelow(u, d);
    lo + u * d
  }

  /** `gen_range(lo..hi)` on integers. An empty range panics, modelled as
      `None`; otherwise the value lies in [lo, hi) and one draw is used. */
  function GenInt(st: Stream, pos: nat, lo: int, hi: int): (r: Option<Drawn<int>>)
    ensures r.None? <==> hi <= lo
    ensures r.Some? ==> lo <= r.value.value < hi && r.value.pos == pos + 1
  {
    if hi <= lo then None
    else
      var v := Scaled(Unit(st, pos), 0.0, (hi - lo) as real);
      Some(Drawn(lo + v.Floor, pos + 1))
  }

  /** `gen_range(lo..hi)` on reals. The data generator only draws from
      non-empty real ranges (its one variable range is checked first). */
  function GenReal(st: Stream, pos: nat, lo: real, hi: real): (r: Drawn<real>)
    requires lo < hi
    ensures lo <= r.value < hi && r.pos == pos + 1
  {
    Drawn(Scaled(Unit(st, pos), lo, hi - lo), pos + 1)
  }

  /** `choose` on a slice: `None` on an empty slice, otherwise an element of
      the slice picked by one integer draw. */
  function Choose<T>(xs: seq<T>, st: Stream, pos: nat): (r: Option<Drawn<T>>)
    ensures r.None? <==> |xs| == 0
    ensures r.Some? ==> r.value.value in xs && r.value.pos == pos + 1
  {
    match GenInt(st, pos, 0, |xs|)
    case None => None
    case Some(d) => Some(Drawn(xs[d.value], d.pos))
  }
}
