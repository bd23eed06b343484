/** `normalize_01` of the initial-condition generator: a scan for the
    largest value (starting from 0), then, when that maximum is positive,
    every cell divided by it and clamped to [0,1]. */
module Normalize {
  import opened Scalar

  /** The result of the maximum scan: 0 for an empty field, otherwise the
      running value replaced by each cell that exceeds it. */
  function Peak(s: seq<real>): (m: real)
    ensures m >= 0.0
    ensures forall i :: 0 <= i < |s| ==> s[i] <= m
    ensures m == 0.0 || exists i :: 0 <= i < |s| && s[i] == m
  {
    if |s| == 0 then 0.0
    else
      var m := Peak(s[..|s| - 1]);
      assert forall i :: 0 <= i < |s| - 1 ==> s[..|s| - 1][i] == s[i];
      if s[|s| - 1] > m then s[|s| - 1] else m
  }

  /** The normalised field: unchanged when no cell is positive, otherwise
      each cell becomes `clamp(v / peak, 0, 1)`. */
  function Normalized(s: seq<real>): (r: seq<real>)
    ensures |r| == |s|
  {
    var m := Peak(s);
    if m > 0.0 then seq(|s|, i requires 0 <= i < |s| => Clamp(s[i] / m, 0.0, 1.0)) else s
  }

  /** In-place `normalize_01`. */
  method Normalize01(f: array<real>)
    modifies f
    ensures f[..] == Normalized(old(f[..]))
  {
    ghost var s := f[..];
    var mx := 0.0;
    for i := 0 to f.Length
      invariant mx == Peak(f[..i])
    {
      assert f[..i + 1][..i] == f[..i];
      if f[i] > mx {
        mx := f[i];
      }
    }
    assert f[..f.Length] == s;
    if mx > 0.0 {
      for i := 0 to f.Length
        invariant forall j :: 0 <= j < i ==> f[j] == Clamp(s[j] / mx, 0.0, 1.0)
        invariant forall j :: i <= j < f.Length ==> f[j] == s[j]
      {
        f[i] := Clamp(f[i] / mx, 0.0, 1.0);
      }
    }
  }

  /** One cell of the normalised field: with a positive peak p it is
      `clamp(v / p, 0, 1)`, which is exactly `v / p` for a non-negative v and
      exactly 1 for the cell that held the peak. */
  lemma NormalizedCell(s: seq<real>, i: int)
    requires 0 <= i < |s|
    ensures Peak(s) > 0.0 ==> Normalized(s)[i] == Clamp(s[i] / Peak(s), 0.0, 1.0)
    ensures Peak(s) > 0.0 && 0.0 <= s[i] ==> Normalized(s)[i] == s[i] / Peak(s)
    ensures Peak(s) > 0.0 && s[i] == Peak(s) ==> Normalized(s)[i] == 1.0
    ensures Peak(s) == 0.0 ==> Normalized(s)[i] == s[i]
  {
    var m := Peak(s);
    var v := s[i];
    assert v <= m;
    if m > 0.0 && 0.0 <= v {
      DivNonNegative(v, m);
      DivAtMostOne(v, m);
      if v == m {
        DivSelf(m);
      }
    }
  }

  /** With a positive peak every cell lands in [0,1]; with no positive cell
      nothing changes; a non-negative field always ends in [0,1]. */
  lemma NormalizedProperties(s: seq<real>)
    ensures Peak(s) > 0.0 ==> InUnit(Normalized(s))
    ensures Peak(s) == 0.0 ==> Normalized(s) == s
    ensures NonNegative(s) ==> InUnit(Normalized(s))
  {
    forall i | 0 <= i < |s|
      ensures Peak(s) > 0.0 || NonNegative(s) ==> 0.0 <= Normalized(s)[i] <= 1.0
    {
      NormalizedCell(s, i);
    }
  }

  /** A field with a positive cell normalises to one whose largest cell is
      exactly 1. */
  lemma NormalizedReachesOne(s: seq<real>)
    requires exists i :: 0 <= i < |s| && s[i] > 0.0
    ensures Peak(s) > 0.0
    ensures exists i :: 0 <= i < |s| && Normalized(s)[i] == 1.0
    ensures NonNegative(s) ==> Peak(Normalized(s)) == 1.0
  {
    var m := Peak(s);
    var k :| 0 <= k < |s| && s[k] == m;
    NormalizedCell(s, k);
    NormalizedProperties(s);
  }

  /** Normalising a non-negative field twice is the same as once. */
  lemma NormalizedIdempotent(s: seq<real>)
    requires NonNegative(s)
    ensures Normalized(Normalized(s)) == Normalized(s)
  {
    NormalizedProperties(s);
    var t := Normalized(s);
    if Peak(s) > 0.0 {
      assert exists i :: 0 <= i < |s| && s[i] > 0.0;
      NormalizedReachesOne(s);
      NormalizedPeakOne(t);
    }
  }

  /** A non-negative field whose peak is exactly 1 is already normalised. */
  lemma NormalizedPeakOne(t: seq<real>)
    requires NonNegative(t) && Peak(t) == 1.0
    ensures Normalized(t) == t
  {
    forall i | 0 <= i < |t|
      ensures Normalized(t)[i] == t[i]
    {
      NormalizedCell(t, i);
      assert t[i] / 1.0 == t[i];
    }
  }
}
