/** `find_intermediate_color` (main.py:11-21): linear interpolation between two
    RGB colours, truncated and then clamped per channel. The percentage is an
    exact real here; the source's floats are not modelled. */
module ColorMap {
  import opened Py

  /** The two endpoint colours of main.py:24, decoded: "pending" is #FF0000
      and "done" is #00FF00. */
  const PENDING: seq<int> := [255, 0, 0]
  const DONE: seq<int> := [0, 255, 0]

  /** Python's `int()` on a number: truncation toward zero. */
  function Trunc(v: real): (r: int)
    ensures 0.0 <= v ==> 0 <= r && r as real <= v < r as real + 1.0
    ensures v < 0.0 ==> r <= 0 && r as real - 1.0 < v <= r as real
  {
    if v >= 0.0 then v.Floor else -((-v).Floor)
  }

  /** `max(0, min(255, v))`. */
  function Clamp(v: int): (r: int)
    ensures 0 <= r <= 255
    ensures 0 <= v <= 255 ==> r == v
    ensures v < 0 ==> r == 0
    ensures v > 255 ==> r == 255
  {
    var upper := if v < 255 then v else 255;
    if 0 < upper then upper else 0
  }

  /** `c1 + percentage * (c2 - c1)` before truncation. */
  function Blend(a: int, b: int, p: real): real {
    a as real + p * (b - a) as real
  }

  /** One channel of main.py:18: truncate first, then clamp. */
  function Channel(a: int, b: int, p: real): int {
    Clamp(Trunc(Blend(a, b, p)))
  }

  predicate IsColor(c: seq<int>) {
    |c| == 3 && forall i :: 0 <= i < 3 ==> 0 <= c[i] <= 255
  }

  /** The colour main.py:11-21 returns, or the ValueError of line 13. */
  function Interpolate(c1: seq<int>, c2: seq<int>, p: real): Result<seq<int>>
    requires |c1| >= 3 && |c2| >= 3
  {
    if !(0.0 <= p <= 1.0) then Err(ValueError)
    else Ok([Channel(c1[0], c2[0], p), Channel(c1[1], c2[1], p), Channel(c1[2], c2[2], p)])
  }

  /** The loop of main.py:15-19, which appends one channel per iteration. */
  method FindIntermediateColor(c1: seq<int>, c2: seq<int>, p: real) returns (r: Result<seq<int>>)
    requires |c1| >= 3 && |c2| >= 3
    ensures r.Err? <==> p < 0.0 || p > 1.0
    ensures r.Err? ==> r.error == ValueError
    ensures r.Ok? ==> IsColor(r.value)
    ensures r == Interpolate(c1, c2, p)
  {
    if !(0.0 <= p <= 1.0) {
      return Err(ValueError);
    }
    var out: seq<int> := [];
    for x := 0 to 3
      invariant |out| == x
      invariant forall i :: 0 <= i < x ==> out[i] == Channel(c1[i], c2[i], p)
    {
      out := out + [Channel(c1[x], c2[x], p)];
    }
    assert out == [out[0], out[1], out[2]];
    r := Ok(out);
  }

  /** Scaling by a non-negative factor keeps an order. */
  lemma MulMonotone(p: real, q: real, d: real)
    requires p <= q && 0.0 <= d
    ensures p * d <= q * d
  {
    assert q * d - p * d == (q - p) * d;
  }

  /** Truncation toward zero never reverses an order. */
  lemma TruncMonotone(v: real, w: real)
    requires v <= w
    ensures Trunc(v) <= Trunc(w)
  {
    if 0.0 <= v {
    } else if w < 0.0 {
      assert (-w).Floor <= (-v).Floor;
    }
  }

  /** Truncation of a value between two integers stays between them. */
  lemma TruncBetween(v: real, lo: int, hi: int)
    requires lo as real <= v <= hi as real
    ensures lo <= Trunc(v) <= hi
  {
    TruncMonotone(lo as real, v);
    TruncMonotone(v, hi as real);
  }

  /** The blend moves from `a` toward `b` as the fraction grows. */
  lemma BlendMonotone(a: int, b: int, p: real, q: real)
    requires p <= q
    ensures a <= b ==> Blend(a, b, p) <= Blend(a, b, q)
    ensures b <= a ==> Blend(a, b, q) <= Blend(a, b, p)
  {
    var d := (b - a) as real;
    if a <= b {
      MulMonotone(p, q, d);
    } else {
      MulMonotone(p, q, -d);
      assert p * -d == -(p * d) && q * -d == -(q * d);
    }
  }

  /** Interpolating toward a larger channel value never decreases as the
      fraction grows, and toward a smaller one never increases. */
  lemma ChannelMonotone(a: int, b: int, p: real, q: real)
    requires 0.0 <= p <= q <= 1.0
    ensures a <= b ==> Channel(a, b, p) <= Channel(a, b, q)
    ensures b <= a ==> Channel(a, b, q) <= Channel(a, b, p)
  {
    BlendMonotone(a, b, p, q);
    if a <= b {
      TruncMonotone(Blend(a, b, p), Blend(a, b, q));
    } else {
      TruncMonotone(Blend(a, b, q), Blend(a, b, p));
    }
  }

  /** With both endpoint channels in range, the result lies between them. */
  lemma ChannelBetween(a: int, b: int, p: real)
    requires 0 <= a <= 255 && 0 <= b <= 255
    requires 0.0 <= p <= 1.0
    ensures a <= b ==> a <= Channel(a, b, p) <= b
    ensures b <= a ==> b <= Channel(a, b, p) <= a
  {
    BlendMonotone(a, b, 0.0, p);
    BlendMonotone(a, b, p, 1.0);
    assert Blend(a, b, 0.0) == a as real;
    assert Blend(a, b, 1.0) == b as real;
    if a <= b {
      TruncBetween(Blend(a, b, p), a, b);
    } else {
      TruncBetween(Blend(a, b, p), b, a);
    }
  }

  /** At 0 a channel is its first endpoint and at 1 its second. */
  lemma ChannelEnds(a: int, b: int)
    requires 0 <= a <= 255 && 0 <= b <= 255
    ensures Channel(a, b, 0.0) == a && Channel(a, b, 1.0) == b
  {
    assert Blend(a, b, 0.0) == a as real;
    assert Blend(a, b, 1.0) == b as real;
  }

  /** The range check of main.py:12-13 rejects exactly the fractions outside
      [0, 1]; inside it the result is a colour, the low end at 0 and the high
      end at 1. */
  lemma InterpolateSpec(c1: seq<int>, c2: seq<int>, p: real)
    requires IsColor(c1) && IsColor(c2)
    ensures Interpolate(c1, c2, p).Err? <==> p < 0.0 || p > 1.0
    ensures Interpolate(c1, c2, p).Ok? ==> IsColor(Interpolate(c1, c2, p).value)
    ensures Interpolate(c1, c2, 0.0) == Ok(c1)
    ensures Interpolate(c1, c2, 1.0) == Ok(c2)
  {
    ChannelEnds(c1[0], c2[0]);
    ChannelEnds(c1[1], c2[1]);
    ChannelEnds(c1[2], c2[2]);
    assert [c1[0], c1[1], c1[2]] == c1;
    assert [c2[0], c2[1], c2[2]] == c2;
  }

  /** Each channel of the result lies between the endpoint channels and moves
      monotonically with the fraction. */
  lemma InterpolateBetween(c1: seq<int>, c2: seq<int>, p: real, q: real, i: nat)
    requires IsColor(c1) && IsColor(c2) && i < 3
    requires 0.0 <= p <= q <= 1.0
    ensures c1[i] <= c2[i] ==> c1[i] <= Interpolate(c1, c2, p).value[i] <= Interpolate(c1, c2, q).value[i] <= c2[i]
    ensures c2[i] <= c1[i] ==> c2[i] <= Interpolate(c1, c2, q).value[i] <= Interpolate(c1, c2, p).value[i] <= c1[i]
  {
    ChannelBetween(c1[i], c2[i], p);
    ChannelBetween(c1[i], c2[i], q);
    ChannelMonotone(c1[i], c2[i], p, q);
  }
}
