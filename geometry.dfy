/**
 * The integer geometry of `resize_and_center` (bg_remove_app.py:163-188):
 * the bevel padding, the fit-inside-target size and the centring offset.
 * Python's float ratios are replaced by exact cross-multiplication.
 */
module Geometry {
  import opened Wrappers
  import opened Floats

  /** The bevel of one axis: `int(dim * (pct / 100))`.  It exists exactly
      for a finite percentage, has the sign of the percentage (or is 0),
      and its size never exceeds dim * |pct| / 100. */
  function Pad(dim: nat, pct: Float): (r: Option<int>)
    ensures r.Some? <==> pct.Finite?
    ensures r.Some? && 0 < r.value ==> 0.0 < pct.value
    ensures r.Some? && r.value < 0 ==> pct.value < 0.0
    ensures r.Some? && 0.0 <= pct.value ==> r.value as real <= dim as real * pct.value / 100.0
    ensures r.Some? && pct.value < 0.0 ==> (-r.value) as real <= dim as real * -pct.value / 100.0
  {
    Scaled(dim, pct)
  }

  /** With a finite, non-negative percentage the pad is the floor of
      dim * pct / 100, the expanded side is dim + 2 * pad, and the subject
      pasted at offset pad lies inside it with margins of pad on both sides. */
  lemma BevelPadding(dim: nat, pct: real)
    requires 0.0 <= pct
    ensures Pad(dim, Finite(pct)).Some?
    ensures var pad := Pad(dim, Finite(pct)).value;
      && 0 <= pad
      && pad as real <= dim as real * pct / 100.0 < pad as real + 1.0
      && 0 <= pad && pad + dim <= dim + 2 * pad
      && (dim + 2 * pad) - (pad + dim) == pad
  {
    var v := dim as real * (pct / 100.0);
    assert v == dim as real * pct / 100.0;
    assert 0.0 <= v by {
      assert 0.0 <= pct / 100.0;
    }
  }

  /** A negative percentage truncates toward zero: the pad is minus the floor
      of dim * |pct| / 100, so the expanded side can shrink, even below 0. */
  lemma NegativeBevel(dim: nat, pct: real)
    requires pct < 0.0
    ensures var pad := Pad(dim, Finite(pct)).value;
      pad <= 0 && (-pad) as real <= dim as real * -pct / 100.0 < (-pad) as real + 1.0
  {
    var v := dim as real * (pct / 100.0);
    assert v == -(dim as real * -pct / 100.0);
    assert v <= 0.0 by {
      assert pct / 100.0 < 0.0;
    }
  }

  /** The resized size of a w x h image fitted into tw x th (l.173-181):
      when w/h > tw/th the width is pinned to tw and the height is
      int(tw / (w/h)); otherwise the height is pinned to th and the width is
      int(th * (w/h)). */
  function Fit(w: nat, h: nat, tw: nat, th: nat): (size: (nat, nat))
    requires 0 < h && 0 < tw && 0 < th
    ensures size.0 <= tw && size.1 <= th
    ensures size.0 == tw || size.1 == th
  {
    if w * th > tw * h then
      WideFit(w, h, tw, th);
      (tw, tw * h / w)
    else
      TallFit(w, h, tw, th);
      (th * w / h, th)
  }

  /** Pinning the width of a wide image leaves a height within the target. */
  lemma WideFit(w: nat, h: nat, tw: nat, th: nat)
    requires w * th > tw * h
    ensures 0 < w && tw * h / w <= th
  {
    PositiveFactor(w, th, tw * h);
    var q := tw * h / w;
    DivFloor(tw * h, w);
    assert q * w < th * w;
    MulLeft(q, th, w);
  }

  /** Pinning the height of a tall image leaves a width within the target. */
  lemma TallFit(w: nat, h: nat, tw: nat, th: nat)
    requires 0 < h && w * th <= tw * h
    ensures th * w / h <= tw
  {
    var q := th * w / h;
    DivFloor(th * w, h);
    assert q * h <= tw * h;
    CancelLe(q, tw, h);
  }

  lemma DivFloor(a: nat, b: nat)
    requires 0 < b
    ensures (a / b) * b <= a < (a / b + 1) * b
  {
  }

  lemma PositiveFactor(a: nat, b: nat, c: nat)
    requires a * b > c
    ensures 0 < a
  {
  }

  lemma CancelLe(a: int, b: int, c: int)
    requires 0 < c && a * c <= b * c
    ensures a <= b
  {
  }

  lemma MulLeft(a: int, b: int, c: int)
    requires 0 < c && a * c < b * c
    ensures a < b
  {
  }

  /** The fitted size lies inside the target, fills it on at least one axis,
      and truncates the other: in the wide case th' = floor(tw * h / w), so
      the fitted aspect differs from w/h by less than one pixel of height,
      and symmetrically in the tall case. */
  lemma FitInside(w: nat, h: nat, tw: nat, th: nat)
    requires 0 < h && 0 < tw && 0 < th
    ensures var (rw, rh) := Fit(w, h, tw, th);
      && rw <= tw && rh <= th
      && (rw == tw || rh == th)
      && (w * th > tw * h ==> rw == tw && rh * w <= tw * h < (rh + 1) * w)
      && (w * th <= tw * h ==> rh == th && rw * h <= th * w < (rw + 1) * h)
  {
    if w * th > tw * h {
      PositiveFactor(w, th, tw * h);
      DivFloor(tw * h, w);
    } else {
      DivFloor(th * w, h);
    }
  }

  /** `(t - r) // 2`: Python's floor division, which for the positive
      divisor 2 is Dafny's Euclidean division. */
  function CenterOffset(t: int, r: int): (off: int)
    ensures 2 * off <= t - r < 2 * off + 2
  {
    (t - r) / 2
  }

  /** A fitted side centred in its target side starts at a non-negative
      offset, ends inside the target, and leaves a far gap (right or bottom)
      equal to the near gap, or larger by exactly one when the leftover is odd. */
  lemma Centering(t: nat, r: nat)
    requires r <= t
    ensures var off := CenterOffset(t, r);
      && 0 <= off && off + r <= t
      && (t - r - off) - off == (t - r) % 2
      && ((t - r) % 2 == 1 <==> t - r - off == off + 1)
  {
  }
}
