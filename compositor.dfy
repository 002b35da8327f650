/**
 * `resize_and_center` (bg_remove_app.py:163-198) and the flattening of a
 * subject onto a solid background (bg_remove_app.py:143-148).  Each is given
 * as a function on image values, which states what it produces, and as a
 * method that allocates the canvases and pastes into them in place, proved to
 * produce exactly that.
 */
module Compositor {
  import opened Wrappers
  import opened Raster
  import opened Floats
  import opened Geometry
  import opened Faults
  import opened Paint

  /** The pixel values of a Lanczos resampling: the pixel at (x, y) of `img`
      resized to w x h.  Only the output size is modelled. */
  type Sampler = (Image, nat, nat, nat, nat) -> Pixel

  /** `img.resize((w, h), Image.LANCZOS)`.  PIL returns a copy when the size
      is unchanged and refuses a size with a zero side. */
  function Resized(img: Image, w: nat, h: nat, sample: Sampler): (r: Result<Image, Fault>)
    requires img.Wf()
    ensures r.Failure? <==> (w, h) != (img.width, img.height) && (w == 0 || h == 0)
    ensures r.Success? ==> r.value.Wf() && r.value.mode == img.mode && r.value.width == w && r.value.height == h
  {
    if w == img.width && h == img.height then Success(img)
    else if w == 0 || h == 0 then Failure(EmptyResize)
    else
      Success(Image(img.mode, w, h,
        seq(h, y requires 0 <= y < h => seq(w, x requires 0 <= x < w => sample(img, w, h, x, y)))))
  }

  /** The numbers `resize_and_center` computes for a w x h subject. */
  datatype Layout = Layout(
    padX: int, padY: int,      // bevel on each side and at top and bottom
    wideW: nat, wideH: nat,    // the expanded (bevelled) size
    fitW: nat, fitH: nat,      // the resized size
    offX: int, offY: int)      // where the resized image lands on the canvas

  /** l.164-188 without the pixels: fails where Python raises (a non-finite
      bevel in int(), a negative size in Image.new, a zero height in the
      aspect ratio). */
  function Plan(w: nat, h: nat, tw: nat, th: nat, side: Float, top: Float): (r: Result<Layout, Fault>)
    requires 0 < tw && 0 < th
    ensures r.Success? <==> side.Finite? && top.Finite? && 0 < h + 2 * Pad(h, top).value && 0 <= w + 2 * Pad(w, side).value
    ensures r.Success? ==> Pad(w, side) == Some(r.value.padX) && Pad(h, top) == Some(r.value.padY)
    ensures r.Success? ==> r.value.fitW <= tw && r.value.fitH <= th
  {
    match (Pad(w, side), Pad(h, top))
    case (Some(px), Some(py)) =>
      if w + 2 * px < 0 || h + 2 * py < 0 then Failure(NegativeSize)
      else if h + 2 * py == 0 then Failure(ZeroHeight)
      else
        var (ew, eh) := (w + 2 * px, h + 2 * py);
        var (fw, fh) := Fit(ew, eh, tw, th);
        Success(Layout(px, py, ew, eh, fw, fh, CenterOffset(tw, fw), CenterOffset(th, fh)))
    case _ => Failure(NonFiniteBevel)
  }

  /** What the plan promises: the expanded image holds the subject at the
      pads, the resized image fits the target and fills one of its sides, and
      it is centred with the odd pixel of leftover on the right or bottom. */
  lemma PlanSpec(w: nat, h: nat, tw: nat, th: nat, side: Float, top: Float)
    requires 0 < tw && 0 < th && Plan(w, h, tw, th, side, top).Success?
    ensures var p := Plan(w, h, tw, th, side, top).value;
      && side.Finite? && top.Finite?
      && Some(p.padX) == Pad(w, side) && Some(p.padY) == Pad(h, top)
      && p.wideW == w + 2 * p.padX && p.wideH == h + 2 * p.padY && 0 < p.wideH
      && p.fitW <= tw && p.fitH <= th && (p.fitW == tw || p.fitH == th)
      && 0 <= p.offX && p.offX + p.fitW <= tw && 0 <= p.offY && p.offY + p.fitH <= th
      && (tw - p.fitW - p.offX) - p.offX == (tw - p.fitW) % 2
      && (th - p.fitH - p.offY) - p.offY == (th - p.fitH) % 2
  {
    var p := Plan(w, h, tw, th, side, top).value;
    FitInside(p.wideW, p.wideH, tw, th);
    Centering(tw, p.fitW);
    Centering(th, p.fitH);
  }

  /** With finite, non-negative bevels a subject of height at least one
      always gets a plan: only non-finite or negative bevels make it fail. */
  lemma PlanSucceeds(w: nat, h: nat, tw: nat, th: nat, side: real, top: real)
    requires 0 < tw && 0 < th && 0 < h && 0.0 <= side && 0.0 <= top
    ensures Plan(w, h, tw, th, Finite(side), Finite(top)).Success?
    ensures Plan(w, h, tw, th, Finite(side), Finite(top)).value.padX >= 0
    ensures Plan(w, h, tw, th, Finite(side), Finite(top)).value.padY >= 0
  {
    BevelPadding(w, side);
    BevelPadding(h, top);
  }

  /** A non-finite bevel fails every resize_and_center call. */
  lemma NonFiniteBevelFails(w: nat, h: nat, tw: nat, th: nat, side: Float, top: Float)
    requires 0 < tw && 0 < th && (side.NonFinite? || top.NonFinite?)
    ensures Plan(w, h, tw, th, side, top) == Failure(NonFiniteBevel)
  {
  }

  /** The worked example: a 100 x 200 subject, no bevel, target 256 x 256 is
      resized to 128 x 256 and lands at (64, 0). */
  lemma PlanExample()
    ensures Plan(100, 200, 256, 256, Finite(0.0), Finite(0.0))
         == Success(Layout(0, 0, 100, 200, 128, 256, 64, 0))
  {
    assert Pad(100, Finite(0.0)) == Some(0) && Pad(200, Finite(0.0)) == Some(0) by {
      assert Trunc(100 as real * (0.0 / 100.0)) == 0;
      assert Trunc(200 as real * (0.0 / 100.0)) == 0;
    }
    assert Fit(100, 200, 256, 256) == (128, 256) by {
      assert !(100 * 256 > 256 * 200) && 256 * 100 / 200 == 128;
    }
    assert CenterOffset(256, 128) == 64 && CenterOffset(256, 256) == 0;
  }

  /** The canvas `Image.new(bg_mode, target_size, bg_color)` (l.185-187). */
  function Canvas0(tw: nat, th: nat, transparent: bool, color: Rgb): (c: Image)
    ensures c.Wf() && c.width == tw && c.height == th && c.mode == (if transparent then RGBA else RGB)
  {
    if transparent then Filled(RGBA, tw, th, CLEAR) else Filled(RGB, tw, th, Solid(color))
  }

  /** The bevelled image of l.167-170: a clear RGBA canvas with the subject
      pasted at the pads through its own alpha. */
  function Expanded(img: Image, p: Layout): (e: Image)
    requires img.Wf()
    ensures e.Wf() && e.mode == RGBA && e.width == p.wideW && e.height == p.wideH
  {
    Pasted(Filled(RGBA, p.wideW, p.wideH, CLEAR), img, p.padX, p.padY)
  }

  /** In the expanded image the margins are clear, and every opaque subject
      pixel sits, unchanged, at its own position shifted by the pads. */
  lemma ExpandedSpec(img: Image, p: Layout, x: nat, y: nat)
    requires img.Wf() && x < p.wideW && y < p.wideH
    ensures !Covers(img, p.padX, p.padY, x, y) ==> Expanded(img, p).At(x, y) == CLEAR
    ensures Covers(img, p.padX, p.padY, x, y) && img.At(x - p.padX, y - p.padY).a == 255 ==>
      Expanded(img, p).At(x, y) == img.At(x - p.padX, y - p.padY)
    ensures Covers(img, p.padX, p.padY, x, y) && img.At(x - p.padX, y - p.padY).a == 0 ==>
      Expanded(img, p).At(x, y) == CLEAR
  {
    PasteSemantics(Filled(RGBA, p.wideW, p.wideH, CLEAR), img, p.padX, p.padY, x, y);
  }

  /** `resize_and_center(img, (tw, th), transparent, side, top)` as a value. */
  function Composed(img: Image, tw: nat, th: nat, transparent: bool, color: Rgb,
                    side: Float, top: Float, sample: Sampler): (r: Result<Image, Fault>)
    requires img.Wf() && 0 < tw && 0 < th
    ensures Plan(img.width, img.height, tw, th, side, top).Failure? ==> r.Failure?
    ensures r.Success? ==> r.value.Wf() && r.value.width == tw && r.value.height == th
    ensures r.Success? ==> r.value.mode == (if transparent then RGBA else RGB)
  {
    match Plan(img.width, img.height, tw, th, side, top)
    case Failure(f) => Failure(f)
    case Success(p) =>
      match Resized(Expanded(img, p), p.fitW, p.fitH, sample)
      case Failure(f) => Failure(f)
      case Success(small) => Success(Pasted(Canvas0(tw, th, transparent, color), small, p.offX, p.offY))
  }

  /** A composed image is exactly the target size, RGBA when transparent and
      RGB otherwise; outside the centred rectangle of the resized subject it
      is the background, transparent or the chosen colour. */
  lemma ComposedLayout(img: Image, tw: nat, th: nat, transparent: bool, color: Rgb,
                       side: Float, top: Float, sample: Sampler, x: nat, y: nat)
    requires img.Wf() && 0 < tw && 0 < th
    requires Composed(img, tw, th, transparent, color, side, top, sample).Success?
    requires x < tw && y < th
    ensures var out := Composed(img, tw, th, transparent, color, side, top, sample).value;
      var p := Plan(img.width, img.height, tw, th, side, top).value;
      && out.Wf() && out.width == tw && out.height == th
      && out.mode == (if transparent then RGBA else RGB)
      && (!(p.offX <= x < p.offX + p.fitW && p.offY <= y < p.offY + p.fitH) ==>
            out.At(x, y) == if transparent then CLEAR else Solid(color))
  {
    var p := Plan(img.width, img.height, tw, th, side, top).value;
    var small := Resized(Expanded(img, p), p.fitW, p.fitH, sample).value;
    PasteSemantics(Canvas0(tw, th, transparent, color), small, p.offX, p.offY, x, y);
  }

  /** resize_and_center fails exactly when the plan fails or the fitted size
      has a zero side (a very wide or very tall subject) that differs from
      the expanded size. */
  lemma ComposedFails(img: Image, tw: nat, th: nat, transparent: bool, color: Rgb,
                      side: Float, top: Float, sample: Sampler)
    requires img.Wf() && 0 < tw && 0 < th
    ensures var r := Composed(img, tw, th, transparent, color, side, top, sample);
      var plan := Plan(img.width, img.height, tw, th, side, top);
      r.Failure? <==> (plan.Failure? ||
        ((plan.value.fitW == 0 || plan.value.fitH == 0) &&
         (plan.value.fitW, plan.value.fitH) != (plan.value.wideW, plan.value.wideH)))
  {
  }

  /** The method the application runs: allocate the expanded canvas, paste
      the subject, resize, allocate the target canvas, paste the result
      centred. */
  method ResizeAndCenter(img: Image, tw: nat, th: nat, transparent: bool, color: Rgb,
                         side: Float, top: Float, sample: Sampler) returns (r: Result<Image, Fault>)
    requires img.Wf() && 0 < tw && 0 < th
    ensures r == Composed(img, tw, th, transparent, color, side, top, sample)
  {
    var plan := Plan(img.width, img.height, tw, th, side, top);
    if plan.Failure? {
      return Failure(plan.error);
    }
    var p := plan.value;
    var expanded := new Canvas(RGBA, p.wideW, p.wideH, CLEAR);
    expanded.Paste(img, p.padX, p.padY);
    var wide := expanded.Snapshot();
    var resized := Resized(wide, p.fitW, p.fitH, sample);
    if resized.Failure? {
      return Failure(resized.error);
    }
    var mode, fill := if transparent then RGBA else RGB, if transparent then CLEAR else Solid(color);
    var canvas := new Canvas(mode, tw, th, fill);
    canvas.Paste(resized.value, p.offX, p.offY);
    r := Success(canvas.Snapshot());
  }

  /** l.143-148: `Image.new("RGB", img.size, color)`, with `img` converted to
      RGBA if needed and pasted at (0, 0) through its alpha. */
  function Flattened(img: Image, color: Rgb): (out: Image)
    requires img.Wf()
    ensures out.Wf() && out.mode == RGB && out.width == img.width && out.height == img.height
  {
    Pasted(Filled(RGB, img.width, img.height, Solid(color)), Convert(img, RGBA), 0, 0)
  }

  /** Flattening keeps the size; opaque pixels keep their colour, clear
      pixels show the background colour, and every output pixel is opaque. */
  lemma FlattenedSpec(img: Image, color: Rgb, x: nat, y: nat)
    requires img.Wf() && x < img.width && y < img.height
    ensures var p, q := img.At(x, y), Flattened(img, color).At(x, y);
      && q.a == 255
      && (img.mode == RGB || p.a == 255 ==> q == p.(a := 255))
      && (img.mode == RGBA && p.a == 0 ==> q == Solid(color))
  {
    var src := Convert(img, RGBA);
    PasteSemantics(Filled(RGB, img.width, img.height, Solid(color)), src, 0, 0, x, y);
  }

  predicate Opaque(img: Image)
    requires img.Wf()
  {
    img.mode == RGB || forall x, y :: 0 <= x < img.width && 0 <= y < img.height ==> img.At(x, y).a == 255
  }

  /** A fully opaque subject flattens to its own colours whatever the
      background colour. */
  lemma FlattenOpaque(img: Image, c1: Rgb, c2: Rgb)
    requires img.Wf() && Opaque(img)
    ensures Flattened(img, c1) == Flattened(img, c2)
  {
    forall x, y | 0 <= x < img.width && 0 <= y < img.height
      ensures Flattened(img, c1).At(x, y) == Flattened(img, c2).At(x, y)
    {
      FlattenedSpec(img, c1, x, y);
      FlattenedSpec(img, c2, x, y);
    }
    ImageExt(Flattened(img, c1), Flattened(img, c2));
  }

  /** The method the application runs for an opaque output. */
  method Flatten(img: Image, color: Rgb) returns (out: Image)
    requires img.Wf()
    ensures out == Flattened(img, color)
  {
    var background := new Canvas(RGB, img.width, img.height, Solid(color));
    var src := img;
    if img.mode != RGBA {
      src := Convert(img, RGBA);
    }
    background.Paste(src, 0, 0);
    out := background.Snapshot();
  }
}
