/**
 * Pixel rasters as values: an image is a mode (RGB or RGBA), a size and a
 * grid of pixels stored row by row.  This module also defines what a masked
 * paste (PIL's `Image.paste(im, box, mask=im.getchannel("A"))`) produces; the
 * in-place buffer that performs it lives in module Paint.
 */
module Raster {

  newtype byte = x: int | 0 <= x < 256

  /** One pixel.  An RGB image stores no alpha; its pixels carry a == 255. */
  datatype Pixel = Pixel(r: byte, g: byte, b: byte, a: byte)

  datatype Mode = RGB | RGBA

  /** A colour as `ImageColor.getrgb` returns it. */
  datatype Rgb = Rgb(r: byte, g: byte, b: byte)

  /** The pixel of a colour at full opacity. */
  function Solid(c: Rgb): Pixel {
    Pixel(c.r, c.g, c.b, 255)
  }

  /** The fill of `Image.new("RGBA", size, (0, 0, 0, 0))`. */
  const CLEAR: Pixel := Pixel(0, 0, 0, 0)

  datatype Image = Image(mode: Mode, width: nat, height: nat, rows: seq<seq<Pixel>>) {

    /** `height` rows of `width` pixels each. */
    predicate Wf() {
      |rows| == height && forall y :: 0 <= y < height ==> |rows[y]| == width
    }

    function At(x: nat, y: nat): Pixel
      requires Wf() && x < width && y < height
    {
      rows[y][x]
    }

    /** A pixel is part of the subject when its alpha is non-zero. */
    predicate Inked(x: nat, y: nat)
      requires Wf() && x < width && y < height
    {
      At(x, y).a != 0
    }
  }

  /** Two well-formed images with the same mode, size and pixels are equal. */
  lemma {:induction false} ImageExt(u: Image, v: Image)
    requires u.Wf() && v.Wf()
    requires u.mode == v.mode && u.width == v.width && u.height == v.height
    requires forall x, y :: 0 <= x < u.width && 0 <= y < u.height ==> u.At(x, y) == v.At(x, y)
    ensures u == v
  {
    forall y | 0 <= y < u.height
      ensures u.rows[y] == v.rows[y]
    {
      forall x | 0 <= x < u.width
        ensures u.rows[y][x] == v.rows[y][x]
      {
        assert u.At(x, y) == v.At(x, y);
      }
    }
  }

  /** `Image.new(mode, (width, height), fill)`. */
  function Filled(mode: Mode, width: nat, height: nat, fill: Pixel): (img: Image)
    ensures img.Wf() && img.mode == mode && img.width == width && img.height == height
    ensures forall x, y :: 0 <= x < width && 0 <= y < height ==> img.At(x, y) == fill
  {
    Image(mode, width, height, seq(height, _ => seq(width, _ => fill)))
  }

  /** `img.convert(mode)` between the two modes the model knows: a change of
      mode makes every pixel opaque (RGB to RGBA adds a full alpha, RGBA to
      RGB drops the alpha); a conversion to the same mode copies. */
  function Convert(img: Image, mode: Mode): (out: Image)
    requires img.Wf()
    ensures out.Wf() && out.mode == mode && out.width == img.width && out.height == img.height
    ensures forall x, y :: 0 <= x < img.width && 0 <= y < img.height ==>
      out.At(x, y) == if img.mode != mode then img.At(x, y).(a := 255) else img.At(x, y)
  {
    if img.mode != mode then
      Image(mode, img.width, img.height,
        seq(img.height, y requires 0 <= y < img.height =>
          seq(img.width, x requires 0 <= x < img.width => img.At(x, y).(a := 255))))
    else
      img.(mode := mode)
  }

  /** a / 255 rounded to the nearest integer, for a in [0, 255*255]. */
  function Div255(a: int): (q: int)
    requires 0 <= a <= 255 * 255
    ensures 0 <= q <= 255
    ensures 255 * q - 127 <= a <= 255 * q + 127
  {
    (2 * a + 255) / 510
  }

  lemma {:induction false} Div255Exact(k: int)
    requires 0 <= k <= 255
    ensures Div255(255 * k) == k
  {
    var q := Div255(255 * k);
    assert 255 * (q - k) <= 127 && 255 * (k - q) <= 127;
  }

  /** The value of one channel after blending source s over destination d
      with mask m: m == 0 keeps d, m == 255 takes s, and the result always lies
      between the two.  (PIL's exact rounding of the intermediate cases is not
      modelled; this rounds to nearest.) */
  function Mix(d: byte, s: byte, m: byte): (v: byte)
    ensures m == 0 ==> v == d
    ensures m == 255 ==> v == s
    ensures d <= s ==> d <= v <= s
    ensures s <= d ==> s <= v <= d
  {
    var di, si, mi := d as int, s as int, m as int;
    MixBounds(di, si, mi);
    var t := si * mi + di * (255 - mi);
    Div255Exact(di);
    Div255Exact(si);
    Div255(t) as byte
  }

  lemma MixBounds(d: int, s: int, m: int)
    requires 0 <= d < 256 && 0 <= s < 256 && 0 <= m < 256
    ensures 0 <= s * m + d * (255 - m) <= 255 * 255
    ensures d <= s ==> 255 * d <= s * m + d * (255 - m) <= 255 * s
    ensures s <= d ==> 255 * s <= s * m + d * (255 - m) <= 255 * d
  {
    var k := if d <= s then s - d else d - s;
    MulMono(k, m, 255);
    MulMono(m, 0, k);
    assert s * m + d * (255 - m) == d * 255 + (s - d) * m;
    assert d <= s ==> (s - d) * m == k * m;
    assert s <= d ==> (s - d) * m == -(k * m);
  }

  lemma MulMono(a: int, b: int, c: int)
    requires 0 <= a && b <= c
    ensures a * b <= a * c
  {
  }

  /** Pasting source pixel s over destination pixel d, masked by s's own
      alpha.  An RGBA destination blends all four channels; an RGB destination
      has no alpha to change. */
  function Blend(mode: Mode, d: Pixel, s: Pixel): (p: Pixel)
    ensures s.a == 0 ==> p == d
    ensures s.a == 255 ==> p == if mode == RGBA then s else s.(a := d.a)
  {
    Pixel(Mix(d.r, s.r, s.a), Mix(d.g, s.g, s.a), Mix(d.b, s.b, s.a),
          if mode == RGBA then Mix(d.a, s.a, s.a) else d.a)
  }

  /** Whether destination point (x, y) lies under `src` placed at (ox, oy). */
  predicate Covers(src: Image, ox: int, oy: int, x: int, y: int) {
    ox <= x < ox + src.width && oy <= y < oy + src.height
  }

  function PastedAt(dst: Image, src: Image, ox: int, oy: int, x: nat, y: nat): Pixel
    requires dst.Wf() && src.Wf() && x < dst.width && y < dst.height
  {
    if Covers(src, ox, oy, x, y) then Blend(dst.mode, dst.At(x, y), src.At(x - ox, y - oy))
    else dst.At(x, y)
  }

  /** `dst` after `dst.paste(src, (ox, oy), mask=src.getchannel("A"))`.  The
      part of `src` that falls outside `dst` is clipped away. */
  function Pasted(dst: Image, src: Image, ox: int, oy: int): (out: Image)
    requires dst.Wf() && src.Wf()
    ensures out.Wf() && out.mode == dst.mode && out.width == dst.width && out.height == dst.height
  {
    Image(dst.mode, dst.width, dst.height,
      seq(dst.height, y requires 0 <= y < dst.height =>
        seq(dst.width, x requires 0 <= x < dst.width => PastedAt(dst, src, ox, oy, x, y))))
  }

  /** The three promises of a masked paste: outside the pasted rectangle the
      destination is unchanged; inside it, alpha 0 keeps the destination and
      alpha 255 takes the source (its colour, and its alpha when the
      destination has one). */
  lemma PasteSemantics(dst: Image, src: Image, ox: int, oy: int, x: nat, y: nat)
    requires dst.Wf() && src.Wf() && x < dst.width && y < dst.height
    ensures !Covers(src, ox, oy, x, y) ==> Pasted(dst, src, ox, oy).At(x, y) == dst.At(x, y)
    ensures Covers(src, ox, oy, x, y) && src.At(x - ox, y - oy).a == 0 ==>
      Pasted(dst, src, ox, oy).At(x, y) == dst.At(x, y)
    ensures Covers(src, ox, oy, x, y) && src.At(x - ox, y - oy).a == 255 ==>
      var s := src.At(x - ox, y - oy);
      Pasted(dst, src, ox, oy).At(x, y) == if dst.mode == RGBA then s else s.(a := dst.At(x, y).a)
  {
  }
}
