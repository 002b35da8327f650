/**
 * The pixel buffers that the application allocates with `Image.new` and then
 * pastes into in place: the bevel canvas (`expanded`), the target canvas
 * (`canvas`) and the flattening background (`white_bg`).
 */
module Paint {
  import opened Raster

  class Canvas {
    const mode: Mode
    const width: nat
    const height: nat
    /** pixels[y, x] is the pixel in row y, column x. */
    const pixels: array2<Pixel>

    ghost predicate Valid() {
      pixels.Length0 == height && pixels.Length1 == width
    }

    /** The buffer's current contents as an image value. */
    function Snapshot(): (img: Image)
      requires Valid()
      reads pixels
      ensures img.Wf() && img.mode == mode && img.width == width && img.height == height
      ensures forall x, y :: 0 <= x < width && 0 <= y < height ==> img.At(x, y) == pixels[y, x]
    {
      Image(mode, width, height,
        seq(height, y requires 0 <= y < height reads pixels =>
          seq(width, x requires 0 <= x < width reads pixels => pixels[y, x])))
    }

    /** `Image.new(mode, (width, height), fill)`. */
    constructor (mode: Mode, width: nat, height: nat, fill: Pixel)
      ensures Valid() && fresh(pixels)
      ensures this.mode == mode && this.width == width && this.height == height
      ensures Snapshot() == Filled(mode, width, height, fill)
    {
      this.mode, this.width, this.height := mode, width, height;
      pixels := new Pixel[height, width]((_, _) => fill);
      new;
      ImageExt(Snapshot(), Filled(mode, width, height, fill));
    }

    /** `paste(src, (ox, oy), mask=src.getchannel("A"))`: blends `src` into the
        buffer, row by row over the part of the destination that `src`
        covers, leaving every other pixel as it was. */
    method Paste(src: Image, ox: int, oy: int)
      requires Valid() && src.Wf()
      modifies pixels
      ensures Snapshot() == Pasted(old(Snapshot()), src, ox, oy)
    {
      ghost var before := Snapshot();
      var y0 := if oy < 0 then 0 else oy;
      var y1 := if oy + src.height < height then oy + src.height else height;
      var x0 := if ox < 0 then 0 else ox;
      var x1 := if ox + src.width < width then ox + src.width else width;
      var y := y0;
      while y < y1
        invariant y0 <= y || y1 <= y0
        invariant y1 <= y0 ==> y == y0
        invariant forall i, j :: 0 <= i < height && 0 <= j < width ==>
          pixels[i, j] == if i < y then PastedAt(before, src, ox, oy, j, i) else before.At(j, i)
      {
        var x := x0;
        while x < x1
          invariant x0 <= x || x1 <= x0
          invariant x1 <= x0 ==> x == x0
          invariant forall i, j :: 0 <= i < height && 0 <= j < width ==>
            pixels[i, j] == if i < y || (i == y && j < x) then PastedAt(before, src, ox, oy, j, i)
                            else before.At(j, i)
        {
          pixels[y, x] := Blend(mode, pixels[y, x], src.At(x - ox, y - oy));
          x := x + 1;
        }
        y := y + 1;
      }
      ImageExt(Snapshot(), Pasted(before, src, ox, oy));
    }
  }
}
