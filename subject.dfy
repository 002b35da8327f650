/**
 * Subject extraction (bg_remove_app.py:128-132): the tight bounding box of the
 * pixels with non-zero alpha (PIL's `getbbox()` on an RGBA image), and the
 * crop to that box.
 */
module Subject {
  import opened Wrappers
  import opened Raster
  import opened Faults

  /** A half-open rectangle [left, right) x [top, bottom). */
  datatype Box = Box(left: nat, top: nat, right: nat, bottom: nat)

  /** The first index of `flags` from `lo` on that holds true, or |flags| if there is none. */
  function FirstTrue(flags: seq<bool>, lo: nat): (k: nat)
    requires lo <= |flags|
    ensures lo <= k <= |flags|
    ensures forall i :: lo <= i < k ==> !flags[i]
    ensures k < |flags| ==> flags[k]
    decreases |flags| - lo
  {
    if lo == |flags| || flags[lo] then lo else FirstTrue(flags, lo + 1)
  }

  /** One past the last index of `flags[..hi]` that holds true, or 0 if there is none. */
  function LastTrue(flags: seq<bool>, hi: nat): (k: nat)
    requires hi <= |flags|
    ensures k <= hi
    ensures forall i :: k <= i < hi ==> !flags[i]
    ensures 0 < k ==> flags[k - 1]
  {
    if hi == 0 || flags[hi - 1] then hi else LastTrue(flags, hi - 1)
  }

  predicate RowInked(img: Image, y: nat)
    requires img.Wf()
  {
    y < img.height && exists x :: 0 <= x < img.width && img.Inked(x, y)
  }

  predicate ColumnInked(img: Image, x: nat)
    requires img.Wf()
  {
    x < img.width && exists y :: 0 <= y < img.height && img.Inked(x, y)
  }

  function RowFlags(img: Image): (flags: seq<bool>)
    requires img.Wf()
    ensures |flags| == img.height && forall y :: 0 <= y < img.height ==> flags[y] == RowInked(img, y)
  {
    seq(img.height, y requires 0 <= y < img.height => RowInked(img, y))
  }

  function ColumnFlags(img: Image): (flags: seq<bool>)
    requires img.Wf()
    ensures |flags| == img.width && forall x :: 0 <= x < img.width ==> flags[x] == ColumnInked(img, x)
  {
    seq(img.width, x requires 0 <= x < img.width => ColumnInked(img, x))
  }

  predicate Clear(img: Image)
    requires img.Wf()
  {
    forall x, y :: 0 <= x < img.width && 0 <= y < img.height ==> !img.Inked(x, y)
  }

  /** `getbbox()`: None for an image with no pixel of non-zero alpha, else the
      smallest box holding every such pixel. */
  function GetBBox(img: Image): (r: Option<Box>)
    requires img.Wf()
    ensures r.None? <==> Clear(img)
    ensures r.Some? ==> Within(img, r.value) && r.value.left < r.value.right && r.value.top < r.value.bottom
  {
    var rows, columns := RowFlags(img), ColumnFlags(img);
    var top := FirstTrue(rows, 0);
    if top == img.height then
      assert Clear(img) by {
        forall x, y | 0 <= x < img.width && 0 <= y < img.height
          ensures !img.Inked(x, y)
        {
          assert !rows[y];
        }
      }
      None
    else
      var bottom := LastTrue(rows, img.height);
      var left := FirstTrue(columns, 0);
      var right := LastTrue(columns, img.width);
      InkedRowHasColumn(img, top);
      Some(Box(left, top, right, bottom))
  }

  lemma InkedRowHasColumn(img: Image, y: nat)
    requires img.Wf() && RowInked(img, y)
    ensures FirstTrue(ColumnFlags(img), 0) < img.width
    ensures 0 < LastTrue(ColumnFlags(img), img.width)
  {
    var x :| 0 <= x < img.width && img.Inked(x, y);
    assert ColumnFlags(img)[x];
  }

  predicate Within(img: Image, b: Box) {
    b.left <= b.right <= img.width && b.top <= b.bottom <= img.height
  }

  predicate Inside(b: Box, x: nat, y: nat) {
    b.left <= x < b.right && b.top <= y < b.bottom
  }

  /** Some pixel of the subject lies in row y between the box's side edges. */
  predicate RowTouched(img: Image, b: Box, y: nat)
    requires img.Wf() && Within(img, b)
  {
    y < b.bottom && exists x :: b.left <= x < b.right && img.Inked(x, y)
  }

  /** Some pixel of the subject lies in column x between the box's top and bottom. */
  predicate ColumnTouched(img: Image, b: Box, x: nat)
    requires img.Wf() && Within(img, b)
  {
    x < b.right && exists y :: b.top <= y < b.bottom && img.Inked(x, y)
  }

  /** The box found by getbbox is tight: every pixel of the subject lies
      inside it, and each of its four edges touches a pixel of the subject. */
  lemma GetBBoxTight(img: Image)
    requires img.Wf() && GetBBox(img).Some?
    ensures var b := GetBBox(img).value;
      && (forall x, y :: 0 <= x < img.width && 0 <= y < img.height && img.Inked(x, y) ==> Inside(b, x, y))
      && RowTouched(img, b, b.top) && RowTouched(img, b, b.bottom - 1)
      && ColumnTouched(img, b, b.left) && ColumnTouched(img, b, b.right - 1)
  {
    var b := GetBBox(img).value;
    forall x, y | 0 <= x < img.width && 0 <= y < img.height && img.Inked(x, y)
      ensures Inside(b, x, y)
    {
      assert RowInked(img, y) && ColumnInked(img, x);
    }
    assert RowInked(img, b.top) && RowInked(img, b.bottom - 1);
    assert ColumnInked(img, b.left) && ColumnInked(img, b.right - 1);
  }

  /** `img.crop(b)` for a box inside the image. */
  function Crop(img: Image, b: Box): (c: Image)
    requires img.Wf() && Within(img, b)
    ensures c.Wf() && c.mode == img.mode
    ensures c.width == b.right - b.left && c.height == b.bottom - b.top
    ensures forall x, y :: 0 <= x < c.width && 0 <= y < c.height ==> c.At(x, y) == img.At(b.left + x, b.top + y)
  {
    Image(img.mode, b.right - b.left, b.bottom - b.top,
      seq(b.bottom - b.top, y requires 0 <= y < b.bottom - b.top =>
        seq(b.right - b.left, x requires 0 <= x < b.right - b.left => img.At(b.left + x, b.top + y))))
  }

  /** Decoding is done by the caller; this is getbbox, the "no subject"
      error, and the crop. */
  function Extract(img: Image): (r: Result<Image, Fault>)
    requires img.Wf()
    ensures r.Failure? <==> Clear(img)
    ensures r.Failure? ==> r.error == NoSubject
    ensures r.Success? ==> r.value.Wf() && r.value.mode == img.mode
    ensures r.Success? ==> 0 < r.value.width <= img.width && 0 < r.value.height <= img.height
  {
    match GetBBox(img)
    case None => Failure(NoSubject)
    case Some(b) => Success(Crop(img, b))
  }

  /** Extraction fails exactly on a fully transparent image; otherwise the
      subject is at least 1x1, no larger than the image, and keeps every
      pixel of the subject at its position relative to the box. */
  lemma ExtractSpec(img: Image)
    requires img.Wf()
    ensures Extract(img).Failure? <==> Clear(img)
    ensures Extract(img).Failure? ==> Extract(img).error == NoSubject
    ensures Extract(img).Success? ==>
      var c, b := Extract(img).value, GetBBox(img).value;
      && c.Wf() && c.mode == img.mode
      && 1 <= c.width <= img.width && 1 <= c.height <= img.height
      && forall x, y :: 0 <= x < img.width && 0 <= y < img.height && img.Inked(x, y) ==>
           Inside(b, x, y) && c.At(x - b.left, y - b.top) == img.At(x, y)
  {
    if !Clear(img) {
      GetBBoxTight(img);
    }
  }

  /** An image inked on all four of its borders is its own bounding box. */
  lemma FullBox(c: Image)
    requires c.Wf() && 0 < c.width && 0 < c.height
    requires RowInked(c, 0) && RowInked(c, c.height - 1)
    requires ColumnInked(c, 0) && ColumnInked(c, c.width - 1)
    ensures GetBBox(c) == Some(Box(0, 0, c.width, c.height))
  {
    var rows, columns := RowFlags(c), ColumnFlags(c);
    assert rows[0] && rows[c.height - 1];
    assert columns[0] && columns[c.width - 1];
  }

  /** Cropping to a box whose top and bottom edges touch the subject gives
      an image inked in its first and last rows. */
  lemma CropRowBorders(img: Image, b: Box, c: Image)
    requires img.Wf() && Within(img, b) && b.left < b.right && b.top < b.bottom && c == Crop(img, b)
    requires RowTouched(img, b, b.top) && RowTouched(img, b, b.bottom - 1)
    ensures RowInked(c, 0) && RowInked(c, c.height - 1)
  {
    assert RowInked(c, 0) by {
      var x :| b.left <= x < b.right && img.Inked(x, b.top);
      assert c.Inked(x - b.left, 0);
    }
    var x :| b.left <= x < b.right && img.Inked(x, b.bottom - 1);
    assert c.Inked(x - b.left, c.height - 1);
  }

  /** Cropping to a box whose left and right edges touch the subject gives
      an image inked in its first and last columns. */
  lemma CropColumnBorders(img: Image, b: Box, c: Image)
    requires img.Wf() && Within(img, b) && b.left < b.right && b.top < b.bottom && c == Crop(img, b)
    requires ColumnTouched(img, b, b.left) && ColumnTouched(img, b, b.right - 1)
    ensures ColumnInked(c, 0) && ColumnInked(c, c.width - 1)
  {
    assert ColumnInked(c, 0) by {
      var y :| b.top <= y < b.bottom && img.Inked(b.left, y);
      assert c.Inked(0, y - b.top);
    }
    var y :| b.top <= y < b.bottom && img.Inked(b.right - 1, y);
    assert c.Inked(c.width - 1, y - b.top);
  }

  /** Cropping to the whole image copies it. */
  lemma CropWhole(c: Image)
    requires c.Wf()
    ensures Crop(c, Box(0, 0, c.width, c.height)) == c
  {
    ImageExt(Crop(c, Box(0, 0, c.width, c.height)), c);
  }

  /** An extracted subject is inked on all four of its borders. */
  lemma ExtractedBorders(img: Image, c: Image)
    requires img.Wf() && Extract(img) == Success(c)
    ensures c.Wf() && 0 < c.width && 0 < c.height
    ensures RowInked(c, 0) && RowInked(c, c.height - 1)
    ensures ColumnInked(c, 0) && ColumnInked(c, c.width - 1)
  {
    var b := GetBBox(img).value;
    assert c == Crop(img, b);
    assert RowTouched(img, b, b.top) && RowTouched(img, b, b.bottom - 1)
        && ColumnTouched(img, b, b.left) && ColumnTouched(img, b, b.right - 1) by {
      GetBBoxTight(img);
    }
    CropRowBorders(img, b, c);
    CropColumnBorders(img, b, c);
  }

  /** Extracting an already extracted subject changes nothing: its own
      bounding box is the whole image. */
  lemma ExtractIdempotent(img: Image)
    requires img.Wf() && Extract(img).Success?
    ensures Extract(Extract(img).value) == Extract(img)
  {
    var c := Extract(img).value;
    ExtractedBorders(img, c);
    FullBox(c);
    CropWhole(c);
  }
}
