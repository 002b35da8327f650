# Smart Background Remover — a verified model of its core

`bg_remove_app.py` is a Tkinter application. For every supported image in
`RawPhotos/` it:

- removes the background with rembg;
- crops the result to its non-transparent subject;
- if a target size is chosen, pads the subject by the bevel percentages,
  resizes it to fit the target and centres it on a canvas of exactly that
  size;
- if the output is opaque, flattens it onto the chosen colour;
- saves a PNG named after the input into a folder named after the
  configuration.

This project models that core in Dafny:

- **`Raster`**: pixels, RGB/RGBA images, `Image.new`, `convert` and the masked
  paste as values.
- **`Paint`**: the same paste done in place on a pixel buffer (`Canvas` over
  an `array2`), proved equal to the value.
- **`Subject`**: `getbbox` and `crop`.
- **`Floats`**, **`Geometry`**: the bevel, fit and centring arithmetic of
  `resize_and_center`.
- **`Compositor`**: `resize_and_center` and flattening, as specifications and
  as the methods that paint canvases.
- **`Text`**: Python's `int()`, `float()`, `str()`, `lower()`, `endswith()` and
  `split()` on the texts the program handles.
- **`Naming`**: folder names, the extension filter, output names and status
  texts.
- **`Config`**: reading the form into settings.
- **`Batch`**: one file's pipeline, and `process_images` with its loop over
  the files.

Effects outside the program are parameters of the model (a `World`):

- `load` covers reading `RawPhotos/<name>`, `rembg.remove` and decoding, and
  returns `None` when any of them raises.
- `sample` gives the Lanczos pixel values.
- `saves` tells whether saving a PNG to a path succeeds.
- The directory listing is an `Option<seq<string>>`, `None` when `os.listdir`
  raises.
- The background colour enters already converted to RGB.

Where the code and its description differ, the model follows the code:

- The bevel is applied only inside `resize_and_center`, so "Original" output
  has no bevel.
- `int()` truncates toward zero; it does not round.
- An odd leftover pixel goes to the right or bottom gap.
- A masked paste blends intermediate alpha rather than overwriting.
- The program reports only processed/total counts, so success and failure
  tallies are ghost.
- An empty listing returns after the output folder has been created.

Some library behaviour comes from Pillow itself, not from this file:

- `Image.new` rejects a negative size.
- `resize` raises for a size with a zero side, unless the size is unchanged
  (then it copies).
- `paste` clips to the destination.
- Blending rounds to nearest.

## Model

| member | source | states |
|---|---|---|
| Raster.Filled | bg_remove_app.py:169 | `Image.new` gives a well-formed image of the requested mode and size whose every pixel is the fill |
| Raster.Convert | bg_remove_app.py:128 | conversion keeps the size and each pixel's colour; a change of mode makes every pixel fully opaque (RGB to RGBA adds alpha 255, RGBA to RGB drops the alpha); a conversion to the same mode changes nothing |
| Raster.Mix | bg_remove_app.py:170 | one blended channel: mask 0 keeps the destination, mask 255 takes the source, and any mask gives a value between the two |
| Raster.Div255 | bg_remove_app.py:170 | the blend's division by 255 stays within a byte and is within half a unit of the exact quotient |
| Raster.Div255Exact | bg_remove_app.py:170 | the division is exact on multiples of 255, so the endpoints of a blend are exact |
| Raster.Blend | bg_remove_app.py:170 | a source pixel with alpha 0 leaves the destination pixel; alpha 255 replaces it (an RGB destination keeps its own alpha of 255) |
| Raster.Pasted | bg_remove_app.py:170 | a masked paste keeps the destination's mode and size |
| Raster.PasteSemantics | bg_remove_app.py:170 | outside the pasted rectangle every pixel is unchanged; inside it, alpha 0 keeps the destination and alpha 255 takes the source |
| Paint.Canvas.Snapshot | bg_remove_app.py:169 | the buffer read as an image has the canvas's mode and size, and pixel (x, y) is buffer cell [y, x] |
| Paint.Canvas.constructor | bg_remove_app.py:169 | a fresh buffer whose contents are `Image.new(mode, size, fill)` |
| Paint.Canvas.Paste | bg_remove_app.py:193 | the in-place paste over the clipped rectangle leaves the buffer equal to the masked paste of its previous contents |
| Subject.FirstTrue | bg_remove_app.py:129 | the scan for the first inked row or column returns the least index with ink, or the end when there is none |
| Subject.LastTrue | bg_remove_app.py:129 | the scan from the end returns one past the greatest index with ink, or the start when there is none |
| Subject.GetBBox | bg_remove_app.py:129-131 | `getbbox` is None exactly when no pixel has non-zero alpha; otherwise the box lies in the image and is at least 1x1 |
| Subject.GetBBoxTight | bg_remove_app.py:129 | every inked pixel lies in the box, and each of the box's four edges touches an inked pixel |
| Subject.Crop | bg_remove_app.py:132 | the crop has size (right-left, bottom-top) and pixel (x, y) is the source pixel (left+x, top+y) |
| Subject.Extract | bg_remove_app.py:129-132 | extraction fails, with the "no subject" error, exactly on a fully transparent image; a subject keeps the image's mode and is between 1x1 and the image's size |
| Subject.ExtractSpec | bg_remove_app.py:128-132 | extraction fails with "no subject" exactly on a fully transparent image; otherwise the subject is between 1x1 and the image's size and keeps every inked pixel, shifted by the box's corner |
| Subject.FullBox | bg_remove_app.py:129 | an image inked on all four borders is its own bounding box |
| Subject.CropRowBorders | bg_remove_app.py:129-132 | cropping to a box whose top and bottom edges touch ink gives an image inked in its first and last rows |
| Subject.CropColumnBorders | bg_remove_app.py:129-132 | cropping to a box whose left and right edges touch ink gives an image inked in its first and last columns |
| Subject.CropWhole | bg_remove_app.py:132 | cropping to the whole image gives the image back |
| Subject.ExtractedBorders | bg_remove_app.py:129-132 | an extracted subject is inked on all four of its borders |
| Subject.ExtractIdempotent | bg_remove_app.py:128-132 | extracting the subject of an extracted subject gives the same subject |
| Floats.Trunc | bg_remove_app.py:164-165 | `int()` of a float truncates toward zero: the floor for non-negative values, the ceiling for negative ones |
| Floats.IntOf | bg_remove_app.py:164-165 | `int()` succeeds exactly on finite floats |
| Floats.Scaled | bg_remove_app.py:164-165 | `int(dim * (pct / 100))` succeeds exactly when the percentage is finite |
| Geometry.Pad | bg_remove_app.py:164-165 | a pad exists exactly for a finite percentage; it is 0 or has the percentage's sign, and its size is at most dim*\|pct\|/100 |
| Geometry.BevelPadding | bg_remove_app.py:164-170 | a finite non-negative percentage gives a non-negative pad equal to floor(dim*pct/100); the expanded side is dim + 2*pad and holds the subject at the pad with equal margins |
| Geometry.NegativeBevel | bg_remove_app.py:164-165 | a negative percentage truncates toward zero, so the pad is minus floor(dim*\|pct\|/100) and the expanded side shrinks |
| Geometry.Fit | bg_remove_app.py:173-181 | the fitted size lies inside the target and fills it on at least one axis |
| Geometry.FitInside | bg_remove_app.py:173-181 | the fitted size lies inside the target and fills it on one axis; in the wide case the height is floor(tw*h/w), otherwise the width is floor(th*w/h) |
| Geometry.CenterOffset | bg_remove_app.py:188 | `(t - r) // 2` is floor division by 2: twice the offset is the leftover, or the leftover less one |
| Geometry.Centering | bg_remove_app.py:188 | the offset is non-negative and the fitted side ends inside the target; the far gap equals the near gap, or exceeds it by exactly one when the leftover is odd |
| Compositor.Resized | bg_remove_app.py:183 | resizing fails exactly when the requested size differs from the current one and has a zero side; otherwise the result has the requested size and the source's mode |
| Compositor.Plan | bg_remove_app.py:164-188 | the layout exists exactly when both bevels are finite, the expanded width is non-negative and the expanded height positive; its pads are the `int()` values of l.164-165 and its fitted size lies inside the target |
| Compositor.PlanSpec | bg_remove_app.py:164-188 | a successful layout has finite bevels, pads equal to the `int()` values of l.164-165, expanded size (w+2pad_x, h+2pad_y) with a positive height, a fitted size inside the target that fills one side, and offsets that centre it with the odd pixel on the far side |
| Compositor.PlanSucceeds | bg_remove_app.py:164-181 | with finite non-negative bevels and a subject of positive height the layout always exists, with non-negative pads |
| Compositor.NonFiniteBevelFails | bg_remove_app.py:164-165 | an infinite or NaN bevel makes `resize_and_center` fail in `int()` |
| Compositor.PlanExample | bg_remove_app.py:173-188 | a 100x200 subject with no bevel fitted to 256x256 is resized to 128x256 and placed at (64, 0) |
| Compositor.Canvas0 | bg_remove_app.py:185-187 | the background canvas has exactly the target size, in mode RGBA when transparent and RGB otherwise |
| Compositor.Expanded | bg_remove_app.py:167-170 | the bevelled image is a well-formed RGBA image of the expanded size |
| Compositor.ExpandedSpec | bg_remove_app.py:167-170 | outside the subject placed at the pads the bevelled image is clear; inside, opaque subject pixels are copied and clear ones stay clear |
| Compositor.Composed | bg_remove_app.py:163-198 | a failing layout fails the call; a result is well-formed, exactly the target size, RGBA when transparent and RGB otherwise |
| Compositor.ComposedLayout | bg_remove_app.py:185-198 | the result has exactly the target size, is RGBA when transparent and RGB otherwise, and outside the centred rectangle is clear or the chosen colour |
| Compositor.ComposedFails | bg_remove_app.py:164-183 | `resize_and_center` fails exactly when the layout fails or the fitted size has a zero side that differs from the expanded size |
| Compositor.ResizeAndCenter | bg_remove_app.py:163-198 | the canvas-painting method returns exactly the composed image or failure |
| Compositor.Flattened | bg_remove_app.py:143-148 | flattening gives an RGB image of the subject's size |
| Compositor.FlattenedSpec | bg_remove_app.py:143-148 | every flattened pixel is opaque; opaque subject pixels keep their colour and clear ones show the background colour |
| Compositor.FlattenOpaque | bg_remove_app.py:143-148 | a fully opaque subject flattens to the same image whatever the background colour |
| Compositor.Flatten | bg_remove_app.py:143-148 | the method that pastes onto a fresh colour canvas returns exactly the flattened image |
| Text.Strip | bg_remove_app.py:87-88 | stripping never lengthens the text and leaves no whitespace at either end |
| Text.StripSlice | bg_remove_app.py:87-88 | the stripped text is a slice of the input with only whitespace before and after it |
| Text.StripPadded | bg_remove_app.py:99-100 | whitespace around a text whose ends are not whitespace is exactly what stripping removes |
| Text.StripNoSpace | bg_remove_app.py:99-100 | a text without whitespace at its ends is unchanged by stripping |
| Text.Lower | bg_remove_app.py:117 | lower-casing keeps the length and lowers each character |
| Text.NatToString | bg_remove_app.py:104 | `str()` of a natural number is a non-empty run of digits |
| Text.IntToString | bg_remove_app.py:104 | `str(n)` is non-empty, ends in a digit, starts with '-' exactly when n is negative, and is all digits after its first character |
| Text.ParseInt | bg_remove_app.py:99-100 | a text `int()` accepts ends, once stripped, in a digit, and a negative value is written with a leading '-' |
| Text.NatToStringValue | bg_remove_app.py:104 | the digits of `str(n)` spell the value n |
| Text.IntRoundTrip | bg_remove_app.py:99-111 | `int(str(n)) == n` for every integer |
| Text.ParseIntPadded | bg_remove_app.py:99-100 | `int()` reads `str(n)` surrounded by whitespace as n |
| Text.IntToStringInjective | bg_remove_app.py:111 | different integers have different texts |
| Text.ParseFloatOfInt | bg_remove_app.py:87-88 | every text `int()` accepts, `float()` accepts with the same value |
| Text.DecimalValue | bg_remove_app.py:87-88 | the unsigned decimal reader gives "a.b", with digit runs a and b, the value a + b/10^k, k being the number of digits of b |
| Text.ParseFloatDecimal | bg_remove_app.py:87-88 | `float("a.b")` is a + b/10^k, k being the number of digits of b |
| Text.ParseFloatNegativeDecimal | bg_remove_app.py:87-88 | `float("-a.b")` is minus that value |
| Text.Split | bg_remove_app.py:109 | `split` returns at least one piece, no piece contains the separator, and joining the pieces with it gives back the text |
| Text.SplitPair | bg_remove_app.py:109 | splitting a + sep + b, where neither part contains sep, gives exactly [a, b] |
| Text.SeparatedPair | bg_remove_app.py:109 | a + sep + b equal to c + sep + d, with sep in none of the parts, forces a = c and b = d |
| Naming.SizeLabel | bg_remove_app.py:94-111 | a size label never contains '/' |
| Naming.SizeLabelRoundTrip | bg_remove_app.py:109-111 | a "WxH" label splits on 'x' into two pieces that `int()` reads back as W and H |
| Naming.SizeLabelHead | bg_remove_app.py:94-96 | only the "Original" label starts with 'O' |
| Naming.SizeLabelInjective | bg_remove_app.py:94-111 | different size choices get different labels |
| Naming.FolderName | bg_remove_app.py:113 | the folder name contains no '/', so the folder is one directory in the working directory |
| Naming.FolderNameInjective | bg_remove_app.py:113 | different transparency or size choices never share an output folder |
| Naming.Supported | bg_remove_app.py:116-117 | a kept name has at least four characters and contains a dot |
| Naming.SupportedBySuffix | bg_remove_app.py:116-117 | a name is kept exactly when its last characters, lower-cased, are .png, .jpg, .jpeg or .webp |
| Naming.FilterSupported | bg_remove_app.py:117 | the filtered list is no longer than the listing |
| Naming.FilterMembers | bg_remove_app.py:117 | a name is kept exactly when it is listed and supported |
| Naming.FilterAppend | bg_remove_app.py:117 | the filter keeps listing order: filtering a concatenation concatenates the filtered parts |
| Naming.Stem | bg_remove_app.py:137 | the stem is a prefix of the name; a shorter stem is cut at the last dot of the name, and no '/' comes after that dot |
| Naming.OutputName | bg_remove_app.py:137 | every output name ends in ".png" |
| Naming.OutputNameReplacesExtension | bg_remove_app.py:137 | "stem.ext" becomes "stem.png" when ext has no dot and the stem is not all dots |
| Naming.OutputNameWithoutDot | bg_remove_app.py:137 | a name without a dot gets ".png" appended |
| Naming.DotFileName | bg_remove_app.py:137 | the dot file ".png" is kept by the filter and is written as ".png.png" |
| Naming.JoinPath | bg_remove_app.py:138 | the joined path ends with the name and, for a relative name, starts with the folder |
| Naming.ProgressLabelInjective | bg_remove_app.py:157 | a status text determines its position and total |
| Config.ParseForm | bg_remove_app.py:83-111 | accepted settings carry the form's transparency and colour, and any target has two positive sides |
| Config.ParseSize | bg_remove_app.py:94-111 | "Original" exactly means no target; any target has two positive sides; a "Custom" result is `int()` of both fields, and a failure there is the custom error; a failing preset gives the preset error |
| Config.ParseFormSpec | bg_remove_app.py:86-96 | the form is refused with the bevel error exactly when either bevel is not a float; accepted bevels are the parsed values, and "Original" exactly means no target |
| Config.CustomSize | bg_remove_app.py:97-107 | a custom size is accepted exactly when both fields are integers and both are positive, and it is then those two integers |
| Config.PresetSize | bg_remove_app.py:108-111 | a preset "WxH" with positive W and H parses to (W, H) |
| Config.MenuPresets | bg_remove_app.py:108-111 | the three presets of the size menu parse to 256x256, 512x512 and 1024x1024 |
| Batch.Outcome | bg_remove_app.py:124-152 | a written file's path is the output folder joined with the input's stem plus ".png" |
| Batch.ProcessFile | bg_remove_app.py:124-155 | the loop body run on canvases gives exactly one file's outcome |
| Batch.OutcomeFails | bg_remove_app.py:124-155 | a file fails with the load error when it cannot be read or decoded, and with "no subject" when it is fully transparent; a file is written only when it decoded, had a subject and its path could be saved |
| Batch.OutcomeShape | bg_remove_app.py:134-152 | a written image is RGBA when transparent and RGB otherwise; it has the target size when one is set, and otherwise the cropped subject's size, being the subject itself when transparent |
| Batch.OpaqueOutput | bg_remove_app.py:143-152 | every pixel of an opaque output is fully opaque |
| Batch.Outcomes | bg_remove_app.py:122-155 | there is one outcome per listed file, in listing order, each the outcome of that file |
| Batch.Writes | bg_remove_app.py:122-155 | there is at most one write per listed file |
| Batch.WritesAppend | bg_remove_app.py:122-155 | files are independent: the writes for a listing split anywhere are the writes of the two parts in order, so a failing file changes nothing for later files |
| Batch.WritesMembers | bg_remove_app.py:122-155 | a file is written exactly when it is listed and its processing succeeds |
| Batch.LastWriteWins | bg_remove_app.py:137-152 | starting from whatever the folder held, each written path ends with the image of its last write |
| Batch.DiskPaths | bg_remove_app.py:114-152 | the folder afterwards holds exactly the paths it held before and the written paths; a path the run does not write keeps its earlier file |
| Batch.StemCollision | bg_remove_app.py:137 | "a.png" and "a.jpg" are both kept and share the output name "a.png" |
| Batch.StatusLog | bg_remove_app.py:157 | the status log after k files has k entries |
| Batch.BatchRun | bg_remove_app.py:83-161 | a run is rejected exactly when the form is invalid, fails after naming the folder exactly when the listing fails, and a finished run writes at most one file per listed file and reports one status per file plus "Done!" |
| Batch.RunSpec | bg_remove_app.py:83-120 | a bad form aborts before any folder exists, and a bad bevel always gives the bevel error; a valid form names the folder from its settings; an empty filtered listing stops there |
| Batch.RunReport | bg_remove_app.py:122-161 | a finished run's status reads k/n after the k-th file and "Done!" at the end, the final message gives n, and there are at most n writes |
| Batch.ProcessAll | bg_remove_app.py:122-158 | the loop writes exactly the successful files in order, leaves the k/n status log, and its ghost tallies split the files into successes and failures |
| Batch.ProcessImages | bg_remove_app.py:83-161 | the method's run is exactly the specified run, and its ghost tallies count the writes and add up to the number of files |

## Left out

- The Tkinter UI is not modelled: windows, widgets, `toggle_custom_fields`, `toggle_color_button`, `pick_color`, message boxes and `update_idletasks` (l.12-80, 201-204). The model keeps only the texts the run reports.
- `rembg.remove`, file reading and image decoding (l.124-128) are one `load` parameter that may fail. PNG saving (l.141, 152) is a `saves` parameter: a save that fails writes nothing, whereas a real failed save may leave a partial file.
- `os.makedirs` (l.114) is recorded as the run reaching the folder name; `Disk` starts from the folder's earlier contents, as `exist_ok=True` keeps them. `os.chdir` and the creation of `RawPhotos/` (l.9, 62) are not modelled.
- Lanczos resampling (l.183) is modelled only through its output size; the pixel values come from the `sample` parameter.
- Raster.Blend: states the alpha-0 and alpha-255 cases and bounds every channel between destination and source. Pillow's exact integer arithmetic for intermediate alpha is modelled as rounding to nearest, which may differ from Pillow by one unit.
- Decoded images are RGB or RGBA. Pillow's other modes (palette, greyscale) and their conversion to RGBA at l.128 are not modelled.
- `ImageColor.getrgb` (l.143, 186) is not modelled: the colour enters as RGB values.
- The paste-without-mask fallback in the `except` branches (l.149-151, 194-196) is not modelled. A paste of a well-formed RGBA image with its own alpha channel does not raise.
- The `convert("RGBA")` guard at l.191-192 is not modelled: it never fires, because the resized image keeps the subject's RGBA mode. The guard at l.145-146 does fire, for an opaque output with a target size, whose composed image is RGB; `Flattened` and `Flatten` convert at that point, and converting an image that is already RGBA changes nothing.
- Geometry.FitInside: computes the ratio comparison and the truncated side exactly with integer cross-multiplication. Python's float division may differ when the exact quotient is an integer that floating point lands just below, or for magnitudes beyond 2^53.
- Floats.Scaled: uses exact real arithmetic for `dim * (pct / 100)`. Floating-point rounding of the product and of the parsed bevel is not modelled; infinity and NaN are.
- `float()` accepts decimal and exponent forms, `inf`, `infinity` and `nan`, with optional sign, underscores between digits and surrounding ASCII whitespace. Hexadecimal forms are not a `float()` input, and Unicode digits and whitespace are not modelled.
- Text.Lower: folds ASCII letters only; Unicode case folding of file names is not modelled.
- `os.path.splitext` and `os.path.join` are modelled for POSIX paths; Windows separators and drive letters are not.
- Config.ParseSize: a preset text that is not "WxH" with positive integers is refused as `PresetMalformed`. The code instead raises an uncaught exception at l.109, or accepts a non-positive preset. No entry of the size menu (l.30) can trigger either case.
- An exception escaping `process_images` (an unreadable `RawPhotos`, l.117) ends the run as `ListingFailed` after the folder has been created; the model does not describe what Tkinter does with the exception.
- The log lines printed at l.150, 155 and 195 are not modelled.
