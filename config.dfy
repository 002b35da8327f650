/**
 * Reading the form into a run configuration (bg_remove_app.py:83-111): both
 * bevels must parse as floats, then the size option is "Original", a preset
 * "WxH", or "Custom" with two positive integers.  Any error aborts the run
 * before the output folder is created.
 */
module Config {
  import opened Wrappers
  import opened Raster
  import opened Floats
  import opened Text

  /** What the form holds when "Start Processing" is pressed. */
  datatype Form = Form(
    transparent: bool,
    color: Rgb,            // the picked background colour, already as RGB
    sizeOption: string,    // one of SIZE_OPTIONS
    customWidth: string,
    customHeight: string,
    sideBevel: string,
    topBevel: string)

  /** A validated configuration: target None keeps the subject's own size. */
  datatype Settings = Settings(
    transparent: bool,
    color: Rgb,
    target: Option<(int, int)>,
    side: Float,
    top: Float)

  /** Every target size has two positive sides. */
  predicate TargetPositive(s: Settings) {
    s.target.Some? ==> s.target.value.0 > 0 && s.target.value.1 > 0
  }

  datatype ConfigError =
    | BevelNotNumber     // "Bevel values must be numbers."
    | CustomNotPositive  // "Custom width and height must be positive integers."
    | PresetMalformed    // a preset text that is not "WxH" with positive sides

  /** The choices of the size menu (l.30). */
  const SIZE_OPTIONS: seq<string> := ["Original", "256x256", "512x512", "1024x1024", "Custom"]

  /** l.94-111: the target size named by the size option.  Only "Original"
      means no resizing; any size found is positive; "Custom" takes its size
      from the two fields and fails only with the custom error, a preset
      only with the preset error. */
  function ParseSize(option: string, customWidth: string, customHeight: string): (r: Result<Option<(int, int)>, ConfigError>)
    ensures r == Success(None) <==> option == "Original"
    ensures r.Success? && r.value.Some? ==> r.value.value.0 > 0 && r.value.value.1 > 0
    ensures option == "Custom" && r.Success? ==> ParseInt(customWidth) == Some(r.value.value.0) && ParseInt(customHeight) == Some(r.value.value.1)
    ensures option == "Custom" && r.Failure? ==> r.error == CustomNotPositive
    ensures option != "Original" && option != "Custom" && r.Failure? ==> r.error == PresetMalformed
  {
    if option == "Original" then Success(None)
    else if option == "Custom" then
      match (ParseInt(customWidth), ParseInt(customHeight))
      case (Some(w), Some(h)) =>
        if w <= 0 || h <= 0 then Failure(CustomNotPositive) else Success(Some((w, h)))
      case _ => Failure(CustomNotPositive)
    else
      var parts := Split(option, 'x');
      if |parts| == 2 && ParseInt(parts[0]).Some? && ParseInt(parts[1]).Some?
         && ParseInt(parts[0]).value > 0 && ParseInt(parts[1]).value > 0
      then Success(Some((ParseInt(parts[0]).value, ParseInt(parts[1]).value)))
      else Failure(PresetMalformed)
  }

  /** l.86-111: the bevels first, then the size. */
  function ParseForm(form: Form): (r: Result<Settings, ConfigError>)
    ensures r.Success? ==> r.value.transparent == form.transparent && r.value.color == form.color
    ensures r.Success? ==> TargetPositive(r.value)
  {
    var side := ParseFloat(form.sideBevel);
    var top := ParseFloat(form.topBevel);
    if side.None? || top.None? then Failure(BevelNotNumber)
    else
      match ParseSize(form.sizeOption, form.customWidth, form.customHeight)
      case Failure(e) => Failure(e)
      case Success(target) => Success(Settings(form.transparent, form.color, target, side.value, top.value))
  }

  /** What a run configuration promises: a bevel that float() rejects aborts
      whatever the size option; otherwise the bevels are the parsed floats,
      and "Original" means no target. */
  lemma ParseFormSpec(form: Form)
    ensures ParseFloat(form.sideBevel).None? || ParseFloat(form.topBevel).None? <==>
            ParseForm(form) == Failure(BevelNotNumber)
    ensures ParseForm(form).Success? ==>
      var s := ParseForm(form).value;
      && Some(s.side) == ParseFloat(form.sideBevel) && Some(s.top) == ParseFloat(form.topBevel)
      && (s.target.None? <==> form.sizeOption == "Original")
  {
  }

  /** A custom size is the two fields read by int(), accepted exactly when
      both parse and are positive. */
  lemma CustomSize(cw: string, ch: string)
    ensures ParseSize("Custom", cw, ch).Success? <==>
      ParseInt(cw).Some? && ParseInt(ch).Some? && ParseInt(cw).value > 0 && ParseInt(ch).value > 0
    ensures ParseSize("Custom", cw, ch).Success? ==>
      ParseSize("Custom", cw, ch).value == Some((ParseInt(cw).value, ParseInt(ch).value))
  {
  }

  /** A preset "WxH" (W, H positive) parses to (W, H); the three presets of
      the menu are of this form. */
  lemma PresetSize(w: int, h: int)
    requires w > 0 && h > 0
    ensures var option := IntToString(w) + "x" + IntToString(h);
      option != "Original" && option != "Custom" ==>
      ParseSize(option, "", "") == Success(Some((w, h)))
  {
    var option := IntToString(w) + "x" + IntToString(h);
    NoX(w);
    NoX(h);
    SplitPair(IntToString(w), IntToString(h), 'x');
    IntRoundTrip(w);
    IntRoundTrip(h);
  }

  lemma NoX(n: int)
    ensures 'x' !in IntToString(n)
  {
    var s := IntToString(n);
    assert forall i :: 0 <= i < |s| ==> IsDigit(s[i]) || s[i] == '-';
  }

  /** The three presets of the menu read as square targets. */
  lemma MenuPresets()
    ensures ParseSize(SIZE_OPTIONS[1], "", "") == Success(Some((256, 256)))
    ensures ParseSize(SIZE_OPTIONS[2], "", "") == Success(Some((512, 512)))
    ensures ParseSize(SIZE_OPTIONS[3], "", "") == Success(Some((1024, 1024)))
  {
    Render256();
    Render512();
    Render1024();
    PresetSize(256, 256);
    PresetSize(512, 512);
    PresetSize(1024, 1024);
  }

  lemma Render256()
    ensures IntToString(256) + "x" + IntToString(256) == SIZE_OPTIONS[1]
  {
    assert NatToString(25) == NatToString(2) + ['5'];
    assert NatToString(256) == NatToString(25) + ['6'];
  }

  lemma Render512()
    ensures IntToString(512) + "x" + IntToString(512) == SIZE_OPTIONS[2]
  {
    assert NatToString(51) == NatToString(5) + ['1'];
    assert NatToString(512) == NatToString(51) + ['2'];
  }

  lemma Render1024()
    ensures IntToString(1024) + "x" + IntToString(1024) == SIZE_OPTIONS[3]
  {
    assert NatToString(10) == NatToString(1) + ['0'];
    assert NatToString(102) == NatToString(10) + ['2'];
    assert NatToString(1024) == NatToString(102) + ['4'];
  }
}
