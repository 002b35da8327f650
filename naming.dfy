/**
 * The names a run produces and the files it picks (bg_remove_app.py:113-117,
 * 137-138, 157, 161): the output folder named after the configuration, the
 * extension filter over the input listing, the output file name, and the
 * progress texts.
 */
module Naming {
  import opened Wrappers
  import opened Text

  /** The size part of the folder name: "Original", or "WxH" from str(). */
  function SizeLabel(target: Option<(int, int)>): (text: string)
    ensures '/' !in text
  {
    match target
    case None => "Original"
    case Some((w, h)) =>
      IntToStringChars(w);
      IntToStringChars(h);
      IntToString(w) + "x" + IntToString(h)
  }

  /** `f"FinishedPhotos_{'Transparent' if transparent else 'Opaque'}_{size_name}"`. */
  function FolderName(transparent: bool, target: Option<(int, int)>): (name: string)
    ensures '/' !in name
  {
    assert '/' !in "FinishedPhotos_" + (if transparent then "Transparent" else "Opaque") + "_";
    "FinishedPhotos_" + (if transparent then "Transparent" else "Opaque") + "_" + SizeLabel(target)
  }

  lemma IntToStringChars(n: int)
    ensures |IntToString(n)| > 0
    ensures forall i :: 0 <= i < |IntToString(n)| ==> IsDigit(IntToString(n)[i]) || IntToString(n)[i] == '-'
    ensures 'x' !in IntToString(n) && '/' !in IntToString(n)
  {
    var s := IntToString(n);
    assert forall i :: 0 <= i < |s| ==> IsDigit(s[i]) || s[i] == '-';
  }

  /** A preset label parses back, by l.109's split and int(), to its size. */
  lemma SizeLabelRoundTrip(w: int, h: int)
    ensures var parts := Split(SizeLabel(Some((w, h))), 'x');
      |parts| == 2 && ParseInt(parts[0]) == Some(w) && ParseInt(parts[1]) == Some(h)
  {
    IntToStringChars(w);
    IntToStringChars(h);
    SplitPair(IntToString(w), IntToString(h), 'x');
    IntRoundTrip(w);
    IntRoundTrip(h);
  }

  /** Only "Original" starts with 'O'; a "WxH" label starts with a digit or '-'. */
  lemma SizeLabelHead(target: Option<(int, int)>)
    ensures |SizeLabel(target)| > 0 && (SizeLabel(target)[0] == 'O' <==> target.None?)
  {
    if target.Some? {
      IntToStringChars(target.value.0);
      assert SizeLabel(target)[0] == IntToString(target.value.0)[0];
    }
  }

  lemma SizeLabelInjective(s1: Option<(int, int)>, s2: Option<(int, int)>)
    requires SizeLabel(s1) == SizeLabel(s2)
    ensures s1 == s2
  {
    SizeLabelHead(s1);
    SizeLabelHead(s2);
    if s1.Some? && s2.Some? {
      SizeLabelRoundTrip(s1.value.0, s1.value.1);
      SizeLabelRoundTrip(s2.value.0, s2.value.1);
    }
  }

  /** The mode word of a folder name, and the size label after it. */
  lemma FolderNameParts(t: bool, s: Option<(int, int)>)
    ensures var mode := if t then "Transparent" else "Opaque";
      && FolderName(t, s)[15] == mode[0]
      && FolderName(t, s)[16 + |mode|..] == SizeLabel(s)
  {
  }

  /** Different configurations never share an output folder. */
  lemma FolderNameInjective(t1: bool, s1: Option<(int, int)>, t2: bool, s2: Option<(int, int)>)
    requires FolderName(t1, s1) == FolderName(t2, s2)
    ensures t1 == t2 && s1 == s2
  {
    FolderNameParts(t1, s1);
    FolderNameParts(t2, s2);
    assert t1 == t2;
    SizeLabelInjective(s1, s2);
  }

  const SUPPORTED_EXTS: seq<string> := [".png", ".jpg", ".jpeg", ".webp"]

  /** `f.lower().endswith(supported_exts)`.  A kept name has at least four
      characters and holds a dot. */
  predicate Supported(f: string)
    ensures Supported(f) ==> 4 <= |f| && '.' in f
  {
    ExtensionDot(f);
    exists i :: 0 <= i < |SUPPORTED_EXTS| && EndsWith(Lower(f), SUPPORTED_EXTS[i])
  }

  /** Every extension is at least four characters and starts with a dot,
      which lower-casing leaves in place. */
  lemma ExtensionDot(f: string)
    ensures forall i :: 0 <= i < |SUPPORTED_EXTS| && EndsWith(Lower(f), SUPPORTED_EXTS[i]) ==> 4 <= |f| && '.' in f
  {
    forall i | 0 <= i < |SUPPORTED_EXTS| && EndsWith(Lower(f), SUPPORTED_EXTS[i])
      ensures 4 <= |f| && '.' in f
    {
      var k := |f| - |SUPPORTED_EXTS[i]|;
      assert Lower(f)[k] == '.';
      assert f[k] == '.';
    }
  }

  /** The check is case-insensitive and looks only at the end of the name:
      a name is kept exactly when its last characters, lower-cased, are one
      of the four extensions. */
  lemma SupportedBySuffix(f: string)
    ensures Supported(f) <==>
      exists i :: 0 <= i < |SUPPORTED_EXTS| && |SUPPORTED_EXTS[i]| <= |f| &&
                  Lower(f[|f| - |SUPPORTED_EXTS[i]|..]) == SUPPORTED_EXTS[i]
  {
    forall i | 0 <= i < |SUPPORTED_EXTS| && |SUPPORTED_EXTS[i]| <= |f|
      ensures Lower(f)[|f| - |SUPPORTED_EXTS[i]|..] == Lower(f[|f| - |SUPPORTED_EXTS[i]|..])
    {
    }
  }

  /** `[f for f in listing if f.lower().endswith(supported_exts)]`. */
  function FilterSupported(listing: seq<string>): (files: seq<string>)
    ensures |files| <= |listing|
  {
    if listing == [] then []
    else (if Supported(listing[0]) then [listing[0]] else []) + FilterSupported(listing[1..])
  }

  /** Exactly the supported names of the listing are kept. */
  lemma {:induction false} FilterMembers(listing: seq<string>, f: string)
    ensures f in FilterSupported(listing) <==> f in listing && Supported(f)
  {
    if listing != [] {
      FilterMembers(listing[1..], f);
      assert listing == [listing[0]] + listing[1..];
    }
  }

  /** The filter keeps listing order: filtering a concatenation concatenates
      the filtered parts. */
  lemma {:induction false} FilterAppend(a: seq<string>, b: seq<string>)
    ensures FilterSupported(a + b) == FilterSupported(a) + FilterSupported(b)
  {
    if a != [] {
      assert (a + b)[1..] == a[1..] + b;
      FilterAppend(a[1..], b);
    } else {
      assert a + b == b;
    }
  }

  /** The index of the last `c` in `s`, or -1. */
  function RFind(s: string, c: char): (i: int)
    ensures -1 <= i < |s| && forall j :: i < j < |s| ==> s[j] != c
    ensures 0 <= i ==> s[i] == c
  {
    if s == [] then -1
    else if s[|s| - 1] == c then |s| - 1
    else RFind(s[..|s| - 1], c)
  }

  /** `os.path.splitext(p)[0]` (POSIX): everything before the last dot of the
      last path component, unless that dot is preceded only by dots there. */
  function Stem(p: string): (stem: string)
    ensures |stem| <= |p| && stem == p[..|stem|]
    ensures stem != p ==> p[|stem|] == '.' && '/' !in p[|stem|..]
    ensures stem != p ==> '.' !in p[|stem| + 1..]
  {
    var sep, dot := RFind(p, '/'), RFind(p, '.');
    if sep < dot && exists k :: sep < k < dot && p[k] != '.' then p[..dot] else p
  }

  /** `os.path.splitext(file)[0] + ".png"`. */
  function OutputName(file: string): (name: string)
    ensures EndsWith(name, ".png")
  {
    Stem(file) + ".png"
  }

  /** A name `stem.ext` whose extension has no dot, and whose stem is not all
      dots, becomes `stem.png`; the extension's case does not matter. */
  lemma OutputNameReplacesExtension(stem: string, ext: string)
    requires '/' !in stem && '/' !in ext && '.' !in ext
    requires exists k :: 0 <= k < |stem| && stem[k] != '.'
    ensures OutputName(stem + "." + ext) == stem + ".png"
  {
    var p := stem + "." + ext;
    assert p[|stem|] == '.';
    assert forall j :: |stem| < j < |p| ==> p[j] == ext[j - |stem| - 1];
    assert RFind(p, '.') == |stem|;
    assert forall j :: 0 <= j < |p| ==> p[j] != '/';
    assert RFind(p, '/') == -1;
    var k :| 0 <= k < |stem| && stem[k] != '.';
    assert p[k] != '.';
    assert p[..|stem|] == stem;
  }

  /** A name without a dot keeps all of itself: "README" becomes "README.png". */
  lemma OutputNameWithoutDot(file: string)
    requires '.' !in file
    ensures OutputName(file) == file + ".png"
  {
    assert RFind(file, '.') == -1;
  }

  /** A dot file such as ".png" has no extension to Python, so it is kept by
      the filter and written as ".png.png". */
  lemma DotFileName()
    ensures Supported(".png") && OutputName(".png") == ".png.png"
  {
    assert EndsWith(Lower(".png"), SUPPORTED_EXTS[0]);
    var name := ".png";
    assert |name| == 4 && name[0] == '.';
    assert forall j :: 0 < j < 4 ==> name[j] != '.';
    assert RFind(name, '.') == 0;
  }

  /** `os.path.join(folder, name)` (POSIX, two arguments). */
  function JoinPath(folder: string, name: string): (path: string)
    ensures EndsWith(path, name)
    ensures name == [] || name[0] != '/' ==> |folder| <= |path| && path[..|folder|] == folder
  {
    if name != [] && name[0] == '/' then name
    else if folder == [] || folder[|folder| - 1] == '/' then folder + name
    else folder + "/" + name
  }

  /** The status text after the k-th of n files: `f"Processed {k}/{n}"`. */
  function ProgressLabel(k: nat, n: nat): string {
    "Processed " + IntToString(k) + "/" + IntToString(n)
  }

  /** The final message `f"Processed {n} image(s)."`. */
  function DoneMessage(n: nat): string {
    "Processed " + IntToString(n) + " image(s)."
  }

  /** A progress text names its position and total unambiguously. */
  lemma ProgressLabelInjective(k1: nat, n1: nat, k2: nat, n2: nat)
    requires ProgressLabel(k1, n1) == ProgressLabel(k2, n2)
    ensures k1 == k2 && n1 == n2
  {
    var head := "Processed ";
    var a1, b1, a2, b2 := IntToString(k1), IntToString(n1), IntToString(k2), IntToString(n2);
    var t1, t2 := a1 + "/" + b1, a2 + "/" + b2;
    assert t1 == t2 by {
      assert ProgressLabel(k1, n1)[|head|..] == t1;
      assert ProgressLabel(k2, n2)[|head|..] == t2;
    }
    assert a1 == a2 && b1 == b2 by {
      IntToStringChars(k1); IntToStringChars(n1);
      IntToStringChars(k2); IntToStringChars(n2);
      SeparatedPair(a1, b1, a2, b2, '/');
    }
    IntToStringInjective(k1, k2);
    IntToStringInjective(n1, n2);
  }
}
