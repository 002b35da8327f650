/**
 * The batch run of process_images (bg_remove_app.py:83-161): validate the
 * form, create the output folder, list the supported files of RawPhotos,
 * then process each file on its own, so that a failing file costs only its
 * own output, and report progress after every file.
 */
module Batch {
  import opened Wrappers
  import opened Raster
  import opened Faults
  import opened Subject
  import opened Compositor
  import opened Config
  import opened Naming
  import opened Text

  /** Reading RawPhotos/<name>, removing its background and decoding the
      result; None when any of these raises. */
  type Loader = string -> Option<Image>

  /** Whether saving a PNG to a path succeeds. */
  type Saver = string -> bool

  /** Everything the run consults outside the program. */
  datatype World = World(load: Loader, sample: Sampler, saves: Saver) {
    /** The decoder only produces well-formed images. */
    ghost predicate Decodes() {
      forall name :: load(name).Some? ==> load(name).value.Wf()
    }
  }

  /** A PNG file written by the run. */
  datatype Written = Written(path: string, image: Image)

  /** What one iteration of the loop (l.124-155) does with one file. */
  function Outcome(s: Settings, folder: string, file: string, w: World): (r: Result<Written, Fault>)
    requires w.Decodes() && TargetPositive(s)
    ensures r.Success? ==> r.value.path == JoinPath(folder, OutputName(file))
  {
    match w.load(file)
    case None => Failure(LoadFailed)
    case Some(raw) =>
      match Extract(Convert(raw, RGBA))
      case Failure(f) => Failure(f)
      case Success(subject) =>
        var sized :=
          if s.target.Some?
          then Composed(subject, s.target.value.0, s.target.value.1, s.transparent, s.color, s.side, s.top, w.sample)
          else Success(subject);
        match sized
        case Failure(f) => Failure(f)
        case Success(img) =>
          var path := JoinPath(folder, OutputName(file));
          if !w.saves(path) then Failure(WriteFailed)
          else if s.transparent then Success(Written(path, img))
          else Success(Written(path, Flattened(img, s.color)))
  }

  /** The loop body as the application runs it, on canvases. */
  method ProcessFile(s: Settings, folder: string, file: string, w: World) returns (r: Result<Written, Fault>)
    requires w.Decodes() && TargetPositive(s)
    ensures r == Outcome(s, folder, file, w)
  {
    var loaded := w.load(file);
    if loaded.None? {
      return Failure(LoadFailed);
    }
    var extracted := Extract(Convert(loaded.value, RGBA));
    if extracted.Failure? {
      return Failure(extracted.error);
    }
    var img := extracted.value;
    if s.target.Some? {
      var composed := ResizeAndCenter(img, s.target.value.0, s.target.value.1, s.transparent, s.color, s.side, s.top, w.sample);
      if composed.Failure? {
        return Failure(composed.error);
      }
      img := composed.value;
    }
    var path := JoinPath(folder, OutputName(file));
    if !w.saves(path) {
      return Failure(WriteFailed);
    }
    if s.transparent {
      r := Success(Written(path, img));
    } else {
      var flat := Flatten(img, s.color);
      r := Success(Written(path, flat));
    }
  }

  /** `f` applied to each element of `xs`, in order. */
  function Map<A, B>(f: A -> B, xs: seq<A>): (ys: seq<B>)
    ensures |ys| == |xs| && forall i :: 0 <= i < |xs| ==> ys[i] == f(xs[i])
  {
    seq(|xs|, i requires 0 <= i < |xs| => f(xs[i]))
  }

  lemma MapAppend<A, B>(f: A -> B, a: seq<A>, b: seq<A>)
    ensures Map(f, a + b) == Map(f, a) + Map(f, b)
  {
    forall i | 0 <= i < |a|
      ensures Map(f, a + b)[i] == (Map(f, a) + Map(f, b))[i]
    {
      assert (a + b)[i] == a[i];
    }
    forall i | |a| <= i < |a| + |b|
      ensures Map(f, a + b)[i] == (Map(f, a) + Map(f, b))[i]
    {
      assert (a + b)[i] == b[i - |a|];
    }
  }

  /** The processing of one file under fixed settings, as a function of its name. */
  function OutcomeOf(s: Settings, folder: string, w: World): (f: string -> Result<Written, Fault>)
    requires w.Decodes() && TargetPositive(s)
    ensures forall file :: f(file) == Outcome(s, folder, file, w)
  {
    file => Outcome(s, folder, file, w)
  }

  /** The outcome of each listed file, in listing order. */
  function Outcomes(s: Settings, folder: string, files: seq<string>, w: World): (rs: seq<Result<Written, Fault>>)
    requires w.Decodes() && TargetPositive(s)
    ensures |rs| == |files| && forall i :: 0 <= i < |files| ==> rs[i] == Outcome(s, folder, files[i], w)
  {
    Map(OutcomeOf(s, folder, w), files)
  }

  /** The images of the successful results, in order. */
  function Successes(rs: seq<Result<Written, Fault>>): (ws: seq<Written>)
    ensures |ws| <= |rs|
  {
    if rs == [] then []
    else
      var last := rs[|rs| - 1];
      Successes(rs[..|rs| - 1]) + (if last.Success? then [last.value] else [])
  }

  /** Exactly the successful results are kept. */
  lemma {:induction false} SuccessesMembers(rs: seq<Result<Written, Fault>>, out: Written)
    ensures out in Successes(rs) <==> Success(out) in rs
  {
    if rs != [] {
      var init := rs[..|rs| - 1];
      SuccessesMembers(init, out);
      assert rs == init + [rs[|rs| - 1]];
    }
  }

  /** Keeping the successes commutes with concatenation. */
  lemma {:induction false} SuccessesAppend(a: seq<Result<Written, Fault>>, b: seq<Result<Written, Fault>>)
    ensures Successes(a + b) == Successes(a) + Successes(b)
    decreases |b|
  {
    if b == [] {
      assert a + b == a;
    } else {
      var b' := b[..|b| - 1];
      assert (a + b)[..|a + b| - 1] == a + b';
      SuccessesAppend(a, b');
    }
  }

  /** The files written for `files`, in processing order. */
  function Writes(s: Settings, folder: string, files: seq<string>, w: World): (ws: seq<Written>)
    requires w.Decodes() && TargetPositive(s)
    ensures |ws| <= |files|
  {
    Successes(Outcomes(s, folder, files, w))
  }

  /** A file fails for the first step that fails: unreadable or undecodable
      input, no subject, the composition, then the save; a file is written
      only when it was decoded, had a subject and its path could be saved. */
  lemma OutcomeFails(s: Settings, folder: string, file: string, w: World)
    requires w.Decodes() && TargetPositive(s)
    ensures var r := Outcome(s, folder, file, w);
      && (w.load(file).None? ==> r == Failure(LoadFailed))
      && (w.load(file).Some? && Clear(Convert(w.load(file).value, RGBA)) ==> r == Failure(NoSubject))
      && (w.load(file).Some? && !Clear(Convert(w.load(file).value, RGBA)) && s.target.None? ==>
            r.Success? == w.saves(JoinPath(folder, OutputName(file))))
      && (r.Success? ==> w.load(file).Some? && !Clear(Convert(w.load(file).value, RGBA))
                         && w.saves(JoinPath(folder, OutputName(file))))
  {
    if w.load(file).Some? {
      ExtractSpec(Convert(w.load(file).value, RGBA));
    }
  }

  /** A written image is RGBA with alpha when transparent and RGB otherwise;
      it has the target size when one is set and the subject's cropped size
      for "Original", where a transparent output is the subject itself. */
  lemma OutcomeShape(s: Settings, folder: string, file: string, w: World)
    requires w.Decodes() && TargetPositive(s)
    requires Outcome(s, folder, file, w).Success?
    ensures var out := Outcome(s, folder, file, w).value.image;
      var subject := Extract(Convert(w.load(file).value, RGBA)).value;
      && out.Wf()
      && out.mode == (if s.transparent then RGBA else RGB)
      && (s.target.Some? ==> out.width == s.target.value.0 && out.height == s.target.value.1)
      && (s.target.None? ==> out.width == subject.width && out.height == subject.height)
      && (s.target.None? && s.transparent ==> out == subject)
  {
    var subject := Extract(Convert(w.load(file).value, RGBA)).value;
    ExtractSpec(Convert(w.load(file).value, RGBA));
    if s.target.Some? {
      var (tw, th) := s.target.value;
      ComposedLayout(subject, tw, th, s.transparent, s.color, s.side, s.top, w.sample, 0, 0);
    }
  }

  /** An opaque output has no transparent pixel. */
  lemma OpaqueOutput(s: Settings, folder: string, file: string, w: World, x: nat, y: nat)
    requires w.Decodes() && TargetPositive(s) && !s.transparent
    requires Outcome(s, folder, file, w).Success?
    requires var out := Outcome(s, folder, file, w).value.image; out.Wf() && x < out.width && y < out.height
    ensures Outcome(s, folder, file, w).value.image.At(x, y).a == 255
  {
    var subject := Extract(Convert(w.load(file).value, RGBA)).value;
    var img := if s.target.Some?
      then Composed(subject, s.target.value.0, s.target.value.1, s.transparent, s.color, s.side, s.top, w.sample).value
      else subject;
    FlattenedSpec(img, s.color, x, y);
  }

  /** Files are independent: the writes for a listing split at any point
      are the writes for each part, so a failing file changes nothing for
      the files after it. */
  lemma WritesAppend(s: Settings, folder: string, a: seq<string>, b: seq<string>, w: World)
    requires w.Decodes() && TargetPositive(s)
    ensures Writes(s, folder, a + b, w) == Writes(s, folder, a, w) + Writes(s, folder, b, w)
  {
    OutcomesAppend(s, folder, a, b, w);
    SuccessesAppend(Outcomes(s, folder, a, w), Outcomes(s, folder, b, w));
  }

  lemma OutcomesAppend(s: Settings, folder: string, a: seq<string>, b: seq<string>, w: World)
    requires w.Decodes() && TargetPositive(s)
    ensures Outcomes(s, folder, a + b, w) == Outcomes(s, folder, a, w) + Outcomes(s, folder, b, w)
  {
    MapAppend(OutcomeOf(s, folder, w), a, b);
  }

  /** Exactly the successful files are written: each write is the outcome
      of a listed file, and each file that succeeds is written. */
  lemma WritesMembers(s: Settings, folder: string, files: seq<string>, w: World, out: Written)
    requires w.Decodes() && TargetPositive(s)
    ensures out in Writes(s, folder, files, w) <==>
      exists i :: 0 <= i < |files| && Outcome(s, folder, files[i], w) == Success(out)
  {
    var rs := Outcomes(s, folder, files, w);
    SuccessesMembers(rs, out);
    if Success(out) in rs {
      var i :| 0 <= i < |rs| && rs[i] == Success(out);
      assert Outcome(s, folder, files[i], w) == Success(out);
    }
    if exists i :: 0 <= i < |files| && Outcome(s, folder, files[i], w) == Success(out) {
      var i :| 0 <= i < |files| && Outcome(s, folder, files[i], w) == Success(out);
      assert rs[i] == Success(out);
    }
  }

  /** The output folder after the writes, starting from what it held before
      the run (makedirs with exist_ok keeps an existing folder): a later
      write to the same path replaces an earlier one. */
  function Disk(before: map<string, Image>, writes: seq<Written>): map<string, Image> {
    if writes == [] then before
    else
      var last := writes[|writes| - 1];
      Disk(before, writes[..|writes| - 1])[last.path := last.image]
  }

  /** Each written path holds the image of its last write, so "a.png" and
      "a.jpg" leave one file, the later. */
  lemma {:induction false} LastWriteWins(before: map<string, Image>, writes: seq<Written>, i: nat)
    requires i < |writes|
    requires forall j :: i < j < |writes| ==> writes[j].path != writes[i].path
    ensures writes[i].path in Disk(before, writes) && Disk(before, writes)[writes[i].path] == writes[i].image
    decreases |writes|
  {
    if i < |writes| - 1 {
      var init := writes[..|writes| - 1];
      assert init[i] == writes[i];
      forall j | i < j < |init| ensures init[j].path != init[i].path {
        assert init[j] == writes[j];
      }
      LastWriteWins(before, init, i);
    }
  }

  /** The folder holds the written paths and whatever it held before; a path
      the run does not write keeps its earlier file, so a stale output of an
      earlier run with the same settings survives. */
  lemma {:induction false} DiskPaths(before: map<string, Image>, writes: seq<Written>, path: string)
    ensures path in Disk(before, writes) <==>
      path in before || exists i :: 0 <= i < |writes| && writes[i].path == path
    ensures (forall i :: 0 <= i < |writes| ==> writes[i].path != path) && path in before ==>
      Disk(before, writes)[path] == before[path]
    decreases |writes|
  {
    if writes != [] {
      var init := writes[..|writes| - 1];
      DiskPaths(before, init, path);
      if exists i :: 0 <= i < |init| && init[i].path == path {
        var i :| 0 <= i < |init| && init[i].path == path;
        assert writes[i] == init[i];
      }
      if exists i :: 0 <= i < |writes| && writes[i].path == path {
        var i :| 0 <= i < |writes| && writes[i].path == path;
        if i < |init| {
          assert init[i] == writes[i];
        }
      }
      if forall i :: 0 <= i < |writes| ==> writes[i].path != path {
        forall i | 0 <= i < |init| ensures init[i].path != path {
          assert init[i] == writes[i];
        }
      }
    }
  }

  /** Two inputs with the same stem share one output path. */
  lemma StemCollision()
    ensures Supported("a.png") && Supported("a.jpg")
    ensures OutputName("a.png") == OutputName("a.jpg") == "a.png"
  {
    assert "a" + "." + "png" == "a.png" && "a" + "." + "jpg" == "a.jpg";
    assert "a"[0] != '.';
    OutputNameReplacesExtension("a", "png");
    OutputNameReplacesExtension("a", "jpg");
    assert Lower("a.png") == "a.png" && Lower("a.jpg") == "a.jpg";
    assert EndsWith(Lower("a.png"), SUPPORTED_EXTS[0]);
    assert EndsWith(Lower("a.jpg"), SUPPORTED_EXTS[1]);
  }

  /** The status line after each of the first k of n files. */
  function StatusLog(k: nat, n: nat): (log: seq<string>)
    ensures |log| == k
  {
    seq(k, i requires 0 <= i < k => ProgressLabel(i + 1, n))
  }

  lemma StatusLogSnoc(k: nat, n: nat)
    ensures StatusLog(k + 1, n) == StatusLog(k, n) + [ProgressLabel(k + 1, n)]
  {
    var log, log' := StatusLog(k, n), StatusLog(k + 1, n);
    forall i | 0 <= i < k + 1
      ensures log'[i] == (log + [ProgressLabel(k + 1, n)])[i]
    {
    }
  }

  datatype Run =
    | Rejected(error: ConfigError)   // error box; nothing created
    | ListingFailed(folder: string)  // folder created, RawPhotos unreadable: the error escapes
    | NoImages(folder: string)       // folder created, "No Images" box
    | Finished(folder: string, writes: seq<Written>, status: seq<string>, message: string)

  /** The whole run; `listing` is os.listdir("RawPhotos"), None when it raises. */
  function BatchRun(form: Form, listing: Option<seq<string>>, w: World): (run: Run)
    requires w.Decodes()
    ensures run.Rejected? <==> ParseForm(form).Failure?
    ensures run.ListingFailed? <==> ParseForm(form).Success? && listing.None?
    ensures run.Finished? ==> |run.writes| <= |FilterSupported(listing.value)| && |run.status| == |FilterSupported(listing.value)| + 1
  {
    match ParseForm(form)
    case Failure(e) => Rejected(e)
    case Success(s) =>
      var folder := FolderName(s.transparent, s.target);
      match listing
      case None => ListingFailed(folder)
      case Some(names) =>
        var files := FilterSupported(names);
        if files == [] then NoImages(folder)
        else Finished(folder, Writes(s, folder, files, w), StatusLog(|files|, |files|) + ["Done!"], DoneMessage(|files|))
  }

  /** The shape of a run: a bad form aborts before the folder exists; a
      valid one names the folder from the settings, and an empty filtered
      listing stops there. */
  lemma RunSpec(form: Form, listing: Option<seq<string>>, w: World)
    requires w.Decodes()
    ensures var run := BatchRun(form, listing, w);
      && (ParseForm(form).Failure? <==> run.Rejected?)
      && (run.Rejected? ==> run.error == ParseForm(form).error)
      && (ParseFloat(form.sideBevel).None? || ParseFloat(form.topBevel).None? ==> run == Rejected(BevelNotNumber))
      && (ParseForm(form).Success? ==>
            var s := ParseForm(form).value;
            && run.folder == FolderName(s.transparent, s.target)
            && (listing.Some? && FilterSupported(listing.value) == [] <==> run.NoImages?))
  {
    ParseFormSpec(form);
  }

  /** The report of a finished run: the status reads k/n after the k-th
      file and "Done!" at the end, the closing message gives the total, and
      no file is written twice. */
  lemma RunReport(form: Form, listing: Option<seq<string>>, w: World)
    requires w.Decodes() && BatchRun(form, listing, w).Finished?
    ensures var run, n := BatchRun(form, listing, w), |FilterSupported(listing.value)|;
      && |run.status| == n + 1 && run.status[n] == "Done!"
      && (forall k :: 1 <= k <= n ==> run.status[k - 1] == ProgressLabel(k, n))
      && run.message == DoneMessage(n)
      && |run.writes| <= n
  {
    var n := |FilterSupported(listing.value)|;
    assert BatchRun(form, listing, w).status == StatusLog(n, n) + ["Done!"];
  }

  /** Writes grows by the outcome of each further file. */
  lemma WritesSnoc(s: Settings, folder: string, files: seq<string>, file: string, w: World)
    requires w.Decodes() && TargetPositive(s)
    ensures var r := Outcome(s, folder, file, w);
      Writes(s, folder, files + [file], w) == Writes(s, folder, files, w) + (if r.Success? then [r.value] else [])
  {
    WritesAppend(s, folder, files, [file], w);
    SuccessesSingle(Outcomes(s, folder, [file], w));
  }

  lemma SuccessesSingle(rs: seq<Result<Written, Fault>>)
    requires |rs| == 1
    ensures Successes(rs) == if rs[0].Success? then [rs[0].value] else []
  {
    assert rs[..0] == [];
  }

  /** Writes of one more file of the listing. */
  lemma WritesPrefix(s: Settings, folder: string, files: seq<string>, i: nat, w: World)
    requires w.Decodes() && TargetPositive(s) && i < |files|
    ensures var r := Outcome(s, folder, files[i], w);
      Writes(s, folder, files[..i + 1], w) == Writes(s, folder, files[..i], w) + (if r.Success? then [r.value] else [])
  {
    assert files[..i + 1] == files[..i] + [files[i]];
    WritesSnoc(s, folder, files[..i], files[i], w);
  }

  /** The loop of l.124-158 over the listed files, with ghost tallies of
      successes and failures, which the application itself never reports. */
  method ProcessAll(s: Settings, folder: string, files: seq<string>, w: World)
    returns (writes: seq<Written>, status: seq<string>, ghost succeeded: nat, ghost failed: nat)
    requires w.Decodes() && TargetPositive(s)
    ensures writes == Writes(s, folder, files, w)
    ensures status == StatusLog(|files|, |files|)
    ensures succeeded == |writes| && succeeded + failed == |files|
  {
    var n := |files|;
    writes, status := [], [];
    succeeded, failed := 0, 0;
    var i := 0;
    while i < n
      invariant 0 <= i <= n
      invariant writes == Writes(s, folder, files[..i], w)
      invariant status == StatusLog(i, n)
      invariant succeeded == |writes| && succeeded + failed == i
    {
      var r := ProcessFile(s, folder, files[i], w);
      WritesPrefix(s, folder, files, i, w);
      if r.Success? {
        writes := writes + [r.value];
        succeeded := succeeded + 1;
      } else {
        failed := failed + 1;
      }
      StatusLogSnoc(i, n);
      status := status + [ProgressLabel(i + 1, n)];
      i := i + 1;
    }
    assert files[..n] == files;
  }

  /** process_images. */
  method ProcessImages(form: Form, listing: Option<seq<string>>, w: World)
    returns (run: Run, ghost succeeded: nat, ghost failed: nat)
    requires w.Decodes()
    ensures run == BatchRun(form, listing, w)
    ensures run.Finished? ==> succeeded == |run.writes| && succeeded + failed == |FilterSupported(listing.value)|
  {
    succeeded, failed := 0, 0;
    var parsed := ParseForm(form);
    if parsed.Failure? {
      return Rejected(parsed.error), succeeded, failed;
    }
    var s := parsed.value;
    var folder := FolderName(s.transparent, s.target);
    if listing.None? {
      return ListingFailed(folder), succeeded, failed;
    }
    var files := FilterSupported(listing.value);
    if files == [] {
      return NoImages(folder), succeeded, failed;
    }
    var writes, status;
    writes, status, succeeded, failed := ProcessAll(s, folder, files, w);
    run := Finished(folder, writes, status + ["Done!"], DoneMessage(|files|));
  }
}
