/** `image_shrink_under_1MB.py`: `resize_image` shrinks an image by 10% per
    step until the saved file is under the size cap, and `process_directory`
    applies it to every image of a directory, converting HEIC files to JPEG
    first and deleting the HEIC original once its JPEG is small enough.
    File sizes are integer byte counts; PIL's open, thumbnail and save are an
    oracle. */
module Shrink {
  import opened Strings
  import opened Paths
  import opened ImageNames
  import opened Optional

  const MiB: nat := 1048576

  /** `file_size <= max_size_mb` with `file_size` in MiB is this byte bound. */
  function Cap(maxMb: nat): nat {
    maxMb * MiB
  }

  /** `int(x * 0.9)`, taken as the floor of 9x/10. */
  function Decay(x: nat): (y: nat)
    ensures 10 * y <= 9 * x < 10 * y + 10
    ensures y <= x
    ensures x >= 1 ==> y < x
  {
    x * 9 / 10
  }

  /** One 10% reduction of both dimensions. */
  function Shrunk(d: Dims): Dims {
    Dims(Decay(d.width), Decay(d.height))
  }

  /** `d` after `k` reductions. */
  function ShrunkBy(d: Dims, k: nat): Dims {
    if k == 0 then d else Shrunk(ShrunkBy(d, k - 1))
  }

  /** One iteration's `thumbnail`, `save` and `getsize` of the output:
      the new size in bytes, or a failure (an exception). */
  datatype SaveResult = Saved(bytes: nat) | SaveFailed

  /** How a call of `resize_image` ends, with the dimensions passed to
      `thumbnail` in each iteration (one save to the output per iteration). */
  datatype ResizeRun =
    | Done(requests: seq<Dims>, bytes: nat)  // returned True; the last size measured
    | Failed(requests: seq<Dims>)            // an exception: returned False
    | Unfinished(requests: seq<Dims>)        // still over the cap when the oracle ran out

  function WithRequests(prefix: seq<Dims>, r: ResizeRun): ResizeRun {
    r.(requests := prefix + r.requests)
  }

  /** The `while file_size > max_size_mb` loop, entered over the cap with the
      image's size `d`. */
  function ShrinkLoop(d: Dims, saves: seq<SaveResult>, cap: nat): ResizeRun
    decreases |saves|
  {
    if saves == [] then Unfinished([])
    else
      var next := Shrunk(d);
      match saves[0]
      case SaveFailed => Failed([next])
      case Saved(b) =>
        if b <= cap then Done([next], b) else WithRequests([next], ShrinkLoop(next, saves[1..], cap))
  }

  /** `resize_image`: `initial` is the size of the input (`None` if `getsize`
      raises), `dims` the size PIL reports (`None` if opening raises). */
  function Resize(initial: Option<nat>, dims: Option<Dims>, saves: seq<SaveResult>, maxMb: nat): ResizeRun {
    match initial
    case None => Failed([])
    case Some(b) =>
      if b <= Cap(maxMb) then Done([], b)
      else if dims.None? then Failed([])
      else ShrinkLoop(dims.value, saves, Cap(maxMb))
  }

  method ResizeImage(initial: Option<nat>, dims: Option<Dims>, saves: seq<SaveResult>, maxMb: nat)
    returns (r: ResizeRun)
    ensures r == Resize(initial, dims, saves, maxMb)
  {
    if initial.None? {
      return Failed([]);
    }
    var cap := Cap(maxMb);
    var fileSize := initial.value;
    if fileSize <= cap {
      return Done([], fileSize);
    }
    if dims.None? {
      return Failed([]);
    }
    var width, height := dims.value.width, dims.value.height;
    var requests: seq<Dims> := [];
    var i := 0;
    while fileSize > cap
      invariant i <= |saves|
      invariant fileSize > cap ==>
        (Resize(initial, dims, saves, maxMb) == WithRequests(requests, ShrinkLoop(Dims(width, height), saves[i..], cap)))
      invariant fileSize <= cap ==> Resize(initial, dims, saves, maxMb) == Done(requests, fileSize)
      decreases |saves| - i, fileSize
    {
      if i == |saves| {
        return Unfinished(requests);
      }
      ghost var before := Dims(width, height);
      width := Decay(width);
      height := Decay(height);
      ShrinkStep(before, saves, i, cap);
      WithRequestsAppend(requests, [Dims(width, height)], ShrinkLoop(Dims(width, height), saves[i + 1..], cap));
      requests := requests + [Dims(width, height)];
      match saves[i] {
        case SaveFailed =>
          return Failed(requests);
        case Saved(b) =>
          fileSize := b;
      }
      i := i + 1;
    }
    return Done(requests, fileSize);
  }

  /** One iteration of the loop, seen from the oracle position `i`. */
  lemma ShrinkStep(d: Dims, saves: seq<SaveResult>, i: nat, cap: nat)
    requires i < |saves|
    ensures saves[i] == SaveFailed ==> ShrinkLoop(d, saves[i..], cap) == Failed([Shrunk(d)])
    ensures saves[i].Saved? && saves[i].bytes <= cap ==>
      ShrinkLoop(d, saves[i..], cap) == Done([Shrunk(d)], saves[i].bytes)
    ensures saves[i].Saved? && saves[i].bytes > cap ==>
      ShrinkLoop(d, saves[i..], cap) == WithRequests([Shrunk(d)], ShrinkLoop(Shrunk(d), saves[i + 1..], cap))
  {
    assert saves[i..][0] == saves[i];
    assert saves[i..][1..] == saves[i + 1..];
  }

  lemma WithRequestsAppend(p: seq<Dims>, q: seq<Dims>, r: ResizeRun)
    ensures WithRequests(p, WithRequests(q, r)) == WithRequests(p + q, r)
  {
    assert p + (q + r.requests) == (p + q) + r.requests;
  }

  /** An input already under the cap is accepted with no write to the
      output path. */
  lemma EarlyExit(b: nat, dims: Option<Dims>, saves: seq<SaveResult>, maxMb: nat)
    requires b <= Cap(maxMb)
    ensures Resize(Some(b), dims, saves, maxMb) == Done([], b)
  {
  }

  /** When the loop ends normally, the last size measured is within the cap. */
  lemma {:induction false} ShrinkLoopDoneUnderCap(d: Dims, saves: seq<SaveResult>, cap: nat)
    ensures ShrinkLoop(d, saves, cap).Done? ==> ShrinkLoop(d, saves, cap).bytes <= cap
    decreases |saves|
  {
    if saves != [] && saves[0].Saved? && saves[0].bytes > cap {
      ShrinkLoopDoneUnderCap(Shrunk(d), saves[1..], cap);
    }
  }

  lemma DoneUnderCap(initial: Option<nat>, dims: Option<Dims>, saves: seq<SaveResult>, maxMb: nat)
    ensures var r := Resize(initial, dims, saves, maxMb);
      r.Done? ==> r.bytes <= Cap(maxMb)
  {
    if initial.Some? && initial.value > Cap(maxMb) && dims.Some? {
      ShrinkLoopDoneUnderCap(dims.value, saves, Cap(maxMb));
    }
  }

  /** Iteration `k` asks for the image's size reduced `k + 1` times, and there
      is at most one iteration per oracle entry. */
  lemma {:induction false} ShrinkLoopRequests(d: Dims, saves: seq<SaveResult>, cap: nat)
    ensures var rs := ShrinkLoop(d, saves, cap).requests;
      |rs| <= |saves| && forall k :: 0 <= k < |rs| ==> rs[k] == ShrunkBy(d, k + 1)
    decreases |saves|
  {
    if saves != [] && saves[0].Saved? && saves[0].bytes > cap {
      var next := Shrunk(d);
      ShrinkLoopRequests(next, saves[1..], cap);
      var rest := ShrinkLoop(next, saves[1..], cap).requests;
      forall k | 0 <= k < |rest| ensures rest[k] == ShrunkBy(d, k + 2) {
        ShrunkByShift(d, k + 1);
      }
    }
  }

  /** Reducing `k` times the reduced size is reducing `k + 1` times. */
  lemma {:induction false} ShrunkByShift(d: Dims, k: nat)
    ensures ShrunkBy(Shrunk(d), k) == ShrunkBy(d, k + 1)
  {
    if k > 0 {
      ShrunkByShift(d, k - 1);
    }
  }

  /** The requested dimensions never grow, and each one still at least 1
      strictly shrinks in the next iteration. */
  lemma RequestsShrink(initial: Option<nat>, dims: Option<Dims>, saves: seq<SaveResult>, maxMb: nat, k: nat)
    requires var rs := Resize(initial, dims, saves, maxMb).requests; k + 1 < |rs|
    ensures var rs := Resize(initial, dims, saves, maxMb).requests;
      rs[k + 1].width <= rs[k].width && rs[k + 1].height <= rs[k].height &&
      (rs[k].width >= 1 ==> rs[k + 1].width < rs[k].width) &&
      (rs[k].height >= 1 ==> rs[k + 1].height < rs[k].height)
  {
    ShrinkLoopRequests(dims.value, saves, Cap(maxMb));
    var rs := Resize(initial, dims, saves, maxMb).requests;
    assert rs[k + 1] == Shrunk(rs[k]);
  }

  /** The reduction fails first: an exception comes before any size within the cap. */
  predicate FailsFirst(saves: seq<SaveResult>, cap: nat) {
    exists k :: 0 <= k < |saves| && saves[k] == SaveFailed &&
      forall j :: 0 <= j < k ==> saves[j].Saved? && saves[j].bytes > cap
  }

  lemma {:induction false} ShrinkLoopFails(d: Dims, saves: seq<SaveResult>, cap: nat)
    ensures ShrinkLoop(d, saves, cap).Failed? <==> FailsFirst(saves, cap)
    decreases |saves|
  {
    if saves != [] {
      if saves[0] == SaveFailed {
        assert FailsFirst(saves, cap) by {
          assert saves[0] == SaveFailed;
        }
      } else if saves[0].bytes <= cap {
        assert !FailsFirst(saves, cap) by {
          forall k | 0 <= k < |saves| && saves[k] == SaveFailed
            ensures exists j :: 0 <= j < k && !(saves[j].Saved? && saves[j].bytes > cap)
          {
            assert 0 < k && !(saves[0].Saved? && saves[0].bytes > cap);
          }
        }
      } else {
        ShrinkLoopFails(Shrunk(d), saves[1..], cap);
        FailsFirstTail(saves, cap);
      }
    }
  }

  /** A save still over the cap passes the question on to the rest. */
  lemma FailsFirstTail(saves: seq<SaveResult>, cap: nat)
    requires saves != [] && saves[0].Saved? && saves[0].bytes > cap
    ensures FailsFirst(saves, cap) <==> FailsFirst(saves[1..], cap)
  {
    if FailsFirst(saves, cap) {
      var k :| 0 <= k < |saves| && saves[k] == SaveFailed &&
        forall j :: 0 <= j < k ==> saves[j].Saved? && saves[j].bytes > cap;
      assert saves[1..][k - 1] == SaveFailed;
      assert FailsFirst(saves[1..], cap);
    }
    if FailsFirst(saves[1..], cap) {
      var k :| 0 <= k < |saves[1..]| && saves[1..][k] == SaveFailed &&
        forall j :: 0 <= j < k ==> saves[1..][j].Saved? && saves[1..][j].bytes > cap;
      assert forall j :: 0 <= j < k + 1 ==> saves[j].Saved? && saves[j].bytes > cap by {
        forall j | 0 <= j < k + 1 ensures saves[j].Saved? && saves[j].bytes > cap {
          if j > 0 {
            assert saves[j] == saves[1..][j - 1];
          }
        }
      }
      assert saves[k + 1] == SaveFailed;
    }
  }

  /** `resize_image` returns False exactly when some step raises: reading the
      input size, opening the image, or an iteration before the size is within
      the cap. */
  lemma FailsIff(initial: Option<nat>, dims: Option<Dims>, saves: seq<SaveResult>, maxMb: nat)
    ensures Resize(initial, dims, saves, maxMb).Failed? <==>
      (initial.None? || (initial.value > Cap(maxMb) && (dims.None? || FailsFirst(saves, Cap(maxMb)))))
  {
    if initial.Some? && initial.value > Cap(maxMb) && dims.Some? {
      ShrinkLoopFails(dims.value, saves, Cap(maxMb));
    }
  }

  /** If no save ever brings the size within the cap, the loop never ends:
      every oracle entry is used up and the run is unfinished. */
  lemma {:induction false} NeverUnderCap(d: Dims, saves: seq<SaveResult>, cap: nat)
    requires forall k :: 0 <= k < |saves| ==> saves[k].Saved? && saves[k].bytes > cap
    ensures ShrinkLoop(d, saves, cap).Unfinished?
    ensures |ShrinkLoop(d, saves, cap).requests| == |saves|
    decreases |saves|
  {
    if saves != [] {
      assert saves[0].Saved? && saves[0].bytes > cap;
      NeverUnderCap(Shrunk(d), saves[1..], cap);
    }
  }

  // ---------------------------------------------------------------------------
  // process_directory

  /** What the libraries and the file system do for one listed file: whether
      the HEIC conversion succeeds, the `resize_image` oracle, and whether
      removing the HEIC original succeeds. */
  datatype FileOracle = FileOracle(
    converts: bool, initial: Option<nat>, dims: Option<Dims>, saves: seq<SaveResult>, removes: bool)

  /** What `process_directory` does with one listed name. */
  datatype Action =
    | Ignored(name: string)                              // not an image name
    | ConversionFailed(source: string, target: string)   // HEIC kept, nothing resized
    | Converted(source: string, target: string, run: ResizeRun, removed: bool)
    | Resized(source: string, target: string, run: ResizeRun)

  /** The output file for a listed image name. */
  function TargetName(name: string): string {
    if IsHeicName(name) then Splitext(name).0 + ".jpg" else name
  }

  /** The action the loop body takes for one name. */
  predicate ActionFor(inputDir: string, outputDir: string, name: string, o: FileOracle, maxMb: nat, a: Action) {
    var run := Resize(o.initial, o.dims, o.saves, maxMb);
    if !IsImageName(name) then a == Ignored(name)
    else if !IsHeicName(name) then a == Resized(Join(inputDir, name), Join(outputDir, name), run)
    else if !o.converts then a == ConversionFailed(Join(inputDir, name), Join(outputDir, TargetName(name)))
    else a == Converted(Join(inputDir, name), Join(outputDir, TargetName(name)), run, run.Done? && o.removes)
  }

  /** The body of the `for filename in os.listdir(input_dir)` loop. */
  method HandleFile(inputDir: string, outputDir: string, name: string, o: FileOracle, maxMb: nat)
    returns (a: Action)
    ensures ActionFor(inputDir, outputDir, name, o, maxMb, a)
  {
    if IsHeicName(name) {
      HeicIsImage(name);
    }
    if !IsImageName(name) {
      return Ignored(name);
    }
    var inputPath := Join(inputDir, name);
    if IsHeicName(name) {
      var outputPath := Join(outputDir, Splitext(name).0 + ".jpg");
      if o.converts {
        var run := ResizeImage(o.initial, o.dims, o.saves, maxMb);
        var removed := false;
        if run.Done? {
          removed := o.removes;
        }
        a := Converted(inputPath, outputPath, run, removed);
      } else {
        a := ConversionFailed(inputPath, outputPath);
      }
    } else {
      var outputPath := Join(outputDir, name);
      var run := ResizeImage(o.initial, o.dims, o.saves, maxMb);
      a := Resized(inputPath, outputPath, run);
    }
  }

  /** `resize_image` looping forever stops the whole directory walk. */
  predicate Hangs(a: Action) {
    (a.Converted? || a.Resized?) && a.run.Unfinished?
  }

  /** The HEIC original is deleted. */
  predicate RemovesOriginal(a: Action) {
    a.Converted? && a.removed
  }

  /** The actions of the loop over a listing, in order; it stops at the
      first file whose resize never ends. */
  ghost predicate ProcessedAs(inputDir: string, outputDir: string, listing: seq<string>,
                              oracle: string -> FileOracle, maxMb: nat, actions: seq<Action>)
  {
    |actions| <= |listing| &&
    (forall k :: 0 <= k < |actions| ==> ActionFor(inputDir, outputDir, listing[k], oracle(listing[k]), maxMb, actions[k])) &&
    (forall k :: 0 <= k < |actions| - 1 ==> !Hangs(actions[k])) &&
    (|actions| < |listing| ==> |actions| > 0 && Hangs(actions[|actions| - 1]))
  }

  /** `process_directory`: one action per listed name, in listing order,
      until a resize that never ends. */
  method ProcessDirectory(inputDir: string, outputDir: string, listing: seq<string>,
                          oracle: string -> FileOracle, maxMb: nat)
    returns (actions: seq<Action>)
    ensures ProcessedAs(inputDir, outputDir, listing, oracle, maxMb, actions)
  {
    actions := [];
    var i := 0;
    while i < |listing|
      invariant i <= |listing| && |actions| == i
      invariant forall k :: 0 <= k < i ==> ActionFor(inputDir, outputDir, listing[k], oracle(listing[k]), maxMb, actions[k])
      invariant forall k :: 0 <= k < i ==> !Hangs(actions[k])
    {
      var a := HandleFile(inputDir, outputDir, listing[i], oracle(listing[i]), maxMb);
      ActionsStep(inputDir, outputDir, listing, oracle, maxMb, actions, a);
      actions := actions + [a];
      if Hangs(a) {
        return;
      }
      i := i + 1;
    }
  }

  /** Appending the action for the next listed name keeps every action the
      one for its name. */
  lemma ActionsStep(inputDir: string, outputDir: string, listing: seq<string>,
                    oracle: string -> FileOracle, maxMb: nat, actions: seq<Action>, a: Action)
    requires |actions| < |listing|
    requires forall k :: 0 <= k < |actions| ==> ActionFor(inputDir, outputDir, listing[k], oracle(listing[k]), maxMb, actions[k])
    requires ActionFor(inputDir, outputDir, listing[|actions|], oracle(listing[|actions|]), maxMb, a)
    ensures forall k :: 0 <= k < |actions| + 1 ==>
      ActionFor(inputDir, outputDir, listing[k], oracle(listing[k]), maxMb, (actions + [a])[k])
  {
    forall k | 0 <= k < |actions| + 1
      ensures ActionFor(inputDir, outputDir, listing[k], oracle(listing[k]), maxMb, (actions + [a])[k])
    {
      if k < |actions| {
        assert (actions + [a])[k] == actions[k];
      } else {
        assert (actions + [a])[k] == a;
      }
    }
  }

  /** The HEIC original is deleted exactly when the name is a HEIC name, the
      conversion and the resize both succeed, and the removal succeeds; in
      every other case it is kept. */
  lemma RemovedIff(inputDir: string, outputDir: string, name: string, o: FileOracle, maxMb: nat, a: Action)
    requires ActionFor(inputDir, outputDir, name, o, maxMb, a)
    ensures RemovesOriginal(a) <==>
      IsHeicName(name) && o.converts && Resize(o.initial, o.dims, o.saves, maxMb).Done? && o.removes
  {
    if IsHeicName(name) {
      HeicIsImage(name);
    }
  }

  /** A deleted HEIC original leaves behind a JPEG within the cap. */
  lemma RemovedLeavesSmallJpeg(inputDir: string, outputDir: string, name: string, o: FileOracle,
                               maxMb: nat, a: Action)
    requires ActionFor(inputDir, outputDir, name, o, maxMb, a)
    requires RemovesOriginal(a)
    ensures a.run.Done? && a.run.bytes <= Cap(maxMb)
    ensures EndsWith(a.target, ".jpg")
  {
    DoneUnderCap(o.initial, o.dims, o.saves, maxMb);
    HeicIsImage(name);
    JoinEndsWith(outputDir, Splitext(name).0, ".jpg");
  }

  /** Joining onto a non-empty name keeps the name's suffix. */
  lemma JoinEndsWith(dir: string, stem: string, suffix: string)
    requires |suffix| > 0
    ensures EndsWith(Join(dir, stem + suffix), suffix)
  {
    var name := stem + suffix;
    EndsWithAppend(stem, suffix);
    if |name| > 0 && name[0] == '/' {
    } else if dir == [] || dir[|dir| - 1] == '/' {
      assert dir + name == (dir + stem) + suffix;
      EndsWithAppend(dir + stem, suffix);
    } else {
      assert dir + "/" + name == (dir + "/" + stem) + suffix;
      EndsWithAppend(dir + "/" + stem, suffix);
    }
  }

  /** Only listed image names are acted on; other names are ignored. */
  lemma OnlyImagesHandled(inputDir: string, outputDir: string, name: string, o: FileOracle, maxMb: nat, a: Action)
    requires ActionFor(inputDir, outputDir, name, o, maxMb, a)
    ensures a.Ignored? <==> !IsImageName(name)
  {
  }

  /** A HEIC name's output is its name with the five-character suffix
      replaced by `.jpg` inside the output directory, unless the name is only
      dots before the suffix (`..heic` gives `..heic.jpg`); other images keep
      their name. */
  lemma TargetNames(name: string)
    requires '/' !in name
    ensures IsHeicName(name) ==>
      (TargetName(name) == if AllDots(name[..|name| - 5]) then name + ".jpg" else name[..|name| - 5] + ".jpg")
    ensures !IsHeicName(name) ==> TargetName(name) == name
  {
    if IsHeicName(name) {
      HeicSibling(name);
      var stem := name[..|name| - 5];
      assert '/' !in stem by {
        forall k | 0 <= k < |stem| ensures stem[k] != '/' {
          assert stem[k] == name[k];
        }
      }
      assert LastIndexOf(stem, '/') == -1;
      assert Basename(stem) == stem;
    }
  }
}
