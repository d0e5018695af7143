/** `run_slideshow`: find the browser, start the driver, list the image
    files, then show them in turn, converting each HEIC image to a temporary
    JPEG sibling that is removed again after its turn. The script loops until
    it is interrupted; here the interrupt arrives after a given number of
    image steps, one oracle entry per step. */
module Slideshow {
  import opened Strings
  import opened Paths
  import opened ImageNames
  import opened SlidePage
  import opened Firefox
  import opened Optional

  /** What the slideshow can change: the existing files (absolute paths),
      the text of `temp.html` (`None` when it does not exist), and the pages
      the browser was sent to, in order. */
  datatype World = World(files: set<string>, page: Option<string>, shown: seq<string>)

  /** What the libraries do in one image step: whether the HEIC decoder and
      JPEG encoder succeed, the size PIL reports when opening the image
      (`None` if it raises), whether writing `temp.html` succeeds, and whether
      the browser loads it. */
  datatype StepOracle = StepOracle(converts: bool, size: Option<Dims>, writes: bool, loads: bool)

  /** The temporary JPEG shown for a HEIC image: its path with the last
      extension replaced by `.jpg`. */
  function JpegPath(imagePath: string): string {
    Splitext(imagePath).0 + ".jpg"
  }

  /** How the page for an image path and its size is built: `create_html`
      with the run's window mode. */
  type PageBuilder = (string, Dims) -> string

  /** The `try` block: open the image to read its size, write the page to
      `temp.html`, and load it; the first failing step ends the block. */
  function Display(w: World, path: string, build: PageBuilder, o: StepOracle): World {
    if path !in w.files || o.size.None? then w
    else
      var html := build(path, o.size.value);
      if !o.writes then w
      else
        var written := w.(page := Some(html));
        if !o.loads then written else written.(shown := written.shown + [html])
  }

  /** One turn of the inner `for` loop for `image`, a name from the listing of
      `dir`; `abspath` stands for `os.path.abspath`. */
  function Step(w: World, dir: string, image: string, build: PageBuilder, o: StepOracle,
                abspath: string -> string): World
  {
    var path := abspath(Join(dir, image));
    if IsHeicName(image) then
      var jpeg := JpegPath(path);
      if !o.converts || path !in w.files then w
      else
        var shown := Display(w.(files := w.files + {jpeg}), jpeg, build, o);
        shown.(files := shown.files - {jpeg})
    else
      Display(w, path, build, o)
  }

  /** Where in the image list step `t` is: the `for` loop starts over at
      the first image after the last one. */
  function Pos(t: nat, n: nat): (j: nat)
    requires n > 0
    ensures j < n
  {
    if t == 0 then 0
    else var j := Pos(t - 1, n); if j + 1 == n then 0 else j + 1
  }

  /** The first pass shows the images in listing order. */
  lemma {:induction false} PosFirstPass(t: nat, n: nat)
    requires t < n
    ensures Pos(t, n) == t
  {
    if t > 0 {
      PosFirstPass(t - 1, n);
    }
  }

  /** Every later pass repeats the first: positions recur every `n` steps. */
  lemma {:induction false} PosPeriodic(t: nat, n: nat)
    requires n > 0
    ensures Pos(t + n, n) == Pos(t, n)
  {
    if t == 0 {
      PosFirstPass(n - 1, n);
    } else {
      PosPeriodic(t - 1, n);
      assert t + n - 1 == (t - 1) + n;
    }
  }

  /** The world after one step per oracle entry, cycling through `images`. */
  function Run(w: World, dir: string, images: seq<string>, build: PageBuilder,
               oracles: seq<StepOracle>, abspath: string -> string): World
    requires |images| > 0
    decreases |oracles|
  {
    if oracles == [] then w
    else
      var t := |oracles| - 1;
      var before := Run(w, dir, images, build, oracles[..t], abspath);
      Step(before, dir, images[Pos(t, |images|)], build, oracles[t], abspath)
  }

  /** One more oracle entry runs one more step. */
  lemma RunPrefixStep(w: World, dir: string, images: seq<string>, build: PageBuilder,
                      oracles: seq<StepOracle>, abspath: string -> string, t: nat)
    requires |images| > 0 && t < |oracles|
    ensures Run(w, dir, images, build, oracles[..t + 1], abspath)
      == Step(Run(w, dir, images, build, oracles[..t], abspath), dir, images[Pos(t, |images|)],
              build, oracles[t], abspath)
  {
    assert oracles[..t + 1][..t] == oracles[..t];
  }

  /** `while True` around `for image in image_files`, until the interrupt
      that follows the last oracle entry. */
  method ShowImages(w0: World, dir: string, images: seq<string>, build: PageBuilder,
                    oracles: seq<StepOracle>, abspath: string -> string)
    returns (w: World)
    requires |images| > 0
    ensures w == Run(w0, dir, images, build, oracles, abspath)
  {
    var n := |images|;
    w := w0;
    var t := 0;
    while t < |oracles|
      invariant t <= |oracles| && (t == |oracles| || Pos(t, n) == 0)
      invariant w == Run(w0, dir, images, build, oracles[..t], abspath)
      decreases |oracles| - t
    {
      ghost var start := t;
      var j := 0;
      while j < n && t < |oracles|
        invariant j <= n && t == start + j && t <= |oracles|
        invariant Pos(t, n) == if j == n then 0 else j
        invariant w == Run(w0, dir, images, build, oracles[..t], abspath)
        decreases n - j
      {
        assert Pos(t, n) == j;
        RunPrefixStep(w0, dir, images, build, oracles, abspath, t);
        w := Step(w, dir, images[j], build, oracles[t], abspath);
        j := j + 1;
        t := t + 1;
      }
    }
    assert oracles[..t] == oracles;
  }

  /** How a call of `run_slideshow` ends. */
  datatype Outcome =
    | LookupCrashed     // reading the wrapper script raised
    | NoBrowser         // no Firefox binary, or the given one is not a file
    | DriverFailed      // the WebDriver did not start
    | NoImages          // the listing holds no image file
    | Stopped(world: World)  // interrupted after the image steps

  /** The browser binary to use: the given one, else the lookup's. */
  function Browser(firefoxArg: string, which: string, files: set<string>, text: map<string, string>): Lookup {
    if firefoxArg == "" then FirefoxLookup(which, files, text) else Found(firefoxArg)
  }

  /** The pages of a run: `create_html` in the run's window mode. */
  function Builder(fullscreen: bool): PageBuilder {
    (path: string, size: Dims) => CreateHtml(path, size, fullscreen)
  }

  /** The whole run, as the script performs it. */
  function Slideshow(w: World, dir: string, listing: seq<string>, fullscreen: bool,
                     firefoxArg: string, which: string, text: map<string, string>,
                     driverStarts: bool, oracles: seq<StepOracle>, abspath: string -> string): Outcome
  {
    var browser := Browser(firefoxArg, which, w.files, text);
    if browser == ReadFailed then LookupCrashed
    else if browser == NotFound || browser.path == "" || browser.path !in w.files then NoBrowser
    else if !driverStarts then DriverFailed
    else
      var images := FilterImages(listing);
      if images == [] then NoImages
      else
        var last := Run(w, dir, images, Builder(fullscreen), oracles, abspath);
        Stopped(last.(page := None))
  }

  /** The script's control flow: the launch checks, the image loop, then the
      removal of `temp.html` in the outer `finally`. */
  method RunSlideshow(w0: World, dir: string, listing: seq<string>, fullscreen: bool,
                      firefoxArg: string, which: string, text: map<string, string>,
                      driverStarts: bool, oracles: seq<StepOracle>, abspath: string -> string)
    returns (outcome: Outcome)
    ensures outcome == Slideshow(w0, dir, listing, fullscreen, firefoxArg, which, text,
                                 driverStarts, oracles, abspath)
  {
    var firefoxPath := firefoxArg;
    if firefoxPath == "" {
      var found := FindFirefoxBinary(which, w0.files, text);
      if found == ReadFailed {
        return LookupCrashed;
      }
      firefoxPath := if found.Found? then found.path else "";
    }
    if firefoxPath == "" || firefoxPath !in w0.files {
      return NoBrowser;
    }
    if !driverStarts {
      return DriverFailed;
    }
    var images := FilterImages(listing);
    if images == [] {
      return NoImages;
    }
    var w := ShowImages(w0, dir, images, Builder(fullscreen), oracles, abspath);
    outcome := Stopped(w.(page := None));
  }

  // ---------------------------------------------------------------------------
  // What one step does

  /** A HEIC image that cannot be converted is skipped: no page is written or
      shown, and the cleanup in `finally` is not reached, so nothing changes. */
  lemma FailedConversionSkips(w: World, dir: string, image: string, build: PageBuilder,
                              o: StepOracle, abspath: string -> string)
    requires IsHeicName(image)
    requires !o.converts || abspath(Join(dir, image)) !in w.files
    ensures Step(w, dir, image, build, o, abspath) == w
  {
  }

  /** After a converted HEIC image, its JPEG sibling is gone whether or not
      the page was shown, and every other file is as before; a JPEG of that
      name that existed beforehand is deleted too. */
  lemma ConvertedJpegRemoved(w: World, dir: string, image: string, build: PageBuilder,
                             o: StepOracle, abspath: string -> string)
    requires IsHeicName(image)
    requires o.converts && abspath(Join(dir, image)) in w.files
    ensures Step(w, dir, image, build, o, abspath).files
      == w.files - {JpegPath(abspath(Join(dir, image)))}
  {
    var jpeg := JpegPath(abspath(Join(dir, image)));
    DisplayKeepsFiles(w.(files := w.files + {jpeg}), jpeg, build, o);
  }

  lemma DisplayKeepsFiles(w: World, path: string, build: PageBuilder, o: StepOracle)
    ensures Display(w, path, build, o).files == w.files
  {
  }

  /** Steps for other image files leave the files alone. */
  lemma PlainImageKeepsFiles(w: World, dir: string, image: string, build: PageBuilder,
                             o: StepOracle, abspath: string -> string)
    requires !IsHeicName(image)
    ensures Step(w, dir, image, build, o, abspath).files == w.files
  {
    DisplayKeepsFiles(w, abspath(Join(dir, image)), build, o);
  }

  /** Whether a step gets as far as `driver.get` succeeding. */
  predicate StepShows(w: World, dir: string, image: string, o: StepOracle, abspath: string -> string) {
    var path := abspath(Join(dir, image));
    (if IsHeicName(image) then o.converts && path in w.files else path in w.files) &&
    o.size.Some? && o.writes && o.loads
  }

  /** The path whose page a step builds: the JPEG sibling for a HEIC image. */
  function ShownPath(dir: string, image: string, abspath: string -> string): string {
    var path := abspath(Join(dir, image));
    if IsHeicName(image) then JpegPath(path) else path
  }

  /** A step shows exactly one page, the one built for the shown path and the
      size read from it, when every step succeeds; otherwise it shows none. */
  lemma StepShown(w: World, dir: string, image: string, build: PageBuilder,
                  o: StepOracle, abspath: string -> string)
    ensures var after := Step(w, dir, image, build, o, abspath);
      after.shown == if StepShows(w, dir, image, o, abspath)
        then w.shown + [build(ShownPath(dir, image, abspath), o.size.value)]
        else w.shown
  {
  }

  /** `temp.html` holds the latest page that was built and written. */
  lemma StepPage(w: World, dir: string, image: string, build: PageBuilder,
                 o: StepOracle, abspath: string -> string)
    ensures var after := Step(w, dir, image, build, o, abspath);
      var path := abspath(Join(dir, image));
      var reached := (if IsHeicName(image) then o.converts && path in w.files else path in w.files) &&
        o.size.Some? && o.writes;
      after.page == if reached
        then Some(build(ShownPath(dir, image, abspath), o.size.value))
        else w.page
  {
  }

  // ---------------------------------------------------------------------------
  // What a whole run does

  /** The slideshow never creates a file that outlives its step: the files
      after any number of steps are a subset of those before. */
  lemma {:induction false} RunOnlyRemoves(w: World, dir: string, images: seq<string>, build: PageBuilder,
                                          oracles: seq<StepOracle>, abspath: string -> string)
    requires |images| > 0
    ensures Run(w, dir, images, build, oracles, abspath).files <= w.files
    decreases |oracles|
  {
    if oracles != [] {
      var t := |oracles| - 1;
      var before := Run(w, dir, images, build, oracles[..t], abspath);
      RunOnlyRemoves(w, dir, images, build, oracles[..t], abspath);
      var image := images[Pos(t, |images|)];
      if IsHeicName(image) {
        if oracles[t].converts && abspath(Join(dir, image)) in before.files {
          ConvertedJpegRemoved(before, dir, image, build, oracles[t], abspath);
        }
      } else {
        PlainImageKeepsFiles(before, dir, image, build, oracles[t], abspath);
      }
    }
  }

  /** The pages shown so far are kept, and each step adds at most one. */
  lemma {:induction false} RunShowsAtMostOnePerStep(w: World, dir: string, images: seq<string>,
                                                    build: PageBuilder, oracles: seq<StepOracle>,
                                                    abspath: string -> string)
    requires |images| > 0
    ensures var shown := Run(w, dir, images, build, oracles, abspath).shown;
      w.shown <= shown && |shown| <= |w.shown| + |oracles|
    decreases |oracles|
  {
    if oracles != [] {
      var t := |oracles| - 1;
      var before := Run(w, dir, images, build, oracles[..t], abspath);
      RunShowsAtMostOnePerStep(w, dir, images, build, oracles[..t], abspath);
      StepShown(before, dir, images[Pos(t, |images|)], build, oracles[t], abspath);
    }
  }

  /** An empty filtered listing ends the run before any image step: no page
      is written or shown. */
  lemma NoImagesNoSteps(w: World, dir: string, listing: seq<string>, fullscreen: bool,
                        firefoxArg: string, which: string, text: map<string, string>,
                        driverStarts: bool, oracles: seq<StepOracle>, abspath: string -> string)
    requires forall k :: 0 <= k < |listing| ==> !IsImageName(listing[k])
    ensures Slideshow(w, dir, listing, fullscreen, firefoxArg, which, text, driverStarts, oracles, abspath)
      in {LookupCrashed, NoBrowser, DriverFailed, NoImages}
    ensures driverStarts ==>
      Slideshow(w, dir, listing, fullscreen, firefoxArg, which, text, driverStarts, oracles, abspath)
      in {LookupCrashed, NoBrowser, NoImages}
  {
    FilterImagesEmpty(listing);
  }

  /** An interrupted run removes `temp.html` and leaves no file that did not
      exist before it started. */
  lemma StoppedCleansUp(w: World, dir: string, listing: seq<string>, fullscreen: bool,
                        firefoxArg: string, which: string, text: map<string, string>,
                        driverStarts: bool, oracles: seq<StepOracle>, abspath: string -> string)
    ensures var r := Slideshow(w, dir, listing, fullscreen, firefoxArg, which, text,
                               driverStarts, oracles, abspath);
      r.Stopped? ==> r.world.page == None && r.world.files <= w.files
  {
    var images := FilterImages(listing);
    if images != [] {
      RunOnlyRemoves(w, dir, images, Builder(fullscreen), oracles, abspath);
    }
  }

  /** The run reaches the image steps exactly when a browser binary that is an
      existing file was given or found, the driver started, and the listing
      holds an image file. */
  lemma WhenStepsRun(w: World, dir: string, listing: seq<string>, fullscreen: bool,
                     firefoxArg: string, which: string, text: map<string, string>,
                     driverStarts: bool, oracles: seq<StepOracle>, abspath: string -> string)
    ensures var browser := Browser(firefoxArg, which, w.files, text);
      Slideshow(w, dir, listing, fullscreen, firefoxArg, which, text, driverStarts, oracles, abspath).Stopped?
      <==> (browser.Found? && browser.path != "" && browser.path in w.files && driverStarts &&
            exists k :: 0 <= k < |listing| && IsImageName(listing[k]))
  {
    FilterImagesEmpty(listing);
  }
}
