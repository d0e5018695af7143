# image_projector in Dafny

This project models the logic of three Python scripts from the image_projector
repository, a home slideshow for a projector.

- `python_to_screen_with_heic_not_fullscreen_3.py` shows the images of a
  directory one after another in Firefox.
  - `find_firefox_binary` locates the browser.
  - `get_image_orientation` and `create_html` build one HTML page per image.
  - `run_slideshow` cycles through the image files. A HEIC photo is first
    converted to a temporary JPEG sibling, which is deleted after its turn.
- `image_shrink_under_1MB.py` shrinks images until they fit under a size cap.
  - `resize_image` cuts both dimensions by 10% per step until the saved file
    is within the cap.
  - `process_directory` applies it to a directory. It converts HEIC files to
    JPEG first, and deletes a HEIC original only once its JPEG fits.
- `heic_to_jpg.py` is a two-loop script. HEIC files become PNGs in a
  temporary folder, and every file of that folder then becomes a JPEG.

Libraries and the operating system appear as inputs. These are PIL and
pillow_heif decoding, encoding and sizes, Selenium, `which firefox`, directory
listings, regular-file tests, readable file texts, and `os.path.abspath`. Each
is passed in as a set, a map, a sequence or a function, or as an "oracle"
datatype that says what a library call does in one step
(`Slideshow.StepOracle`, `Shrink.SaveResult`, `Shrink.FileOracle`). Each
operation that the script performs step by step is a method with its loop. It
is proved equal to a specification function, and the properties are proved as
lemmas about that function.

Modules:

- `Strings`: the Python `str` operations used.
  - `lower` (ASCII only), `endswith` and `in`.
  - `replace`, as a leftmost, non-overlapping scan.
  - `split('\n')`, `split()` and `strip('"')`.
- `Paths`: `os.path.join`, `basename` and `splitext`, with its leading-dots rule.
- `ImageNames`: the image-suffix filter shared by two scripts.
- `SlidePage`: the orientation rule and `create_html`.
  - The style sheet is kept as rules that render to the exact text the script
    emits.
  - "Last declaration wins" gives each CSS property the value the browser
    applies.
- `Firefox`: `find_firefox_binary`.
- `Slideshow`: `run_slideshow`.
  - The state is a `World` value: existing files, `temp.html`, and the pages
    shown so far.
- `Shrink`: `resize_image` and `process_directory`.
- `HeicToJpg`: the two loops of `heic_to_jpg.py`.

## Model

| member | source | states |
|---|---|---|
| Strings.Lower | python_to_screen_with_heic_not_fullscreen_3.py:163 | `lower()` keeps the length, leaves no upper-case ASCII letter, and changes each character at most in its letter case |
| Strings.LowerUnique | python_to_screen_with_heic_not_fullscreen_3.py:163 | those three properties determine the lower-cased string uniquely |
| Strings.LowerIgnoresCase | python_to_screen_with_heic_not_fullscreen_3.py:163 | two names that differ only in letter case lower-case to the same string, so the suffix tests ignore case |
| Strings.LowerIdempotent | python_to_screen_with_heic_not_fullscreen_3.py:163 | lower-casing twice is lower-casing once |
| Strings.LowerAppend | image_shrink_under_1MB.py:58 | lower-casing distributes over concatenation |
| Strings.ReplaceAbsent | heic_to_jpg.py:20 | `replace` leaves a string with no occurrence of the pattern unchanged |
| Strings.ReplaceFirst | heic_to_jpg.py:20 | `replace` copies everything before the leftmost occurrence, substitutes it, then resumes after it |
| Strings.IndexOf | python_to_screen_with_heic_not_fullscreen_3.py:45 | the result is the position of the first separator, or the length when there is none |
| Strings.SplitOnJoin | python_to_screen_with_heic_not_fullscreen_3.py:45 | `split('\n')` gives at least one piece; no piece holds the separator; joining the pieces with it gives back the text |
| Strings.SplitOnNone | python_to_screen_with_heic_not_fullscreen_3.py:45 | a text without the separator splits into itself alone |
| Strings.SplitOnKeepsOccurrence | python_to_screen_with_heic_not_fullscreen_3.py:44-45 | a pattern free of the separator that occurs in the text occurs within one of its pieces |
| Strings.RunLength | python_to_screen_with_heic_not_fullscreen_3.py:46 | the leading run ends at the first whitespace character |
| Strings.Tokens | python_to_screen_with_heic_not_fullscreen_3.py:46 | `split()` yields non-empty, whitespace-free tokens, and none only when the line is all whitespace |
| Strings.TokensCons | python_to_screen_with_heic_not_fullscreen_3.py:46 | a whitespace-free run followed by any whitespace character and more text splits into that run followed by the split of the rest |
| Strings.TokensSkipSpace | python_to_screen_with_heic_not_fullscreen_3.py:46 | leading whitespace yields no token; with `TokensCons`, `TokensSingle` and the empty case this fixes `split()` on every input |
| Strings.TokensSingle | python_to_screen_with_heic_not_fullscreen_3.py:46 | a non-empty string without whitespace is one token |
| Strings.StripLeft | python_to_screen_with_heic_not_fullscreen_3.py:46 | the result is a suffix that no longer starts with the character, and only that character was dropped |
| Strings.StripRight | python_to_screen_with_heic_not_fullscreen_3.py:46 | the result is a prefix that no longer ends with the character, and only that character was dropped |
| Paths.LastIndexOf | python_to_screen_with_heic_not_fullscreen_3.py:176 | the position of the last given character, or -1 when there is none |
| Paths.JoinBasename | image_shrink_under_1MB.py:59 | the base name of `join(dir, name)` is `name` for a name without `/` |
| Paths.SplitextParts | python_to_screen_with_heic_not_fullscreen_3.py:176 | the two parts of `splitext` concatenate to the path, and a non-empty extension is a dot followed by no dot or slash |
| Paths.SplitextAt | python_to_screen_with_heic_not_fullscreen_3.py:176 | `splitext` cuts at the last dot of the base name unless everything before that dot is dots |
| Paths.HeicSuffixShape | python_to_screen_with_heic_not_fullscreen_3.py:175 | a name ending in `.heic` in any case has its dot five from the end, with no dot or slash after it |
| Paths.HeicSibling | python_to_screen_with_heic_not_fullscreen_3.py:176 | `splitext(p)[0] + '.jpg'` replaces the five-character suffix by `.jpg`, or appends `.jpg` when the base name is only dots before it |
| ImageNames.HeicIsImage | python_to_screen_with_heic_not_fullscreen_3.py:175 | every HEIC name passes the image filter |
| ImageNames.FilterImages | python_to_screen_with_heic_not_fullscreen_3.py:163 | the list keeps exactly the listed names whose lower-case form ends with an image suffix |
| ImageNames.FilterImagesAppend | python_to_screen_with_heic_not_fullscreen_3.py:163 | filtering commutes with concatenation, so kept names stay in listing order |
| ImageNames.FilterImagesEmpty | python_to_screen_with_heic_not_fullscreen_3.py:163-165 | the filtered list is empty exactly when no listed name is an image |
| SlidePage.OrientationOf | python_to_screen_with_heic_not_fullscreen_3.py:60-63 | landscape exactly when width exceeds height; a square image is portrait |
| SlidePage.StyleText | python_to_screen_with_heic_not_fullscreen_3.py:66-117 | the style text is the base block, then exactly one orientation block, then the windowed block exactly when not full screen |
| SlidePage.StyleRules | python_to_screen_with_heic_not_fullscreen_3.py:66-117 | the rules in force are the base rules, then the orientation rule, then the windowed rules when not full screen |
| SlidePage.EffectiveAppend | python_to_screen_with_heic_not_fullscreen_3.py:107-117 | rules appended later override earlier ones for every property they declare |
| SlidePage.ImgRules | python_to_screen_with_heic_not_fullscreen_3.py:87-106 | the base `img` rule sets `object-fit: contain` and both maxima to 100%; the orientation rule sets only width and height |
| SlidePage.ImageFit | python_to_screen_with_heic_not_fullscreen_3.py:63-106 | a landscape image gets width 100% and height auto, a portrait or square one the reverse, always contained within 100% |
| SlidePage.WindowedLeavesImg | python_to_screen_with_heic_not_fullscreen_3.py:107-117 | the windowed override says nothing about `img` |
| SlidePage.OrientationLeavesLayout | python_to_screen_with_heic_not_fullscreen_3.py:93-106 | the orientation rules say nothing about `body` or the container |
| SlidePage.BaseLayout | python_to_screen_with_heic_not_fullscreen_3.py:67-86 | the base block gives a black body and a 98vw by 98vh container with no margin |
| SlidePage.WindowedLayout | python_to_screen_with_heic_not_fullscreen_3.py:107-117 | the windowed block gives a `#333` body and a 78vw by 78vh container with margin `11vh auto` |
| SlidePage.Backdrop | python_to_screen_with_heic_not_fullscreen_3.py:67-117 | full screen keeps black and 98vw/98vh with no margin; windowed mode applies `#333`, 78vw/78vh and the 11vh margin |
| SlidePage.TemplateTags | python_to_screen_with_heic_not_fullscreen_3.py:118-129 | the template pieces before the style, between style and tag, and after the path start no tag beginning `<i`, and `<img src="file://` holds `<` only at its start |
| SlidePage.StyleHasNoTag | python_to_screen_with_heic_not_fullscreen_3.py:66-117 | no style text contains a `<` |
| SlidePage.RenderBlocksNoLt | python_to_screen_with_heic_not_fullscreen_3.py:67-117 | rendering `<`-free blocks gives `<`-free text |
| SlidePage.PageTag | python_to_screen_with_heic_not_fullscreen_3.py:118-129 | with a `<`-free style and path, the page holds `<img` at exactly one position, followed by `src="file://` and the path |
| SlidePage.OneImageTag | python_to_screen_with_heic_not_fullscreen_3.py:118-129 | the page `create_html` builds for a `<`-free path has exactly one `<img`, right after the style and the container opening, and its `src` is `file://` followed by the path |
| Firefox.ExecLines | python_to_screen_with_heic_not_fullscreen_3.py:45 | the comprehension keeps exactly the lines containing `exec` |
| Firefox.ExecLinesFirst | python_to_screen_with_heic_not_fullscreen_3.py:45 | element `[0]` is the first line containing `exec` |
| Firefox.ExecLineExists | python_to_screen_with_heic_not_fullscreen_3.py:44-45 | when the text contains `exec`, some line does, so `[0]` never fails |
| Firefox.LastToken | python_to_screen_with_heic_not_fullscreen_3.py:46 | `split()[-1]` of a line with `exec` exists and holds no whitespace |
| Firefox.WrapperTarget | python_to_screen_with_heic_not_fullscreen_3.py:44-46 | a target exists exactly when the script contains `exec`; it holds no whitespace and neither starts nor ends with `"` |
| Firefox.WrapperTargetFirstLine | python_to_screen_with_heic_not_fullscreen_3.py:45-46 | the target is the quote-stripped last token of the first line containing `exec` |
| Firefox.ForwardingWrapper | python_to_screen_with_heic_not_fullscreen_3.py:45-46 | a first `exec` line ending in `"$@"` yields `$@`, not the binary |
| Firefox.FirstExisting | python_to_screen_with_heic_not_fullscreen_3.py:55-58 | the first regular file of the list is found, or none when none is a regular file |
| Firefox.FindFirefoxBinary | python_to_screen_with_heic_not_fullscreen_3.py:39-58 | the loop returns exactly the lookup function's outcome, including the uncaught read error |
| Firefox.LookupFindsFile | python_to_screen_with_heic_not_fullscreen_3.py:39-58 | a found binary is a regular file and is either the wrapper's target or a fallback |
| Firefox.WrapperWins | python_to_screen_with_heic_not_fullscreen_3.py:44-48 | an existing wrapper target is returned before any fallback is tried |
| Firefox.FallbackOrder | python_to_screen_with_heic_not_fullscreen_3.py:50-58 | without a usable wrapper target the three fallbacks are tried in order; `None` exactly when none exists |
| Slideshow.Pos | python_to_screen_with_heic_not_fullscreen_3.py:171-172 | each step's position lies within the image list |
| Slideshow.PosFirstPass | python_to_screen_with_heic_not_fullscreen_3.py:172 | the first pass shows the images in listing order |
| Slideshow.PosPeriodic | python_to_screen_with_heic_not_fullscreen_3.py:171-172 | every later pass repeats the first; positions recur every `n` steps |
| Slideshow.RunPrefixStep | python_to_screen_with_heic_not_fullscreen_3.py:171-197 | one more oracle entry runs exactly one more image step |
| Slideshow.ShowImages | python_to_screen_with_heic_not_fullscreen_3.py:170-197 | the nested `while True`/`for` loops produce the world of the step-by-step run |
| Slideshow.RunSlideshow | python_to_screen_with_heic_not_fullscreen_3.py:131-206 | the script's control flow gives exactly the outcome of the specification, including its early returns |
| Slideshow.FailedConversionSkips | python_to_screen_with_heic_not_fullscreen_3.py:175-179 | a HEIC image that cannot be converted changes nothing: no page, no display, no cleanup |
| Slideshow.ConvertedJpegRemoved | python_to_screen_with_heic_not_fullscreen_3.py:195-197 | after a converted HEIC image its JPEG sibling is gone, shown or not; every other file is unchanged |
| Slideshow.DisplayKeepsFiles | python_to_screen_with_heic_not_fullscreen_3.py:182-193 | displaying creates and deletes no image file |
| Slideshow.PlainImageKeepsFiles | python_to_screen_with_heic_not_fullscreen_3.py:182-197 | a step for a non-HEIC image leaves the files alone |
| Slideshow.StepShown | python_to_screen_with_heic_not_fullscreen_3.py:175-189 | a step shows exactly one page, built from the shown path and its size, when conversion, open, write and load succeed; otherwise it shows none |
| Slideshow.StepPage | python_to_screen_with_heic_not_fullscreen_3.py:183-186 | `temp.html` holds the page of the latest step that got as far as writing it |
| Slideshow.RunOnlyRemoves | python_to_screen_with_heic_not_fullscreen_3.py:170-197 | the files after any number of steps are a subset of those before |
| Slideshow.RunShowsAtMostOnePerStep | python_to_screen_with_heic_not_fullscreen_3.py:170-197 | earlier pages stay shown, and each step adds at most one |
| Slideshow.NoImagesNoSteps | python_to_screen_with_heic_not_fullscreen_3.py:163-168 | with no image in the listing the run ends before any image step, whether or not the driver starts; with a started driver it ends with no browser, a failed lookup or no images |
| Slideshow.StoppedCleansUp | python_to_screen_with_heic_not_fullscreen_3.py:199-206 | a run interrupted between image steps (or during `sleep`) removes `temp.html` and leaves no file that did not exist before; an interrupt inside the HEIC conversion is not covered |
| Slideshow.WhenStepsRun | python_to_screen_with_heic_not_fullscreen_3.py:141-168 | image steps run exactly when an existing browser binary is given or found, the driver starts, and the listing holds an image |
| Shrink.Decay | image_shrink_under_1MB.py:37-38 | the new dimension is the floor of 9/10 of the old one: never larger, and strictly smaller from 1 on |
| Shrink.ResizeImage | image_shrink_under_1MB.py:22-51 | the loop gives exactly the run of the specification for every oracle |
| Shrink.ShrinkStep | image_shrink_under_1MB.py:35-45 | one iteration either fails, ends within the cap, or continues from the reduced size |
| Shrink.EarlyExit | image_shrink_under_1MB.py:25-29 | an input already within the cap is accepted with no write |
| Shrink.ShrinkLoopDoneUnderCap | image_shrink_under_1MB.py:35-45 | a loop that ends normally ends within the cap |
| Shrink.DoneUnderCap | image_shrink_under_1MB.py:22-48 | `True` only with a last measured size within the cap |
| Shrink.ShrinkLoopRequests | image_shrink_under_1MB.py:33-41 | iteration `k` asks for the size reduced `k+1` times, with at most one iteration per oracle entry |
| Shrink.RequestsShrink | image_shrink_under_1MB.py:36-38 | requested dimensions never grow and strictly shrink while at least 1 |
| Shrink.ShrinkLoopFails | image_shrink_under_1MB.py:35-50 | the loop fails exactly when an exception comes before any size within the cap |
| Shrink.FailsIff | image_shrink_under_1MB.py:22-51 | `False` exactly when reading the size, opening the image, or an iteration before the cap is reached raises |
| Shrink.NeverUnderCap | image_shrink_under_1MB.py:35-45 | if no save gets within the cap, the loop uses every oracle entry and never ends |
| Shrink.HandleFile | image_shrink_under_1MB.py:58-79 | the loop body ignores non-images, resizes other images in place of the same name, and converts then resizes HEIC files, deleting the original only after a successful resize |
| Shrink.ProcessDirectory | image_shrink_under_1MB.py:53-79 | one action per listed name in listing order, stopping only at a resize that never ends |
| Shrink.RemovedIff | image_shrink_under_1MB.py:61-76 | the HEIC original is deleted exactly when conversion, resize and removal all succeed |
| Shrink.RemovedLeavesSmallJpeg | image_shrink_under_1MB.py:63-70 | a deleted HEIC original leaves a `.jpg` output within the cap |
| Shrink.JoinEndsWith | image_shrink_under_1MB.py:64 | joining onto a name keeps the name's suffix |
| Shrink.OnlyImagesHandled | image_shrink_under_1MB.py:58 | a name is ignored exactly when it is not an image name |
| Shrink.TargetNames | image_shrink_under_1MB.py:61-64 | a HEIC output is the name with its suffix replaced by `.jpg` (appended for an all-dots stem); other images keep their name |
| HeicToJpg.PngWritesOf | heic_to_jpg.py:8-21 | the first loop writes one PNG per listed HEIC name and for no other name |
| HeicToJpg.PngWritesAppend | heic_to_jpg.py:8-21 | the first loop's writes follow listing order |
| HeicToJpg.JpgWrites | heic_to_jpg.py:26-29 | the second loop writes one JPEG per listed file, with no filter |
| HeicToJpg.FirstPass | heic_to_jpg.py:8-21 | `FirstPassOutcome`: the loop completes exactly when no HEIC name fails, having made one PNG write per HEIC name in listing order; otherwise it stops at the first failing name, after exactly the writes for the names before it |
| HeicToJpg.SecondPass | heic_to_jpg.py:26-33 | `SecondPassOutcome`: the loop completes exactly when every listed file opens, having made one JPEG write per name in listing order; otherwise it stops at the first unreadable name, after exactly the writes for the names before it |
| HeicToJpg.Script | heic_to_jpg.py:5-33 | the first loop ends as its outcome predicate says; the second loop runs exactly when the first completes, and then ends as its own outcome predicate says |
| HeicToJpg.PngOfLowerHeic | heic_to_jpg.py:20 | `stem.heic` with a dot-free stem becomes `stem.png` |
| HeicToJpg.PngOfUpperHeic | heic_to_jpg.py:20 | `stem.HEIC` with a dot-free stem becomes `stem.png` |
| HeicToJpg.MixedCaseKept | heic_to_jpg.py:9-20 | `stem.Heic` passes the filter but keeps its name |
| HeicToJpg.JpgOfPng | heic_to_jpg.py:29 | `stem.png` becomes `stem.jpg` |
| HeicToJpg.Pipeline | heic_to_jpg.py:20-29 | a lower- or upper-case HEIC photo goes to `stem.png` in the folder the second loop lists, then to `stem.jpg` in the final folder |
| Strings.Replace | heic_to_jpg.py:20 | definition of `str.replace`: a left-to-right scan that rewrites each non-overlapping occurrence; characterised by `ReplaceAbsent` and `ReplaceFirst` |
| Strings.SplitOn | python_to_screen_with_heic_not_fullscreen_3.py:45 | definition of `split('\n')`: the text up to the first separator, then the split of the rest; characterised by `SplitOnJoin`, `SplitOnStep`, `SplitOnLast` |
| Strings.Strip | python_to_screen_with_heic_not_fullscreen_3.py:46 | definition of `strip('"')` as `rstrip` after `lstrip`; characterised by `StripLeft` and `StripRight` |
| Paths.Join | image_shrink_under_1MB.py:59 | definition of two-argument `os.path.join`; characterised by `JoinBasename` and `Shrink.JoinEndsWith` |
| Paths.Basename | image_shrink_under_1MB.py:63 | definition of `os.path.basename` as what follows the last `/`; characterised by `JoinBasename` |
| Paths.Splitext | python_to_screen_with_heic_not_fullscreen_3.py:176 | definition of `os.path.splitext` with the leading-dots rule; characterised by `SplitextParts`, `SplitextAt`, `HeicSibling` |
| ImageNames.IsImageName | python_to_screen_with_heic_not_fullscreen_3.py:163 | definition of the five-suffix test on the lower-cased name; characterised by `HeicIsImage`, `FilterImages` and `Strings.LowerIgnoresCase` |
| SlidePage.Style | python_to_screen_with_heic_not_fullscreen_3.py:66-117 | definition of the `style` text as the rendering of the appended blocks; characterised by `StyleText`, `ImageFit`, `Backdrop`, `StyleHasNoTag` |
| SlidePage.Page | python_to_screen_with_heic_not_fullscreen_3.py:118-129 | definition of the HTML document around the style and the image path; characterised by `PageTag` |
| SlidePage.CreateHtml | python_to_screen_with_heic_not_fullscreen_3.py:65-129 | definition of `create_html`: the page for the style of the image's orientation and window mode; characterised by `OneImageTag` |
| Firefox.FirefoxLookup | python_to_screen_with_heic_not_fullscreen_3.py:39-58 | definition of `find_firefox_binary`'s outcome; characterised by `FindFirefoxBinary`, `LookupFindsFile`, `WrapperWins`, `FallbackOrder` |
| Slideshow.JpegPath | python_to_screen_with_heic_not_fullscreen_3.py:176 | definition of `splitext(image_path)[0] + '.jpg'`; characterised by `Paths.HeicSibling` |
| Slideshow.Display | python_to_screen_with_heic_not_fullscreen_3.py:182-192 | definition of the inner `try`: build the page, write `temp.html`, load it; characterised by `DisplayKeepsFiles`, `StepPage`, `StepShown` |
| Slideshow.Step | python_to_screen_with_heic_not_fullscreen_3.py:173-197 | definition of one pass of the `for image` body, HEIC conversion and `finally` removal included; characterised by `FailedConversionSkips`, `ConvertedJpegRemoved`, `PlainImageKeepsFiles`, `StepShows` |
| Slideshow.Run | python_to_screen_with_heic_not_fullscreen_3.py:171-197 | definition of the `while True` / `for image` loops over the step oracles; characterised by `ShowImages`, `RunPrefixStep`, `RunOnlyRemoves`, `RunShowsAtMostOnePerStep` |
| Slideshow.Slideshow | python_to_screen_with_heic_not_fullscreen_3.py:131-206 | definition of `run_slideshow`'s outcome; characterised by `RunSlideshow`, `NoImagesNoSteps`, `StoppedCleansUp`, `WhenStepsRun` |
| Shrink.ShrinkLoop | image_shrink_under_1MB.py:35-45 | definition of the `while file_size > max_size_mb` loop over the save oracle; characterised by `ShrinkLoopDoneUnderCap`, `ShrinkLoopRequests`, `ShrinkLoopFails`, `NeverUnderCap` |
| Shrink.Resize | image_shrink_under_1MB.py:22-51 | definition of `resize_image`'s result; characterised by `ResizeImage`, `EarlyExit`, `DoneUnderCap`, `FailsIff` |
| Shrink.TargetName | image_shrink_under_1MB.py:61-78 | definition of the output file name; characterised by `TargetNames` |
| Shrink.ActionFor | image_shrink_under_1MB.py:57-79 | definition of what the loop body does with one listed name; characterised by `HandleFile`, `RemovedIff`, `RemovedLeavesSmallJpeg`, `OnlyImagesHandled` |
| HeicToJpg.PngName | heic_to_jpg.py:20 | definition of the two chained `replace` calls; characterised by `PngOfLowerHeic`, `PngOfUpperHeic`, `MixedCaseKept` |
| HeicToJpg.JpgName | heic_to_jpg.py:29 | definition of `replace(".png", ".jpg")`; characterised by `JpgOfPng` |
| HeicToJpg.PngWrites | heic_to_jpg.py:8-21 | definition of the first loop's writes when nothing raises; characterised by `PngWritesOf`, `PngWritesAppend`, `FirstPass` |

Behaviour the proofs make explicit:

- `Firefox.ForwardingWrapper` covers the common case where a wrapper script
  ends with `exec /usr/lib/firefox/firefox "$@"`. The target is then `$@`, so
  the fallbacks decide.
- `Slideshow.ConvertedJpegRemoved` shows that a JPEG which already existed
  beside a HEIC photo is deleted after that photo's turn.
- `Paths.HeicSibling` shows what happens to a HEIC file whose name is only
  dots before the suffix, such as `..heic`. Its temporary JPEG is named
  `..heic.jpg`.
- `HeicToJpg.SecondPass` applies no filter. One non-image file in the
  temporary folder stops the second loop.

## Left out

- PIL and pillow_heif decoding, encoding, `thumbnail` and `save` are foreign
  library calls. They appear only as success results and reported sizes.
  Neither the aspect ratio `thumbnail` keeps nor the pixel data is modelled.
- Selenium and WebDriver are not modelled: `driver.get`, `driver.quit`,
  browser options and the `Service` log. Whether the driver starts and a page
  loads is an input.
- `debug_info` is left out because it only prints `subprocess` output. The
  output of `which firefox` is an input.
- Slideshow.StoppedCleansUp: interrupts arrive only between image steps or
  during `sleep`. A `KeyboardInterrupt` inside `convert_heic_to_jpeg` (lines
  22-36, for example in `image.save` at line 33) is not an `Exception`, so it
  leaves the loop before the inner `try` at line 182 starts; no `finally`
  removes `jpeg_path`, and a full or partial JPEG sibling stays in the image
  directory. A failing `os.listdir` at line 163 raises outside the outer
  `try`, so `driver.quit` is not called. Neither path is modelled.
- `time.sleep` and `KeyboardInterrupt` are not modelled. The endless
  `while True` ends after a given number of image steps. An interrupt during
  `sleep` counts as the end of that completed step.
- The outer `except Exception` of `run_slideshow` is not modelled. It catches,
  for example, a failing `os.remove` in the inner `finally`.
- A `temp.html` left truncated by a failed write is not modelled: a failed
  write leaves the page text unchanged.
- `os.path.abspath` is a function parameter, because it depends on the working
  directory. `os.listdir` results are input sequences, and their order is
  arbitrary.
- `os.makedirs` in `process_directory` is left out because it only creates
  the output folder.
- A file partly written by a failed save is not modelled.
- `image_mover.py` is not part of this model. It is `os.walk` plus
  `shutil.move` with the same suffix test.
- `convert_heic_to_jpeg` in both scripts is an oracle result, since it is a
  library call inside `try`.
- Strings.Lower: maps only ASCII letters, unlike Python's Unicode `lower()`.
- Shrink.Decay: is the floor of 9/10 on integers, while the script computes
  `int(w * 0.9)` in floating point. The two agree for realistic image sizes.
- Shrink.Cap: the script compares `getsize / (1024 * 1024)` with
  `max_size_mb`; the model compares integer bytes with
  `max_size_mb * 1048576`. Dividing a byte count below 2^53 by 2^20 is exact
  in floating point, so the two agree for every real file and an integer cap.
  A fractional `max_size_mb` is not modelled.
- Shrink.ResizeImage: a resize that never gets within the cap loops forever
  in the script. The oracle is finite, so such a run ends as `Unfinished`, and
  `ProcessDirectory` stops there.
- Slideshow.Pos: the step position is defined by counting passes and is not
  proved equal to `t % n`.
- Slideshow.Display: the page builder is a parameter. A run uses
  `create_html` in its window mode (`Slideshow.Builder`), and the page
  properties are proved in `SlidePage`.
- SlidePage.OneImageTag: takes the style text as a parameter equal to
  `Style(...)`, so that the proof does not expand the style literals.
- The style text is modelled as the concatenation of rendered rule blocks.
  Its spacing reproduces the triple-quoted literals of `create_html`.
