/** `heic_to_jpg.py`: a script of two loops. The first converts every HEIC
    file of the start directory to a PNG in a temporary directory; the second
    turns every file of the temporary directory into a JPEG in the final
    directory. Decoding, encoding and the directory listings are parameters;
    an exception in either loop ends the script, since nothing catches it. */
module HeicToJpg {
  import opened Strings
  import opened ImageNames
  import opened Optional

  const DirectoryStart: string := "/home/dcostello/Downloads/heic_to_jpg/images_start/"
  const DirectoryEnd: string := "/home/dcostello/Downloads/heic_to_jpg/images_end_temp/"
  const ImagesFolder: string := "/home/dcostello/Downloads/heic_to_jpg/images_end_temp/"
  const OutputFolder: string := "/home/dcostello/Downloads/heic_to_jpg/images_end_final/"

  /** One file read and the file written from it. */
  datatype Write = Write(source: string, target: string)

  /** How one loop ends: every listed file handled, or an exception while
      handling `at`, after the writes before it. */
  datatype Pass = Completed(writes: seq<Write>) | Aborted(writes: seq<Write>, at: string)

  /** The first loop's output name: every `.HEIC` replaced by `.png`, then
      every `.heic`; both replacements are case-sensitive. */
  function PngName(name: string): string {
    Replace(Replace(name, ".HEIC", ".png"), ".heic", ".png")
  }

  /** The second loop's output name: every `.png` replaced by `.jpg`. */
  function JpgName(name: string): string {
    Replace(name, ".png", ".jpg")
  }

  /** The conversion the first loop makes of one HEIC name. */
  function PngWrite(name: string): Write {
    Write(DirectoryStart + name, DirectoryEnd + PngName(name))
  }

  /** The conversion the second loop makes of one name. */
  function JpgWrite(name: string): Write {
    Write(ImagesFolder + name, OutputFolder + JpgName(name))
  }

  /** The conversions of the first loop over `names` when none raises: one
      per HEIC name, in listing order. */
  function PngWrites(names: seq<string>): seq<Write> {
    if names == [] then []
    else
      (if IsHeicName(names[0]) then [PngWrite(names[0])] else [])
      + PngWrites(names[1..])
  }

  /** Each write of the first loop converts one listed HEIC name, and each
      listed HEIC name is converted. */
  lemma {:induction false} PngWritesOf(names: seq<string>)
    ensures forall w :: w in PngWrites(names) <==>
      exists n :: n in names && IsHeicName(n) && w == PngWrite(n)
  {
    if names != [] {
      PngWritesOf(names[1..]);
      forall n | n in names[1..] ensures n in names {
      }
      forall n | n in names ensures n == names[0] || n in names[1..] {
      }
    }
  }

  lemma {:induction false} PngWritesAppend(a: seq<string>, b: seq<string>)
    ensures PngWrites(a + b) == PngWrites(a) + PngWrites(b)
  {
    if a == [] {
      assert a + b == b;
    } else {
      var head := if IsHeicName(a[0]) then [PngWrite(a[0])] else [];
      assert (a + b)[0] == a[0];
      assert (a + b)[1..] == a[1..] + b;
      assert PngWrites(a + b) == head + PngWrites(a[1..] + b);
      PngWritesAppend(a[1..], b);
      assert head + (PngWrites(a[1..]) + PngWrites(b)) == (head + PngWrites(a[1..])) + PngWrites(b);
    }
  }

  lemma PngWritesSnoc(names: seq<string>, name: string)
    ensures PngWrites(names + [name]) == PngWrites(names) + (if IsHeicName(name) then [PngWrite(name)] else [])
  {
    PngWritesAppend(names, [name]);
    var w := if IsHeicName(name) then [PngWrite(name)] else [];
    assert [name][1..] == [];
    assert PngWrites([name]) == w + [];
    assert w + [] == w;
  }

  /** The conversions of the second loop over `names` when none raises: one
      per listed name, with no filter. */
  function JpgWrites(names: seq<string>): (r: seq<Write>)
    ensures |r| == |names|
    ensures forall k :: 0 <= k < |names| ==> r[k] == JpgWrite(names[k])
  {
    if names == [] then []
    else [JpgWrite(names[0])] + JpgWrites(names[1..])
  }

  lemma JpgWritesSnoc(names: seq<string>, name: string)
    ensures JpgWrites(names + [name]) == JpgWrites(names) + [JpgWrite(name)]
  {
    var w, v := JpgWrites(names + [name]), JpgWrites(names) + [JpgWrite(name)];
    forall k | 0 <= k < |names| + 1 ensures w[k] == v[k] {
      assert (names + [name])[k] == if k < |names| then names[k] else name;
    }
  }

  /** `names[k]` is the first name whose handling raises; `fails` says which
      names the loop would attempt and fail on. */
  predicate FirstFailure(names: seq<string>, fails: string -> bool, k: nat) {
    k < |names| && fails(names[k]) && forall j :: 0 <= j < k ==> !fails(names[j])
  }

  /** The first loop attempts only HEIC names; it fails on those that
      cannot be decoded or saved. */
  predicate FirstPassFails(undecodable: set<string>, name: string) {
    IsHeicName(name) && name in undecodable
  }

  /** How the first loop over `listing` ends: it completes, with a PNG for
      every HEIC name, exactly when no HEIC name fails; otherwise it stops at
      the first failing one, after the writes for the names before it. */
  ghost predicate FirstPassOutcome(listing: seq<string>, undecodable: set<string>, r: Pass) {
    && (r.Completed? <==> forall k :: 0 <= k < |listing| ==> !FirstPassFails(undecodable, listing[k]))
    && (r.Completed? ==> r.writes == PngWrites(listing))
    && (r.Aborted? ==> exists k: nat :: (FirstFailure(listing, n => FirstPassFails(undecodable, n), k) &&
         r.at == listing[k] && r.writes == PngWrites(listing[..k])))
  }

  /** How the second loop over `listing` ends: it completes, with a JPEG for
      every name, exactly when no file fails; otherwise it stops at the first
      failing one, after the writes for the names before it. */
  ghost predicate SecondPassOutcome(listing: seq<string>, unreadable: set<string>, r: Pass) {
    && (r.Completed? <==> forall k :: 0 <= k < |listing| ==> listing[k] !in unreadable)
    && (r.Completed? ==> r.writes == JpgWrites(listing))
    && (r.Aborted? ==> exists k: nat :: (FirstFailure(listing, n => n in unreadable, k) &&
         r.at == listing[k] && r.writes == JpgWrites(listing[..k])))
  }

  /** The first loop (lines 8-21) over the listing of the start directory. */
  method FirstPass(listing: seq<string>, undecodable: set<string>) returns (r: Pass)
    ensures FirstPassOutcome(listing, undecodable, r)
  {
    var writes: seq<Write> := [];
    var i := 0;
    while i < |listing|
      invariant i <= |listing|
      invariant writes == PngWrites(listing[..i])
      invariant forall j :: 0 <= j < i ==> !FirstPassFails(undecodable, listing[j])
    {
      var filename := listing[i];
      assert listing[..i + 1] == listing[..i] + [filename];
      PngWritesSnoc(listing[..i], filename);
      if IsHeicName(filename) {
        if filename in undecodable {
          assert FirstFailure(listing, n => FirstPassFails(undecodable, n), i);
          return Aborted(writes, filename);
        }
        writes := writes + [PngWrite(filename)];
      }
      i := i + 1;
    }
    assert listing[..i] == listing;
    return Completed(writes);
  }

  /** The second loop (lines 26-33) over the listing of the temporary
      directory; it fails on the files that cannot be opened as images or
      saved. */
  method SecondPass(listing: seq<string>, unreadable: set<string>) returns (r: Pass)
    ensures SecondPassOutcome(listing, unreadable, r)
  {
    var writes: seq<Write> := [];
    for i := 0 to |listing|
      invariant writes == JpgWrites(listing[..i])
      invariant forall j :: 0 <= j < i ==> listing[j] !in unreadable
    {
      var imagePath := listing[i];
      if imagePath in unreadable {
        assert FirstFailure(listing, n => n in unreadable, i);
        return Aborted(writes, imagePath);
      }
      writes := writes + [JpgWrite(imagePath)];
      assert listing[..i + 1] == listing[..i] + [imagePath];
      JpgWritesSnoc(listing[..i], imagePath);
    }
    assert listing[..|listing|] == listing;
    return Completed(writes);
  }

  /** The whole script: the first loop, then the second loop exactly when
      the first completes (`None` when it never runs). `tempListing` is what
      listing the temporary directory returns then. */
  method Script(startListing: seq<string>, undecodable: set<string>, tempListing: seq<string>, unreadable: set<string>)
    returns (first: Pass, second: Option<Pass>)
    ensures FirstPassOutcome(startListing, undecodable, first)
    ensures second.None? <==> first.Aborted?
    ensures second.Some? ==> SecondPassOutcome(tempListing, unreadable, second.value)
  {
    first := FirstPass(startListing, undecodable);
    if first.Aborted? {
      return first, None;
    }
    var r := SecondPass(tempListing, unreadable);
    second := Some(r);
  }

  // ---------------------------------------------------------------------------
  // Output names

  /** In `stem + suffix` with a `.`-free stem and no `.` in `suffix` past its
      first character, a pattern starting with `.` can only occur at the
      start of `suffix`; one that is not a prefix of `suffix` occurs nowhere. */
  lemma NoDottedOccurrence(stem: string, suffix: string, pat: string)
    requires '.' !in stem
    requires forall k :: 1 <= k < |suffix| ==> suffix[k] != '.'
    requires |pat| > 0 && pat[0] == '.'
    requires |pat| > |suffix| || suffix[..|pat|] != pat
    ensures forall i :: !OccursAt(stem + suffix, pat, i)
  {
    var s := stem + suffix;
    forall i ensures !OccursAt(s, pat, i) {
      if 0 <= i && i + |pat| <= |s| {
        if i < |stem| {
          assert s[i..i + |pat|][0] == stem[i];
        } else if i > |stem| {
          assert s[i..i + |pat|][0] == suffix[i - |stem|];
        } else {
          assert s[i..i + |pat|] == suffix[..|pat|];
        }
      }
    }
  }

  /** `stem + pat` with a `.`-free stem: its one occurrence of `pat` is replaced. */
  lemma ReplaceSuffix(stem: string, pat: string, rep: string)
    requires '.' !in stem
    requires |pat| > 0 && pat[0] == '.'
    ensures Replace(stem + pat, pat, rep) == stem + rep
  {
    var s := stem + pat;
    forall i | 0 <= i < |stem| ensures !OccursAt(stem + pat + [], pat, i) {
      assert (stem + pat + [])[i] == stem[i];
    }
    ReplaceFirst(stem, pat, [], rep);
    assert stem + pat + [] == s;
  }

  /** A lower-case `.heic` name with a `.`-free stem becomes `stem.png`. */
  lemma PngOfLowerHeic(stem: string)
    requires '.' !in stem
    ensures PngName(stem + ".heic") == stem + ".png"
  {
    assert ".heic"[..5][1] != ".HEIC"[1];
    NoDottedOccurrence(stem, ".heic", ".HEIC");
    ReplaceAbsent(stem + ".heic", ".HEIC", ".png");
    ReplaceSuffix(stem, ".heic", ".png");
  }

  /** An upper-case `.HEIC` name with a `.`-free stem becomes `stem.png`. */
  lemma PngOfUpperHeic(stem: string)
    requires '.' !in stem
    ensures PngName(stem + ".HEIC") == stem + ".png"
  {
    ReplaceSuffix(stem, ".HEIC", ".png");
    NoDottedOccurrence(stem, ".png", ".heic");
    ReplaceAbsent(stem + ".png", ".heic", ".png");
  }

  /** A name whose last five characters lower-case to `.heic` is a HEIC name. */
  lemma HeicSuffixName(stem: string, suffix: string)
    requires Lower(suffix) == ".heic"
    ensures IsHeicName(stem + suffix)
  {
    LowerAppend(stem, suffix);
    EndsWithAppend(Lower(stem), ".heic");
  }

  /** A mixed-case suffix such as `.Heic` passes the first loop's filter but
      neither replacement touches it: the PNG keeps the HEIC name. */
  lemma MixedCaseKept(stem: string)
    requires '.' !in stem
    ensures IsHeicName(stem + ".Heic")
    ensures PngName(stem + ".Heic") == stem + ".Heic"
  {
    var suffix := ".Heic";
    assert Lower(suffix) == ".heic" by {
      var l := Lower(suffix);
      assert l[0] == '.' && l[1] == 'h' && l[2] == 'e' && l[3] == 'i' && l[4] == 'c';
    }
    HeicSuffixName(stem, suffix);
    assert suffix[..5] != ".HEIC" by {
      assert suffix[..5][1] == 'H' && suffix[..5][2] != ".HEIC"[2];
    }
    NoDottedOccurrence(stem, suffix, ".HEIC");
    ReplaceAbsent(stem + suffix, ".HEIC", ".png");
    assert suffix[..5] != ".heic" by {
      assert suffix[..5][1] != ".heic"[1];
    }
    NoDottedOccurrence(stem, suffix, ".heic");
    ReplaceAbsent(stem + suffix, ".heic", ".png");
  }

  /** The second loop turns `stem.png` into `stem.jpg`. */
  lemma JpgOfPng(stem: string)
    requires '.' !in stem
    ensures JpgName(stem + ".png") == stem + ".jpg"
  {
    ReplaceSuffix(stem, ".png", ".jpg");
  }

  /** Through both loops a `.heic` or `.HEIC` photo with a `.`-free stem is
      written as `stem.png` in the temporary directory, which is the folder the
      second loop lists, and then as `stem.jpg` in the final directory. */
  lemma Pipeline(stem: string, suffix: string)
    requires '.' !in stem
    requires suffix == ".heic" || suffix == ".HEIC"
    ensures DirectoryEnd + PngName(stem + suffix) == ImagesFolder + (stem + ".png")
    ensures OutputFolder + JpgName(PngName(stem + suffix)) == OutputFolder + stem + ".jpg"
  {
    if suffix == ".heic" {
      PngOfLowerHeic(stem);
    } else {
      PngOfUpperHeic(stem);
    }
    JpgOfPng(stem);
  }
}
