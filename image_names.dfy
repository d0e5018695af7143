/** The extension test shared by the slideshow and the resizer
    (`f.lower().endswith(('.png', '.jpg', '.jpeg', '.gif', '.heic'))`) and the
    HEIC test (`f.lower().endswith('.heic')`). */
module ImageNames {
  import opened Strings

  /** Pixel size of an image, as PIL's `img.size` reports it. */
  datatype Dims = Dims(width: nat, height: nat)

  const ImageSuffixes: seq<string> := [".png", ".jpg", ".jpeg", ".gif", ".heic"]

  /** The name, lower-cased, ends with one of the five image suffixes. */
  predicate IsImageName(name: string) {
    exists i :: 0 <= i < |ImageSuffixes| && EndsWith(Lower(name), ImageSuffixes[i])
  }

  /** The name, lower-cased, ends with `.heic`. */
  predicate IsHeicName(name: string) {
    EndsWith(Lower(name), ".heic")
  }

  lemma HeicIsImage(name: string)
    requires IsHeicName(name)
    ensures IsImageName(name)
  {
    assert EndsWith(Lower(name), ImageSuffixes[4]);
  }

  /** The list comprehension that keeps the image names of a listing. */
  function FilterImages(names: seq<string>): (r: seq<string>)
    ensures |r| <= |names|
    ensures forall x :: x in r <==> x in names && IsImageName(x)
  {
    if names == [] then []
    else (if IsImageName(names[0]) then [names[0]] else []) + FilterImages(names[1..])
  }

  /** Filtering commutes with concatenation, so the kept names stay in listing order. */
  lemma {:induction false} FilterImagesAppend(a: seq<string>, b: seq<string>)
    ensures FilterImages(a + b) == FilterImages(a) + FilterImages(b)
  {
    if a == [] {
      assert a + b == b;
    } else {
      assert (a + b)[1..] == a[1..] + b;
      FilterImagesAppend(a[1..], b);
    }
  }

  /** The filtered list is empty exactly when no listed name is an image name. */
  lemma FilterImagesEmpty(names: seq<string>)
    ensures FilterImages(names) == [] <==> forall k :: 0 <= k < |names| ==> !IsImageName(names[k])
  {
    if FilterImages(names) == [] {
      forall k | 0 <= k < |names| ensures !IsImageName(names[k]) {
        assert names[k] in names;
      }
    } else {
      var x := FilterImages(names)[0];
      assert x in FilterImages(names);
    }
  }
}
