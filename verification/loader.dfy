/** `LoadImages` of NBSfM.cpp: decodes every selected path and insists that all
    images share the first image's width and height. */
module Loader {
  import opened Wrappers

  /** A decoded image, as far as loading inspects it: its size in pixels. */
  datatype Image = Image(cols: nat, rows: nat)

  /** The image decoder: the image stored at a path, or `None` when it cannot
      be read or decoded. */
  type Decoder = string -> Option<Image>

  /** Why loading stops, with the position of the offending path. */
  datatype LoadError =
    | CouldNotOpen(index: nat)  // the path does not decode
    | SizeMismatch(index: nat)  // the image differs in size from the first

  /** The loaded images and the common size, which is recorded from the first
      image and so stays unset when there are no paths. */
  datatype Frames = Frames(images: seq<Image>, size: Option<(nat, nat)>)

  /** Every image has the same width and height as the first. */
  predicate UniformSize(images: seq<Image>)
  {
    forall i :: 0 <= i < |images| ==> images[i].cols == images[0].cols && images[i].rows == images[0].rows
  }

  /** Every path decodes. */
  predicate AllDecode(paths: seq<string>, imread: Decoder)
  {
    forall i :: 0 <= i < |paths| ==> imread(paths[i]).Some?
  }

  /** The path at `i` decodes to an image of the same size as the first path's. */
  predicate FitsFirst(paths: seq<string>, imread: Decoder, i: nat)
    requires i < |paths|
  {
    && imread(paths[0]).Some? && imread(paths[i]).Some?
    && imread(paths[i]).value.cols == imread(paths[0]).value.cols
    && imread(paths[i]).value.rows == imread(paths[0]).value.rows
  }

  /** The decoded images of paths that all decode, in path order. */
  function Decoded(paths: seq<string>, imread: Decoder): (images: seq<Image>)
    requires AllDecode(paths, imread)
    ensures |images| == |paths|
    ensures forall i :: 0 <= i < |paths| ==> Some(images[i]) == imread(paths[i])
  {
    seq(|paths|, i requires 0 <= i < |paths| => imread(paths[i]).value)
  }

  /** Matching the first image path by path is the same as every path decoding
      and the decoded images being of one size. */
  lemma FitsFirstIffUniform(paths: seq<string>, imread: Decoder)
    ensures (forall i :: 0 <= i < |paths| ==> FitsFirst(paths, imread, i)) <==>
              AllDecode(paths, imread) && UniformSize(Decoded(paths, imread))
  {
    if forall i :: 0 <= i < |paths| ==> FitsFirst(paths, imread, i) {
      assert AllDecode(paths, imread) by {
        forall i | 0 <= i < |paths| ensures imread(paths[i]).Some? {
          assert FitsFirst(paths, imread, i);
        }
      }
      var images := Decoded(paths, imread);
      assert UniformSize(images) by {
        forall i | 0 <= i < |images|
          ensures images[i].cols == images[0].cols && images[i].rows == images[0].rows
        {
          assert FitsFirst(paths, imread, i);
        }
      }
    }
    if AllDecode(paths, imread) && UniformSize(Decoded(paths, imread)) {
      var images := Decoded(paths, imread);
      forall i | 0 <= i < |paths| ensures FitsFirst(paths, imread, i) {
        assert images[i] == imread(paths[i]).value;
        assert images[0] == imread(paths[0]).value;
      }
    }
  }

  /** Decodes the paths in order. The first path that does not decode, or that
      decodes to an image of another size than the first, stops loading with
      its index. On success the images are the decoded paths in path order,
      all of one size, and that size is the first image's. */
  method LoadImages(paths: seq<string>, imread: Decoder) returns (r: Result<Frames, LoadError>)
    ensures r.Success? <==> forall i :: 0 <= i < |paths| ==> FitsFirst(paths, imread, i)
    ensures r.Success? ==>
              && AllDecode(paths, imread)
              && |r.value.images| == |paths|
              && (forall i :: 0 <= i < |paths| ==> r.value.images[i] == imread(paths[i]).value)
              && UniformSize(r.value.images)
              && (|paths| == 0 ==> r.value.size.None?)
              && (|paths| > 0 ==> r.value.size == Some((r.value.images[0].cols, r.value.images[0].rows)))
    ensures r.Failure? ==>
              && r.error.index < |paths|
              && (forall j :: 0 <= j < r.error.index ==> FitsFirst(paths, imread, j))
              && !FitsFirst(paths, imread, r.error.index)
    ensures r.Failure? && r.error.CouldNotOpen? ==> imread(paths[r.error.index]).None?
    ensures r.Failure? && r.error.SizeMismatch? ==>
              && r.error.index > 0
              && imread(paths[r.error.index]).Some?
  {
    var images: seq<Image> := [];
    var size: Option<(nat, nat)> := None;
    for idx := 0 to |paths|
      invariant |images| == idx
      invariant forall j :: 0 <= j < idx ==> FitsFirst(paths, imread, j) && images[j] == imread(paths[j]).value
      invariant idx == 0 ==> size.None?
      invariant idx > 0 ==> imread(paths[0]).Some? && size == Some((images[0].cols, images[0].rows))
      invariant UniformSize(images)
    {
      var img := imread(paths[idx]);
      if img.None? {
        assert !FitsFirst(paths, imread, idx);
        return Failure(CouldNotOpen(idx));
      }
      if idx == 0 {
        size := Some((img.value.cols, img.value.rows));
      } else if size.value.0 != img.value.cols || size.value.1 != img.value.rows {
        assert FitsFirst(paths, imread, 0);
        assert !FitsFirst(paths, imread, idx);
        return Failure(SizeMismatch(idx));
      }
      assert FitsFirst(paths, imread, idx);
      images := images + [img.value];
    }
    assert AllDecode(paths, imread) by {
      forall i | 0 <= i < |paths| ensures imread(paths[i]).Some? {
        assert FitsFirst(paths, imread, i);
      }
    }
    return Success(Frames(images, size));
  }
}
