# NBSfM input front end, modelled in Dafny

NBSfM prepares the input for non-rigid structure from motion. Before any
feature tracking happens, the `NBSfM` constructor has to work out which images
to use. It reads the command line, where `--workspace_path <dir>` pairs are the
only accepted arguments and the last one wins. It lists `<dir>/images`, sorts
the listing, and keeps the entries whose names end in one of six image
extensions; at least two images must remain. Finally it decodes every chosen
image and rejects the input unless all images have the same width and height.

This project models that front end as pure functions and small loop-based
methods over immutable values:

- `strings.dfy` (`Strings`): the suffix test `EndsWith`, and the strict order
  `std::string` uses, proved to be a strict total order.
- `sorting.dfy` (`Sorting`): the `std::sort` of the listing, written as an
  insertion sort. It is proved to return a sorted permutation, and a sorted
  permutation is proved unique, so the result does not depend on the sort
  algorithm.
- `image_filter.dfy` (`ImageFilter`): `CheckImage`, the case-sensitive
  extension whitelist.
- `workspace.dfy` (`Workspace`): the image-input fields of the object as a
  `Session` value, plus `CheckImagesInFolder` and `CheckWorkspace`.
- `parameters.dfy` (`Parameters`): the `CheckParameters` argument loop.
- `loader.dfy` (`Loader`): the uniform-size check of `LoadImages`.
- `startup.dfy` (`Startup`): the constructor, which runs `CheckParameters` and
  then `LoadImages`.
- `wrappers.dfy` (`Wrappers`): `Option` and `Result`.

The file system and the image decoder are parameters:

- `Disk` maps every existing, readable directory to its entries in `readdir`
  order. It stands in for `access()`, `opendir` and `readdir`.
- `Decoder` maps a path to `Some(image)`, or to `None` when `cv::imread`
  yields no data.

Two kinds of failure become `Failure` results:

- `exit(-1)` after a rejected command line.
- The `runtime_error` thrown by `LoadImages`. Nothing catches it, so it ends
  the program.

Order of directory entries: `std::string`'s `operator<` compares characters
through `char_traits<char>`, which compares them as unsigned bytes. Names are
modelled as strings. Read each byte of a `d_name` as one `char` with code
0–255; then `Less`, `EndsWith` and path concatenation match the byte-wise
comparisons in NBSfM.cpp exactly, for every file name.

## Model

| member | source | states |
|---|---|---|
| Strings.EqualFromBack | NBSfM.cpp:117 | comparing `ending` with the end of `value`, back to front, succeeds iff the last `|ending|` characters of `value` are exactly `ending` |
| Strings.EndsWith | NBSfM.cpp:113-118 | true iff `ending` is a suffix of `value`; always false when `ending` is longer than `value`; always true for an empty `ending` |
| Strings.Less | NBSfM.cpp:87 | the front-to-back comparison `std::string`'s `operator<` performs holds iff the strings agree up to some position where `a` has ended while `b` goes on, or `a` has the smaller character |
| Strings.LessIrreflexive | NBSfM.cpp:87 | no string sorts before itself under `std::string` order |
| Strings.LessTransitive | NBSfM.cpp:87 | `std::string` order is transitive |
| Strings.LessTotal | NBSfM.cpp:87 | any two distinct strings are ordered one way or the other, so the listing sort is well defined |
| Strings.LessAsymmetric | NBSfM.cpp:87 | two strings never each sort before the other |
| Strings.LessUnderPrefix | NBSfM.cpp:91 | putting the same folder prefix in front of two names keeps their order |
| Sorting.Insert | NBSfM.cpp:87 | inserting into a sorted listing gives a sorted listing with exactly one more copy of the new name |
| Sorting.Sort | NBSfM.cpp:87 | the sorted listing is sorted and is a permutation of the raw listing: same names, same multiplicities |
| Sorting.SortedUnique | NBSfM.cpp:87 | two sorted sequences with the same elements are equal |
| Sorting.SortIsTheSortedPermutation | NBSfM.cpp:87 | any sorted permutation of the listing, such as the one `std::sort` produces, equals `Sort`'s result |
| ImageFilter.CheckImage | NBSfM.cpp:72-79 | a name is accepted iff it ends with one of ".JPG", ".JPEG", ".jpeg", ".jpg", ".PNG", ".png" |
| ImageFilter.AcceptsEveryExtension | NBSfM.cpp:72-79 | any stem followed by a whitelisted extension is accepted |
| ImageFilter.AcceptedShape | NBSfM.cpp:72-79 | every accepted name is at least 4 characters long and ends in 'G' or 'g' |
| ImageFilter.RejectsDotEntries | NBSfM.cpp:72-79 | the entries "." and ".." in every listing are never taken for images |
| ImageFilter.RejectsTextAfterExtension | NBSfM.cpp:72-79 | "a.png.txt" is rejected: the extension must end the name |
| ImageFilter.RejectsMixedCase | NBSfM.cpp:72-79 | the test is case-sensitive: any name ending in ".Jpg" is rejected |
| Workspace.SelectImages | NBSfM.cpp:89-93 | the filter loop's result as a recursive definition: at most one path per listing entry; its content is stated by the lemmas below |
| Workspace.SelectImagesSingle | NBSfM.cpp:90-91 | a single entry contributes `folder + "/" + name` exactly when `CheckImage` accepts it |
| Workspace.SelectImagesStep | NBSfM.cpp:89-93 | one more iteration of the loop appends the entry's path exactly when the entry is accepted, and changes nothing else |
| Workspace.SelectImagesMembers | NBSfM.cpp:89-93 | a path is selected iff it is `folder + "/" + n` for an accepted entry `n` of the listing: nothing accepted is dropped and nothing else is added |
| Workspace.SelectImagesAppend | NBSfM.cpp:89-93 | selecting from a concatenated listing equals concatenating the selections of the parts, so each entry is decided on its own and order is kept |
| Workspace.SelectImagesKeepsOrder | NBSfM.cpp:89-93 | two accepted entries at positions i < j produce paths at positions k < l of the selection |
| Workspace.SelectImagesSorted | NBSfM.cpp:87-93 | selecting from a sorted listing yields a sorted path list |
| Workspace.ImagesIn | NBSfM.cpp:85-103 | a readable folder yields either no images or at least two, and the committed image list is sorted |
| Workspace.ImagesInMembers | NBSfM.cpp:85-98 | every committed path names an accepted entry of the raw listing |
| Workspace.CollectImages | NBSfM.cpp:88-93 | the filtering loop builds exactly the selection of the sorted listing |
| Workspace.CheckImagesInFolder | NBSfM.cpp:81-104 | reports success iff at least two entries are accepted; on success commits the selected paths with `numImages` equal to their count; otherwise leaves an empty list and a count of 0, whatever the session held before; the workspace and folder paths are unchanged |
| Workspace.CheckWorkspace | NBSfM.cpp:51-63 | sets the image folder to `workspace + "/images"`; an unreadable folder leaves an empty list; the resulting session depends only on the workspace path and the disk, never on the earlier session |
| Parameters.ConsumePairs | NBSfM.cpp:17-29 | the argument loop completes iff the vector is whole flag/value pairs; it then holds the last pair's session, or the initial one when there are no arguments; otherwise it stops at the first odd position that is not the flag or has no value |
| Parameters.CheckParameters | NBSfM.cpp:16-35 | accepts iff the arguments are whole `--workspace_path <value>` pairs, at least one pair is given, and the last value's folder yields at least two images. On acceptance the session belongs to the last value. A badly shaped vector is rejected at an index, which is the first token that is not the flag or has no value. With no arguments it always rejects |
| Parameters.AppendedPairWins | NBSfM.cpp:17-34 | appending a `--workspace_path <value>` pair to a well-formed argument vector keeps it well formed, and on every disk the longer vector is accepted iff `value`'s image folder yields at least two images, whatever the earlier pairs named |
| Loader.FitsFirstIffUniform | NBSfM.cpp:132-148 | every path decoding to an image the size of the first's is the same as every path decoding and all images sharing one size |
| Loader.LoadImages | NBSfM.cpp:129-150 | succeeds iff every path decodes to an image the size of the first. On success it holds one image per path, in path order, all of one size, and records the first image's size (nothing is recorded for an empty list). Otherwise it reports the first path that fails: `CouldNotOpen` when that path does not decode, `SizeMismatch` when it decodes at another size |
| Startup.Start | NBSfM.cpp:3-14 | a started pipeline comes from a well-formed command line. Its session is exactly the one the last workspace yields: that workspace path, its `/images` folder, the chosen paths and `numImages` equal to their count. Its images are the decoder's results for the paths chosen from the last workspace, one per path and in path order: at least two, all of one size, with the first image's size recorded. A parameter rejection means that command line could not be accepted. An image rejection means the chosen paths do not all decode to one size |

## Left out

- `ReadDirectory` (NBSfM.cpp:120-127), the `access()` probe in `CheckImageFolder` (NBSfM.cpp:65-70) and `cv::imread` are I/O, modelled as the `Disk` and `Decoder` parameters.
- A path that `access()` accepts but that is not a directory makes `opendir` return NULL, and `readdir(NULL)` is undefined behaviour. `Disk` only holds directories, so this case is not modelled.
- `ShowParameters`, `Help` and `main` only write to the console or start the program.
- `CheckWorkspace` returns a `bool`, but its value is always true. The model returns only the new session, and the `if (!CheckWorkspace()) return false;` branch it could never take is left out.
- The `bool` results of `CheckImagesInFolder` (ignored by its caller) and of `LoadImages` (always true) are kept only where they carry information.
- `num_images_` is never initialised by the constructor. `InitialSession` uses 0, and no accepted session ever shows that value.
- Pixel data is reduced to width and height. Loading only inspects those.
- `max_num_frames_`, `video_path_`, `is_use_images_`, `is_use_video_`, `feature_folder_path_`, `redo_feature_detection_` and the feature fields are declared in NBSfM.hpp but never read by any function in NBSfM.cpp (`max_num_frames_` is only initialised, to 30, at NBSfM.cpp:6).
- `CheckVideo`, `CheckFeature`, `MakeDir`, `ReadCSV`, `CSVStr2Mat`, `ExportVideoFrames`, `WriteReferenceImage`, `LoadFeatures`, `FeatureDetection`, `WriteFeatures` and `WriteFeatureImage` (NBSfM.hpp:60-80) are declared without bodies, so they have no behaviour to model.
- Workspace.SelectImages: its own contract only bounds its length. Its content (membership in both directions, distribution over concatenation, order) is proved in `SelectImagesMembers`, `SelectImagesAppend` and `SelectImagesKeepsOrder`, because stating membership in its own contract made every proof that mentions it much more expensive.
- Integer widths: `num_images_` is an `int` set from a `size_t`, and image sizes are `int`. The model uses unbounded integers, because a directory with more than 2^31 images or an image with negative dimensions is out of reach.
