/** The image-input part of the `NBSfM` object: the workspace path, the image
    folder derived from it, and the image list chosen from that folder's
    directory listing (`CheckWorkspace`, `CheckImagesInFolder`). */
module Workspace {
  import opened Strings
  import opened Sorting
  import opened ImageFilter

  /** The image-input fields of `NBSfM`. `numImages` mirrors `num_images_`,
      kept beside the list it counts. */
  datatype Session = Session(
    workspacePath: string,
    imageFolderPath: string,
    imagePaths: seq<string>,
    numImages: int)

  /** The fields as the constructor initialises them. The constructor in
      NBSfM.cpp leaves `num_images_` unset; no accepted session ever shows
      this value. */
  const InitialSession := Session(".", "./images", [], 0)

  /** The file system as far as the image input sees it: every directory that
      exists and is readable, with its entries in `readdir` order. */
  type Disk = map<string, seq<string>>

  /** The folder a workspace keeps its images in. */
  function ImageFolder(workspace: string): string
  {
    workspace + "/images"
  }

  /** The full path of an entry of `folder`. */
  function EntryPath(folder: string, name: string): string
  {
    folder + "/" + name
  }

  /** The entries of `names` that pass `CheckImage`, as paths under `folder`,
      in the order of `names`. */
  function SelectImages(folder: string, names: seq<string>): (paths: seq<string>)
    ensures |paths| <= |names|
  {
    if |names| == 0 then []
    else
      var rest := SelectImages(folder, names[1..]);
      if CheckImage(names[0]) then [EntryPath(folder, names[0])] + rest else rest
  }

  /** The selected paths are exactly the paths of the accepted entries: nothing
      accepted is dropped and nothing else is added. */
  lemma {:induction false} SelectImagesMembers(folder: string, names: seq<string>)
    ensures forall p :: p in SelectImages(folder, names) <==>
              exists n :: n in names && CheckImage(n) && p == EntryPath(folder, n)
    decreases |names|
  {
    if |names| > 0 {
      SelectImagesMembers(folder, names[1..]);
      assert forall n :: n in names <==> n == names[0] || n in names[1..];
    }
  }

  /** Selection distributes over concatenation of listings: each entry is kept
      or dropped on its own, and the kept ones keep their relative order. */
  lemma {:induction false} SelectImagesAppend(folder: string, a: seq<string>, b: seq<string>)
    ensures SelectImages(folder, a + b) == SelectImages(folder, a) + SelectImages(folder, b)
    decreases |a|
  {
    if |a| > 0 {
      assert (a + b)[0] == a[0];
      assert (a + b)[1..] == a[1..] + b;
      SelectImagesAppend(folder, a[1..], b);
    } else {
      assert a + b == b;
    }
  }

  /** A one-entry listing yields that entry's path exactly when it is accepted. */
  lemma SelectImagesSingle(folder: string, n: string)
    ensures SelectImages(folder, [n]) == if CheckImage(n) then [EntryPath(folder, n)] else []
  {
    assert [n][1..] == [];
  }

  /** Extending a listing prefix by one entry extends its selection by that
      entry's path exactly when the entry is accepted. */
  lemma SelectImagesStep(folder: string, names: seq<string>, i: nat)
    requires i < |names|
    ensures SelectImages(folder, names[..i + 1]) ==
              SelectImages(folder, names[..i]) +
              (if CheckImage(names[i]) then [EntryPath(folder, names[i])] else [])
  {
    assert names[..i + 1] == names[..i] + [names[i]];
    SelectImagesAppend(folder, names[..i], [names[i]]);
    SelectImagesSingle(folder, names[i]);
  }

  /** Two accepted entries at positions `i < j` of the listing appear as paths
      in the same order. */
  lemma SelectImagesKeepsOrder(folder: string, names: seq<string>, i: nat, j: nat)
    requires i < j < |names|
    requires CheckImage(names[i]) && CheckImage(names[j])
    ensures exists k, l ::
              && 0 <= k < l < |SelectImages(folder, names)|
              && SelectImages(folder, names)[k] == EntryPath(folder, names[i])
              && SelectImages(folder, names)[l] == EntryPath(folder, names[j])
  {
    var front, back := names[..j], names[j..];
    assert names == front + back;
    SelectImagesAppend(folder, front, back);
    assert names[i] in front;
    var f := SelectImages(folder, front);
    SelectImagesMembers(folder, front);
    assert EntryPath(folder, names[i]) in f;
    var k :| 0 <= k < |f| && f[k] == EntryPath(folder, names[i]);
    assert back == [names[j]] + back[1..];
    SelectImagesAppend(folder, [names[j]], back[1..]);
    var all := SelectImages(folder, names);
    assert all[k] == EntryPath(folder, names[i]);
    assert all[|f|] == EntryPath(folder, names[j]);
  }

  /** A sorted listing yields a sorted path list: all paths share the prefix
      `folder + "/"`, so they compare as the names do. */
  lemma {:induction false} SelectImagesSorted(folder: string, names: seq<string>)
    requires Sorted(names)
    ensures Sorted(SelectImages(folder, names))
    decreases |names|
  {
    if |names| > 0 {
      var rest := SelectImages(folder, names[1..]);
      assert Sorted(names[1..]);
      SelectImagesSorted(folder, names[1..]);
      SelectImagesMembers(folder, names[1..]);
      if CheckImage(names[0]) {
        var head := EntryPath(folder, names[0]);
        forall k | 0 <= k < |rest|
          ensures LessOrEqual(head, rest[k])
        {
          assert rest[k] in rest;
          var n :| n in names[1..] && CheckImage(n) && rest[k] == EntryPath(folder, n);
          var m :| 0 <= m < |names[1..]| && names[1..][m] == n;
          assert LessOrEqual(names[0], names[m + 1]);
          if names[0] != n {
            LessUnderPrefix(folder + "/", names[0], n);
            assert (folder + "/") + names[0] == head;
            assert (folder + "/") + n == rest[k];
          }
        }
      }
    }
  }

  /** The image list a readable folder with this listing yields: the sorted,
      filtered entries when there are at least two, and nothing otherwise. */
  function ImagesIn(folder: string, listing: seq<string>): (paths: seq<string>)
    ensures |paths| == 0 || |paths| >= 2
    ensures Sorted(paths)
  {
    var selected := SelectImages(folder, Sort(listing));
    SelectImagesSorted(folder, Sort(listing));
    if |selected| >= 2 then selected else []
  }

  /** Every committed path names an accepted entry of the raw listing. */
  lemma ImagesInMembers(folder: string, listing: seq<string>)
    ensures forall p :: p in ImagesIn(folder, listing) ==>
              exists n :: n in listing && CheckImage(n) && p == EntryPath(folder, n)
  {
    SelectImagesMembers(folder, Sort(listing));
    assert forall n :: n in Sort(listing) <==> n in listing by {
      assert forall n :: n in Sort(listing) <==> n in multiset(Sort(listing));
    }
  }

  /** The image list a workspace yields on `disk`: empty when its image folder
      is missing or unreadable. */
  function ImagesFor(workspace: string, disk: Disk): seq<string>
  {
    var folder := ImageFolder(workspace);
    if folder in disk then ImagesIn(folder, disk[folder]) else []
  }

  /** The session `CheckWorkspace` leaves behind for `workspace`. */
  function SessionFor(workspace: string, disk: Disk): Session
  {
    var paths := ImagesFor(workspace, disk);
    Session(workspace, ImageFolder(workspace), paths, |paths|)
  }

  /** The filtering loop: walks the sorted entries and appends the path of
      each accepted one. */
  method CollectImages(folder: string, names: seq<string>) returns (selected: seq<string>)
    ensures selected == SelectImages(folder, names)
  {
    selected := [];
    for i := 0 to |names|
      invariant selected == SelectImages(folder, names[..i])
    {
      var n := names[i];
      SelectImagesStep(folder, names, i);
      if CheckImage(n) {
        selected := selected + [EntryPath(folder, n)];
      }
    }
    assert names[..|names|] == names;
  }

  /** Scans `s.imageFolderPath`, whose entries are `listing`: clears the image
      list, collects the accepted entries of the sorted listing, and commits
      them only when there are at least two. */
  method CheckImagesInFolder(s: Session, listing: seq<string>) returns (found: bool, s': Session)
    ensures s'.workspacePath == s.workspacePath && s'.imageFolderPath == s.imageFolderPath
    ensures found <==> |SelectImages(s.imageFolderPath, Sort(listing))| >= 2
    ensures found ==> s'.imagePaths == SelectImages(s.imageFolderPath, Sort(listing))
    ensures !found ==> s'.imagePaths == []
    ensures s'.imagePaths == ImagesIn(s.imageFolderPath, listing)
    ensures s'.numImages == |s'.imagePaths|
  {
    s' := s.(numImages := 0, imagePaths := []);
    var selected := CollectImages(s.imageFolderPath, Sort(listing));
    if |selected| >= 2 {
      var paths: seq<string> := [];
      for i := 0 to |selected|
        invariant paths == selected[..i]
      {
        paths := paths + [selected[i]];
      }
      assert paths == selected[..|selected|] == selected;
      s' := s'.(imagePaths := paths, numImages := |paths|);
      found := true;
    } else {
      found := false;
    }
  }

  /** Points the image folder at `s.workspacePath + "/images"` and rescans it.
      A missing or unreadable folder leaves an empty image list. The session
      that results depends only on the workspace path and the disk, so a later
      workspace replaces everything an earlier one chose. */
  method CheckWorkspace(s: Session, disk: Disk) returns (s': Session)
    ensures s'.workspacePath == s.workspacePath
    ensures s'.imageFolderPath == ImageFolder(s.workspacePath)
    ensures ImageFolder(s.workspacePath) !in disk ==> s'.imagePaths == []
    ensures s' == SessionFor(s.workspacePath, disk)
  {
    s' := s.(imageFolderPath := ImageFolder(s.workspacePath));
    if s'.imageFolderPath in disk {
      var found;
      found, s' := CheckImagesInFolder(s', disk[s'.imageFolderPath]);
    } else {
      s' := s'.(numImages := 0, imagePaths := []);
    }
  }
}
