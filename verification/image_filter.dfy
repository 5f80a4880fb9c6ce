/** `CheckImage` of NBSfM.cpp: the fixed, case-sensitive whitelist of image
    file extensions that decides which directory entries are input images. */
module ImageFilter {
  import opened Strings

  /** The accepted extensions, in the order `CheckImage` tests them. */
  const Extensions: seq<string> := [".JPG", ".JPEG", ".jpeg", ".jpg", ".PNG", ".png"]

  /** True iff `name` ends with one of the whitelisted extensions. */
  function CheckImage(name: string): (accepted: bool)
    ensures accepted <==> exists i :: 0 <= i < |Extensions| && IsSuffix(Extensions[i], name)
  {
    assert Extensions[0] == ".JPG" && Extensions[1] == ".JPEG" && Extensions[2] == ".jpeg";
    assert Extensions[3] == ".jpg" && Extensions[4] == ".PNG" && Extensions[5] == ".png";
    EndsWith(name, ".JPG") ||
    EndsWith(name, ".JPEG") ||
    EndsWith(name, ".jpeg") ||
    EndsWith(name, ".jpg") ||
    EndsWith(name, ".PNG") ||
    EndsWith(name, ".png")
  }

  /** Any stem followed by a whitelisted extension is accepted. */
  lemma AcceptsEveryExtension(stem: string, i: nat)
    requires i < |Extensions|
    ensures CheckImage(stem + Extensions[i])
  {
    var name := stem + Extensions[i];
    assert name[|name| - |Extensions[i]|..] == Extensions[i];
  }

  /** An accepted name is at least four characters long and ends in `G` or `g`. */
  lemma AcceptedShape(name: string)
    ensures CheckImage(name) ==>
              && |name| >= 4
              && (name[|name| - 1] == 'G' || name[|name| - 1] == 'g')
  {
    if CheckImage(name) {
      var i :| 0 <= i < |Extensions| && IsSuffix(Extensions[i], name);
      ExtensionShape(i);
      SuffixLastChar(Extensions[i], name);
    }
  }

  /** Every whitelisted extension has at least four characters and ends in
      `G` or `g`. */
  lemma ExtensionShape(i: nat)
    requires i < |Extensions|
    ensures |Extensions[i]| >= 4
    ensures Extensions[i][|Extensions[i]| - 1] == 'G' || Extensions[i][|Extensions[i]| - 1] == 'g'
  {
  }

  /** A string ending in a non-empty `x` ends in the last character of `x`. */
  lemma SuffixLastChar(x: string, e: string)
    requires IsSuffix(x, e) && |x| > 0
    ensures e[|e| - 1] == x[|x| - 1]
  {
    assert e[|e| - 1] == e[|e| - |x|..][|x| - 1];
  }

  /** The entries "." and "..", which every directory listing holds, are never
      taken for images. */
  lemma RejectsDotEntries()
    ensures !CheckImage(".") && !CheckImage("..")
  {
    AcceptedShape(".");
    AcceptedShape("..");
  }

  /** A whitelisted extension followed by more text is not enough: "a.png.txt"
      is rejected. */
  lemma RejectsTextAfterExtension()
    ensures !CheckImage("a.png.txt")
  {
    AcceptedShape("a.png.txt");
  }

  /** A name that ends in `short` cannot also end in a longer `long` that does
      not itself end in `short`. */
  lemma SuffixesDisagree(short: string, long: string, name: string)
    requires IsSuffix(short, name)
    requires |short| <= |long| && !IsSuffix(short, long)
    ensures !IsSuffix(long, name)
  {
    var n := |name|;
    if |long| <= n {
      assert name[n - |long|..][|long| - |short|..] == name[n - |short|..];
    }
  }

  /** A string ending in `x` agrees with `x` on its last three characters. */
  lemma SuffixEndsAlike(x: string, e: string)
    ensures IsSuffix(x, e) && |x| >= 3 ==>
              e[|e| - 2] == x[|x| - 2] && e[|e| - 3] == x[|x| - 3]
  {
    if IsSuffix(x, e) && |x| >= 3 {
      assert e[|e| - 2] == e[|e| - |x|..][|x| - 2];
      assert e[|e| - 3] == e[|e| - |x|..][|x| - 3];
    }
  }

  /** The test is case-sensitive: a name ending in ".Jpg" is rejected, whatever
      precedes the extension. */
  lemma RejectsMixedCase(name: string)
    requires IsSuffix(".Jpg", name)
    ensures !CheckImage(name)
  {
    forall i | 0 <= i < |Extensions|
      ensures !IsSuffix(Extensions[i], name)
    {
      var e := Extensions[i];
      assert e[|e| - 2] != 'p' || e[|e| - 3] != 'J';
      SuffixEndsAlike(".Jpg", e);
      SuffixesDisagree(".Jpg", e, name);
    }
    assert !exists i :: 0 <= i < |Extensions| && IsSuffix(Extensions[i], name);
  }
}
