/** `CheckParameters` of NBSfM.cpp: the command-line loop that accepts only
    `--workspace_path <value>` pairs and then demands at least two images. */
module Parameters {
  import opened Wrappers
  import opened Workspace

  /** The one flag the program understands. */
  const WorkspaceFlag := "--workspace_path"

  /** Why an argument vector is rejected. */
  datatype ArgError =
    | UnknownArgument(index: nat)  // argv[index] is not the flag, or is a flag with no value
    | TooFewImages                 // the final workspace yields fewer than two images

  /** Every odd position of `argv` below `bound` holds the flag. */
  predicate FlagsBelow(argv: seq<string>, bound: nat)
  {
    forall k :: 1 <= k < bound && k < |argv| && k % 2 == 1 ==> argv[k] == WorkspaceFlag
  }

  /** `argv` (program name first) consists of the program name followed by
      whole `--workspace_path <value>` pairs. */
  predicate WellFormedArgs(argv: seq<string>)
  {
    |argv| <= 1 || (|argv| % 2 == 1 && FlagsBelow(argv, |argv|))
  }

  /** The argument vectors `CheckParameters` accepts on `disk`: whole pairs, at
      least one of them, and a last workspace that yields at least two images. */
  predicate Accepts(argv: seq<string>, disk: Disk)
  {
    WellFormedArgs(argv) && |argv| >= 3 && |ImagesFor(argv[|argv| - 1], disk)| >= 2
  }

  /** Consuming one more well-placed pair extends the checked prefix. */
  lemma FlagsBelowStep(argv: seq<string>, index: nat)
    requires index % 2 == 1 && index + 1 < |argv|
    requires FlagsBelow(argv, index) && argv[index] == WorkspaceFlag
    ensures FlagsBelow(argv, index + 2)
  {
  }

  /** In a well-formed vector every odd position holds the flag and is
      followed by its value. */
  lemma WellFormedHasPairAt(argv: seq<string>, index: nat)
    requires index % 2 == 1 && index < |argv|
    ensures WellFormedArgs(argv) ==> index + 1 < |argv| && argv[index] == WorkspaceFlag
  {
  }

  /** When the loop runs off the end, the whole vector was made of pairs. */
  lemma LoopExitWellFormed(argv: seq<string>, index: nat)
    requires index % 2 == 1 && index >= |argv|
    requires index == 1 || index <= |argv|
    requires FlagsBelow(argv, index)
    ensures WellFormedArgs(argv)
  {
    if index > 1 {
      assert index == |argv|;
    }
  }

  /** The session after the argument loop: untouched when no pair was given,
      otherwise the one the last pair's workspace yields. */
  function SessionAfterPairs(argv: seq<string>, disk: Disk): Session
  {
    if |argv| >= 3 then SessionFor(argv[|argv| - 1], disk) else InitialSession
  }

  /** The argument loop: reads `argv` pair by pair and rescans the workspace
      after every pair. It stops at the first token that is not the flag or is
      a flag without a value, and otherwise ends with the last pair's session. */
  method ConsumePairs(argv: seq<string>, disk: Disk) returns (r: Result<Session, nat>)
    ensures r.Success? <==> WellFormedArgs(argv)
    ensures r.Success? ==> r.value == SessionAfterPairs(argv, disk)
    ensures r.Failure? ==>
              && var k := r.error;
              && 1 <= k < |argv| && k % 2 == 1
              && (k + 1 == |argv| || argv[k] != WorkspaceFlag)
              && FlagsBelow(argv, k)
  {
    var s := InitialSession;
    var index := 1;
    while index < |argv|
      invariant index % 2 == 1
      invariant index == 1 || index <= |argv|
      invariant FlagsBelow(argv, index)
      invariant index == 1 ==> s == InitialSession
      invariant index > 1 ==> s == SessionFor(argv[index - 1], disk)
    {
      if index + 1 < |argv| && argv[index] == WorkspaceFlag {
        FlagsBelowStep(argv, index);
        s := s.(workspacePath := argv[index + 1]);
        s := CheckWorkspace(s, disk);
        assert s == SessionFor(argv[index + 1], disk);
        index := index + 2;
      } else {
        WellFormedHasPairAt(argv, index);
        return Failure(index);
      }
    }
    LoopExitWellFormed(argv, index);
    if index == 1 {
      assert |argv| <= 1;
    } else {
      assert index == |argv| >= 3;
    }
    return Success(s);
  }

  /** `CheckParameters`: runs the argument loop, then rejects a session with
      fewer than two images. The last pair wins. Any other token, or a flag
      without a value, rejects the vector at its position. With no arguments
      the default workspace is never scanned, so the vector is rejected. */
  method CheckParameters(argv: seq<string>, disk: Disk) returns (r: Result<Session, ArgError>)
    ensures r.Success? <==> Accepts(argv, disk)
    ensures r.Success? ==>
              && r.value.workspacePath == argv[|argv| - 1]
              && r.value.imageFolderPath == ImageFolder(argv[|argv| - 1])
              && r.value.imagePaths == ImagesFor(argv[|argv| - 1], disk)
              && r.value.numImages == |r.value.imagePaths| >= 2
    ensures r.Failure? && r.error.UnknownArgument? ==>
              && var k := r.error.index;
              && 1 <= k < |argv| && k % 2 == 1
              && (k + 1 == |argv| || argv[k] != WorkspaceFlag)
              && FlagsBelow(argv, k)
    ensures r == Failure(TooFewImages) ==> WellFormedArgs(argv)
    ensures |argv| <= 1 ==> r == Failure(TooFewImages)
  {
    var consumed := ConsumePairs(argv, disk);
    if consumed.Failure? {
      return Failure(UnknownArgument(consumed.error));
    }
    var s := consumed.value;
    if |s.imagePaths| < 2 {
      return Failure(TooFewImages);
    }
    return Success(s);
  }

  /** Appending one more `--workspace_path <value>` pair to a well-formed
      vector makes acceptance depend on `value` alone: whatever the earlier
      pairs named, the longer vector is accepted iff `value`'s image folder
      yields at least two images. */
  lemma AppendedPairWins(argv: seq<string>, value: string, disk: Disk)
    requires |argv| >= 1 && WellFormedArgs(argv)
    ensures WellFormedArgs(argv + [WorkspaceFlag, value])
    ensures Accepts(argv + [WorkspaceFlag, value], disk) <==> |ImagesFor(value, disk)| >= 2
  {
    var longer := argv + [WorkspaceFlag, value];
    forall k | 1 <= k < |longer| && k % 2 == 1
      ensures longer[k] == WorkspaceFlag
    {
      if k < |argv| {
        assert longer[k] == argv[k];
      }
    }
    assert longer[|longer| - 1] == value;
  }
}
