/** The `NBSfM` constructor: validates the command line, then loads the
    images. Process termination and a thrown `runtime_error` both become a
    rejected start-up. */
module Startup {
  import opened Wrappers
  import opened Workspace
  import opened Parameters
  import opened Loader

  /** Why the program stops before any reconstruction work. */
  datatype StartupError =
    | BadParameters(argError: ArgError)  // `CheckParameters` failed: `exit(-1)`
    | BadImages(loadError: LoadError)    // `LoadImages` threw

  /** The state a successfully constructed `NBSfM` holds. */
  datatype Pipeline = Pipeline(session: Session, frames: Frames)

  /** Runs `CheckParameters` and, if it accepts, `LoadImages` on the chosen
      paths. A started pipeline holds at least two images, one per chosen path
      and all of one size, taken from the last workspace on the command line. */
  method Start(argv: seq<string>, disk: Disk, imread: Decoder) returns (r: Result<Pipeline, StartupError>)
    ensures r.Success? ==>
              && WellFormedArgs(argv) && |argv| >= 3
              && r.value.session == SessionFor(argv[|argv| - 1], disk)
              && |r.value.frames.images| == |r.value.session.imagePaths| >= 2
              && AllDecode(r.value.session.imagePaths, imread)
              && r.value.frames.images == Decoded(r.value.session.imagePaths, imread)
              && UniformSize(r.value.frames.images)
              && r.value.frames.size == Some((r.value.frames.images[0].cols, r.value.frames.images[0].rows))
    ensures r.Failure? && r.error.BadParameters? ==>
              !(WellFormedArgs(argv) && |argv| >= 3 && |ImagesFor(argv[|argv| - 1], disk)| >= 2)
    ensures r.Failure? && r.error.BadImages? ==>
              && WellFormedArgs(argv) && |argv| >= 3
              && |ImagesFor(argv[|argv| - 1], disk)| >= 2
              && var paths := ImagesFor(argv[|argv| - 1], disk);
              !(AllDecode(paths, imread) && UniformSize(Decoded(paths, imread)))
  {
    var checked := CheckParameters(argv, disk);
    if checked.Failure? {
      return Failure(BadParameters(checked.error));
    }
    var session := checked.value;
    var loaded := LoadImages(session.imagePaths, imread);
    if loaded.Failure? {
      FitsFirstIffUniform(session.imagePaths, imread);
      return Failure(BadImages(loaded.error));
    }
    return Success(Pipeline(session, loaded.value));
  }
}
