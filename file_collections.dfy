/** The objects of `maven_iuvs.files`: a `Files` collection holding the sorted paths
    found under a root and their basenames, the downselection and probing methods on it,
    the constructors of the validation chain, and `single_segment`.

    The file system is a parameter: whether the root exists, and `glob`, which maps the
    joined root and pattern to the paths it finds. */
module FileCollections {
  import opened Wrappers
  import opened Strings
  import opened Numerals
  import opened Ordering
  import opened Wildcard
  import opened PosixPaths
  import opened FileDownselect
  import opened FileValidation
  import opened FileSegments

  /** Absolute paths and their basenames, both set once at construction. */
  class Files {
    const absolutePaths: seq<string>
    const filenames: seq<string>

    /** The paths are sorted and `filenames[i]` is the basename of `absolutePaths[i]`. */
    predicate Valid() {
      filenames == Basenames(absolutePaths) && Sorted(absolutePaths)
    }

    /** Stores the sorted scan result and the basename of every path. */
    constructor (scan: seq<string>)
      ensures absolutePaths == Sort(scan) && Valid()
    {
      var paths := Sort(scan);
      absolutePaths := paths;
      filenames := Basenames(paths);
      SortSorted(scan);
    }

    /** `get_absolute_paths_of_filenames_containing_pattern`: the paths whose basename
        matches, sorted; `warned` reports the warning for an empty result. */
    method PathsMatching(pattern: string) returns (matching: seq<string>, warned: bool)
      requires Valid()
      ensures matching == Downselect(absolutePaths, filenames, pattern)
      ensures warned <==> matching == []
    {
      var found: seq<string> := [];
      var i := 0;
      while i < |filenames|
        invariant 0 <= i <= |filenames|
        invariant found == Selected(absolutePaths[..i], filenames[..i], pattern)
      {
        assert absolutePaths[..i + 1][..i] == absolutePaths[..i];
        assert filenames[..i + 1][..i] == filenames[..i];
        if Match(filenames[i], pattern) {
          found := found + [absolutePaths[i]];
        }
        i := i + 1;
      }
      assert absolutePaths[..i] == absolutePaths && filenames[..i] == filenames;
      warned := found == [];
      SortLength(found);
      matching := Sort(found);
    }

    /** `get_filenames_containing_pattern`: the sorted basenames of the downselected paths. */
    method FilenamesMatching(pattern: string) returns (names: seq<string>)
      requires Valid()
      ensures names == DownselectNames(absolutePaths, filenames, pattern)
    {
      var paths, _ := PathsMatching(pattern);
      names := Sort(Basenames(paths));
    }

    /** The check of one validation layer: it passes exactly when every filename matches
        and the filenames, in path order, are already sorted. */
    method CheckLayer(pattern: string) returns (ok: bool)
      requires Valid()
      ensures ok <==> Uniform(absolutePaths, filenames, pattern)
      ensures ok <==> (forall i :: 0 <= i < |filenames| ==> Match(filenames[i], pattern)) && Sorted(filenames)
    {
      var names := FilenamesMatching(pattern);
      ok := filenames == names;
      UniformIff(absolutePaths, pattern);
    }

    /** `__check_all_files_contain_one_of_patterns`: the first candidate, in list order,
        whose `*c*` downselection equals the filenames, or none. */
    method FirstMatchingCandidate(candidates: seq<string>) returns (r: Option<string>)
      requires Valid()
      ensures r == FirstPassing(candidates, Probe(absolutePaths, filenames))
    {
      ghost var pass := Probe(absolutePaths, filenames);
      var i := 0;
      while i < |candidates|
        invariant 0 <= i <= |candidates|
        invariant forall j :: 0 <= j < i ==> !pass(candidates[j])
      {
        var names := FilenamesMatching("*" + candidates[i] + "*");
        assert (names == filenames) == pass(candidates[i]);
        if names == filenames {
          FirstPassingSome(candidates, pass, i);
          return Some(candidates[i]);
        }
        NotYet(candidates, pass, i);
        i := i + 1;
      }
      FirstPassingNone(candidates, pass);
      return None;
    }
  }

  /** Extends the run of rejected candidates by one. */
  lemma NotYet(candidates: seq<string>, pass: string -> bool, i: nat)
    requires i < |candidates| && !pass(candidates[i])
    requires forall j :: 0 <= j < i ==> !pass(candidates[j])
    ensures forall j :: 0 <= j < i + 1 ==> !pass(candidates[j])
  {
  }

  /** A `SingleOrbitModeSequenceL1bFiles`: an accepted `L1bFiles` collection and the
      sequence, orbit and mode it was resolved to. */
  class SegmentFiles {
    const files: Files
    const sequence: string
    const orbit: int
    const mode: string

    constructor (files: Files, sequence: string, orbit: int, mode: string)
      ensures this.files == files && this.sequence == sequence && this.orbit == orbit && this.mode == mode
    {
      this.files := files;
      this.sequence := sequence;
      this.orbit := orbit;
      this.mode := mode;
    }
  }

  /** `r` is the object form of the outcome `o`. */
  predicate Yields(r: Result<Files, FileError>, o: Result<seq<string>, FileError>) {
    match r
    case Success(f) => o.Success? && f.Valid() && f.absolutePaths == o.value
    case Failure(e) => o == Failure(e)
  }

  /** `Files(path, pattern)`: the root must exist, then the scan is sorted and must not be
      empty. */
  method OpenFiles(root: string, pattern: string, rootExists: bool, glob: string -> seq<string>)
    returns (r: Result<Files, FileError>)
    ensures Yields(r, Opened(rootExists, glob(PathJoin(root, pattern)), FILES_LAYERS))
  {
    if !rootExists {
      return Failure(PathNotFound);
    }
    var f := new Files(glob(PathJoin(root, pattern)));
    if f.absolutePaths == [] {
      return Failure(NoFilesFound);
    }
    return Success(f);
  }

  /** Runs one more layer check on a collection its parent constructor accepted. */
  method AddLayer(parent: Result<Files, FileError>, layer: Layer) returns (r: Result<Files, FileError>)
    ensures parent.Failure? ==> r == parent
    ensures parent.Success? && parent.value.Valid() ==>
              r == if Uniform(parent.value.absolutePaths, parent.value.filenames, layer.pattern)
                   then parent else Failure(layer.error)
  {
    if parent.Failure? || !parent.value.Valid() {
      return parent;
    }
    var ok := parent.value.CheckLayer(layer.pattern);
    r := if ok then parent else Failure(layer.error);
  }

  /** `IUVSFiles(path, pattern)`: every filename starts with `mvn_iuv`. */
  method OpenIuvsFiles(root: string, pattern: string, rootExists: bool, glob: string -> seq<string>)
    returns (r: Result<Files, FileError>)
    ensures Yields(r, Opened(rootExists, glob(PathJoin(root, pattern)), IUVS_LAYERS))
  {
    var parent := OpenFiles(root, pattern, rootExists, glob);
    r := AddLayer(parent, IUVS_LAYER);
    OpenedExtend(rootExists, glob(PathJoin(root, pattern)), FILES_LAYERS, IUVS_LAYER);
  }

  /** `IUVSDataFiles(path, pattern)`: every IUVS filename also contains `fits`. */
  method OpenDataFiles(root: string, pattern: string, rootExists: bool, glob: string -> seq<string>)
    returns (r: Result<Files, FileError>)
    ensures Yields(r, Opened(rootExists, glob(PathJoin(root, pattern)), DATA_LAYERS))
  {
    var parent := OpenIuvsFiles(root, pattern, rootExists, glob);
    r := AddLayer(parent, DATA_LAYER);
    OpenedExtend(rootExists, glob(PathJoin(root, pattern)), IUVS_LAYERS, DATA_LAYER);
  }

  /** `L1bFiles(path, pattern)`: every data filename also contains `l1b`. */
  method OpenL1bFiles(root: string, pattern: string, rootExists: bool, glob: string -> seq<string>)
    returns (r: Result<Files, FileError>)
    ensures Yields(r, Opened(rootExists, glob(PathJoin(root, pattern)), L1B_LAYERS))
  {
    var parent := OpenDataFiles(root, pattern, rootExists, glob);
    r := AddLayer(parent, L1B_LAYER);
    OpenedExtend(rootExists, glob(PathJoin(root, pattern)), DATA_LAYERS, L1B_LAYER);
  }

  /** `r` is the object form of the resolved segment `o`. */
  predicate Resolves(r: Result<SegmentFiles, FileError>, o: Result<Segment, FileError>) {
    match r
    case Success(s) =>
      && o.Success? && s.files.Valid() && s.files.absolutePaths == o.value.paths
      && s.sequence == o.value.sequence && s.orbit == o.value.orbit && s.mode == o.value.mode
    case Failure(e) => o == Failure(e)
  }

  /** `SingleOrbitModeSequenceL1bFiles(path, pattern)`: an `L1bFiles` collection, then its
      sequence, its orbit and its mode. */
  method OpenSegment(root: string, pattern: string, rootExists: bool, glob: string -> seq<string>)
    returns (r: Result<SegmentFiles, FileError>)
    ensures Resolves(r, Resolved(rootExists, glob(PathJoin(root, pattern))))
  {
    var l1b := OpenL1bFiles(root, pattern, rootExists, glob);
    if l1b.Failure? {
      return Failure(l1b.error);
    }
    var f := l1b.value;
    var sequence := f.FirstMatchingCandidate(SEQUENCES);
    if sequence.None? {
      return Failure(MixedSequence);
    }
    var orbit := SingleOrbit(f.filenames);
    if orbit.Failure? {
      return Failure(orbit.error);
    }
    var mode := f.FirstMatchingCandidate(MODES);
    if mode.None? {
      return Failure(MixedMode);
    }
    var s := new SegmentFiles(f, sequence.value, orbit.value, mode.value);
    return Success(s);
  }

  /** `single_segment(path, orbit, mode, sequence)`: the files of one orbit, mode and
      sequence below the root, found with the segment pattern. */
  method SingleSegment(root: string, orbit: int, rootExists: bool, glob: string -> seq<string>,
                       mode: string := "muv", sequence: string := "apoapse")
    returns (r: Result<SegmentFiles, FileError>)
    ensures Resolves(r, Resolved(rootExists, glob(PathJoin(root, SegmentPattern(sequence, orbit, mode)))))
  {
    var pattern := SegmentPattern(sequence, orbit, mode);
    r := OpenSegment(root, pattern, rootExists, glob);
  }
}
