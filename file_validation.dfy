/** The construction chain `Files` → `IUVSFiles` → `IUVSDataFiles` → `L1bFiles` as a
    specification: the root must exist, the scan must find something, and then each
    layer in turn must pass its list-equality check. */
module FileValidation {
  import opened Wrappers
  import opened Strings
  import opened Ordering
  import opened Wildcard
  import opened FileDownselect

  /** The exceptions of the chain, by cause. */
  datatype FileError =
    | PathNotFound      // OSError: the root does not exist
    | NoFilesFound      // ValueError: the scan found nothing
    | NotIuvsFiles      // ValueError: some file is not an IUVS file
    | NotDataFiles      // ValueError: some IUVS file is not a data file
    | NotL1bFiles       // ValueError: some data file is not an l1b file
    | MixedSequence     // ValueError: not all files are from the same sequence
    | NoOrbitMarker     // ValueError: the first filename has no `orbit`
    | OrbitNotInteger   // ValueError: the orbit slice is not an integer numeral
    | MixedOrbit        // ValueError: not all files are from the same orbit
    | MixedMode         // ValueError: not all files are from the same mode

  /** One validation layer: the pattern every filename must match and the error raised
      when the check fails. */
  datatype Layer = Layer(pattern: string, error: FileError)

  const IUVS_LAYER := Layer("mvn_iuv*", NotIuvsFiles)
  const DATA_LAYER := Layer("*fits*", NotDataFiles)
  const L1B_LAYER := Layer("*l1b*", NotL1bFiles)

  /** The checks each class runs, parents first. */
  const FILES_LAYERS: seq<Layer> := []
  const IUVS_LAYERS: seq<Layer> := FILES_LAYERS + [IUVS_LAYER]
  const DATA_LAYERS: seq<Layer> := IUVS_LAYERS + [DATA_LAYER]
  const L1B_LAYERS: seq<Layer> := DATA_LAYERS + [L1B_LAYER]

  /** The error of the first layer that `pass` rejects, if any. */
  function FirstRejected(layers: seq<Layer>, pass: Layer -> bool): Option<FileError> {
    if layers == [] then None
    else if !pass(layers[0]) then Some(layers[0].error)
    else FirstRejected(layers[1..], pass)
  }

  /** A layer's check on `paths`: the downselection by its pattern gives back the
      basenames unchanged. */
  function Check(paths: seq<string>): Layer -> bool {
    (l: Layer) => Uniform(paths, Basenames(paths), l.pattern)
  }

  /** The error of the first layer whose check fails on `paths`, if any. */
  function FirstFailing(paths: seq<string>, layers: seq<Layer>): Option<FileError> {
    FirstRejected(layers, Check(paths))
  }

  /** The outcome of constructing a collection with `layers` from a root that exists or
      not and the scan result below it: the sorted paths, or the first error. */
  function Opened(rootExists: bool, scan: seq<string>, layers: seq<Layer>): (r: Result<seq<string>, FileError>)
    ensures r.Success? ==> r.value != []
  {
    if !rootExists then Failure(PathNotFound)
    else
      var paths := Sort(scan);
      if paths == [] then Failure(NoFilesFound)
      else
        match FirstFailing(paths, layers)
        case Some(e) => Failure(e)
        case None => Success(paths)
  }

  /** Every name matches `pattern` and the names, in their order, are sorted. */
  predicate LayerHolds(names: seq<string>, pattern: string) {
    && (forall i :: 0 <= i < |names| ==> Match(names[i], pattern))
    && Sorted(names)
  }

  // ---------------------------------------------------------------------------
  // Lemmas

  /** Layers run in order: the first rejected layer of `a + b` is the first rejected
      layer of `a`, or else of `b`. */
  lemma {:induction false} LayerOrder(a: seq<Layer>, b: seq<Layer>, pass: Layer -> bool)
    ensures FirstRejected(a + b, pass) ==
              if FirstRejected(a, pass).Some? then FirstRejected(a, pass) else FirstRejected(b, pass)
  {
    if a == [] {
      assert a + b == b;
    } else {
      assert (a + b)[0] == a[0] && (a + b)[1..] == a[1..] + b;
      LayerOrder(a[1..], b, pass);
    }
  }

  /** No layer is rejected exactly when `pass` accepts every layer. */
  lemma {:induction false} RejectedNone(layers: seq<Layer>, pass: Layer -> bool)
    ensures FirstRejected(layers, pass).None? <==> forall k :: 0 <= k < |layers| ==> pass(layers[k])
  {
    if layers != [] && pass(layers[0]) {
      RejectedNone(layers[1..], pass);
      assert forall k :: 1 <= k < |layers| ==> layers[k] == layers[1..][k - 1];
    }
  }

  /** A rejection is the error of a layer that `pass` rejects, every earlier layer being
      accepted. */
  lemma {:induction false} RejectedSome(layers: seq<Layer>, pass: Layer -> bool)
    requires FirstRejected(layers, pass).Some?
    ensures exists k :: 0 <= k < |layers| && layers[k].error == FirstRejected(layers, pass).value
                && !pass(layers[k]) && forall j :: 0 <= j < k ==> pass(layers[j])
  {
    if pass(layers[0]) {
      var rest := layers[1..];
      RejectedSome(rest, pass);
      var k :| 0 <= k < |rest| && rest[k].error == FirstRejected(rest, pass).value
              && !pass(rest[k]) && forall j :: 0 <= j < k ==> pass(rest[j]);
      assert layers[k + 1] == rest[k];
      forall j | 0 <= j < k + 1
        ensures pass(layers[j])
      {
        if j > 0 {
          assert layers[j] == rest[j - 1];
        }
      }
    } else {
      assert !pass(layers[0]) && layers[0].error == FirstRejected(layers, pass).value;
    }
  }

  /** No layer fails exactly when every layer's check passes; a failure is the error of
      the first layer that fails. */
  lemma FirstFailingSpec(paths: seq<string>, layers: seq<Layer>)
    ensures FirstFailing(paths, layers).None? <==>
              forall k :: 0 <= k < |layers| ==> Uniform(paths, Basenames(paths), layers[k].pattern)
    ensures FirstFailing(paths, layers).Some? ==>
              exists k :: 0 <= k < |layers| && layers[k].error == FirstFailing(paths, layers).value
                && !Uniform(paths, Basenames(paths), layers[k].pattern)
                && forall j :: 0 <= j < k ==> Uniform(paths, Basenames(paths), layers[j].pattern)
  {
    var pass := Check(paths);
    RejectedNone(layers, pass);
    if FirstRejected(layers, pass).Some? {
      RejectedSome(layers, pass);
      var k :| 0 <= k < |layers| && layers[k].error == FirstRejected(layers, pass).value
                && !pass(layers[k]) && forall j :: 0 <= j < k ==> pass(layers[j]);
      assert forall j :: 0 <= j < k ==> Uniform(paths, Basenames(paths), layers[j].pattern);
    }
  }

  /** Adding a layer to a collection that constructed keeps it or fails with that
      layer's error; a collection that failed keeps its error. */
  lemma OpenedExtend(rootExists: bool, scan: seq<string>, layers: seq<Layer>, l: Layer)
    ensures Opened(rootExists, scan, layers + [l]) ==
              match Opened(rootExists, scan, layers)
              case Failure(e) => Failure(e)
              case Success(paths) =>
                if Uniform(paths, Basenames(paths), l.pattern) then Success(paths) else Failure(l.error)
  {
    var paths := Sort(scan);
    LayerOrder(layers, [l], Check(paths));
    assert [l][1..] == [];
  }

  /** A collection constructs exactly when the root exists, the scan is non-empty and
      every layer holds on the sorted scan; it then holds the sorted scan. */
  lemma OpenedIff(rootExists: bool, scan: seq<string>, layers: seq<Layer>)
    ensures Opened(rootExists, scan, layers).Success? <==>
              rootExists && scan != [] && forall k :: 0 <= k < |layers| ==> LayerHolds(Basenames(Sort(scan)), layers[k].pattern)
    ensures Opened(rootExists, scan, layers).Success? ==>
              Opened(rootExists, scan, layers).value == Sort(scan) && Sorted(Sort(scan))
  {
    var paths := Sort(scan);
    SortSorted(scan);
    SortLength(scan);
    FirstFailingSpec(paths, layers);
    forall k | 0 <= k < |layers|
      ensures Uniform(paths, Basenames(paths), layers[k].pattern) <==> LayerHolds(Basenames(paths), layers[k].pattern)
    {
      UniformIff(paths, layers[k].pattern);
    }
  }

  /** The errors are raised in construction order: a missing root before an empty scan,
      an empty scan before any layer, and then the first failing layer. */
  lemma OpenedErrors(rootExists: bool, scan: seq<string>, layers: seq<Layer>)
    ensures !rootExists ==> Opened(rootExists, scan, layers) == Failure(PathNotFound)
    ensures rootExists && scan == [] ==> Opened(rootExists, scan, layers) == Failure(NoFilesFound)
    ensures rootExists && scan != [] && Opened(rootExists, scan, layers).Failure? ==>
              exists k :: 0 <= k < |layers| && Opened(rootExists, scan, layers).error == layers[k].error
                && !LayerHolds(Basenames(Sort(scan)), layers[k].pattern)
                && forall j :: 0 <= j < k ==> LayerHolds(Basenames(Sort(scan)), layers[j].pattern)
  {
    var paths := Sort(scan);
    SortSorted(scan);
    SortLength(scan);
    FirstFailingSpec(paths, layers);
    forall k | 0 <= k < |layers|
      ensures Uniform(paths, Basenames(paths), layers[k].pattern) <==> LayerHolds(Basenames(paths), layers[k].pattern)
    {
      UniformIff(paths, layers[k].pattern);
    }
  }

  /** An `L1bFiles` collection constructs exactly when every basename starts with
      `mvn_iuv` and contains `fits` and `l1b`, and the basenames in path order are sorted. */
  lemma L1bAccepted(rootExists: bool, scan: seq<string>)
    ensures Opened(rootExists, scan, L1B_LAYERS).Success? <==>
              rootExists && scan != [] && Sorted(Basenames(Sort(scan))) && L1bNames(Basenames(Sort(scan)))
  {
    OpenedIff(rootExists, scan, L1B_LAYERS);
    L1bLayers(Basenames(Sort(scan)));
  }

  /** The three layers of `L1bFiles` hold of some names exactly when they are sorted and
      `L1bNames`. */
  lemma L1bLayers(names: seq<string>)
    ensures (forall k :: 0 <= k < |L1B_LAYERS| ==> LayerHolds(names, L1B_LAYERS[k].pattern)) <==>
              Sorted(names) && L1bNames(names)
  {
    L1bPatterns(names);
    var patterns := ["mvn_iuv*", "*fits*", "*l1b*"];
    assert |L1B_LAYERS| == 3 && forall k :: 0 <= k < 3 ==> L1B_LAYERS[k].pattern == patterns[k];
    if forall k :: 0 <= k < 3 ==> LayerHolds(names, patterns[k]) {
      assert LayerHolds(names, patterns[0]) && LayerHolds(names, patterns[1]) && LayerHolds(names, patterns[2]);
    }
  }

  /** Every name starts with `mvn_iuv` and contains `fits` and `l1b`. */
  predicate L1bNames(names: seq<string>) {
    forall i :: 0 <= i < |names| ==>
      StartsWith(names[i], "mvn_iuv") && Contains(names[i], "fits") && Contains(names[i], "l1b")
  }

  /** The three layer patterns hold of every name exactly when `L1bNames` does. */
  lemma L1bPatterns(names: seq<string>)
    ensures ((forall i :: 0 <= i < |names| ==> Match(names[i], "mvn_iuv*"))
             && (forall i :: 0 <= i < |names| ==> Match(names[i], "*fits*"))
             && (forall i :: 0 <= i < |names| ==> Match(names[i], "*l1b*"))) <==> L1bNames(names)
  {
    assert "*fits*" == "*" + "fits" + "*" && "*l1b*" == "*" + "l1b" + "*" && "mvn_iuv*" == "mvn_iuv" + "*";
    forall i | 0 <= i < |names|
      ensures Match(names[i], "mvn_iuv*") <==> StartsWith(names[i], "mvn_iuv")
      ensures Match(names[i], "*fits*") <==> Contains(names[i], "fits")
      ensures Match(names[i], "*l1b*") <==> Contains(names[i], "l1b")
    {
      MatchPrefixPattern(names[i], "mvn_iuv");
      MatchContains(names[i], "fits");
      MatchContains(names[i], "l1b");
    }
  }
}
