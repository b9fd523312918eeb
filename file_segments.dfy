/** What `SingleOrbitModeSequenceL1bFiles` resolves about an `L1bFiles` collection —
    its sequence, its orbit and its mode, in that order — and the glob pattern that
    `single_segment` builds. */
module FileSegments {
  import opened Wrappers
  import opened Strings
  import opened Numerals
  import opened Ordering
  import opened Wildcard
  import opened FileDownselect
  import opened FileValidation

  /** The observing sequences probed, in probing order. */
  const SEQUENCES: seq<string> :=
    ["apoapse", "incorona", "indisk", "inlimb", "outcorona", "outdisk", "outlimb", "periapse", "star"]

  /** The observing modes probed, in probing order. */
  const MODES: seq<string> := ["ech", "fuv", "muv"]

  /** The resolved description of a single segment. */
  datatype Segment = Segment(paths: seq<string>, sequence: string, orbit: int, mode: string)

  /** A candidate passes when the names pass the layer check with `*c*`. */
  function Probe(paths: seq<string>, names: seq<string>): string -> bool {
    c => Passes(paths, names, c)
  }

  /** The five characters after the first `orbit` of the first name, sliced at the same
      offset from every name. */
  function OrbitSlices(names: seq<string>, start: int): (r: seq<string>)
    ensures |r| == |names|
  {
    seq(|names|, i requires 0 <= i < |names| => Slice(names[i], start, start + 5))
  }

  /** The orbit of a non-empty list of names: every slice must be the same numeral. */
  function SingleOrbit(names: seq<string>): Result<int, FileError>
    requires names != []
  {
    match IndexOf(names[0], "orbit")
    case None => Failure(NoOrbitMarker)
    case Some(k) =>
      var orbits := OrbitSlices(names, k + 5);
      if forall i :: 0 <= i < |orbits| ==> orbits[i] == orbits[0] then
        match ParseInt(orbits[0])
        case None => Failure(OrbitNotInteger)
        case Some(n) => Success(n)
      else Failure(MixedOrbit)
  }

  /** The outcome of constructing a `SingleOrbitModeSequenceL1bFiles`. */
  function Resolved(rootExists: bool, scan: seq<string>): Result<Segment, FileError> {
    var paths :- Opened(rootExists, scan, L1B_LAYERS);
    var names := Basenames(paths);
    match FirstPassing(SEQUENCES, Probe(paths, names))
    case None => Failure(MixedSequence)
    case Some(sequence) =>
      var orbit :- SingleOrbit(names);
      match FirstPassing(MODES, Probe(paths, names))
      case None => Failure(MixedMode)
      case Some(mode) => Success(Segment(paths, sequence, orbit, mode))
  }

  // The glob pattern of `single_segment`: a recursive `**` directory part, then a name
  // part of sequence, orbit and mode, each between stars; the orbit is not padded.
  function SegmentPattern(sequence: string, orbit: int, mode: string): string {
    "**/" + NamePattern(sequence, IntToString(orbit), mode)
  }

  /** The part of the segment pattern that one filename is matched against. */
  function NamePattern(sequence: string, orbit: string, mode: string): string {
    "*" + sequence + "*" + orbit + "*" + mode + "*"
  }

  // ---------------------------------------------------------------------------
  // Orbit

  /** Names whose first `orbit` in the first name is followed, at the same offset in every
      name, by the orbit code of `n` resolve to `n`. */
  lemma SingleOrbitOfCode(names: seq<string>, k: nat, n: int)
    requires names != [] && IndexOf(names[0], "orbit") == Some(k)
    requires 0 <= n < 100000
    requires forall i :: 0 <= i < |names| ==> OccursAt(names[i], OrbitCode(n), k + 5)
    ensures SingleOrbit(names) == Success(n)
  {
    OrbitCodeShape(n);
    ParseOrbitCode(n);
    var orbits := OrbitSlices(names, k + 5);
    forall i | 0 <= i < |names|
      ensures orbits[i] == OrbitCode(n)
    {
      assert Slice(names[i], k + 5, k + 10) == names[i][k + 5..k + 10];
    }
  }

  /** A successful orbit is the integer of the slice after the first `orbit` of the first
      name, and every other name has that slice too; orbits are resolved exactly when the
      first name has `orbit` and all slices agree on an integer numeral. */
  lemma SingleOrbitSpec(names: seq<string>)
    requires names != []
    ensures SingleOrbit(names).Success? <==>
              Contains(names[0], "orbit")
                && var start := IndexOf(names[0], "orbit").value + 5;
                   (forall i :: 0 <= i < |names| ==> Slice(names[i], start, start + 5) == Slice(names[0], start, start + 5))
                   && ParseInt(Slice(names[0], start, start + 5)).Some?
    ensures SingleOrbit(names) == Failure(NoOrbitMarker) <==> !Contains(names[0], "orbit")
    ensures SingleOrbit(names).Success? ==>
              ParseInt(Slice(names[0], IndexOf(names[0], "orbit").value + 5, IndexOf(names[0], "orbit").value + 10))
                == Some(SingleOrbit(names).value)
  {
    SingleOrbitResolves(names);
    SingleOrbitValue(names);
  }

  lemma SingleOrbitResolves(names: seq<string>)
    requires names != []
    ensures SingleOrbit(names).Success? <==>
              Contains(names[0], "orbit")
                && var start := IndexOf(names[0], "orbit").value + 5;
                   (forall i :: 0 <= i < |names| ==> Slice(names[i], start, start + 5) == Slice(names[0], start, start + 5))
                   && ParseInt(Slice(names[0], start, start + 5)).Some?
  {
    match IndexOf(names[0], "orbit")
    case None =>
    case Some(k) =>
      assert Contains(names[0], "orbit");
      SingleOrbitAtIff(names, k);
  }

  lemma SingleOrbitAtIff(names: seq<string>, k: nat)
    requires names != [] && IndexOf(names[0], "orbit") == Some(k)
    ensures SingleOrbit(names).Success? <==>
              (forall i :: 0 <= i < |names| ==> Slice(names[i], k + 5, k + 10) == Slice(names[0], k + 5, k + 10))
              && ParseInt(Slice(names[0], k + 5, k + 10)).Some?
  {
    SingleOrbitAt(names, k);
  }

  lemma SingleOrbitValue(names: seq<string>)
    requires names != []
    ensures SingleOrbit(names).Success? ==>
              ParseInt(Slice(names[0], IndexOf(names[0], "orbit").value + 5, IndexOf(names[0], "orbit").value + 10))
                == Some(SingleOrbit(names).value)
  {
    match IndexOf(names[0], "orbit")
    case None =>
    case Some(k) =>
      SingleOrbitAt(names, k);
  }

  /** With the first `orbit` of the first name at `k`, the outcome depends only on the
      five-character slices at `k + 5`. */
  lemma SingleOrbitAt(names: seq<string>, k: nat)
    requires names != [] && IndexOf(names[0], "orbit") == Some(k)
    ensures SingleOrbit(names) ==
              if forall i :: 0 <= i < |names| ==> Slice(names[i], k + 5, k + 10) == Slice(names[0], k + 5, k + 10)
              then (if ParseInt(Slice(names[0], k + 5, k + 10)).Some?
                    then Success(ParseInt(Slice(names[0], k + 5, k + 10)).value) else Failure(OrbitNotInteger))
              else Failure(MixedOrbit)
  {
    var orbits := OrbitSlices(names, k + 5);
    assert forall i :: 0 <= i < |names| ==> orbits[i] == Slice(names[i], k + 5, k + 10);
  }

  // ---------------------------------------------------------------------------
  // Sequence and mode

  /** On an accepted `L1bFiles` collection the basenames are sorted, so a candidate
      without wildcards passes exactly when every basename contains it. */
  lemma ProbeOnL1b(rootExists: bool, scan: seq<string>, c: string)
    requires Opened(rootExists, scan, L1B_LAYERS).Success? && Literal(c)
    ensures var paths := Opened(rootExists, scan, L1B_LAYERS).value;
            Probe(paths, Basenames(paths))(c) <==> forall i :: 0 <= i < |paths| ==> Contains(Basenames(paths)[i], c)
  {
    var paths := Opened(rootExists, scan, L1B_LAYERS).value;
    OpenedIff(rootExists, scan, L1B_LAYERS);
    L1bAccepted(rootExists, scan);
    CandidateIff(paths, c);
  }

  /** Every probed name is free of wildcards. */
  lemma CandidatesLiteral()
    ensures forall c :: c in SEQUENCES ==> Literal(c)
    ensures forall c :: c in MODES ==> Literal(c)
  {
  }

  /** The first sequence (or mode) passes exactly when it is the first candidate, in
      list order, that every basename contains. */
  lemma FirstContained(rootExists: bool, scan: seq<string>, candidates: seq<string>, k: nat)
    requires Opened(rootExists, scan, L1B_LAYERS).Success?
    requires forall j :: 0 <= j < |candidates| ==> Literal(candidates[j])
    requires k < |candidates|
    requires Everywhere(Basenames(Opened(rootExists, scan, L1B_LAYERS).value), candidates[k])
    requires forall j :: 0 <= j < k ==> !Everywhere(Basenames(Opened(rootExists, scan, L1B_LAYERS).value), candidates[j])
    ensures var paths := Opened(rootExists, scan, L1B_LAYERS).value;
            FirstPassing(candidates, Probe(paths, Basenames(paths))) == Some(candidates[k])
  {
    var paths := Opened(rootExists, scan, L1B_LAYERS).value;
    forall j | 0 <= j < |candidates|
      ensures Probe(paths, Basenames(paths))(candidates[j]) <==> Everywhere(Basenames(paths), candidates[j])
    {
      ProbeOnL1b(rootExists, scan, candidates[j]);
    }
    FirstPassingSome(candidates, Probe(paths, Basenames(paths)), k);
  }

  /** No candidate passes when none is contained in every basename. */
  lemma NoneContained(rootExists: bool, scan: seq<string>, candidates: seq<string>)
    requires Opened(rootExists, scan, L1B_LAYERS).Success?
    requires forall j :: 0 <= j < |candidates| ==> Literal(candidates[j])
    ensures var paths := Opened(rootExists, scan, L1B_LAYERS).value;
            FirstPassing(candidates, Probe(paths, Basenames(paths))).None? <==>
              forall j :: 0 <= j < |candidates| ==> !Everywhere(Basenames(paths), candidates[j])
  {
    var paths := Opened(rootExists, scan, L1B_LAYERS).value;
    forall j | 0 <= j < |candidates|
      ensures Probe(paths, Basenames(paths))(candidates[j]) <==> Everywhere(Basenames(paths), candidates[j])
    {
      ProbeOnL1b(rootExists, scan, candidates[j]);
    }
    FirstPassingNone(candidates, Probe(paths, Basenames(paths)));
  }

  /** Every name contains `c`. */
  predicate Everywhere(names: seq<string>, c: string) {
    forall i :: 0 <= i < |names| ==> Contains(names[i], c)
  }

  // ---------------------------------------------------------------------------
  // Resolution order

  /** Sequence is resolved before orbit, and orbit before mode. When no sequence is
      contained in every basename the error is `MixedSequence`, whatever the orbit
      slices and modes are; with a common sequence, a bad orbit is reported before any
      mode is probed; and with both, no common mode gives `MixedMode`. */
  lemma ResolutionOrder(rootExists: bool, scan: seq<string>)
    requires Opened(rootExists, scan, L1B_LAYERS).Success?
    ensures var names := Basenames(Opened(rootExists, scan, L1B_LAYERS).value);
            && ((forall j :: 0 <= j < |SEQUENCES| ==> !Everywhere(names, SEQUENCES[j])) ==>
                  Resolved(rootExists, scan) == Failure(MixedSequence))
            && ((exists j :: 0 <= j < |SEQUENCES| && Everywhere(names, SEQUENCES[j])) && SingleOrbit(names).Failure? ==>
                  Resolved(rootExists, scan) == Failure(SingleOrbit(names).error))
            && ((exists j :: 0 <= j < |SEQUENCES| && Everywhere(names, SEQUENCES[j])) && SingleOrbit(names).Success?
                 && (forall j :: 0 <= j < |MODES| ==> !Everywhere(names, MODES[j])) ==>
                  Resolved(rootExists, scan) == Failure(MixedMode))
  {
    CandidatesLiteral();
    assert forall j :: 0 <= j < |SEQUENCES| ==> Literal(SEQUENCES[j]) by {
      assert forall j :: 0 <= j < |SEQUENCES| ==> SEQUENCES[j] in SEQUENCES;
    }
    assert forall j :: 0 <= j < |MODES| ==> Literal(MODES[j]) by {
      assert forall j :: 0 <= j < |MODES| ==> MODES[j] in MODES;
    }
    NoneContained(rootExists, scan, SEQUENCES);
    NoneContained(rootExists, scan, MODES);
    ResolutionSteps(rootExists, scan);
  }

  /** The three failure exits of `Resolved`, in terms of the probes it runs. */
  lemma ResolutionSteps(rootExists: bool, scan: seq<string>)
    requires Opened(rootExists, scan, L1B_LAYERS).Success?
    ensures var paths := Opened(rootExists, scan, L1B_LAYERS).value;
            var names := Basenames(paths);
            && (FirstPassing(SEQUENCES, Probe(paths, names)).None? ==>
                  Resolved(rootExists, scan) == Failure(MixedSequence))
            && (FirstPassing(SEQUENCES, Probe(paths, names)).Some? && SingleOrbit(names).Failure? ==>
                  Resolved(rootExists, scan) == Failure(SingleOrbit(names).error))
            && ((FirstPassing(SEQUENCES, Probe(paths, names)).Some? && SingleOrbit(names).Success?
                 && FirstPassing(MODES, Probe(paths, names)).None?) ==>
                  Resolved(rootExists, scan) == Failure(MixedMode))
  {
  }

  /** A resolved segment holds the accepted `L1bFiles` paths; its sequence and mode are
      candidates contained in every basename, and its orbit is the integer of the common
      orbit slice. */
  lemma ResolvedSegment(rootExists: bool, scan: seq<string>)
    requires Resolved(rootExists, scan).Success?
    ensures Opened(rootExists, scan, L1B_LAYERS).Success?
    ensures var s := Resolved(rootExists, scan).value;
            && s.paths == Sort(scan)
            && s.sequence in SEQUENCES && Everywhere(Basenames(s.paths), s.sequence)
            && s.mode in MODES && Everywhere(Basenames(s.paths), s.mode)
            && SingleOrbit(Basenames(s.paths)) == Success(s.orbit)
  {
    var paths := Opened(rootExists, scan, L1B_LAYERS).value;
    var names := Basenames(paths);
    var sq := FirstPassing(SEQUENCES, Probe(paths, names));
    var md := FirstPassing(MODES, Probe(paths, names));
    assert sq.Some? && SingleOrbit(names).Success? && md.Some?;
    assert Resolved(rootExists, scan) == Success(Segment(paths, sq.value, SingleOrbit(names).value, md.value));
    OpenedIff(rootExists, scan, L1B_LAYERS);
    CandidatesLiteral();
    ProbeOnL1b(rootExists, scan, sq.value);
    ProbeOnL1b(rootExists, scan, md.value);
  }

  // ---------------------------------------------------------------------------
  // The segment pattern

  /** A filename matches the name part of the segment pattern exactly when the sequence
      occurs in it, the orbit occurs after that occurrence, and the mode after that. */
  lemma NamePatternMatch(name: string, sequence: string, orbit: string, mode: string)
    requires Literal(sequence) && Literal(orbit) && Literal(mode)
    ensures Match(name, NamePattern(sequence, orbit, mode)) <==>
              exists i: nat :: OccursAt(name, sequence, i) && InOrder(name[i + |sequence|..], orbit, mode)
  {
    var rest := "*" + orbit + "*" + mode + "*";
    assert NamePattern(sequence, orbit, mode) == "*" + sequence + rest;
    MatchStarLiteral(name, sequence, rest);
    forall i: nat | OccursAt(name, sequence, i)
      ensures Match(name[i + |sequence|..], rest) <==> InOrder(name[i + |sequence|..], orbit, mode)
    {
      var tail := name[i + |sequence|..];
      assert rest == "*" + orbit + ("*" + mode + "*");
      MatchStarLiteral(tail, orbit, "*" + mode + "*");
      forall j: nat | OccursAt(tail, orbit, j)
        ensures Match(tail[j + |orbit|..], "*" + mode + "*") <==> Contains(tail[j + |orbit|..], mode)
      {
        MatchContains(tail[j + |orbit|..], mode);
      }
    }
  }

  /** `orbit` occurs, and `mode` occurs after it. */
  ghost predicate InOrder(s: string, orbit: string, mode: string) {
    exists j: nat :: OccursAt(s, orbit, j) && Contains(s[j + |orbit|..], mode)
  }

  // The default segment of orbit 3453: sequence `apoapse`, mode `muv`, orbit `3453`.
  lemma DefaultSegmentPattern()
    ensures SegmentPattern("apoapse", 3453, "muv") == "**/" + "*apoapse*" + "3453" + "*muv*"
  {
    assert NatToString(3453) == "3453" by {
      assert NatToString(3) == "3" && NatToString(34) == "34" && NatToString(345) == "345";
    }
  }
}
