/** The IUVS data filename grammar of `pyuvs.files.DataFilename`:

      spacecraft_instrument_level_description_timestamp_version_revision.extension

    where description is `[segment-]*orbitNNNNN[-channel]...` and timestamp is
    `YYYYMMDDTHHMMSS`. A filename is first validated by four checks and then
    decomposed by splits, slices and integer parsing; every field is computed once. */
module DataFilenames {
  import opened Wrappers
  import opened Strings
  import opened Numerals

  /** Why a field could not be extracted from a validated filename. */
  datatype FieldError =
    | MissingField      // IndexError: a token, the orbit segment or the time is absent
    | NotAnInteger      // ValueError: int() rejected a numeric field

  /** The exception the constructor raises, by kind. */
  datatype ParseError =
    | NotIuvsDataFile          // ValueError: one of the four validation checks failed
    | BadField(reason: FieldError)

  datatype DataFilename = DataFilename(
    filename: string,
    spacecraft: string,
    instrument: string,
    level: string,
    description: string,
    segment: string,
    orbit: int,
    channel: Option<string>,
    timestamp: string,
    date: string,
    year: int,
    month: int,
    day: int,
    time: string,
    hour: int,
    minute: int,
    second: int,
    version: string,
    revision: string,
    extension: string)

  /** The parts of the description token. */
  datatype Description = Description(segment: string, orbit: int, channel: Option<string>)

  /** The parts of the timestamp token. */
  datatype Timestamp = Timestamp(
    date: string, year: int, month: int, day: int,
    time: string, hour: int, minute: int, second: int)

  // ---------------------------------------------------------------------------
  // Validation

  /** The four checks; all must hold before any field is extracted. */
  predicate IsIuvsDataFilename(filename: string) {
    && StartsWith(filename, "mvn_iuv_")
    && (EndsWith(filename, "fits") || EndsWith(filename, "fits.gz"))
    && Count(filename, '_') == 6
    && Contains(filename, "orbit")
  }

  // ---------------------------------------------------------------------------
  // Decomposition

  /** Everything before the first `.`; without a `.`, `find` gives -1 and the slice
      `[:-1]` drops the last character. */
  function Stem(filename: string): string {
    Slice(filename, 0, Find(filename, "."))
  }

  /** Everything after the first `.`; without a `.` this is the whole filename. */
  function Extension(filename: string): string {
    Slice(filename, Find(filename, ".") + 1, |filename|)
  }

  /** The stem split on `_`. */
  function Tokens(filename: string): (r: seq<string>)
    ensures |r| > 0
  {
    SplitOn(Stem(filename), '_')
  }

  function IntField(s: string): (r: Result<int, FieldError>)
    ensures r.Success? <==> ParseInt(s).Some?
    ensures r.Success? ==> ParseInt(s) == Some(r.value)
    ensures r.Failure? ==> r.error == NotAnInteger
  {
    match ParseInt(s)
    case None => Failure(NotAnInteger)
    case Some(n) => Success(n)
  }

  /** `k` is the index of the first segment that contains `orbit`. */
  predicate IsOrbitMarker(pieces: seq<string>, k: nat) {
    && k < |pieces|
    && Contains(pieces[k], "orbit")
    && forall j :: 0 <= j < k ==> !Contains(pieces[j], "orbit")
  }

  /** The first index whose segment contains `orbit`, by a front-to-back search. */
  function OrbitIndex(pieces: seq<string>): (r: Option<nat>)
    ensures r.Some? ==> IsOrbitMarker(pieces, r.value)
    ensures r.None? ==> forall j :: 0 <= j < |pieces| ==> !Contains(pieces[j], "orbit")
  {
    if pieces == [] then None
    else if Contains(pieces[0], "orbit") then Some(0)
    else
      match OrbitIndex(pieces[1..])
      case None => None
      case Some(k) => Some(k + 1)
  }

  /** The description token split on `-`. */
  function DescriptionPieces(description: string): (r: seq<string>)
    ensures |r| > 0
  {
    SplitOn(description, '-')
  }

  /** The segment, orbit and channel of a description token. */
  function SplitDescription(description: string): (r: Result<Description, FieldError>)
  {
    var pieces := DescriptionPieces(description);
    match OrbitIndex(pieces)
    case None => Failure(MissingField)
    case Some(k) =>
      match ParseInt(RemovePrefix(pieces[k], "orbit"))
      case None => Failure(NotAnInteger)
      case Some(orbit) => Success(MarkerFields(pieces, k, orbit))
  }

  /** The description is missing its orbit exactly when no `-` piece contains `orbit`;
      on success the fields come from the first such piece. */
  lemma SplitDescriptionSpec(description: string)
    ensures SplitDescription(description) == Failure(MissingField) <==>
              forall j :: 0 <= j < |DescriptionPieces(description)| ==>
                !Contains(DescriptionPieces(description)[j], "orbit")
    ensures SplitDescription(description).Success? ==>
              exists k: nat :: IsOrbitMarker(DescriptionPieces(description), k)
                && SplitDescription(description).value ==
                     MarkerFields(DescriptionPieces(description), k, SplitDescription(description).value.orbit)
                && ParseInt(RemovePrefix(DescriptionPieces(description)[k], "orbit")) ==
                     Some(SplitDescription(description).value.orbit)
  {
    var pieces := DescriptionPieces(description);
    match OrbitIndex(pieces)
    case None =>
    case Some(k) =>
      assert IsOrbitMarker(pieces, k);
  }

  /** The segment is the `-`-join of the pieces before the marker; the channel is the
      piece right after it, if any. */
  function MarkerFields(pieces: seq<string>, k: nat, orbit: int): Description
    requires k < |pieces|
  {
    Description(Join(pieces[..k], '-'), orbit, if k + 1 < |pieces| then Some(pieces[k + 1]) else None)
  }

  /** The date and time of a timestamp token: the pieces before and after the first `T`,
      sliced as YYYY MM DD and HH MM SS. */
  function SplitTimestamp(timestamp: string): (r: Result<Timestamp, FieldError>)
    ensures r.Success? ==> |SplitOn(timestamp, 'T')| >= 2
    ensures r.Success? ==> SplitOn(timestamp, 'T')[..2] == [r.value.date, r.value.time]
  {
    var parts := SplitOn(timestamp, 'T');
    var date := parts[0];
    var year :- IntField(Slice(date, 0, 4));
    var month :- IntField(Slice(date, 4, 6));
    var day :- IntField(Slice(date, 6, |date|));
    if |parts| < 2 then Failure(MissingField)
    else
      var time := parts[1];
      var hour :- IntField(Slice(time, 0, 2));
      var minute :- IntField(Slice(time, 2, 4));
      var second :- IntField(Slice(time, 4, |time|));
      Success(Timestamp(date, year, month, day, time, hour, minute, second))
  }

  /** `DataFilename(filename)`: validate, then extract the fields. */
  function Parse(filename: string): (r: Result<DataFilename, ParseError>)
    ensures r == Failure(NotIuvsDataFile) <==> !IsIuvsDataFilename(filename)
    ensures r.Success? ==> r.value.filename == filename && |Tokens(filename)| >= 7
  {
    if !IsIuvsDataFilename(filename) then Failure(NotIuvsDataFile)
    else
      match Extract(filename)
      case Failure(e) => Failure(BadField(e))
      case Success(d) => Success(d)
  }

  /** The field extraction of the constructor, in its order, so that the first failing
      extraction decides the error. */
  function Extract(filename: string): (r: Result<DataFilename, FieldError>)
    ensures r.Success? ==> r.value.filename == filename && |Tokens(filename)| >= 7
  {
    ExtractFrom(filename, Tokens(filename))
  }

  function ExtractFrom(filename: string, tokens: seq<string>): (r: Result<DataFilename, FieldError>)
    ensures r.Success? ==> r.value.filename == filename && |tokens| >= 7
  {
    if |tokens| < 4 then Failure(MissingField)
    else
      match SplitDescription(tokens[3])
      case Failure(e) => Failure(e)
      case Success(d) =>
        if |tokens| < 5 then Failure(MissingField)
        else
          match SplitTimestamp(tokens[4])
          case Failure(e) => Failure(e)
          case Success(t) =>
            if |tokens| < 7 then Failure(MissingField)
            else Success(Record(filename, tokens, d, t))
  }

  function Record(filename: string, tokens: seq<string>, d: Description, t: Timestamp): (r: DataFilename)
    requires |tokens| >= 7
    ensures r.filename == filename
  {
    DataFilename(
      filename, tokens[0], tokens[1], tokens[2], tokens[3],
      d.segment, d.orbit, d.channel,
      tokens[4], t.date, t.year, t.month, t.day, t.time, t.hour, t.minute, t.second,
      tokens[5], tokens[6], Extension(filename))
  }

  /** A successful parse is the record built from the seven tokens, the split
      description and the split timestamp. */
  lemma ParseSuccess(filename: string)
    requires Parse(filename).Success?
    ensures IsIuvsDataFilename(filename) && |Tokens(filename)| >= 7
    ensures SplitDescription(Tokens(filename)[3]).Success?
    ensures SplitTimestamp(Tokens(filename)[4]).Success?
    ensures Parse(filename).value ==
              Record(filename, Tokens(filename), SplitDescription(Tokens(filename)[3]).value,
                     SplitTimestamp(Tokens(filename)[4]).value)
  {
  }

  /** An accepted filename whose seven tokens yield a description and a timestamp
      parses into the record built from them. */
  lemma ParseOf(filename: string, d: Description, t: Timestamp)
    requires IsIuvsDataFilename(filename) && |Tokens(filename)| >= 7
    requires SplitDescription(Tokens(filename)[3]) == Success(d)
    requires SplitTimestamp(Tokens(filename)[4]) == Success(t)
    ensures Parse(filename) == Success(Record(filename, Tokens(filename), d, t))
  {
  }
}
