/** What `DataFilename` computes from a filename: the stem/extension split, the mission
    prefix of every accepted filename, the round trip from fields to filename and back,
    and the filenames that pass validation and still fail to parse. */
module DataFilenameProperties {
  import opened Wrappers
  import opened Strings
  import opened Numerals
  import opened DataFilenames

  /** No part contains the character `c`. */
  predicate FreeOf(parts: seq<string>, c: char) {
    forall i :: 0 <= i < |parts| ==> c !in parts[i]
  }

  // ---------------------------------------------------------------------------
  // Stem and extension

  /** With a `.` in the filename, stem and extension are the text either side of the
      first `.`. */
  lemma StemExtension(filename: string)
    requires '.' in filename
    ensures Stem(filename) + "." + Extension(filename) == filename
    ensures '.' !in Stem(filename)
  {
    var i :| 0 <= i < |filename| && filename[i] == '.';
    assert OccursAt(filename, ".", i);
    ContainsAt(filename, ".", i);
    var k := IndexOf(filename, ".").value;
    assert filename[k] == '.';
    forall j | 0 <= j < k
      ensures filename[j] != '.'
    {
      assert !OccursAt(filename, ".", j);
      assert filename[j..j + 1] == [filename[j]];
    }
    assert Stem(filename) == filename[..k];
    assert Extension(filename) == filename[k + 1..];
    assert filename[..k] + "." + filename[k + 1..] == filename;
  }

  /** Without a `.`, `find` gives -1: the stem loses the last character and the
      extension is the whole filename. */
  lemma StemWithoutDot(filename: string)
    requires '.' !in filename && filename != []
    ensures Stem(filename) == filename[..|filename| - 1]
    ensures Extension(filename) == filename
  {
    NotContainsChar(filename, ".", '.');
    FindAbsent(filename, ".");
  }

  /** The stem is a prefix of the filename. */
  lemma StemPrefix(filename: string)
    ensures StartsWith(filename, Stem(filename))
  {
    var k := Find(filename, ".");
    assert Stem(filename) == filename[..SliceBound(k, |filename|)];
  }

  /** A filename `stem.extension` whose stem has no `.` splits back into the two. */
  lemma StemOfAssembled(stem: string, extension: string)
    requires '.' !in stem
    ensures Stem(stem + "." + extension) == stem
    ensures Extension(stem + "." + extension) == extension
  {
    var f := stem + "." + extension;
    assert f[|stem|] == '.';
    StemExtension(f);
    var k := IndexOf(f, ".").value;
    assert f[k] == '.';
    assert k == |stem|;
  }

  // ---------------------------------------------------------------------------
  // Accepted filenames

  /** An accepted filename has at most seven underscore tokens, because the stem is a
      prefix of a filename with six underscores. */
  lemma {:induction false} TokensAtMostSeven(filename: string)
    requires IsIuvsDataFilename(filename)
    ensures |Tokens(filename)| <= 7
  {
    var stem := Stem(filename);
    StemPrefix(filename);
    assert filename == stem + filename[|stem|..];
    CountAppend(stem, filename[|stem|..], '_');
  }

  /** A filename with the mission prefix and at least four tokens has `mvn` and `iuv`
      as its first two tokens: three underscores do not fit inside the prefix. */
  lemma MissionTokens(filename: string)
    requires StartsWith(filename, "mvn_iuv_") && |Tokens(filename)| >= 4
    ensures Tokens(filename)[0] == "mvn" && Tokens(filename)[1] == "iuv"
  {
    MissionStem(filename);
    PrefixTokens(Stem(filename));
  }

  /** A stem holding three underscores is longer than the prefix it shares with the
      filename. */
  lemma MissionStem(filename: string)
    requires StartsWith(filename, "mvn_iuv_") && Count(Stem(filename), '_') >= 3
    ensures StartsWith(Stem(filename), "mvn_iuv_")
  {
    var stem := Stem(filename);
    StemPrefix(filename);
    if |stem| < 8 {
      assert stem == filename[..|stem|] == "mvn_iuv_"[..|stem|];
      ShortMissionPrefix(stem);
    }
  }

  /** A proper prefix of `mvn_iuv_` holds at most one underscore. */
  lemma ShortMissionPrefix(stem: string)
    requires |stem| < 8 && stem == "mvn_iuv_"[..|stem|]
    ensures Count(stem, '_') < 3
  {
    var rest := "mvn_iuv_"[|stem|..];
    assert "mvn_iuv_" == stem + rest;
    CountAppend(stem, rest, '_');
  }

  lemma PrefixTokens(stem: string)
    requires StartsWith(stem, "mvn_iuv_")
    ensures |SplitOn(stem, '_')| >= 2
    ensures SplitOn(stem, '_')[0] == "mvn" && SplitOn(stem, '_')[1] == "iuv"
  {
    var rest := stem[8..];
    assert stem == "mvn" + "_" + ("iuv" + "_" + rest);
    SplitAtSeparator("mvn", "iuv" + "_" + rest, '_');
    SplitAtSeparator("iuv", rest, '_');
  }

  /** A filename that parses has exactly seven tokens, the first two being the mission
      and instrument names of the prefix check. */
  lemma ParsedMission(filename: string)
    requires Parse(filename).Success?
    ensures |Tokens(filename)| == 7
    ensures Parse(filename).value.spacecraft == "mvn"
    ensures Parse(filename).value.instrument == "iuv"
  {
    ParseSuccess(filename);
    TokensAtMostSeven(filename);
    MissionTokens(filename);
  }

  // ---------------------------------------------------------------------------
  // Field round trip

  /** The description token `pre-...-orbitNNNNN-post-...`. */
  function DescriptionToken(pre: seq<string>, orbit: int, post: seq<string>): string {
    Join(DescriptionParts(pre, orbit, post), '-')
  }

  function DescriptionParts(pre: seq<string>, orbit: int, post: seq<string>): seq<string> {
    pre + ["orbit" + OrbitCode(orbit)] + post
  }

  /** The first marker is the only candidate `OrbitIndex` can return. */
  lemma FirstMarker(pieces: seq<string>, k: nat)
    requires IsOrbitMarker(pieces, k)
    ensures OrbitIndex(pieces) == Some(k)
  {
  }

  /** The marker piece of an orbit between 0 and 99999 is `orbit` and five digits. */
  lemma MarkerPiece(orbit: int)
    requires 0 <= orbit < 100000
    ensures '-' !in "orbit" + OrbitCode(orbit)
    ensures '_' !in "orbit" + OrbitCode(orbit) && '.' !in "orbit" + OrbitCode(orbit)
    ensures Contains("orbit" + OrbitCode(orbit), "orbit")
    ensures RemovePrefix("orbit" + OrbitCode(orbit), "orbit") == OrbitCode(orbit)
  {
    var code := OrbitCode(orbit);
    OrbitCodeShape(orbit);
    assert forall ch :: ch in code ==> IsDigit(ch);
    assert ("orbit" + code)[..5] == "orbit";
  }

  /** A description token built from segment pieces, an orbit and channel pieces splits
      back into the `-`-joined segment, the orbit and the first channel piece. */
  lemma {:induction false} DescriptionRoundTrip(pre: seq<string>, orbit: int, post: seq<string>)
    requires 0 <= orbit < 100000
    requires FreeOf(pre, '-') && FreeOf(post, '-')
    requires forall i :: 0 <= i < |pre| ==> !Contains(pre[i], "orbit")
    ensures SplitDescription(DescriptionToken(pre, orbit, post)) ==
              Success(Description(Join(pre, '-'), orbit, if post == [] then None else Some(post[0])))
  {
    var pieces := DescriptionParts(pre, orbit, post);
    var k := |pre|;
    MarkerPiece(orbit);
    assert pieces[k] == "orbit" + OrbitCode(orbit);
    assert FreeOf(pieces, '-') by {
      forall i | 0 <= i < |pieces|
        ensures '-' !in pieces[i]
      {
        if i < k {
          assert pieces[i] == pre[i];
        } else if i > k {
          assert pieces[i] == post[i - k - 1];
        }
      }
    }
    SplitJoin(pieces, '-');
    assert DescriptionPieces(DescriptionToken(pre, orbit, post)) == pieces;
    assert forall j :: 0 <= j < k ==> pieces[j] == pre[j];
    assert IsOrbitMarker(pieces, k);
    FirstMarker(pieces, k);
    ParseOrbitCode(orbit);
    assert pieces[..k] == pre;
    if post != [] {
      assert pieces[k + 1] == post[0];
    }
  }

  /** Three numbers as zero-padded numerals of widths `wa`, 2 and 2, glued together. */
  function Glue(a: nat, wa: nat, b: nat, c: nat): string {
    ZFill(NatToString(a), wa) + ZFill(NatToString(b), 2) + ZFill(NatToString(c), 2)
  }

  /** Year, month and day as the eight digits `YYYYMMDD`. */
  function DateToken(year: nat, month: nat, day: nat): string {
    Glue(year, 4, month, day)
  }

  /** Hour, minute and second as the six digits `HHMMSS`. */
  function TimeToken(hour: nat, minute: nat, second: nat): string {
    Glue(hour, 2, minute, second)
  }

  /** Three padded numerals glued together are sliced back apart by position. */
  lemma ThreeNumerals(a: nat, wa: nat, b: nat, c: nat)
    requires 0 < wa && a < Pow10(wa) && b < 100 && c < 100
    ensures |Glue(a, wa, b, c)| == wa + 4 && AllDigits(Glue(a, wa, b, c))
    ensures ParseInt(Slice(Glue(a, wa, b, c), 0, wa)) == Some(a)
    ensures ParseInt(Slice(Glue(a, wa, b, c), wa, wa + 2)) == Some(b)
    ensures ParseInt(Slice(Glue(a, wa, b, c), wa + 2, wa + 4)) == Some(c)
    ensures ParseInt(Slice(Glue(a, wa, b, c), wa + 2, |Glue(a, wa, b, c)|)) == Some(c)
  {
    var x, y, z := ZFill(NatToString(a), wa), ZFill(NatToString(b), 2), ZFill(NatToString(c), 2);
    assert Pow10(2) == 100;
    PaddedNumeral(a, wa);
    PaddedNumeral(b, 2);
    PaddedNumeral(c, 2);
    SliceThree(x, y, z);
    DigitsConcat(x, y);
    DigitsConcat(x + y, z);
  }

  /** The three parts of a concatenation are its slices by position. */
  lemma SliceThree(x: string, y: string, z: string)
    ensures Slice(x + y + z, 0, |x|) == x
    ensures Slice(x + y + z, |x|, |x| + |y|) == y
    ensures Slice(x + y + z, |x| + |y|, |x + y + z|) == z
  {
    var s := x + y + z;
    assert s[..|x|] == x;
    assert s[|x|..|x| + |y|] == y;
    assert s[|x| + |y|..] == z;
  }

  lemma DigitsConcat(x: string, y: string)
    requires AllDigits(x) && AllDigits(y)
    ensures AllDigits(x + y)
  {
    assert forall i :: |x| <= i < |x + y| ==> (x + y)[i] == y[i - |x|];
  }

  /** A string of digits holds none of the separators of the grammar. */
  lemma DigitsFree(s: string)
    requires AllDigits(s)
    ensures '_' !in s && '.' !in s && 'T' !in s && '-' !in s
  {
    assert forall ch :: ch in s ==> IsDigit(ch);
  }

  /** A timestamp `YYYYMMDDTHHMMSS` built from its numbers splits back into them. */
  lemma TimestampRoundTrip(year: nat, month: nat, day: nat, hour: nat, minute: nat, second: nat)
    requires year < 10000 && month < 100 && day < 100
    requires hour < 100 && minute < 100 && second < 100
    ensures SplitTimestamp(TimestampToken(year, month, day, hour, minute, second)) ==
              Success(Timestamp(DateToken(year, month, day), year, month, day,
                                TimeToken(hour, minute, second), hour, minute, second))
  {
    var date, time := DateToken(year, month, day), TimeToken(hour, minute, second);
    assert Pow10(4) == 10000;
    ThreeNumerals(year, 4, month, day);
    ThreeNumerals(hour, 2, minute, second);
    DigitsFree(date);
    DigitsFree(time);
    SplitAtSeparator(date, time, 'T');
    SplitAbsent(time, 'T');
    assert SplitOn(TimestampToken(year, month, day, hour, minute, second), 'T') == [date, time];
  }

  /** A filename assembled from underscore-free tokens and an extension. */
  function Assemble(tokens: seq<string>, extension: string): string {
    Join(tokens, '_') + "." + extension
  }

  /** Assembling tokens without `.` gives back the joined tokens as the stem. */
  lemma AssembledStem(tokens: seq<string>, extension: string)
    requires FreeOf(tokens, '.')
    ensures Stem(Assemble(tokens, extension)) == Join(tokens, '_')
    ensures Extension(Assemble(tokens, extension)) == extension
  {
    JoinAbsent(tokens, '_', '.');
    StemOfAssembled(Join(tokens, '_'), extension);
  }

  /** Assembling seven tokens without `_` or `.` gives back the same tokens and
      extension, and a filename with exactly six underscores. */
  lemma AssembledTokens(tokens: seq<string>, extension: string)
    requires |tokens| == 7 && FreeOf(tokens, '_') && FreeOf(tokens, '.')
    requires '_' !in extension
    ensures Stem(Assemble(tokens, extension)) == Join(tokens, '_')
    ensures Extension(Assemble(tokens, extension)) == extension
    ensures Tokens(Assemble(tokens, extension)) == tokens
    ensures Count(Assemble(tokens, extension), '_') == 6
  {
    AssembledStem(tokens, extension);
    SplitJoin(tokens, '_');
    AssembledCount(tokens, extension);
  }

  lemma AssembledCount(tokens: seq<string>, extension: string)
    requires |tokens| == 7 && FreeOf(tokens, '_')
    requires '_' !in extension
    ensures Count(Assemble(tokens, extension), '_') == 6
  {
    var stem := Join(tokens, '_');
    CountJoin(tokens, '_');
    assert Assemble(tokens, extension) == stem + ("." + extension);
    CountAppend(stem, "." + extension, '_');
    CountAbsent("." + extension, '_');
  }

  /** A filename with a `.` and seven tokens is its tokens and extension reassembled. */
  lemma Reassemble(filename: string)
    requires '.' in filename
    ensures Assemble(Tokens(filename), Extension(filename)) == filename
  {
    StemExtension(filename);
    JoinSplit(Stem(filename), '_');
  }

  /** The seven underscore-separated fields of a parsed filename, in order. */
  function FieldTokens(d: DataFilename): seq<string> {
    [d.spacecraft, d.instrument, d.level, d.description, d.timestamp, d.version, d.revision]
  }

  /** Every accepted filename with a `.` reassembles from its parsed fields. */
  lemma ParseReassembles(filename: string)
    requires Parse(filename).Success? && '.' in filename
    ensures Assemble(FieldTokens(Parse(filename).value), Parse(filename).value.extension) == filename
  {
    ParseSuccess(filename);
    TokensAtMostSeven(filename);
    Reassemble(filename);
    RecordTokens(filename, Tokens(filename), SplitDescription(Tokens(filename)[3]).value,
                 SplitTimestamp(Tokens(filename)[4]).value);
  }

  lemma RecordTokens(filename: string, tokens: seq<string>, d: Description, t: Timestamp)
    requires |tokens| == 7
    ensures FieldTokens(Record(filename, tokens, d, t)) == tokens
  {
  }

  /** Seven tokens beginning `mvn`, `iuv`, with `orbit` in the fourth, and a FITS
      extension pass all four validation checks. */
  lemma AssembledAccepted(tokens: seq<string>, extension: string)
    requires |tokens| == 7 && tokens[0] == "mvn" && tokens[1] == "iuv"
    requires FreeOf(tokens, '_') && FreeOf(tokens, '.') && Contains(tokens[3], "orbit")
    requires '_' !in extension && (EndsWith(extension, "fits") || EndsWith(extension, "fits.gz"))
    ensures IsIuvsDataFilename(Assemble(tokens, extension))
  {
    var filename := Assemble(tokens, extension);
    AssembledCount(tokens, extension);
    JoinMissionPrefix(tokens);
    assert filename == Join(tokens, '_') + ("." + extension);
    StartsWithAppend(Join(tokens, '_'), "." + extension, "mvn_iuv_");
    EndsWithAppend(Join(tokens, '_') + ".", extension);
    ContainsJoin(tokens, '_', 3, "orbit");
    ContainsPrefixPart(Join(tokens, '_'), "." + extension, "orbit");
  }

  lemma JoinMissionPrefix(tokens: seq<string>)
    requires |tokens| >= 3 && tokens[0] == "mvn" && tokens[1] == "iuv"
    ensures StartsWith(Join(tokens, '_'), "mvn_iuv_")
  {
    var rest := Join(tokens[2..], '_');
    assert tokens[1..][1..] == tokens[2..];
    assert Join(tokens, '_') == "mvn" + "_" + ("iuv" + "_" + rest);
    assert "mvn" + "_" + ("iuv" + "_" + rest) == "mvn_iuv_" + rest;
  }

  /** A description token from pieces without `_` or `.` has neither, and contains `orbit`. */
  lemma DescriptionTokenShape(pre: seq<string>, orbit: int, post: seq<string>)
    requires 0 <= orbit < 100000
    requires FreeOf(pre + post, '_') && FreeOf(pre + post, '.')
    ensures '_' !in DescriptionToken(pre, orbit, post) && '.' !in DescriptionToken(pre, orbit, post)
    ensures Contains(DescriptionToken(pre, orbit, post), "orbit")
  {
    var parts := DescriptionParts(pre, orbit, post);
    MarkerPiece(orbit);
    assert FreeOf(parts, '_') && FreeOf(parts, '.') by {
      forall i | 0 <= i < |parts|
        ensures '_' !in parts[i] && '.' !in parts[i]
      {
        if i < |pre| {
          assert parts[i] == (pre + post)[i];
        } else if i > |pre| {
          assert parts[i] == (pre + post)[i - 1];
        }
      }
    }
    JoinAbsent(parts, '-', '_');
    JoinAbsent(parts, '-', '.');
    assert parts[|pre|] == "orbit" + OrbitCode(orbit);
    ContainsJoin(parts, '-', |pre|, "orbit");
  }

  /** A timestamp token is digits around a `T`: no `_` and no `.`. */
  lemma TimestampTokenShape(year: nat, month: nat, day: nat, hour: nat, minute: nat, second: nat)
    requires year < 10000 && month < 100 && day < 100
    requires hour < 100 && minute < 100 && second < 100
    ensures '_' !in TimestampToken(year, month, day, hour, minute, second)
    ensures '.' !in TimestampToken(year, month, day, hour, minute, second)
  {
    assert Pow10(4) == 10000;
    ThreeNumerals(year, 4, month, day);
    ThreeNumerals(hour, 2, minute, second);
    DigitsFree(DateToken(year, month, day));
    DigitsFree(TimeToken(hour, minute, second));
  }

  /** The documented timestamp: 2016-06-15 02:34:00 is written `20160615T023400`, which
      `TimestampRoundTrip` splits back into 2016, 6, 15, 2, 34 and 0. */
  lemma DocumentedTimestamp()
    ensures TimestampToken(2016, 6, 15, 2, 34, 0) == "20160615T023400"
  {
    ExampleDate();
    ExampleTime();
  }

  lemma ExampleDate()
    ensures DateToken(2016, 6, 15) == "20160615"
  {
    assert NatToString(2016) == "2016" by {
      assert NatToString(201) == "201" by {
        assert NatToString(20) == "20";
      }
    }
    assert ZFill(NatToString(6), 2) == "06";
    assert ZFill(NatToString(15), 2) == "15";
  }

  lemma ExampleTime()
    ensures TimeToken(2, 34, 0) == "023400"
  {
    assert ZFill(NatToString(2), 2) == "02";
    assert ZFill(NatToString(34), 2) == "34";
    assert ZFill(NatToString(0), 2) == "00";
  }

  /** The timestamp token `YYYYMMDDTHHMMSS`. */
  function TimestampToken(year: nat, month: nat, day: nat, hour: nat, minute: nat, second: nat): string {
    DateToken(year, month, day) + "T" + TimeToken(hour, minute, second)
  }

  /** The values a filename is written from: the level, the segment pieces before the
      orbit, the orbit, the pieces after it, the date and time, version, revision and
      extension. The mission and instrument are always `mvn` and `iuv`. */
  datatype Fields = Fields(
    level: string, pre: seq<string>, orbit: int, post: seq<string>,
    year: nat, month: nat, day: nat, hour: nat, minute: nat, second: nat,
    version: string, revision: string, extension: string)

  /** Fields that the grammar can carry: no separator inside a field, no `orbit` before
      the marker, an orbit of five digits, numbers that fit their widths and a FITS
      extension. */
  predicate WellFormed(f: Fields) {
    && '_' !in f.level && '.' !in f.level
    && '_' !in f.version && '.' !in f.version
    && '_' !in f.revision && '.' !in f.revision
    && FreeOf(f.pre + f.post, '-') && FreeOf(f.pre + f.post, '_') && FreeOf(f.pre + f.post, '.')
    && (forall i :: 0 <= i < |f.pre| ==> !Contains(f.pre[i], "orbit"))
    && 0 <= f.orbit < 100000
    && f.year < 10000 && f.month < 100 && f.day < 100
    && f.hour < 100 && f.minute < 100 && f.second < 100
    && '_' !in f.extension && (EndsWith(f.extension, "fits") || EndsWith(f.extension, "fits.gz"))
  }

  function WrittenTokens(f: Fields): seq<string> {
    ["mvn", "iuv", f.level, DescriptionToken(f.pre, f.orbit, f.post),
     TimestampToken(f.year, f.month, f.day, f.hour, f.minute, f.second), f.version, f.revision]
  }

  /** The filename written from the fields. */
  function Written(f: Fields): string {
    Assemble(WrittenTokens(f), f.extension)
  }

  /** The segment, orbit and channel the description is written from. */
  function WrittenDescription(f: Fields): Description {
    Description(Join(f.pre, '-'), f.orbit, if f.post == [] then None else Some(f.post[0]))
  }

  /** The date and time the timestamp is written from. */
  function WrittenTimestamp(f: Fields): Timestamp {
    Timestamp(DateToken(f.year, f.month, f.day), f.year, f.month, f.day,
              TimeToken(f.hour, f.minute, f.second), f.hour, f.minute, f.second)
  }

  /** The record the constructor should produce for the written filename. */
  function Expected(f: Fields): DataFilename {
    DataFilename(
      Written(f), "mvn", "iuv", f.level, DescriptionToken(f.pre, f.orbit, f.post),
      Join(f.pre, '-'), f.orbit, if f.post == [] then None else Some(f.post[0]),
      TimestampToken(f.year, f.month, f.day, f.hour, f.minute, f.second),
      DateToken(f.year, f.month, f.day), f.year, f.month, f.day,
      TimeToken(f.hour, f.minute, f.second), f.hour, f.minute, f.second,
      f.version, f.revision, f.extension)
  }

  /** The round trip of the grammar: a filename written from well-formed fields parses
      back into exactly those fields. */
  lemma ParseRoundTrip(f: Fields)
    requires WellFormed(f)
    ensures Parse(Written(f)) == Success(Expected(f))
  {
    WrittenParts(f);
    ParseOf(Written(f), WrittenDescription(f), WrittenTimestamp(f));
    WrittenRecord(f);
  }

  /** The tokens, the description and the timestamp of a written filename are the ones
      it was written from, and it passes validation. */
  lemma WrittenParts(f: Fields)
    requires WellFormed(f)
    ensures IsIuvsDataFilename(Written(f))
    ensures Tokens(Written(f)) == WrittenTokens(f) && Extension(Written(f)) == f.extension
    ensures SplitDescription(Tokens(Written(f))[3]) == Success(WrittenDescription(f))
    ensures SplitTimestamp(Tokens(Written(f))[4]) == Success(WrittenTimestamp(f))
  {
    var tokens := WrittenTokens(f);
    WrittenTokensFree(f);
    AssembledTokens(tokens, f.extension);
    AssembledAccepted(tokens, f.extension);
    FreeOfParts(f.pre, f.post, '-');
    DescriptionRoundTrip(f.pre, f.orbit, f.post);
    TimestampRoundTrip(f.year, f.month, f.day, f.hour, f.minute, f.second);
  }

  /** No written token holds `_` or `.`. */
  lemma WrittenTokensFree(f: Fields)
    requires WellFormed(f)
    ensures FreeOf(WrittenTokens(f), '_') && FreeOf(WrittenTokens(f), '.')
    ensures Contains(WrittenTokens(f)[3], "orbit")
  {
    DescriptionTokenShape(f.pre, f.orbit, f.post);
    TimestampTokenShape(f.year, f.month, f.day, f.hour, f.minute, f.second);
    var tokens := WrittenTokens(f);
    forall i | 0 <= i < 7
      ensures '_' !in tokens[i] && '.' !in tokens[i]
    {
      if i == 0 {
        assert tokens[i] == "mvn";
      } else if i == 1 {
        assert tokens[i] == "iuv";
      }
    }
  }

  /** The record built from the written tokens and the split description and timestamp
      is the expected one. */
  lemma WrittenRecord(f: Fields)
    requires Extension(Written(f)) == f.extension
    ensures Record(Written(f), WrittenTokens(f), WrittenDescription(f), WrittenTimestamp(f)) == Expected(f)
  {
  }

  lemma FreeOfParts(a: seq<string>, b: seq<string>, c: char)
    requires FreeOf(a + b, c)
    ensures FreeOf(a, c) && FreeOf(b, c)
  {
    assert forall i :: 0 <= i < |a| ==> a[i] == (a + b)[i];
    assert forall i :: 0 <= i < |b| ==> b[i] == (a + b)[|a| + i];
  }

  // ---------------------------------------------------------------------------
  // Accepted but unparseable

  /** The validation looks for `orbit` anywhere in the filename while the extraction
      looks only in the description token: an accepted filename whose description has
      no `orbit` piece fails with a missing field. */
  lemma OrbitOutsideDescription(filename: string)
    requires IsIuvsDataFilename(filename)
    requires |Tokens(filename)| >= 4 ==>
      forall j :: 0 <= j < |DescriptionPieces(Tokens(filename)[3])| ==>
        !Contains(DescriptionPieces(Tokens(filename)[3])[j], "orbit")
    ensures Parse(filename) == Failure(BadField(MissingField))
  {
    if |Tokens(filename)| >= 4 {
      SplitDescriptionSpec(Tokens(filename)[3]);
    }
  }

  /** The validation counts underscores in the whole filename while the extraction
      splits only the stem: an underscore after the first `.` leaves the stem short of
      tokens, so the filename is accepted and then fails to parse. */
  lemma UnderscoreInExtension(filename: string)
    requires IsIuvsDataFilename(filename)
    requires '.' in filename && '_' in Extension(filename)
    ensures Parse(filename).Failure? && Parse(filename) != Failure(NotIuvsDataFile)
  {
    FewerTokens(filename);
    if Parse(filename).Success? {
      ParseSuccess(filename);
    }
  }

  lemma FewerTokens(filename: string)
    requires Count(filename, '_') == 6
    requires '.' in filename && '_' in Extension(filename)
    ensures |Tokens(filename)| < 7
  {
    StemUnderscores(filename);
  }

  /** An underscore after the first `.` is one the stem does not have. */
  lemma StemUnderscores(filename: string)
    requires '.' in filename && '_' in Extension(filename)
    ensures Count(Stem(filename), '_') < Count(filename, '_')
  {
    StemExtension(filename);
    CountAcrossDot(Stem(filename), Extension(filename), '_');
  }

  /** A character other than `.` that occurs after the dot adds to the count. */
  lemma CountAcrossDot(stem: string, extension: string, c: char)
    requires c in extension && c != '.'
    ensures Count(stem, c) < Count(stem + "." + extension, c)
  {
    assert stem + "." + extension == stem + ("." + extension);
    CountAppend(stem, "." + extension, c);
    CountAppend(".", extension, c);
    CountPositive(extension, c);
  }

  lemma {:induction false} CountPositive(s: string, c: char)
    requires c in s
    ensures Count(s, c) > 0
  {
    if s[0] != c {
      CountPositive(s[1..], c);
    }
  }
}
