# IUVS filenames, data paths and file collections in Dafny

This project models two string-level parts of the MAVEN IUVS Python tools and proves
properties of them.

1. **`pyuvs.files`.**
   - `DataFilename` validates an IUVS data filename with four checks. It then cuts the
     filename into fields:
     - spacecraft, instrument, level and description;
     - the segment, orbit and channel of the description;
     - the timestamp with its date and time parts;
     - version, revision and extension.
   - `DataPath.block` and `block_paths` map orbits to the folders of one hundred orbits
     (`orbit03400`, ...).
   - The parser is pure. It is modelled as the function `DataFilenames.Parse`, which
     returns a `DataFilename` record or a `ParseError`.
2. **`maven_iuvs.files`.**
   - A `Files` collection holds the sorted paths a glob found below a root, and the
     basename of each path.
   - It downselects paths by a shell-style wildcard on their basenames.
   - The subclasses `IUVSFiles`, `IUVSDataFiles` and `L1bFiles` each add one layer
     check. A layer check demands that the downselection by the layer's pattern gives
     back the filename list unchanged.
   - `SingleOrbitModeSequenceL1bFiles` resolves the sequence, orbit and mode shared by
     all files. `single_segment` builds the glob pattern for one segment.
   - `Files` is a Dafny class (`FileCollections.Files`). Its two fields are set once, in
     the constructor.
   - The loops of the source stay loops, each proved against a specification function:
     - the indexed downselection loop (`Files.PathsMatching`);
     - the first-match probe of candidates (`Files.FirstMatchingCandidate`).
   - Each constructor of the chain is a method (`OpenFiles`, `OpenIuvsFiles`,
     `OpenDataFiles`, `OpenL1bFiles`, `OpenSegment`). Each returns the object or the
     error it raises, and is proved equal to a specification function: `Opened` for the
     four layered collections, `Resolved` for the segment.

Python's behaviour is written out where the code depends on it:
- `str.split`, `str.join` and `str.find` / `str.index`, including `find` giving -1;
- slicing, with clamped and negative bounds;
- `str.count`, `in`, `removeprefix` and `zfill`;
- `int()` on numerals and `str()` of integers;
- string ordering and `sorted()`;
- `os.path.join`;
- `fnmatch` for `*`, `?` and literal characters.

The file system enters as parameters: whether the root exists (`rootExists`), and the
list of paths the glob returns (`glob`, a function of the joined root and pattern).

Module layout: `Wrappers`, `Strings`, `Numerals`, `Ordering`, `Wildcard` and `PosixPaths`
model the Python library operations. `DataFilenames`, `DataFilenameProperties` and
`DataPaths` model `pyuvs/files.py`. `FileDownselect`, `FileValidation`, `FileSegments`
and `FileCollections` model `maven_iuvs/files/files.py`.

### Where the code decides

- **List equality, not set equality.** The layer checks compare Python lists. The
  filenames are in path order, but the downselected names are re-sorted. A layer
  therefore passes only when every basename matches and the basenames are already
  sorted in path order:
  - `FileDownselect.UniformIff` proves this;
  - `FileDownselect.OrderQuirkExample` exhibits two matching IUVS files that the IUVS
    layer rejects.
- **Underscores over the whole filename.** The underscore check counts `_` in the whole
  filename, but the fields come from the stem only. `DataFilenameProperties.UnderscoreInExtension`
  proves that a filename which passes validation and has an `_` after its first `.`
  fails to parse, with an error other than the not-a-data-file error.
- **The first orbit segment.** The description's orbit is the first `-` piece containing
  `orbit`, not a unique one. Validation looks for `orbit` anywhere in the filename.
  `DataFilenameProperties.OrbitOutsideDescription` proves that an `orbit` found only
  outside the description token gives the missing-field error.
- **The orbit offset comes from the first filename.** In `SingleOrbitModeSequenceL1bFiles`,
  the offset of the five orbit characters is taken from the first filename and then used
  to slice every filename, with Python's clamping.

## Model

| member | source | states |
|---|---|---|
| DataFilenames.Parse | pyuvs/files.py:22-72 | the constructor fails with `NotIuvsDataFile` exactly when one of the four checks fails, before any field is read; a parsed record keeps the filename and there were at least seven `_` tokens |
| DataFilenames.IsIuvsDataFilename | pyuvs/files.py:74-91 | the four checks: the `mvn_iuv_` prefix, a `fits` or `fits.gz` ending, six `_` in the whole filename and `orbit` anywhere in it; `AssembledAccepted` and `TokensAtMostSeven` prove which filenames pass |
| DataFilenames.Stem | pyuvs/files.py:163-165 | the text before the first `.`; without a `.`, `find`'s -1 drops the last character (`StemExtension`, `StemWithoutDot`) |
| DataFilenames.Extension | pyuvs/files.py:163-166 | the text after the first `.`; without a `.`, the whole filename (`StemExtension`, `StemWithoutDot`) |
| DataFilenames.SplitDescription | pyuvs/files.py:105-121 | segment, orbit and channel of the description; `SplitDescriptionSpec` gives its outcome on every description and `DescriptionRoundTrip` inverts it |
| DataFilenames.ExtractFrom | pyuvs/files.py:41-59 | a successful extraction keeps the filename and had at least seven tokens |
| DataFilenames.Extract | pyuvs/files.py:41-59 | the field extraction succeeds only with seven or more tokens and keeps the filename |
| DataFilenames.Tokens | pyuvs/files.py:159-161 | splitting the stem on `_` always gives at least one token |
| DataFilenames.IntField | pyuvs/files.py:113 | a numeric field succeeds exactly when `int()` accepts the text and carries its value; otherwise it is `NotAnInteger` |
| DataFilenames.OrbitIndex | pyuvs/files.py:175-177 | the index returned is the first `-` piece containing `orbit`; none is returned only when no piece contains it |
| DataFilenames.DescriptionPieces | pyuvs/files.py:172-173 | splitting the description on `-` gives at least one piece |
| DataFilenames.SplitDescriptionSpec | pyuvs/files.py:105-121 | the orbit is missing exactly when no piece contains `orbit`; otherwise segment, orbit and channel come from the first marker, and the orbit is `int()` of the marker without its `orbit` prefix |
| DataFilenames.SplitTimestamp | pyuvs/files.py:126-148 | on success, date and time are pieces 0 and 1 of the timestamp split on `T` |
| DataFilenames.Record | pyuvs/files.py:41-59 | the record built from the tokens keeps the filename |
| DataFilenameProperties.StemExtension | pyuvs/files.py:163-167 | with a `.` in the filename, stem + `.` + extension is the filename and the stem has no `.` |
| DataFilenameProperties.StemWithoutDot | pyuvs/files.py:163-167 | without a `.`, `find` gives -1: the stem drops the last character and the extension is the whole filename |
| DataFilenameProperties.StemPrefix | pyuvs/files.py:164-165 | the stem is a prefix of the filename |
| DataFilenameProperties.StemOfAssembled | pyuvs/files.py:163-167 | `stem.extension` with a dot-free stem splits back into stem and extension |
| DataFilenameProperties.TokensAtMostSeven | pyuvs/files.py:87-88 | an accepted filename has at most seven `_` tokens |
| DataFilenameProperties.MissionTokens | pyuvs/files.py:80-81 | with the `mvn_iuv_` prefix and four or more tokens, tokens 0 and 1 are `mvn` and `iuv` |
| DataFilenameProperties.MissionStem | pyuvs/files.py:80-81 | a stem with three underscores keeps the `mvn_iuv_` prefix of the filename |
| DataFilenameProperties.ShortMissionPrefix | pyuvs/files.py:80-81 | a proper prefix of `mvn_iuv_` holds fewer than three underscores |
| DataFilenameProperties.PrefixTokens | pyuvs/files.py:93-97 | a stem starting `mvn_iuv_` splits into `mvn`, `iuv`, ... |
| DataFilenameProperties.ParsedMission | pyuvs/files.py:93-97 | a parsed filename has exactly seven tokens, and its spacecraft and instrument are `mvn` and `iuv` |
| DataFilenameProperties.FirstMarker | pyuvs/files.py:175-177 | the first piece containing `orbit` is the index the search returns |
| DataFilenameProperties.MarkerPiece | pyuvs/files.py:110-113 | `orbit` plus a five-digit orbit code is a marker piece whose `removeprefix('orbit')` is the code |
| DataFilenameProperties.DescriptionRoundTrip | pyuvs/files.py:105-121 | a description built from segment pieces, an orbit and channel pieces gives back the `-`-joined segment (empty when the marker is first), the orbit, and only the first channel piece (None when the marker is last) |
| DataFilenameProperties.ThreeNumerals | pyuvs/files.py:129-148 | three zero-padded numerals glued together slice back into their values at `[:w]`, `[w:w+2]` and `[w+2:]` |
| DataFilenameProperties.TimestampRoundTrip | pyuvs/files.py:126-148 | `YYYYMMDDTHHMMSS` splits into date and time, and then into year, month, day, hour, minute and second |
| DataFilenameProperties.DocumentedTimestamp | pyuvs/files.py:126-148 | 2016, 6, 15, 2, 34, 0 are written `20160615T023400`, the timestamp that `TimestampRoundTrip` splits back into them |
| DataFilenameProperties.DigitsFree | pyuvs/files.py:159-177 | numerals contain none of the separators `_`, `.`, `T`, `-` |
| DataFilenameProperties.AssembledStem | pyuvs/files.py:159-167 | tokens without `.` joined with `_` and an extension give back the joined tokens as stem and the extension |
| DataFilenameProperties.AssembledTokens | pyuvs/files.py:87-88 | seven tokens free of `_` and `.` give back the same tokens and a filename with exactly six underscores |
| DataFilenameProperties.Reassemble | pyuvs/files.py:159-167 | a filename with a `.` is its tokens re-joined with `_`, then `.`, then its extension |
| DataFilenameProperties.ParseReassembles | pyuvs/files.py:93-103 | every parsed filename with a `.` is its seven field tokens and extension joined back |
| DataFilenameProperties.AssembledAccepted | pyuvs/files.py:74-91 | seven tokens starting `mvn`, `iuv`, with `orbit` in the fourth and a `fits`/`fits.gz` extension, pass all four checks |
| DataFilenameProperties.DescriptionTokenShape | pyuvs/files.py:87-91 | a description built from clean pieces has no `_` or `.` and contains `orbit` |
| DataFilenameProperties.TimestampTokenShape | pyuvs/files.py:87-88 | a written timestamp has no `_` or `.` |
| DataFilenameProperties.ParseRoundTrip | pyuvs/files.py:22-177 | a filename written from well-formed fields parses back into exactly those fields |
| DataFilenameProperties.WrittenParts | pyuvs/files.py:74-177 | a written filename passes validation, and its tokens, extension, description and timestamp are the ones it was written from |
| DataFilenameProperties.WrittenTokensFree | pyuvs/files.py:159-161 | the written tokens hold no `_` or `.`, and token 3 contains `orbit` |
| DataFilenameProperties.WrittenRecord | pyuvs/files.py:41-59 | the record built from the written parts is the expected one |
| DataFilenameProperties.OrbitOutsideDescription | pyuvs/files.py:90-91 | an accepted filename whose description has no `orbit` piece fails with `BadField(MissingField)` |
| DataFilenameProperties.UnderscoreInExtension | pyuvs/files.py:87-88 | an accepted filename with an `_` after its first `.` fails to parse, and not at validation |
| DataFilenameProperties.FewerTokens | pyuvs/files.py:159-161 | with six underscores in all and one in the extension, the stem has fewer than seven tokens |
| DataPaths.NewDataPath | pyuvs/files.py:440-460 | a data path is made exactly when the path exists, keeping the path; otherwise the error is `NoSuchDirectory` |
| DataPaths.OrbitBlock | pyuvs/files.py:538-539 | the block is a multiple of 100 with `block <= orbit < block + 100` |
| DataPaths.OrbitBlockUnique | pyuvs/files.py:538-539 | that block is the only such multiple of 100 |
| DataPaths.OrbitBlockMonotone | pyuvs/files.py:538-539 | blocks do not decrease as orbits increase |
| DataPaths.Block | pyuvs/files.py:462-490 | the block path starts with the root and ends with the folder `orbit<code>` |
| DataPaths.SameBlock | pyuvs/files.py:462-490 | two orbits give the same block path exactly when they fall in the same hundred |
| DataPaths.BlockFolderParses | pyuvs/files.py:533-535 | the folder name is `orbit` followed by a numeral whose value is the block |
| DataPaths.BlockFolderName | pyuvs/files.py:533-535 | `orbit` followed by the zero-padded code of the block; `BlockFolderParses` reads the block back from it |
| DataPaths.BlockExample | pyuvs/files.py:484-486 | orbit 7777 under `/foo/bar` is `/foo/bar/orbit07700` |
| DataPaths.ZFillExample | pyuvs/files.py:535 | the code of 7700 is `07700` |
| DataPaths.BlockPaths | pyuvs/files.py:492-525 | `block_paths` returns one path per orbit |
| DataPaths.BlockPathsPointwise | pyuvs/files.py:521-523 | element `i` is `block(orbits[i])`, and two elements are equal exactly when their orbits share a hundred |
| DataPaths.BlockPathsExample | pyuvs/files.py:516-518 | under `/foo/bar`, orbits 3495, 3500 and 3505 give exactly `/foo/bar/orbit03400`, `/foo/bar/orbit03500`, `/foo/bar/orbit03500` |
| DataPaths.BlockPathsShared | pyuvs/files.py:516-518 | under any root, the last two of those paths coincide and differ from the first |
| DataPaths.OrbitBlockExample | pyuvs/files.py:516-518 | 3495, 3500 and 3505 fall in the blocks 3400, 3500 and 3500 |
| Numerals.ParseIntToString | pyuvs/files.py:113 | `int(str(n)) == n` for every integer |
| Numerals.ParseOrbitCode | pyuvs/files.py:535 | `int()` of an orbit code is the orbit, for every integer |
| Numerals.OrbitCodeInjective | pyuvs/files.py:535 | distinct orbits have distinct codes |
| Numerals.OrbitCodeShape | pyuvs/files.py:535 | codes of orbits 0 to 99999 are exactly five digits |
| Numerals.PaddedNumeral | pyuvs/files.py:129-148 | a number below 10^w, zero-padded to width w, is w digits that `int()` reads back as it |
| Numerals.LeadingZeros | pyuvs/files.py:129-148 | leading zeros do not change a numeral's value |
| Numerals.DigitsOfNat | pyuvs/files.py:535 | the digits of `str(n)` have the value `n` |
| Numerals.ParseInt | pyuvs/files.py:113 | `int()` on text: it succeeds only on nonempty text, and reads back every `str()` (`ParseIntToString`) |
| Numerals.IntToString | maven_iuvs/files/files.py:369 | `str()` of an integer, as the f-string writes the orbit (`ParseIntToString`) |
| Numerals.ZFill | pyuvs/files.py:535 | `str.zfill`: padding after a sign, nothing when wide enough (`PaddedNumeral`, `LeadingZeros`) |
| Numerals.OrbitCode | pyuvs/files.py:535 | the five-wide zero-filled orbit (`ParseOrbitCode`, `OrbitCodeInjective`, `OrbitCodeShape`) |
| Strings.IndexOf | maven_iuvs/files/files.py:337 | `index` finds an occurrence exactly when the text contains it, and returns the first one |
| Strings.SplitOn | pyuvs/files.py:161 | `split` on a character gives one more piece than the count of that character |
| Strings.JoinSplit | pyuvs/files.py:105-108 | joining the pieces of a split gives back the string |
| Strings.SplitJoin | pyuvs/files.py:105-108 | splitting a join of separator-free pieces gives back the pieces |
| Strings.SplitPiecesFree | pyuvs/files.py:161 | no piece of a split holds the separator |
| Strings.Find | pyuvs/files.py:164 | `find` returns -1 or an offset within the text (`IndexOf` gives the first occurrence) |
| Strings.Count | pyuvs/files.py:88 | `count` of a character: one less than the pieces of a split on it (`SplitOn`) |
| Strings.Slice | pyuvs/files.py:165-166 | slicing with clamping and negative indices (`StemExtension`, `StemWithoutDot`) |
| Strings.RemovePrefix | pyuvs/files.py:112 | `removeprefix` (`MarkerPiece`) |
| Strings.Join | pyuvs/files.py:108 | `join` on a character (`JoinSplit`, `SplitJoin`) |
| Ordering.Sort | maven_iuvs/files/files.py:99 | `sorted()` is a permutation of its input |
| Ordering.SortSorted | maven_iuvs/files/files.py:99 | `sorted()` returns a sorted list |
| Ordering.SortOfSorted | maven_iuvs/files/files.py:67 | `sorted()` of a sorted list is that list |
| Ordering.InsertSorted | maven_iuvs/files/files.py:99 | inserting into a sorted list keeps it sorted |
| Ordering.LeTotal | maven_iuvs/files/files.py:99 | any two strings are ordered one way or the other |
| Ordering.LeTransitive | maven_iuvs/files/files.py:99 | string order is transitive |
| Ordering.Le | maven_iuvs/files/files.py:99 | the lexicographic order `sorted()` uses, total and transitive (`LeTotal`, `LeTransitive`) |
| Wildcard.MatchStar | maven_iuvs/files/files.py:64 | `*` matches every name |
| Wildcard.MatchLiteralHead | maven_iuvs/files/files.py:64 | a pattern starting with a literal matches exactly when the name starts with it and the rest matches |
| Wildcard.MatchPrefixPattern | maven_iuvs/files/files.py:146 | `mvn_iuv*` matches exactly the names starting with `mvn_iuv` |
| Wildcard.MatchContains | maven_iuvs/files/files.py:331 | `*c*` with a literal `c` matches exactly the names containing `c` |
| Wildcard.MatchStarLiteral | maven_iuvs/files/files.py:369 | `*` then a literal matches exactly when the literal occurs and the rest of the pattern matches after that occurrence |
| Wildcard.Match | maven_iuvs/files/files.py:64 | `fnmatch` with `*`, `?` and literal characters (`MatchStar`, `MatchLiteralHead`, `MatchContains`, `MatchStarLiteral`) |
| PosixPaths.PathJoin | maven_iuvs/files/files.py:99 | `os.path.join` ends with its second argument; an absolute second argument replaces the first, and otherwise the result starts with the first |
| PosixPaths.PathJoinInjective | pyuvs/files.py:490 | joining one root with two relative names gives equal paths only for equal names |
| PosixPaths.Basename | maven_iuvs/files/files.py:104-106 | the basename has no `/`, ends the path, and is the whole path or follows a `/` |
| PosixPaths.BasenameOfJoined | maven_iuvs/files/files.py:104-106 | the basename of `dir/name` is `name` |
| FileDownselect.Basenames | maven_iuvs/files/files.py:104-106 | one basename per path |
| FileDownselect.Selected | maven_iuvs/files/files.py:61-65 | the paths whose paired basename matches, in path order (`SelectedMembers`, `SelectedLength`, `SelectedAll`) |
| FileDownselect.Downselect | maven_iuvs/files/files.py:61-67 | the sorted selection (`DownselectMembers`, `DownselectOfSorted`) |
| FileDownselect.DownselectNames | maven_iuvs/files/files.py:84-86 | the sorted basenames of the downselection (`Files.FilenamesMatching`) |
| FileDownselect.Uniform | maven_iuvs/files/files.py:145-148 | the layer check as list equality of the basenames and the downselected names (`UniformIff`) |
| FileDownselect.SelectedMembers | maven_iuvs/files/files.py:61-65 | the loop selects every path whose paired name matches, and only such paths |
| FileDownselect.SelectedLength | maven_iuvs/files/files.py:61-65 | at most every path is selected, and all of them only when every name matches |
| FileDownselect.SelectedAll | maven_iuvs/files/files.py:61-65 | when every name matches, every path is selected, in order |
| FileDownselect.SelectedSorted | maven_iuvs/files/files.py:61-67 | a selection from sorted paths is sorted |
| FileDownselect.DownselectOfSorted | maven_iuvs/files/files.py:61-67 | on sorted paths the final `sorted()` changes nothing: the result is a sorted subsequence of the paths |
| FileDownselect.DownselectMembers | maven_iuvs/files/files.py:61-67 | the downselection is sorted and holds exactly the paths whose name matches |
| FileDownselect.DownselectStar | maven_iuvs/files/files.py:61-67 | downselecting sorted paths with `*` returns every path unchanged |
| FileDownselect.UniformIff | maven_iuvs/files/files.py:145-148 | a layer check passes exactly when every basename matches and the basenames, in path order, are sorted |
| FileDownselect.UnsortedNamesRejected | maven_iuvs/files/files.py:145-148 | basenames out of order fail every layer, whatever they match |
| FileDownselect.OrderQuirkExample | maven_iuvs/files/files.py:145-148 | `/a/mvn_iuv_2`, `/b/mvn_iuv_1` are sorted, both start `mvn_iuv`, and the IUVS layer rejects them |
| FileDownselect.CandidateIff | maven_iuvs/files/files.py:330-333 | on sorted paths, a literal candidate passes exactly when the basenames are sorted and all contain it |
| FileDownselect.FirstPassing | maven_iuvs/files/files.py:330-334 | a candidate found is one of the candidates and passes |
| FileDownselect.FirstPassingNone | maven_iuvs/files/files.py:330-334 | nothing is found exactly when no candidate passes |
| FileDownselect.FirstPassingSome | maven_iuvs/files/files.py:330-333 | the first candidate, in list order, that passes is the one found |
| FileDownselect.FirstPassingSkip | maven_iuvs/files/files.py:330-333 | candidates before the first passing one do not matter |
| FileValidation.Opened | maven_iuvs/files/files.py:35-38 | a collection that constructs is never empty |
| FileValidation.RejectedNone | maven_iuvs/files/files.py:142-227 | no layer fails exactly when every layer passes |
| FileValidation.RejectedSome | maven_iuvs/files/files.py:142-227 | a failure carries the error of a failing layer all of whose predecessors pass |
| FileValidation.FirstFailingSpec | maven_iuvs/files/files.py:142-227 | the same two facts for the layer checks on a path list |
| FileValidation.FirstFailing | maven_iuvs/files/files.py:142-227 | the error of the first failing layer; the layers are `IUVS_LAYER` (`mvn_iuv*`, `NotIuvsFiles`), `DATA_LAYER` (`*fits*`, `NotDataFiles`) and `L1B_LAYER` (`*l1b*`, `NotL1bFiles`), chained by `IUVS_LAYERS`, `DATA_LAYERS`, `L1B_LAYERS` (`FirstFailingSpec`, `L1bLayers`) |
| FileValidation.LayerOrder | maven_iuvs/files/files.py:142-143 | layers run in order: the parent's layers first, then the child's |
| FileValidation.OpenedExtend | maven_iuvs/files/files.py:175-176 | a subclass keeps its parent's error, or else adds its own layer check |
| FileValidation.OpenedIff | maven_iuvs/files/files.py:35-38 | a collection constructs exactly when the root exists, the scan is not empty and every layer holds; it then holds the sorted scan |
| FileValidation.OpenedErrors | maven_iuvs/files/files.py:35-38 | the missing root is raised first, then the empty scan, then the first failing layer |
| FileValidation.L1bAccepted | maven_iuvs/files/files.py:211-227 | an `L1bFiles` constructs exactly when the root exists, the scan is not empty, and the basenames are sorted, start `mvn_iuv` and contain `fits` and `l1b` |
| FileValidation.L1bLayers | maven_iuvs/files/files.py:146-226 | the three L1b layers hold exactly when the names are sorted and each one starts `mvn_iuv` and contains `fits` and `l1b` |
| FileValidation.L1bPatterns | maven_iuvs/files/files.py:146-225 | the three layer patterns match exactly the names that start `mvn_iuv` and contain `fits` and `l1b` |
| FileSegments.OrbitSlices | maven_iuvs/files/files.py:339 | one orbit slice per filename |
| FileSegments.SingleOrbitSpec | maven_iuvs/files/files.py:336-343 | the orbit resolves exactly when the first filename has `orbit` and every five-character slice at its offset equals the first and is a numeral; the error is `NoOrbitMarker` exactly when there is no `orbit` |
| FileSegments.SingleOrbit | maven_iuvs/files/files.py:336-343 | the orbit of the five characters after the first filename's `orbit`, sliced from every filename (`SingleOrbitSpec`, `SingleOrbitOfCode`) |
| FileSegments.SingleOrbitOfCode | maven_iuvs/files/files.py:336-341 | filenames carrying the five-digit code of `n` right after the first `orbit` resolve to `n` |
| FileSegments.ProbeOnL1b | maven_iuvs/files/files.py:327-333 | on an accepted `L1bFiles`, a literal candidate passes exactly when every basename contains it |
| FileSegments.CandidatesLiteral | maven_iuvs/files/files.py:323-347 | the sequence and mode candidates hold no wildcard |
| FileSegments.FirstContained | maven_iuvs/files/files.py:323-334 | the resolved sequence or mode is the first candidate, in list order, contained in every basename |
| FileSegments.NoneContained | maven_iuvs/files/files.py:334 | probing fails exactly when no candidate is contained in every basename |
| FileSegments.ResolutionOrder | maven_iuvs/files/files.py:306-309 | on accepted `L1bFiles`: no sequence contained in every basename gives `MixedSequence` whatever the orbit slices; a common sequence with a bad orbit gives the orbit error before any mode is probed; a common sequence and orbit with no common mode give `MixedMode` |
| FileSegments.ResolvedSegment | maven_iuvs/files/files.py:306-347 | a resolved segment holds the sorted scan; its sequence and mode are candidates contained in every basename, and its orbit is the value of the common orbit slice |
| FileSegments.Resolved | maven_iuvs/files/files.py:306-347 | the `L1bFiles` checks, then sequence, orbit and mode (`ResolvedSegment`, `ResolutionOrder`) |
| FileSegments.NamePatternMatch | maven_iuvs/files/files.py:369 | a name matches `*{sequence}*{orbit}*{mode}*` exactly when sequence, orbit and mode occur in that order |
| FileSegments.NamePattern | maven_iuvs/files/files.py:369 | the name part `*{sequence}*{orbit}*{mode}*` of the pattern (`NamePatternMatch`) |
| FileSegments.SegmentPattern | maven_iuvs/files/files.py:369 | `**/` then the name pattern with the orbit written by `str()` (`DefaultSegmentPattern`) |
| FileSegments.DefaultSegmentPattern | maven_iuvs/files/files.py:350-369 | with the defaults, orbit 3453 gives `**/*apoapse*3453*muv*`, the orbit unpadded |
| FileCollections.Files.constructor | maven_iuvs/files/files.py:35-37 | the paths are the sorted scan and `filenames[i]` is the basename of `absolute_paths[i]` |
| FileCollections.Files.PathsMatching | maven_iuvs/files/files.py:61-67 | the loop returns the sorted downselection, and warns exactly when it is empty |
| FileCollections.Files.FilenamesMatching | maven_iuvs/files/files.py:84-86 | the sorted basenames of exactly the downselected paths |
| FileCollections.Files.CheckLayer | maven_iuvs/files/files.py:145-148 | the list-equality check holds exactly when every filename matches and the filenames are sorted |
| FileCollections.Files.FirstMatchingCandidate | maven_iuvs/files/files.py:327-334 | the early-return loop returns the first candidate that passes, or none |
| FileCollections.SegmentFiles.constructor | maven_iuvs/files/files.py:306-309 | stores the collection and its sequence, orbit and mode |
| FileCollections.OpenFiles | maven_iuvs/files/files.py:35-38 | `Files(path, pattern)` is the object form of `Opened` with no layers |
| FileCollections.AddLayer | maven_iuvs/files/files.py:142-148 | a failed parent keeps its error; an accepted one is kept or fails with the layer's error |
| FileCollections.OpenIuvsFiles | maven_iuvs/files/files.py:142-148 | `IUVSFiles` is `Opened` with the IUVS layer |
| FileCollections.OpenDataFiles | maven_iuvs/files/files.py:175-181 | `IUVSDataFiles` is `Opened` with the IUVS and data layers |
| FileCollections.OpenL1bFiles | maven_iuvs/files/files.py:211-227 | `L1bFiles` is `Opened` with all three layers |
| FileCollections.OpenSegment | maven_iuvs/files/files.py:306-309 | `SingleOrbitModeSequenceL1bFiles` is the object form of `Resolved` |
| FileCollections.SingleSegment | maven_iuvs/files/files.py:350-371 | `single_segment` resolves the files the segment pattern finds, with defaults `muv` and `apoapse` |

## Left out

- File system: `os.path.exists` and `glob.glob` become the inputs `rootExists` and
  `glob`. The `**` recursion of the glob is not modelled. `glob`'s own matching of the
  pattern against directory entries is not modelled either.
- Relay-swath detection (`get_which_files_are_relay_files` and the two `check_if_*`
  methods) is not modelled: it opens FITS files and compares floating-point mirror
  angles.
- Warnings: the warning of an empty downselection is the flag `warned`. The
  `catch_warnings` block around probing only silences that flag, so probing ignores it.
- `isinstance` checks and the `TypeError`s they raise are not modelled: Dafny's types
  rule those inputs out.
- `fnmatch`: `os.path.normcase` and the `[seq]` / `[!seq]` character classes are left
  out. The patterns of the core never use them.
- `Numerals.OrbitCode`: `pyuvs.misc.orbit_code` is not part of this model. It is taken to
  be `str(n).zfill(5)`, which agrees with the documented folder names.
- `Numerals.ParseInt`: models `int()` on an optional sign and ASCII digits only. Surrounding
  whitespace, `_` digit separators and non-ASCII digits, which `int()` also accepts, make it
  fail.
- `DataPaths.OrbitBlock`: `np.floor(orbit / 100) * 100` is modelled as exact floor
  division. It does not model float rounding, which does not arise for orbit numbers.
- Subclassing: the class chain is modelled as one `Files` class plus the constructor
  methods of the chain, which add one layer check each. `SegmentFiles` holds its
  `Files` collection instead of inheriting from it.
- Properties: the Python `@property` accessors and `__str__` only return stored fields.
  They are the fields of the `DataFilename` record and of the classes.
- The tests, the generated documentation index and the commented usage examples at the
  end of `maven_iuvs/files/files.py` are not modelled.
- `DataFilenameProperties.DocumentedTimestamp` states the documented timestamp example
  writing side only. The split back follows from `TimestampRoundTrip`, not from a lemma
  about the literal.
