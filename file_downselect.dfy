/** The list logic of `maven_iuvs.files.Files`: the basename of every path, the
    downselection of paths by a wildcard pattern on their basenames, the list-equality
    check of a validation layer and the first-match probing of candidate names. */
module FileDownselect {
  import opened Wrappers
  import opened Strings
  import opened Ordering
  import opened Wildcard
  import opened PosixPaths

  /** `[f.split('/')[-1] for f in paths]` */
  function Basenames(paths: seq<string>): (r: seq<string>)
    ensures |r| == |paths|
  {
    seq(|paths|, i requires 0 <= i < |paths| => Basename(paths[i]))
  }

  /** The paths whose paired name matches `pattern`, in their original order: what the
      indexed loop of the downselection appends. */
  function Selected(paths: seq<string>, names: seq<string>, pattern: string): seq<string>
    requires |paths| == |names|
    decreases |paths|
  {
    if paths == [] then []
    else
      var n := |paths| - 1;
      Selected(paths[..n], names[..n], pattern) + (if Match(names[n], pattern) then [paths[n]] else [])
  }

  /** `get_absolute_paths_of_filenames_containing_pattern(pattern)` */
  function Downselect(paths: seq<string>, names: seq<string>, pattern: string): seq<string>
    requires |paths| == |names|
  {
    Sort(Selected(paths, names, pattern))
  }

  /** `get_filenames_containing_pattern(pattern)`: the sorted basenames of the
      downselected paths. */
  function DownselectNames(paths: seq<string>, names: seq<string>, pattern: string): seq<string>
    requires |paths| == |names|
  {
    Sort(Basenames(Downselect(paths, names, pattern)))
  }

  /** The check of a validation layer: the names equal the downselected basenames,
      as lists. */
  predicate Uniform(paths: seq<string>, names: seq<string>, pattern: string)
    requires |paths| == |names|
  {
    names == DownselectNames(paths, names, pattern)
  }

  /** Whether the names pass the layer check with `*c*`; false for unpaired lists. */
  predicate Passes(paths: seq<string>, names: seq<string>, c: string) {
    |paths| == |names| && Uniform(paths, names, "*" + c + "*")
  }

  /** The first candidate, in list order, that `pass` accepts. */
  function FirstPassing(candidates: seq<string>, pass: string -> bool): (r: Option<string>)
    ensures r.Some? ==> r.value in candidates && pass(r.value)
  {
    if candidates == [] then None
    else if pass(candidates[0]) then Some(candidates[0])
    else FirstPassing(candidates[1..], pass)
  }

  // ---------------------------------------------------------------------------
  // Downselection

  /** Every path whose name matches is selected, and only such paths are. */
  lemma {:induction false} SelectedMembers(paths: seq<string>, names: seq<string>, pattern: string)
    requires |paths| == |names|
    ensures forall i :: 0 <= i < |paths| && Match(names[i], pattern) ==> paths[i] in Selected(paths, names, pattern)
    ensures forall x :: x in Selected(paths, names, pattern) ==>
              exists i :: 0 <= i < |paths| && paths[i] == x && Match(names[i], pattern)
    decreases |paths|
  {
    if paths != [] {
      var n := |paths| - 1;
      SelectedMembers(paths[..n], names[..n], pattern);
      forall i | 0 <= i < n
        ensures paths[..n][i] == paths[i] && names[..n][i] == names[i]
      {
      }
    }
  }

  /** At most every path is selected, and all of them only when every name matches. */
  lemma {:induction false} SelectedLength(paths: seq<string>, names: seq<string>, pattern: string)
    requires |paths| == |names|
    ensures |Selected(paths, names, pattern)| <= |paths|
    ensures |Selected(paths, names, pattern)| == |paths| ==> forall i :: 0 <= i < |names| ==> Match(names[i], pattern)
    decreases |paths|
  {
    if paths != [] {
      var n := |paths| - 1;
      SelectedLength(paths[..n], names[..n], pattern);
      assert forall i :: 0 <= i < n ==> names[..n][i] == names[i];
    }
  }

  /** When every name matches, every path is selected. */
  lemma {:induction false} SelectedAll(paths: seq<string>, names: seq<string>, pattern: string)
    requires |paths| == |names|
    requires forall i :: 0 <= i < |names| ==> Match(names[i], pattern)
    ensures Selected(paths, names, pattern) == paths
    decreases |paths|
  {
    if paths != [] {
      var n := |paths| - 1;
      assert forall i :: 0 <= i < n ==> names[..n][i] == names[i];
      SelectedAll(paths[..n], names[..n], pattern);
      assert paths[..n] + [paths[n]] == paths;
    }
  }

  /** A selection from sorted paths is sorted. */
  lemma {:induction false} SelectedSorted(paths: seq<string>, names: seq<string>, pattern: string)
    requires |paths| == |names| && Sorted(paths)
    ensures Sorted(Selected(paths, names, pattern))
    decreases |paths|
  {
    if paths != [] {
      var n := |paths| - 1;
      var s := Selected(paths[..n], names[..n], pattern);
      assert Sorted(paths[..n]);
      SelectedSorted(paths[..n], names[..n], pattern);
      if Match(names[n], pattern) {
        SelectedMembers(paths[..n], names[..n], pattern);
        forall x | x in s
          ensures Le(x, paths[n])
        {
          var i :| 0 <= i < n && paths[..n][i] == x && Match(names[..n][i], pattern);
          assert paths[i] == x;
        }
        SortedAppend(s, paths[n]);
      }
    }
  }

  lemma SortedAppend(s: seq<string>, y: string)
    requires Sorted(s)
    requires forall x :: x in s ==> Le(x, y)
    ensures Sorted(s + [y])
  {
    forall i, j | 0 <= i < j < |s| + 1
      ensures Le((s + [y])[i], (s + [y])[j])
    {
      if j == |s| {
        assert (s + [y])[i] == s[i];
      }
    }
  }

  /** On sorted paths the final `sorted()` of the downselection changes nothing: the
      result is the selection itself, a sorted subsequence of the paths. */
  lemma DownselectOfSorted(paths: seq<string>, names: seq<string>, pattern: string)
    requires |paths| == |names| && Sorted(paths)
    ensures Downselect(paths, names, pattern) == Selected(paths, names, pattern)
    ensures Sorted(Downselect(paths, names, pattern))
  {
    SelectedSorted(paths, names, pattern);
    SortOfSorted(Selected(paths, names, pattern));
  }

  /** The downselection is sorted and holds exactly the paths whose name matches. */
  lemma DownselectMembers(paths: seq<string>, names: seq<string>, pattern: string)
    requires |paths| == |names|
    ensures Sorted(Downselect(paths, names, pattern))
    ensures forall i :: 0 <= i < |paths| && Match(names[i], pattern) ==> paths[i] in Downselect(paths, names, pattern)
    ensures forall x :: x in Downselect(paths, names, pattern) ==>
              exists i :: 0 <= i < |paths| && paths[i] == x && Match(names[i], pattern)
  {
    var s := Selected(paths, names, pattern);
    SortSorted(s);
    SelectedMembers(paths, names, pattern);
    assert forall x :: x in Sort(s) <==> x in multiset(Sort(s));
    assert forall x :: x in s <==> x in multiset(s);
  }

  /** Downselecting sorted paths with `*` returns every path unchanged. */
  lemma DownselectStar(paths: seq<string>, names: seq<string>)
    requires |paths| == |names| && Sorted(paths)
    ensures Downselect(paths, names, "*") == paths
  {
    forall i | 0 <= i < |names|
      ensures Match(names[i], "*")
    {
      MatchStar(names[i]);
    }
    SelectedAll(paths, names, "*");
    DownselectOfSorted(paths, names, "*");
  }

  // ---------------------------------------------------------------------------
  // Validation layers

  /** A layer check on sorted paths with their basenames as names passes exactly when
      every basename matches the pattern and the basenames, in path order, are already
      sorted. */
  lemma UniformIff(paths: seq<string>, pattern: string)
    requires Sorted(paths)
    ensures Uniform(paths, Basenames(paths), pattern) <==>
              (forall i :: 0 <= i < |paths| ==> Match(Basenames(paths)[i], pattern)) && Sorted(Basenames(paths))
  {
    var names := Basenames(paths);
    var d := Downselect(paths, names, pattern);
    DownselectOfSorted(paths, names, pattern);
    if Uniform(paths, names, pattern) {
      SortSorted(Basenames(d));
      SortLength(Basenames(d));
      SelectedLength(paths, names, pattern);
    }
    if (forall i :: 0 <= i < |paths| ==> Match(names[i], pattern)) && Sorted(names) {
      SelectedAll(paths, names, pattern);
      SortOfSorted(names);
    }
  }

  /** The order quirk: basenames that all match but are out of order fail the layer. */
  lemma UnsortedNamesRejected(paths: seq<string>, pattern: string)
    requires Sorted(paths) && !Sorted(Basenames(paths))
    ensures !Uniform(paths, Basenames(paths), pattern)
  {
    UniformIff(paths, pattern);
  }

  /** Two IUVS files, `/a/mvn_iuv_2` and `/b/mvn_iuv_1`, in sorted path order: both
      names start with `mvn_iuv`, yet the IUVS layer rejects them. */
  lemma OrderQuirkExample(paths: seq<string>)
    requires paths == ["/a" + "/" + QuirkName('2'), "/b" + "/" + QuirkName('1')]
    ensures Sorted(paths)
    ensures forall i :: 0 <= i < |paths| ==> StartsWith(Basenames(paths)[i], "mvn_iuv")
    ensures !Uniform(paths, Basenames(paths), "mvn_iuv*")
  {
    QuirkPathsSorted(paths);
    QuirkNames(paths);
    UnsortedNamesRejected(paths, "mvn_iuv*");
  }

  /** `mvn_iuv_` followed by one character. */
  function QuirkName(ch: char): (r: string)
    requires ch != '/'
    ensures StartsWith(r, "mvn_iuv") && '/' !in r
  {
    StartsWithAppend("mvn_iuv", "_" + [ch], "mvn_iuv");
    assert "mvn_iuv_" + [ch] == "mvn_iuv" + ("_" + [ch]);
    "mvn_iuv_" + [ch]
  }

  lemma QuirkPathsSorted(paths: seq<string>)
    requires paths == ["/a" + "/" + QuirkName('2'), "/b" + "/" + QuirkName('1')]
    ensures Sorted(paths)
  {
    LeCommonPrefix("/", "a/" + QuirkName('2'), "b/" + QuirkName('1'));
    assert paths[0] == "/" + ("a/" + QuirkName('2')) && paths[1] == "/" + ("b/" + QuirkName('1'));
    LeReflexive(paths[0]);
    LeReflexive(paths[1]);
  }

  lemma QuirkNames(paths: seq<string>)
    requires paths == ["/a" + "/" + QuirkName('2'), "/b" + "/" + QuirkName('1')]
    ensures forall i :: 0 <= i < |paths| ==> StartsWith(Basenames(paths)[i], "mvn_iuv")
    ensures !Sorted(Basenames(paths))
  {
    BasenameOfJoined("/a", QuirkName('2'));
    BasenameOfJoined("/b", QuirkName('1'));
    LeCommonPrefix("mvn_iuv_", "2", "1");
    assert !Le(Basenames(paths)[0], Basenames(paths)[1]);
  }

  // ---------------------------------------------------------------------------
  // Candidate probing

  /** With sorted paths and their basenames, a candidate without wildcards passes its
      `*c*` check exactly when the basenames are sorted and every one contains it. */
  lemma CandidateIff(paths: seq<string>, c: string)
    requires Sorted(paths) && Literal(c)
    ensures Passes(paths, Basenames(paths), c) <==>
              Sorted(Basenames(paths)) && forall i :: 0 <= i < |paths| ==> Contains(Basenames(paths)[i], c)
  {
    UniformIff(paths, "*" + c + "*");
    forall i | 0 <= i < |paths|
      ensures Match(Basenames(paths)[i], "*" + c + "*") <==> Contains(Basenames(paths)[i], c)
    {
      MatchContains(Basenames(paths)[i], c);
    }
  }

  /** The probe returns none exactly when no candidate passes. */
  lemma {:induction false} FirstPassingNone(candidates: seq<string>, pass: string -> bool)
    ensures FirstPassing(candidates, pass).None? <==> forall k :: 0 <= k < |candidates| ==> !pass(candidates[k])
  {
    if candidates != [] && !pass(candidates[0]) {
      var rest := candidates[1..];
      FirstPassingNone(rest, pass);
      assert forall j :: 1 <= j < |candidates| ==> candidates[j] == rest[j - 1];
    }
  }

  /** Skipping a prefix of candidates none of which passes does not change the probe. */
  lemma {:induction false} FirstPassingSkip(candidates: seq<string>, pass: string -> bool, i: nat)
    requires i <= |candidates|
    requires forall j :: 0 <= j < i ==> !pass(candidates[j])
    ensures FirstPassing(candidates, pass) == FirstPassing(candidates[i..], pass)
  {
    if i > 0 {
      var rest := candidates[1..];
      assert forall j :: 0 <= j < i - 1 ==> rest[j] == candidates[j + 1];
      FirstPassingSkip(rest, pass, i - 1);
      assert rest[i - 1..] == candidates[i..];
    }
  }

  /** The probe returns the first candidate that passes. */
  lemma FirstPassingSome(candidates: seq<string>, pass: string -> bool, k: nat)
    requires k < |candidates| && pass(candidates[k])
    requires forall j :: 0 <= j < k ==> !pass(candidates[j])
    ensures FirstPassing(candidates, pass) == Some(candidates[k])
  {
    FirstPassingSkip(candidates, pass, k);
    assert candidates[k..][0] == candidates[k];
  }
}
