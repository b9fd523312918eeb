/** `pyuvs.files.DataPath`: the root of an IUVS data tree in which files are grouped
    into folders of one hundred orbits, `orbit00000`, `orbit00100`, and so on. */
module DataPaths {
  import opened Wrappers
  import opened Strings
  import opened Numerals
  import opened PosixPaths

  /** `IsADirectoryError`: the root does not exist. */
  datatype PathError = NoSuchDirectory

  datatype DataPath = DataPath(path: string)

  /** `DataPath(path)`; whether the path exists on disk is the caller's observation. */
  function NewDataPath(path: string, pathExists: bool): (r: Result<DataPath, PathError>)
    ensures r.Success? <==> pathExists
    ensures r.Success? ==> r.value.path == path
    ensures r.Failure? ==> r.error == NoSuchDirectory
  {
    if pathExists then Success(DataPath(path)) else Failure(NoSuchDirectory)
  }

  /** `floor(orbit / 100) * 100`: the first orbit of the hundred the orbit falls in. */
  function OrbitBlock(orbit: int): (b: int)
    ensures b % 100 == 0
    ensures b <= orbit < b + 100
  {
    orbit / 100 * 100
  }

  /** The folder of an orbit's hundred: `orbit` and the zero-padded first orbit. */
  function BlockFolderName(orbit: int): string {
    "orbit" + OrbitCode(OrbitBlock(orbit))
  }

  /** `DataPath.block(orbit)`: the folder of the orbit's hundred under the root. */
  function Block(p: DataPath, orbit: int): (r: string)
    ensures EndsWith(r, BlockFolderName(orbit))
    ensures StartsWith(r, p.path)
  {
    assert BlockFolderName(orbit)[0] == 'o';
    PathJoin(p.path, BlockFolderName(orbit))
  }

  /** `DataPath.block_paths(orbits)`: the block folder of each orbit, in order. */
  function BlockPaths(p: DataPath, orbits: seq<int>): (r: seq<string>)
    ensures |r| == |orbits|
  {
    seq(|orbits|, i requires 0 <= i < |orbits| => Block(p, orbits[i]))
  }

  // ---------------------------------------------------------------------------
  // Lemmas

  /** The block is the unique multiple of 100 within 100 below the orbit. */
  lemma OrbitBlockUnique(orbit: int, b: int)
    requires b % 100 == 0 && b <= orbit < b + 100
    ensures OrbitBlock(orbit) == b
  {
    var c := OrbitBlock(orbit);
    assert c - b < 100 && b - c < 100 && (c - b) % 100 == 0;
  }

  /** Blocks never go down as orbits go up. */
  lemma OrbitBlockMonotone(a: int, b: int)
    requires a <= b
    ensures OrbitBlock(a) <= OrbitBlock(b)
  {
  }

  /** Two orbits share a block folder exactly when they lie in the same hundred. */
  lemma SameBlock(p: DataPath, a: int, b: int)
    ensures Block(p, a) == Block(p, b) <==> a / 100 == b / 100
  {
    if Block(p, a) == Block(p, b) {
      var x, y := BlockFolderName(a), BlockFolderName(b);
      assert x[0] == 'o' && y[0] == 'o';
      PathJoinInjective(p.path, x, y);
      assert OrbitCode(OrbitBlock(a)) == x[5..] && OrbitCode(OrbitBlock(b)) == y[5..];
      OrbitCodeInjective(OrbitBlock(a), OrbitBlock(b));
    }
  }

  /** The folder name reads back as the block: `orbit` and a numeral `int()` accepts. */
  lemma BlockFolderParses(orbit: int)
    ensures StartsWith(BlockFolderName(orbit), "orbit")
    ensures ParseInt(RemovePrefix(BlockFolderName(orbit), "orbit")) == Some(OrbitBlock(orbit))
  {
    assert BlockFolderName(orbit)[..5] == "orbit";
    assert BlockFolderName(orbit)[5..] == OrbitCode(OrbitBlock(orbit));
    ParseOrbitCode(OrbitBlock(orbit));
  }

  /** Each path of `block_paths` is the block of the orbit at the same position, and
      two positions share a path exactly when their orbits share a hundred. */
  lemma BlockPathsPointwise(p: DataPath, orbits: seq<int>, i: nat, j: nat)
    requires i < |orbits| && j < |orbits|
    ensures BlockPaths(p, orbits)[i] == Block(p, orbits[i])
    ensures BlockPaths(p, orbits)[i] == BlockPaths(p, orbits)[j] <==> orbits[i] / 100 == orbits[j] / 100
  {
    SameBlock(p, orbits[i], orbits[j]);
  }

  /** Orbit 7777 lies in the folder of orbit 7700. */
  lemma BlockExample()
    ensures Block(DataPath("/foo/bar"), 7777) == "/foo/bar" + "/" + "orbit07700"
  {
    assert OrbitBlock(7777) == 7700;
    ZFillExample();
    var name := BlockFolderName(7777);
    assert name == "orbit" + "07700";
    assert name[0] == 'o';
    assert "/foo/bar"[7] == 'r';
  }

  lemma ZFillExample()
    ensures OrbitCode(7700) == "07700"
  {
    assert NatToString(7700) == "7700";
  }

  /** The documented example of `block_paths`: under `/foo/bar`, orbits 3495, 3500 and
      3505 lie in the folders of 3400, 3500 and 3500. */
  lemma BlockPathsExample()
    ensures BlockPaths(DataPath("/foo/bar"), [3495, 3500, 3505])
         == ["/foo/bar/orbit03400", "/foo/bar/orbit03500", "/foo/bar/orbit03500"]
  {
    HundredCodes();
    FooBarBlock(3495, 3400, "03400", "/foo/bar/orbit03400");
    FooBarBlock(3500, 3500, "03500", "/foo/bar/orbit03500");
    FooBarBlock(3505, 3500, "03500", "/foo/bar/orbit03500");
    BlockPathsOfThree(DataPath("/foo/bar"), 3495, 3500, 3505);
  }

  /** The zero-padded codes of the two hundreds of the example above. */
  lemma HundredCodes()
    ensures OrbitCode(3400) == "03400" && OrbitCode(3500) == "03500"
  {
    assert NatToString(3400) == "3400";
    assert NatToString(3500) == "3500";
  }

  /** The block of `orbit` under `/foo/bar`, given its hundred and that hundred's code. */
  lemma FooBarBlock(orbit: int, block: nat, code: string, path: string)
    requires OrbitBlock(orbit) == block && OrbitCode(block) == code
    requires path == "/foo/bar/orbit" + code
    ensures Block(DataPath("/foo/bar"), orbit) == path
  {
    var name := BlockFolderName(orbit);
    assert name == "orbit" + code;
    assert name[0] == 'o';
    assert "/foo/bar"[7] == 'r';
    assert "/foo/bar" + "/" + name == "/foo/bar/orbit" + code;
  }

  /** `block_paths` of three orbits lists their three blocks. */
  lemma BlockPathsOfThree(p: DataPath, a: int, b: int, c: int)
    ensures BlockPaths(p, [a, b, c]) == [Block(p, a), Block(p, b), Block(p, c)]
  {
  }

  /** Orbits 3495, 3500 and 3505 lie in the folders of 3400, 3500 and 3500 under any
      root: the last two paths coincide and differ from the first. */
  lemma BlockPathsShared(p: DataPath, orbits: seq<int>)
    requires orbits == [3495, 3500, 3505]
    ensures |BlockPaths(p, orbits)| == 3
    ensures BlockPaths(p, orbits)[1] == BlockPaths(p, orbits)[2]
    ensures BlockPaths(p, orbits)[0] != BlockPaths(p, orbits)[1]
  {
    assert orbits[1] / 100 == orbits[2] / 100;
    assert orbits[0] / 100 != orbits[1] / 100;
    BlockPathsPointwise(p, orbits, 1, 2);
    BlockPathsPointwise(p, orbits, 0, 1);
  }

  /** The hundreds of the orbits of the example above. */
  lemma OrbitBlockExample()
    ensures OrbitBlock(3495) == 3400 && OrbitBlock(3500) == 3500 && OrbitBlock(3505) == 3500
  {
  }
}
