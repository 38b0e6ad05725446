/** The job directory of one machine: file names and file contents. */
module Disks {
  import opened Bytes

  datatype Kind = Spill | Index | Inter | Fetched | SortedRun | MergedRun | Result

  /** The file `index-x` is Path(Index, x), and likewise for the other prefixes. */
  datatype Path = Path(kind: Kind, rest: bytes)

  type Files = map<Path, bytes>

  const DOT_TMP: bytes := [46, 116, 109, 112, 46]  // ".tmp."

  /** path names `base` or a file whose name starts with it. */
  predicate NamedAfter(path: Path, base: Path)
  {
    path.kind == base.kind && base.rest <= path.rest
  }

  class Disk {
    var files: Files

    /** os.CreateTemp: an empty file under a name nothing had. */
    method CreateTemp(base: Path) returns (path: Path)
      modifies this
      ensures path !in old(files) && path != base && NamedAfter(path, base)
      ensures files == old(files)[path := []]
    {
      hide *;
      var n := 0;
      ghost var tried: set<Path> := {};
      path := TempPath(base, 0);
      while path in files
        invariant files == old(files) && path == TempPath(base, n)
        invariant tried <= files.Keys
        invariant forall p :: p in tried ==> exists m :: 0 <= m < n && p == TempPath(base, m)
        decreases |files.Keys - tried|
      {
        NotTried(base, n, tried);
        OneFewerLeft(files.Keys, tried, path);
        tried := tried + {path};
        n := n + 1;
        path := TempPath(base, n);
      }
      TempPathNamed(base, n);
      files := files[path := []];
    }
  }

  /** The n-th name tried for a temporary file. */
  function TempPath(base: Path, n: nat): Path
  {
    Path(base.kind, base.rest + (DOT_TMP + Dec(n)))
  }

  lemma TempPathNamed(base: Path, n: nat)
    ensures TempPath(base, n) != base && NamedAfter(TempPath(base, n), base)
  {
    assert |DOT_TMP + Dec(n)| > 0;
  }

  lemma NotTried(base: Path, n: nat, tried: set<Path>)
    requires forall p :: p in tried ==> exists m :: 0 <= m < n && p == TempPath(base, m)
    ensures TempPath(base, n) !in tried
  {
    hide TempPath;
    forall m: nat | m < n
      ensures TempPath(base, m) != TempPath(base, n)
    {
      TempPathInjective(base, m, n);
    }
  }

  lemma TempPathInjective(base: Path, m: nat, n: nat)
    ensures TempPath(base, m) == TempPath(base, n) ==> m == n
  {
    hide Dec;
    if TempPath(base, m) == TempPath(base, n) {
      SameSuffix(base.rest, DOT_TMP + Dec(m), DOT_TMP + Dec(n));
      SameSuffix(DOT_TMP, Dec(m), Dec(n));
      DecInjective(m, n);
    }
  }

  lemma OneFewerLeft(keys: set<Path>, tried: set<Path>, path: Path)
    requires path in keys && path !in tried
    ensures |keys - (tried + {path})| < |keys - tried|
  {
    assert keys - tried == (keys - (tried + {path})) + {path};
  }

  /** os.Remove on each path in turn. */
  method RemoveAll(disk: Disk, paths: seq<Path>)
    modifies disk
    ensures disk.files == old(disk.files) - (set p | p in paths)
  {
    for i := 0 to |paths|
      invariant disk.files == old(disk.files) - (set p | p in paths[..i])
    {
      assert paths[..i + 1] == paths[..i] + [paths[i]];
      disk.files := disk.files - {paths[i]};
    }
    assert paths[..|paths|] == paths;
  }

  lemma AddedThenRemoved(files: Files, added: Files, path: Path, content: bytes)
    requires added.Keys !! files.Keys && path !in added
    ensures (files + added)[path := content] - added.Keys == files[path := content]
  {
  }

  lemma SameSuffix(a: bytes, x: bytes, y: bytes)
    requires a + x == a + y
    ensures x == y
  {
    assert x == (a + x)[|a|..];
    assert y == (a + y)[|a|..];
  }
}
