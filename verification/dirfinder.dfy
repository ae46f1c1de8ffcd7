/**
 * DirFinder: the inventory of one cleanup root. Two recursive enumerations (files,
 * then directories) are filtered through a read/write permission probe.
 */
module DirFinder {
  import opened FileSystem

  /** What the permission probes would meet: the files that open for reading, and the
      directories in which a probe file can be created, and then deleted again. */
  datatype Access = Access(readable: set<Path>, creatable: set<Path>, deletable: set<Path>)

  /** One file-system operation of the permission probe. */
  datatype Probe = OpenForRead(file: Path) | CreateProbeFile(dir: Path) | DeleteProbeFile(dir: Path)

  /** Whether a probe operation completes without an exception. */
  predicate Succeeds(access: Access, probe: Probe) {
    match probe
    case OpenForRead(f) => f in access.readable
    case CreateProbeFile(d) => d in access.creatable
    case DeleteProbeFile(d) => d in access.deletable
  }

  /** The operations the probe performs on `path` when none of them fails: open an
      existing file; create and delete a file inside an existing directory; nothing for
      a path that does not exist. */
  function PlannedProbes(fs: Tree, path: Path): seq<Probe> {
    if IsFile(fs, path) then [OpenForRead(path)]
    else if IsDir(fs, path) then [CreateProbeFile(path), DeleteProbeFile(path)]
    else []
  }

  /** The operations a probe ran, and its answer. */
  datatype PermissionCheck = PermissionCheck(attempted: seq<Probe>, granted: bool)

  /** `HasReadWritePermission(path)`: runs the planned operations until one throws. The
      answer is true exactly when every operation it ran succeeded, it stops early only
      at a failure, and every operation before the last one it ran succeeded. */
  function HasReadWritePermission(fs: Tree, access: Access, path: Path): (r: PermissionCheck)
    ensures r.attempted <= PlannedProbes(fs, path)
    ensures r.granted <==> forall i :: 0 <= i < |r.attempted| ==> Succeeds(access, r.attempted[i])
    ensures |r.attempted| < |PlannedProbes(fs, path)| ==>
              |r.attempted| > 0 && !Succeeds(access, r.attempted[|r.attempted| - 1])
    ensures forall i :: 0 <= i < |r.attempted| - 1 ==> Succeeds(access, r.attempted[i])
  {
    if IsFile(fs, path) then
      var attempted := [OpenForRead(path)];
      assert Succeeds(access, attempted[0]) <==> path in access.readable;
      PermissionCheck(attempted, path in access.readable)
    else if IsDir(fs, path) then
      if path in access.creatable then
        var attempted := [CreateProbeFile(path), DeleteProbeFile(path)];
        assert Succeeds(access, attempted[0]) && (Succeeds(access, attempted[1]) <==> path in access.deletable);
        PermissionCheck(attempted, path in access.deletable)
      else
        var attempted := [CreateProbeFile(path)];
        assert !Succeeds(access, attempted[0]);
        PermissionCheck(attempted, false)
    else
      PermissionCheck([], true)
  }

  /** The probe's answer on its own. */
  predicate Granted(fs: Tree, access: Access, path: Path) {
    HasReadWritePermission(fs, access, path).granted
  }

  /** A path that is neither a file nor a directory passes the probe; a file passes
      exactly when it opens for reading; a directory exactly when a probe file can be
      created and deleted in it. */
  lemma {:induction false} GrantedCases(fs: Tree, access: Access, path: Path)
    ensures path !in fs ==> Granted(fs, access, path)
    ensures IsFile(fs, path) ==> (Granted(fs, access, path) <==> path in access.readable)
    ensures IsDir(fs, path) ==>
              (Granted(fs, access, path) <==> path in access.creatable && path in access.deletable)
  {
    var r := HasReadWritePermission(fs, access, path);
    if IsDir(fs, path) && path in access.creatable && path in access.deletable {
      assert Succeeds(access, r.attempted[0]) && Succeeds(access, r.attempted[1]);
    }
    if IsDir(fs, path) && path in access.creatable && path !in access.deletable {
      assert !Succeeds(access, r.attempted[1]);
    }
  }

  /** What one `Directory.GetFiles` / `Directory.GetDirectories` call gave: the paths in
      enumeration order, or an exception. */
  datatype Listing = Listed(paths: seq<Path>) | Threw

  /** The enumerated paths that pass the probe, in enumeration order. */
  function Kept(fs: Tree, access: Access, paths: seq<Path>): (r: seq<Path>)
    ensures |r| <= |paths|
    ensures forall p :: p in r <==> p in paths && Granted(fs, access, p)
    decreases |paths|
  {
    if |paths| == 0 then []
    else
      var init := Kept(fs, access, paths[..|paths| - 1]);
      var p := paths[|paths| - 1];
      assert paths == paths[..|paths| - 1] + [p];
      if Granted(fs, access, p) then init + [p] else init
  }

  /** A phase's contribution: nothing at all when its enumeration threw. */
  function KeptOf(fs: Tree, access: Access, listing: Listing): seq<Path> {
    match listing
    case Listed(paths) => Kept(fs, access, paths)
    case Threw => []
  }

  /** Filtering commutes with concatenation, so the kept paths keep their enumeration
      order. */
  lemma {:induction false} KeptAppend(fs: Tree, access: Access, a: seq<Path>, b: seq<Path>)
    ensures Kept(fs, access, a + b) == Kept(fs, access, a) + Kept(fs, access, b)
    decreases |b|
  {
    if |b| == 0 {
      assert a + b == a;
    } else {
      var init := b[..|b| - 1];
      assert (a + b)[..|a + b| - 1] == a + init;
      KeptAppend(fs, access, a, init);
    }
  }

  /** `DirandFile(path)`, given what its two enumerations return. Each phase catches its
      own exception, so a failed phase contributes nothing and the other is unaffected;
      the result is the kept files followed by the kept directories. */
  method DirandFile(fs: Tree, access: Access, files: Listing, dirs: Listing)
    returns (result: seq<Path>)
    ensures result == KeptOf(fs, access, files) + KeptOf(fs, access, dirs)
  {
    result := [];
    if files.Listed? {
      result := AddGranted(fs, access, result, files.paths);
      assert result == Kept(fs, access, files.paths);
    }
    ghost var filesPart := result;
    assert filesPart == KeptOf(fs, access, files);
    if dirs.Listed? {
      result := AddGranted(fs, access, result, dirs.paths);
    } else {
      assert result == filesPart + [];
    }
  }

  /** One phase's loop: appends each enumerated path that passes the probe. */
  method AddGranted(fs: Tree, access: Access, start: seq<Path>, paths: seq<Path>)
    returns (result: seq<Path>)
    ensures result == start + Kept(fs, access, paths)
  {
    result := start;
    var i := 0;
    while i < |paths|
      invariant 0 <= i <= |paths|
      invariant result == start + Kept(fs, access, paths[..i])
    {
      var path := paths[i];
      assert paths[..i + 1][..i] == paths[..i];
      if HasReadWritePermission(fs, access, path).granted {
        result := result + [path];
      }
      i := i + 1;
    }
    assert paths[..|paths|] == paths;
  }

  /** Everything `DirandFile` returns was enumerated by one of its phases and passed the
      probe; everything enumerated that passes the probe is returned. */
  lemma {:induction false} DirandFileExact(fs: Tree, access: Access, files: Listing, dirs: Listing, p: Path)
    ensures p in KeptOf(fs, access, files) + KeptOf(fs, access, dirs) <==>
              Granted(fs, access, p)
              && ((files.Listed? && p in files.paths) || (dirs.Listed? && p in dirs.paths))
  {
  }
}
