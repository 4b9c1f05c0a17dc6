/**
  * Filesystem primitives. The disk is a map from the path of every regular file
  * to its bytes, a set of directories and a record of the permission bits set
  * through `chmod`. Queries are functions of that state; `FileSystem` holds it and
  * its methods are the only operations that change it. The operating system may
  * refuse any mkdir, chmod or rename: the methods choose that outcome
  * nondeterministically and their contracts cover both.
  */
module FsOps {
  import opened Common
  import opened Paths

  type Files = map<Path, Bytes>

  /** `Path::exists`: a regular file or a directory is there. */
  predicate Exists(files: Files, dirs: set<Path>, p: Path)
  {
    p in files || p in dirs
  }

  /** All prefixes of `p`, from `/` to `p` itself: what `create_dir_all(p)` makes. */
  function Prefixes(p: Path): (r: set<Path>)
    ensures p in r && [] in r
    ensures forall q :: q in r ==> q <= p
    ensures forall k :: 0 <= k <= |p| ==> p[..k] in r
  {
    assert p[..|p|] == p && p[..0] == [];
    set k | 0 <= k <= |p| :: p[..k]
  }

  /** No path is both a file and a directory, and every ancestor of an entry is a directory. */
  ghost predicate WellFormed(files: Files, dirs: set<Path>)
  {
    && files.Keys !! dirs
    && (forall p, k :: p in files && 0 <= k < |p| ==> p[..k] in dirs)
    && (forall d, k :: d in dirs && 0 <= k < |d| ==> d[..k] in dirs)
  }

  // ---------------------------------------------------------------------------
  // Content comparison (fsops.rs `can_safely_overwrite`, `have_equal_contents`)
  // ---------------------------------------------------------------------------

  /** True when both paths are regular files with the same bytes. */
  predicate SameBytes(files: Files, a: Path, b: Path)
  {
    a in files && b in files && files[a] == files[b]
  }

  /**
    * May `source` be moved onto `destination`? Yes when nothing is there; otherwise
    * the answer is whether both read back the same bytes, and a read that fails
    * (a path that is not a regular file) is an error.
    */
  function CanSafelyOverwrite(files: Files, dirs: set<Path>, source: Path, destination: Path): (r: Result<bool, Error>)
    ensures !Exists(files, dirs, destination) ==> r == Success(true)
    ensures r.Failure? <==> Exists(files, dirs, destination) && (source !in files || destination !in files)
    ensures r == Success(true) <==> !Exists(files, dirs, destination) || SameBytes(files, source, destination)
  {
    if !Exists(files, dirs, destination) then Success(true)
    else if source !in files || destination !in files then Failure(IoError)
    else Success(files[source] == files[destination])
  }

  /** Do both paths hold the same bytes? A missing destination is a plain `false`. */
  function HaveEqualContents(files: Files, dirs: set<Path>, source: Path, destination: Path): (r: Result<bool, Error>)
    ensures !Exists(files, dirs, destination) ==> r == Success(false)
    ensures r.Failure? <==> Exists(files, dirs, destination) && (source !in files || destination !in files)
    ensures r == Success(true) <==> SameBytes(files, source, destination)
  {
    if !Exists(files, dirs, destination) then Success(false)
    else if source !in files || destination !in files then Failure(IoError)
    else Success(files[source] == files[destination])
  }

  /** Once something is at the destination the two checks give the same answer;
      they differ only on a missing destination. */
  lemma ComparisonsAgree(files: Files, dirs: set<Path>, source: Path, destination: Path)
    ensures Exists(files, dirs, destination)
      ==> CanSafelyOverwrite(files, dirs, source, destination) == HaveEqualContents(files, dirs, source, destination)
    ensures !Exists(files, dirs, destination)
      ==> CanSafelyOverwrite(files, dirs, source, destination) != HaveEqualContents(files, dirs, source, destination)
  {
  }

  // ---------------------------------------------------------------------------
  // What a successful rename does to the files
  // ---------------------------------------------------------------------------

  /** The files after `source` is renamed onto `destination` (replacing what was there). */
  function MoveEntry(files: Files, source: Path, destination: Path): (r: Files)
    ensures source in files ==> destination in r && r[destination] == files[source]
    ensures source in files && source != destination ==> source !in r
    ensures forall p :: p != source && p != destination ==> (p in r <==> p in files)
    ensures forall p :: p != source && p != destination && p in r ==> r[p] == files[p]
    ensures source !in files ==> r == files
  {
    if source in files then (files - {source})[destination := files[source]] else files
  }

  /** Moving a file to a free path and back restores the original files exactly. */
  lemma MoveThereAndBack(files: Files, a: Path, b: Path)
    requires a in files && b !in files
    ensures MoveEntry(MoveEntry(files, a, b), b, a) == files
  {
    var back := MoveEntry(MoveEntry(files, a, b), b, a);
    assert back.Keys == files.Keys;
  }

  // ---------------------------------------------------------------------------
  // Unique file path (fsops.rs `get_unique_filepath`)
  // ---------------------------------------------------------------------------

  /** The number of numbered siblings tried before giving up. */
  const MaxAttempts: nat := 1000

  /** The decimal digits of `n`, as `format!("{i}")` prints them. */
  function DecimalString(n: nat): (s: string)
    ensures s != []
    ensures forall i :: 0 <= i < |s| ==> '0' <= s[i] <= '9'
  {
    if n < 10 then [('0' as int + n) as char]
    else DecimalString(n / 10) + [('0' as int + n % 10) as char]
  }

  /** `.ext` when the name has an extension, nothing otherwise. */
  function ExtensionSuffix(name: Name): (r: string)
    ensures '/' !in r
  {
    match Extension(name)
    case None => ""
    case Some(e) => "." + e
  }

  /** `dir/stem-i.ext`: the i-th numbered sibling of `path`. */
  function Candidate(path: Path, i: nat): (r: Path)
    requires path != []
    ensures |r| == |path| && r[..|path| - 1] == path[..|path| - 1]
  {
    var name := path[|path| - 1];
    var digits := DecimalString(i);
    var s := Stem(name) + "-" + digits + ExtensionSuffix(name);
    assert '/' !in digits by {
      forall j | 0 <= j < |digits| ensures digits[j] != '/' { }
    }
    assert |s| >= 3;
    path[..|path| - 1] + [s]
  }

  /** The first attempt number from `i` on whose candidate is free. */
  function FirstFree(files: Files, dirs: set<Path>, path: Path, i: nat): (r: Option<nat>)
    requires path != [] && 1 <= i <= MaxAttempts + 1
    decreases MaxAttempts + 1 - i
    ensures r.Some? ==> i <= r.value <= MaxAttempts && !Exists(files, dirs, Candidate(path, r.value))
    ensures r.Some? ==> forall j :: i <= j < r.value ==> Exists(files, dirs, Candidate(path, j))
    ensures r.None? <==> forall j :: i <= j <= MaxAttempts ==> Exists(files, dirs, Candidate(path, j))
  {
    if i > MaxAttempts then None
    else if !Exists(files, dirs, Candidate(path, i)) then Some(i)
    else FirstFree(files, dirs, path, i + 1)
  }

  /**
    * `dir/stem-i.ext` for the smallest `i` in 1..=1000 at which nothing exists;
    * fails when the path has no parent or when all 1000 are taken. It only looks.
    */
  function GetUniqueFilepath(files: Files, dirs: set<Path>, path: Path): (r: Result<Path, Error>)
    ensures r == Failure(NoParent) <==> path == []
    ensures r == Failure(ExhaustedAttempts)
      <==> path != [] && forall j :: 1 <= j <= MaxAttempts ==> Exists(files, dirs, Candidate(path, j))
    ensures r.Failure? ==> r.error == NoParent || r.error == ExhaustedAttempts
    ensures r.Success? ==> !Exists(files, dirs, r.value)
    ensures r.Success? ==>
      exists i :: (1 <= i <= MaxAttempts && r.value == Candidate(path, i)
                   && forall j :: 1 <= j < i ==> Exists(files, dirs, Candidate(path, j)))
  {
    if path == [] then Failure(NoParent)
    else
      match FirstFree(files, dirs, path, 1)
      case None => Failure(ExhaustedAttempts)
      case Some(i) => Success(Candidate(path, i))
  }

  /** A numbered sibling stays in the same folder and keeps the extension; a name
      without extension only gets `-i` appended, no dot. */
  lemma CandidateShape(path: Path, i: nat)
    requires path != []
    ensures Parent(Candidate(path, i)) == Parent(path)
    ensures Extension(Base(Candidate(path, i))) == Extension(Base(path))
    ensures Extension(Base(path)).None? ==> Base(Candidate(path, i)) == Base(path) + "-" + DecimalString(i)
  {
    var name := path[|path| - 1];
    var digits := DecimalString(i);
    var c := Candidate(path, i);
    var s := c[|c| - 1];
    assert '.' !in digits by {
      forall j | 0 <= j < |digits| ensures digits[j] != '.' { }
    }
    StemAndExtension(name);
    match Extension(name)
    case None =>
      assert s == name + ("-" + digits);
      ExtensionStaysNone(name, "-" + digits, s);
    case Some(e) =>
      assert s == (Stem(name) + "-" + digits) + "." + e;
      ExtensionOfDotted(Stem(name) + "-" + digits, e, s);
  }

  /** The unique path is a sibling of the requested one with the same extension. */
  lemma UniquePathKeepsFolderAndExtension(files: Files, dirs: set<Path>, path: Path)
    requires GetUniqueFilepath(files, dirs, path).Success?
    ensures var u := GetUniqueFilepath(files, dirs, path).value;
      && Parent(u) == Parent(path)
      && Extension(Base(u)) == Extension(Base(path))
      && u != path
  {
    var u := GetUniqueFilepath(files, dirs, path).value;
    var i :| 1 <= i <= MaxAttempts && u == Candidate(path, i);
    CandidateShape(path, i);
    var name := path[|path| - 1];
    StemAndExtension(name);
    assert |Base(path)| == |Stem(name)| + |ExtensionSuffix(name)|;
    assert |Base(u)| > |Base(path)|;
  }

  // ---------------------------------------------------------------------------
  // The disk
  // ---------------------------------------------------------------------------

  class FileSystem {
    var files: Files
    var dirs: set<Path>
    /** The permission bits last set through `chmod` at each path. */
    var modes: map<Path, int>

    ghost predicate Valid()
      reads this
    {
      WellFormed(files, dirs)
    }

    constructor (files: Files, dirs: set<Path>)
      requires WellFormed(files, dirs)
      ensures Valid()
      ensures this.files == files && this.dirs == dirs && this.modes == map[]
    {
      this.files := files;
      this.dirs := dirs;
      this.modes := map[];
    }

    /** `fs::create_dir_all`: makes `dir` and every missing ancestor; fails when a
        regular file is in the way, or when the operating system refuses. */
    method CreateDirAll(dir: Path) returns (r: Outcome<Error>)
      requires Valid()
      modifies this`dirs
      ensures Valid()
      ensures r.Pass? ==> dirs == old(dirs) + Prefixes(dir)
      ensures r.Fail? ==> dirs == old(dirs) && r.error == IoError
      ensures (exists k :: 0 <= k <= |dir| && dir[..k] in files) ==> r.Fail?
    {
      var osAccepts: bool := *;
      if !osAccepts || exists k :: 0 <= k <= |dir| && dir[..k] in files {
        return Fail(IoError);
      }
      forall q, k | q in Prefixes(dir) && 0 <= k < |q| ensures q[..k] in Prefixes(dir) {
        assert q[..k] == dir[..k];
      }
      dirs := dirs + Prefixes(dir);
      r := Pass;
    }

    /** `chmod`: records the permission bits of an existing path. */
    method Chmod(path: Path, mode: int) returns (r: Outcome<Error>)
      modifies this`modes
      ensures !Exists(files, dirs, path) ==> r.Fail?
      ensures r.Pass? ==> modes == old(modes)[path := mode]
      ensures r.Fail? ==> modes == old(modes) && r.error == IoError
    {
      var osAccepts: bool := *;
      if !osAccepts || !Exists(files, dirs, path) {
        return Fail(IoError);
      }
      modes := modes[path := mode];
      r := Pass;
    }

    /** `fs::rename` of a regular file: replaces a file at the destination; fails when
        the source is not a regular file, the destination is a directory or has no
        parent directory, or when the operating system refuses. */
    method Rename(source: Path, destination: Path) returns (r: Outcome<Error>)
      requires Valid()
      modifies this`files
      ensures Valid()
      ensures r.Pass? ==> source in old(files) && files == MoveEntry(old(files), source, destination)
      ensures r.Fail? ==> files == old(files) && r.error == IoError
      ensures source !in old(files) || destination in dirs ==> r.Fail?
    {
      var osAccepts: bool := *;
      if !osAccepts || source !in files || destination in dirs
        || destination == [] || destination[..|destination| - 1] !in dirs
      {
        return Fail(IoError);
      }
      var parent := destination[..|destination| - 1];
      forall k | 0 <= k < |destination| ensures destination[..k] in dirs {
        if k < |parent| {
          assert destination[..k] == parent[..k];
        } else {
          assert destination[..k] == parent;
        }
      }
      files := MoveEntry(files, source, destination);
      r := Pass;
    }

    /**
      * `rename_with_create_dir_all`: creates the destination's folder, sets its
      * permission bits, then renames. The files change only if the rename succeeds,
      * and then exactly as the rename says.
      */
    method RenameWithCreateDirAll(source: Path, destination: Path, mode: int) returns (r: Outcome<Error>)
      requires Valid()
      modifies this
      ensures Valid()
      ensures destination == [] ==> r == Fail(NoParent) && unchanged(this)
      ensures r.Pass? ==> && source in old(files)
                          && files == MoveEntry(old(files), source, destination)
                          && dirs == old(dirs) + Prefixes(destination[..|destination| - 1])
                          && modes == old(modes)[destination[..|destination| - 1] := mode]
      ensures r.Fail? ==> files == old(files)
      ensures old(dirs) <= dirs
      ensures destination != [] ==> dirs <= old(dirs) + Prefixes(destination[..|destination| - 1])
      ensures modes == old(modes) || (destination != [] && modes == old(modes)[destination[..|destination| - 1] := mode])
      ensures source !in old(files) ==> r.Fail?
    {
      if destination == [] {
        return Fail(NoParent);
      }
      var folder := destination[..|destination| - 1];
      r := CreateDirAll(folder);
      if r.Fail? {
        return;
      }
      r := Chmod(folder, mode);
      if r.Fail? {
        return;
      }
      r := Rename(source, destination);
    }
  }
}
