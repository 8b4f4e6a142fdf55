/**
 * The part of `System.IO` the content store relies on. A volume is a map
 * from file paths to their bytes and a set of directory paths; a path is a
 * sequence of segments, the empty path being the root, which always exists.
 * `Path.Combine` of two paths is their concatenation.
 */
module FileSystem {
  import opened Common

  type Path = seq<string>

  datatype IoError =
    | FileExists          // an IOException from FileMode.CreateNew
    | AccessDenied        // the path names a directory, not a file
    | DirectoryNotFound
    | FileNotFound
    | PathIsFile          // a directory was asked for where a file stands

  datatype Volume = Volume(files: map<Path, Bytes>, dirs: set<Path>)

  predicate IsDirectory(v: Volume, p: Path)
  {
    p == [] || p in v.dirs
  }

  /** `p` is not the root and the directory holding it exists. */
  predicate ParentExists(v: Volume, p: Path)
  {
    |p| > 0 && IsDirectory(v, p[..|p| - 1])
  }

  /** `p` sits directly inside `dir`. */
  predicate ChildOf(p: Path, dir: Path)
  {
    dir < p && |p| == |dir| + 1
  }

  /**
   * A well-formed volume is a tree: every file and directory sits in an
   * existing directory, and no path is both a file and a directory.
   */
  ghost predicate WellFormed(v: Volume)
  {
    && (forall d :: d in v.dirs ==> ParentExists(v, d) && d !in v.files)
    && (forall f :: f in v.files ==> ParentExists(v, f))
  }

  /** Every proper ancestor of a file or a directory is a directory. */
  lemma {:induction false} AncestorIsDirectory(v: Volume, p: Path, i: nat)
    requires WellFormed(v)
    requires p in v.dirs || p in v.files
    requires i < |p|
    ensures IsDirectory(v, p[..i])
    decreases |p| - i
  {
    if i < |p| - 1 {
      var parent := p[..|p| - 1];
      assert parent in v.dirs;
      AncestorIsDirectory(v, parent, i);
      assert parent[..i] == p[..i];
    }
  }

  /** The non-root prefixes of `p`: the directories `CreateDirectory` makes. */
  function Ancestry(p: Path): (r: set<Path>)
    ensures forall q :: q in r ==> 0 < |q| && q <= p
  {
    set i | 0 < i <= |p| :: p[..i]
  }

  /**
   * `Directory.CreateDirectory`: creates `p` and every missing ancestor, and
   * fails when one of them is a file.
   */
  function MakeDirectory(v: Volume, p: Path): (r: (Volume, Outcome<IoError>))
    ensures WellFormed(v) ==> WellFormed(r.0)
    ensures r.0.files == v.files && v.dirs <= r.0.dirs
    ensures r.1.Pass? <==> forall i :: 0 < i <= |p| ==> p[..i] !in v.files
    ensures r.1.Pass? ==> IsDirectory(r.0, p) && r.0.dirs == v.dirs + Ancestry(p)
    ensures r.1.Fail? ==> r.0 == v
  {
    if exists i :: 0 < i <= |p| && p[..i] in v.files then
      (v, Fail(PathIsFile))
    else
      var v' := v.(dirs := v.dirs + Ancestry(p));
      assert p != [] ==> p[..|p|] == p && p[..|p|] in Ancestry(p);
      assert WellFormed(v) ==> WellFormed(v') by {
        if WellFormed(v) {
          forall d | d in v'.dirs
            ensures ParentExists(v', d) && d !in v'.files
          {
            if d !in v.dirs {
              var i :| 0 < i <= |p| && d == p[..i];
              assert d[..|d| - 1] == p[..i - 1];
            }
          }
        }
      }
      (v', Pass)
  }

  /** Making a directory that already exists changes nothing. */
  lemma MakeExistingDirectoryIsNoOp(v: Volume, p: Path)
    requires WellFormed(v)
    requires IsDirectory(v, p)
    ensures MakeDirectory(v, p) == (v, Pass)
  {
    forall i | 0 < i <= |p|
      ensures p[..i] in v.dirs
    {
      if i < |p| {
        AncestorIsDirectory(v, p, i);
      } else {
        assert p[..i] == p;
      }
    }
    assert Ancestry(p) <= v.dirs;
    assert v.dirs + Ancestry(p) == v.dirs;
  }

  /**
   * `File.Open(p, FileMode.CreateNew)` followed by writing `data`: fails
   * without touching anything when the directory is missing, when `p` is a
   * directory, or when a file is already there.
   */
  function CreateFile(v: Volume, p: Path, data: Bytes): (r: (Volume, Outcome<IoError>))
    ensures WellFormed(v) ==> WellFormed(r.0)
    ensures r.0.dirs == v.dirs
    ensures forall q :: q in v.files ==> q in r.0.files && r.0.files[q] == v.files[q]
    ensures r.1.Pass? <==> ParentExists(v, p) && p !in v.dirs && p !in v.files
    ensures r.1.Pass? ==> r.0.files == v.files[p := data]
    ensures r.1.Fail? ==> r.0 == v
  {
    if !ParentExists(v, p) then (v, Fail(DirectoryNotFound))
    else if p in v.dirs then (v, Fail(AccessDenied))
    else if p in v.files then (v, Fail(FileExists))
    else (v.(files := v.files[p := data]), Pass)
  }

  /** `File.Open(p, FileMode.Open, FileAccess.Read)`, read to the end. */
  function ReadFile(v: Volume, p: Path): (r: Result<Bytes, IoError>)
    ensures r.Success? <==> p in v.files
    ensures r.Success? ==> r.value == v.files[p]
    ensures p in v.dirs && p !in v.files ==> r == Failure(AccessDenied)
  {
    if p in v.files then Success(v.files[p])
    else if p in v.dirs then Failure(AccessDenied)
    else if ParentExists(v, p) then Failure(FileNotFound)
    else Failure(DirectoryNotFound)
  }

  function ChildFiles(v: Volume, dir: Path): set<Path>
  {
    set f | f in v.files && ChildOf(f, dir)
  }

  function ChildDirs(v: Volume, dir: Path): set<Path>
  {
    set d | d in v.dirs && ChildOf(d, dir)
  }

  /** `DirectoryInfo.GetFiles()`: the files directly inside `dir`. */
  function ListFiles(v: Volume, dir: Path): (r: Result<set<Path>, IoError>)
    ensures r.Success? <==> IsDirectory(v, dir)
    ensures r.Success? ==> forall f :: f in r.value <==> f in v.files && ChildOf(f, dir)
  {
    if IsDirectory(v, dir) then Success(ChildFiles(v, dir))
    else Failure(DirectoryNotFound)
  }

  /** `DirectoryInfo.GetDirectories()`: the directories directly inside `dir`. */
  function ListDirectories(v: Volume, dir: Path): (r: Result<set<Path>, IoError>)
    ensures r.Success? <==> IsDirectory(v, dir)
    ensures r.Success? ==> forall d :: d in r.value <==> d in v.dirs && ChildOf(d, dir)
  {
    if IsDirectory(v, dir) then Success(ChildDirs(v, dir))
    else Failure(DirectoryNotFound)
  }

  /** The paths of `s` lying inside the tree rooted at `root`, root included. */
  function Within(s: set<Path>, root: Path): set<Path>
  {
    set p | p in s && root <= p
  }

  /** The paths of `s` lying strictly inside the tree rooted at `root`. */
  function StrictlyWithin(s: set<Path>, root: Path): set<Path>
  {
    set p | p in s && root < p
  }

  /** `FileInfo.Delete()`. */
  function RemoveFile(v: Volume, f: Path): (r: Volume)
    ensures WellFormed(v) ==> WellFormed(r)
    ensures r.dirs == v.dirs && r.files.Keys == v.files.Keys - {f}
  {
    v.(files := v.files - {f})
  }

  /** `DirectoryInfo.Delete(true)`: the directory and everything inside it. */
  function RemoveTree(v: Volume, d: Path): (r: Volume)
    ensures WellFormed(v) ==> WellFormed(r)
    ensures forall p :: p in r.files <==> p in v.files && !(d <= p)
    ensures forall p :: p in r.dirs <==> p in v.dirs && !(d <= p)
  {
    var r := Volume(v.files - Within(v.files.Keys, d), v.dirs - Within(v.dirs, d));
    assert WellFormed(v) ==> WellFormed(r) by {
      if WellFormed(v) {
        forall p | p in r.dirs || p in r.files
          ensures ParentExists(r, p)
        {
          var parent := p[..|p| - 1];
          assert parent <= p;
        }
      }
    }
    r
  }

  /** The volume with everything strictly inside `dir` gone and `dir` kept. */
  function Emptied(v: Volume, dir: Path): (r: Volume)
    ensures WellFormed(v) ==> WellFormed(r)
    ensures IsDirectory(v, dir) ==> IsDirectory(r, dir)
    ensures forall p :: p in r.files <==> p in v.files && !(dir < p)
    ensures forall p :: p in r.dirs <==> p in v.dirs && !(dir < p)
  {
    var r := Volume(v.files - StrictlyWithin(v.files.Keys, dir), v.dirs - StrictlyWithin(v.dirs, dir));
    assert WellFormed(v) ==> WellFormed(r) by {
      if WellFormed(v) {
        forall p | p in r.dirs || p in r.files
          ensures ParentExists(r, p)
        {
          var parent := p[..|p| - 1];
          assert parent <= p;
        }
      }
    }
    r
  }

  /** `p` lies inside the tree of one of `roots`. */
  ghost predicate Covered(p: Path, roots: set<Path>)
  {
    exists root :: root in roots && root <= p
  }

  /**
   * In a well-formed volume everything strictly inside `dir` is a file
   * directly inside it or lies in the tree of a directory directly inside it:
   * what `GetFiles` and `GetDirectories` enumerate reaches the whole subtree.
   */
  lemma SubtreeIsChildrenAndTheirTrees(v: Volume, dir: Path, p: Path)
    requires WellFormed(v)
    requires p in v.files || p in v.dirs
    ensures dir < p <==> p in ChildFiles(v, dir) || Covered(p, ChildDirs(v, dir))
  {
    if dir < p && p !in ChildFiles(v, dir) {
      var c := p[..|dir| + 1];
      if |p| == |dir| + 1 {
        assert c == p;
      } else {
        AncestorIsDirectory(v, p, |dir| + 1);
      }
      assert c in ChildDirs(v, dir);
    }
    if Covered(p, ChildDirs(v, dir)) {
      var root :| root in ChildDirs(v, dir) && root <= p;
    }
  }

  /** Removing one more tree from a volume already missing the trees of `done`. */
  lemma RemoveTreeExtendsCover(base: Volume, cur: Volume, done: set<Path>, d: Path)
    requires forall p :: p in cur.files <==> p in base.files && !Covered(p, done)
    requires forall p :: p in cur.dirs <==> p in base.dirs && !Covered(p, done)
    ensures forall p :: p in RemoveTree(cur, d).files <==> p in base.files && !Covered(p, done + {d})
    ensures forall p :: p in RemoveTree(cur, d).dirs <==> p in base.dirs && !Covered(p, done + {d})
  {
    forall p
      ensures Covered(p, done + {d}) <==> Covered(p, done) || d <= p
    {
      if Covered(p, done + {d}) {
        var root :| root in done + {d} && root <= p;
      }
    }
  }

  /**
   * Deleting the files directly inside `dir` and then the trees of the
   * directories directly inside it leaves exactly `Emptied(v, dir)`.
   */
  lemma ChildrenDeletedIsEmptied(v: Volume, dir: Path, w: Volume)
    requires WellFormed(v)
    requires forall p :: p in w.files <==> p in v.files && p !in ChildFiles(v, dir) && !Covered(p, ChildDirs(v, dir))
    requires forall p :: p in w.files ==> w.files[p] == v.files[p]
    requires forall p :: p in w.dirs <==> p in v.dirs && !Covered(p, ChildDirs(v, dir))
    ensures w == Emptied(v, dir)
  {
    forall p | p in v.files || p in v.dirs
      ensures dir < p <==> p in ChildFiles(v, dir) || Covered(p, ChildDirs(v, dir))
    {
      SubtreeIsChildrenAndTheirTrees(v, dir, p);
    }
    var target := Emptied(v, dir);
    assert forall p :: p in w.files <==> p in target.files;
    assert w.files == target.files;
    assert forall p :: p in w.dirs <==> p in target.dirs;
    assert w.dirs == target.dirs;
  }

  /** The mutable file system the content store writes to. */
  class FileSystem {
    var files: map<Path, Bytes>
    var dirs: set<Path>

    function State(): Volume
      reads this
    {
      Volume(files, dirs)
    }

    ghost predicate Valid()
      reads this
    {
      WellFormed(State())
    }

    constructor (v: Volume)
      requires WellFormed(v)
      ensures Valid() && State() == v
    {
      files, dirs := v.files, v.dirs;
    }

    method CreateDirectory(p: Path) returns (r: Outcome<IoError>)
      requires Valid()
      modifies this
      ensures Valid()
      ensures (State(), r) == MakeDirectory(old(State()), p)
    {
      var step := MakeDirectory(State(), p);
      files, dirs := step.0.files, step.0.dirs;
      r := step.1;
    }

    method CreateNew(p: Path, data: Bytes) returns (r: Outcome<IoError>)
      requires Valid()
      modifies this
      ensures Valid()
      ensures (State(), r) == CreateFile(old(State()), p, data)
    {
      var step := CreateFile(State(), p, data);
      files := step.0.files;
      r := step.1;
    }

    /** Deletes a file the caller has just enumerated. */
    method DeleteFile(f: Path)
      requires Valid() && f in files
      modifies this
      ensures Valid()
      ensures State() == RemoveFile(old(State()), f)
    {
      files := files - {f};
    }

    /** Deletes, recursively, a directory the caller has just enumerated. */
    method DeleteDirectory(d: Path)
      requires Valid() && d in dirs
      modifies this
      ensures Valid()
      ensures State() == RemoveTree(old(State()), d)
    {
      var v := RemoveTree(State(), d);
      files, dirs := v.files, v.dirs;
    }
  }
}
