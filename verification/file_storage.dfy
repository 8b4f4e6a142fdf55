/**
 * The content store: the archive, nuspec and readme of each package, kept as
 * files under a root directory. Where each blob goes is decided by the path
 * helpers `PackagePath`, `NuspecPath` and `ReadmePath`, whose definitions are
 * not part of this model; the store is given them as a `PathLayout` and
 * assumes nothing about them.
 */
module PackageStorage {
  import opened Common
  import opened NuGet
  import opened FileSystem

  /** The three path helpers, each giving a path relative to the store root. */
  datatype PathLayout = PathLayout(
    packagePath: PackageIdentity -> Path,
    nuspecPath: PackageIdentity -> Path,
    readmePath: PackageIdentity -> Path)

  /** `storePath/id/normalizedVersion`, the directory saving makes sure of. */
  function PackageDirectory(storePath: Path, identity: PackageIdentity): Path
  {
    storePath + [identity.id, ToNormalizedString(identity.version)]
  }

  datatype StorageFault =
    | Io(error: IoError)
    | EntryUnreadable   // the archive reader threw while opening the nuspec or the readme

  /**
   * Saving a package, step by step: make the package directory, then create
   * the archive, the nuspec and the readme files, each write-once, stopping
   * at the first failure and undoing nothing.
   */
  function SavePackage(v: Volume, storePath: Path, layout: PathLayout,
                       package: PackageArchive, packageStream: Stream): (r: (Volume, Outcome<StorageFault>))
    ensures WellFormed(v) ==> WellFormed(r.0)
    ensures forall p :: p in v.files ==> p in r.0.files && r.0.files[p] == v.files[p]
    ensures r.1.Pass? ==> IsDirectory(r.0, PackageDirectory(storePath, package.identity))
  {
    var identity := package.identity;
    var made := MakeDirectory(v, PackageDirectory(storePath, identity));
    if made.1.Fail? then (made.0, Fail(Io(made.1.error))) else
    var archive := CreateFile(made.0, storePath + layout.packagePath(identity), CopyFromStart(packageStream));
    if archive.1.Fail? then (archive.0, Fail(Io(archive.1.error))) else
    if package.nuspec.None? then (archive.0, Fail(EntryUnreadable)) else
    var nuspec := CreateFile(archive.0, storePath + layout.nuspecPath(identity), package.nuspec.value);
    if nuspec.1.Fail? then (nuspec.0, Fail(Io(nuspec.1.error))) else
    if package.readme.None? then (nuspec.0, Fail(EntryUnreadable)) else
    var readme := CreateFile(nuspec.0, storePath + layout.readmePath(identity), package.readme.value);
    (readme.0, if readme.1.Fail? then Fail(Io(readme.1.error)) else Pass)
  }

  /**
   * After a successful save, reading each blob back yields exactly what was
   * written: the whole package stream and the reader's nuspec and readme.
   */
  lemma SaveThenRead(v: Volume, storePath: Path, layout: PathLayout,
                     package: PackageArchive, packageStream: Stream)
    requires SavePackage(v, storePath, layout, package, packageStream).1.Pass?
    ensures var saved := SavePackage(v, storePath, layout, package, packageStream).0;
            var identity := package.identity;
            && package.nuspec.Some? && package.readme.Some?
            && ReadFile(saved, storePath + layout.packagePath(identity)) == Success(packageStream.content)
            && ReadFile(saved, storePath + layout.nuspecPath(identity)) == Success(package.nuspec.value)
            && ReadFile(saved, storePath + layout.readmePath(identity)) == Success(package.readme.value)
  {
  }

  /** A file already at the archive path makes the save fail with no file changed. */
  lemma SaveRefusesExistingArchive(v: Volume, storePath: Path, layout: PathLayout,
                                   package: PackageArchive, packageStream: Stream)
    requires WellFormed(v)
    requires storePath + layout.packagePath(package.identity) in v.files
    ensures var r := SavePackage(v, storePath, layout, package, packageStream);
            && r.0.files == v.files
            && (r.1 == Fail(Io(FileExists)) || r.1 == Fail(Io(PathIsFile)))
  {
    var made := MakeDirectory(v, PackageDirectory(storePath, package.identity));
    var archivePath := storePath + layout.packagePath(package.identity);
    if made.1.Pass? {
      assert ParentExists(made.0, archivePath) && archivePath !in made.0.dirs;
    }
  }

  /**
   * No rollback: when the archive is written and the nuspec step fails,
   * whether the reader throws or the file cannot be created, the save fails
   * and leaves the new archive file in place.
   */
  lemma SaveDoesNotRollBack(v: Volume, storePath: Path, layout: PathLayout,
                            package: PackageArchive, packageStream: Stream)
    requires MakeDirectory(v, PackageDirectory(storePath, package.identity)).1.Pass?
    requires CreateFile(MakeDirectory(v, PackageDirectory(storePath, package.identity)).0,
                        storePath + layout.packagePath(package.identity),
                        packageStream.content).1.Pass?
    requires package.nuspec.None? ||
             CreateFile(CreateFile(MakeDirectory(v, PackageDirectory(storePath, package.identity)).0,
                                   storePath + layout.packagePath(package.identity),
                                   packageStream.content).0,
                        storePath + layout.nuspecPath(package.identity),
                        package.nuspec.value).1.Fail?
    ensures var r := SavePackage(v, storePath, layout, package, packageStream);
            && r.1.Fail?
            && r.0.files == v.files[storePath + layout.packagePath(package.identity) := packageStream.content]
  {
  }

  /**
   * No rollback at the last step either: when the archive and the nuspec
   * are written and the readme step fails, whether the reader throws or the
   * file cannot be created, the save fails and leaves both earlier files in
   * place.
   */
  lemma SaveReadmeStepDoesNotRollBack(v: Volume, storePath: Path, layout: PathLayout,
                                      package: PackageArchive, packageStream: Stream)
    requires package.nuspec.Some?
    requires var identity := package.identity;
             var made := MakeDirectory(v, PackageDirectory(storePath, identity));
             var archive := CreateFile(made.0, storePath + layout.packagePath(identity), packageStream.content);
             && made.1.Pass?
             && archive.1.Pass?
             && CreateFile(archive.0, storePath + layout.nuspecPath(identity), package.nuspec.value).1.Pass?
    requires var identity := package.identity;
             var made := MakeDirectory(v, PackageDirectory(storePath, identity));
             var archive := CreateFile(made.0, storePath + layout.packagePath(identity), packageStream.content);
             var nuspec := CreateFile(archive.0, storePath + layout.nuspecPath(identity), package.nuspec.value);
             package.readme.None? ||
             CreateFile(nuspec.0, storePath + layout.readmePath(identity), package.readme.value).1.Fail?
    ensures var identity := package.identity;
            var r := SavePackage(v, storePath, layout, package, packageStream);
            && r.1.Fail?
            && r.0.files == v.files[storePath + layout.packagePath(identity) := packageStream.content]
                                   [storePath + layout.nuspecPath(identity) := package.nuspec.value]
  {
  }

  /**
   * A successful save adds exactly the three blobs and the package
   * directory with its ancestors, and nothing else.
   */
  lemma SaveAddsExactlyTheBlobs(v: Volume, storePath: Path, layout: PathLayout,
                                package: PackageArchive, packageStream: Stream)
    requires SavePackage(v, storePath, layout, package, packageStream).1.Pass?
    ensures var identity := package.identity;
            var r := SavePackage(v, storePath, layout, package, packageStream);
            && package.nuspec.Some? && package.readme.Some?
            && r.0.files == v.files[storePath + layout.packagePath(identity) := packageStream.content]
                                   [storePath + layout.nuspecPath(identity) := package.nuspec.value]
                                   [storePath + layout.readmePath(identity) := package.readme.value]
            && r.0.dirs == v.dirs + Ancestry(PackageDirectory(storePath, identity))
  {
  }

  /**
   * The converse of the refusals: when the reader yields both entries,
   * nothing on the way to the package directory is a file, and the three
   * blobs are distinct free names directly inside that directory, the save
   * succeeds.
   */
  lemma SaveSucceedsWhenFree(v: Volume, storePath: Path, layout: PathLayout,
                             package: PackageArchive, packageStream: Stream)
    requires package.nuspec.Some? && package.readme.Some?
    requires var dir := PackageDirectory(storePath, package.identity);
             forall i :: 0 < i <= |dir| ==> dir[..i] !in v.files
    requires var identity := package.identity;
             var dir := PackageDirectory(storePath, identity);
             var archivePath := storePath + layout.packagePath(identity);
             var nuspecPath := storePath + layout.nuspecPath(identity);
             var readmePath := storePath + layout.readmePath(identity);
             && archivePath != nuspecPath && archivePath != readmePath && nuspecPath != readmePath
             && ChildOf(archivePath, dir) && ChildOf(nuspecPath, dir) && ChildOf(readmePath, dir)
             && archivePath !in v.files && nuspecPath !in v.files && readmePath !in v.files
             && archivePath !in v.dirs && nuspecPath !in v.dirs && readmePath !in v.dirs
    ensures SavePackage(v, storePath, layout, package, packageStream).1.Pass?
  {
    var identity := package.identity;
    var dir := PackageDirectory(storePath, identity);
    var archivePath := storePath + layout.packagePath(identity);
    var nuspecPath := storePath + layout.nuspecPath(identity);
    var readmePath := storePath + layout.readmePath(identity);
    var made := MakeDirectory(v, dir);
    assert made.1.Pass?;
    assert forall q :: ChildOf(q, dir) ==> q[..|q| - 1] == dir;
    assert archivePath !in Ancestry(dir) && nuspecPath !in Ancestry(dir) && readmePath !in Ancestry(dir);
    var archive := CreateFile(made.0, archivePath, CopyFromStart(packageStream));
    assert archive.1.Pass?;
    var nuspec := CreateFile(archive.0, nuspecPath, package.nuspec.value);
    assert nuspec.1.Pass?;
    var readme := CreateFile(nuspec.0, readmePath, package.readme.value);
    assert readme.1.Pass?;
  }

  /** Where the package stream stood on entry does not matter. */
  lemma SaveIgnoresStreamPosition(v: Volume, storePath: Path, layout: PathLayout,
                                  package: PackageArchive, content: Bytes, i: nat, j: nat)
    ensures SavePackage(v, storePath, layout, package, Stream(content, i)) ==
            SavePackage(v, storePath, layout, package, Stream(content, j))
  {
    assert CopyFromStart(Stream(content, i)) == CopyFromStart(Stream(content, j));
  }

  /** `DeleteAsync`'s work on `dir`: empty it if it is a directory, else fail. */
  function Clear(v: Volume, dir: Path): (Volume, bool)
  {
    if IsDirectory(v, dir) then (Emptied(v, dir), true) else (v, false)
  }

  /**
   * As written, `DeleteAsync` enumerates `storePath` joined with the readme
   * path. After a successful save that path is a file, not a directory, so
   * the enumeration throws, the exception is swallowed and nothing is deleted.
   */
  lemma DeleteAfterSaveFails(v: Volume, storePath: Path, layout: PathLayout,
                             package: PackageArchive, packageStream: Stream)
    requires WellFormed(v)
    requires SavePackage(v, storePath, layout, package, packageStream).1.Pass?
    ensures var saved := SavePackage(v, storePath, layout, package, packageStream).0;
            Clear(saved, storePath + layout.readmePath(package.identity)) == (saved, false)
  {
    var saved := SavePackage(v, storePath, layout, package, packageStream).0;
    SaveThenRead(v, storePath, layout, package, packageStream);
    assert storePath + layout.readmePath(package.identity) in saved.files;
  }

  /** The three blobs of `identity` lie inside its package directory. */
  ghost predicate BlobsInPackageDirectory(storePath: Path, layout: PathLayout, identity: PackageIdentity)
  {
    var dir := PackageDirectory(storePath, identity);
    && dir < storePath + layout.packagePath(identity)
    && dir < storePath + layout.nuspecPath(identity)
    && dir < storePath + layout.readmePath(identity)
  }

  /**
   * Clearing the package directory instead succeeds after a save, and when
   * the blobs live in that directory none of them can be read afterwards.
   */
  lemma DeletePackageDirectoryAfterSave(v: Volume, storePath: Path, layout: PathLayout,
                                        package: PackageArchive, packageStream: Stream)
    requires WellFormed(v)
    requires SavePackage(v, storePath, layout, package, packageStream).1.Pass?
    ensures var saved := SavePackage(v, storePath, layout, package, packageStream).0;
            var identity := package.identity;
            var cleared := Clear(saved, PackageDirectory(storePath, identity));
            && cleared.1
            && (BlobsInPackageDirectory(storePath, layout, identity) ==>
                  && ReadFile(cleared.0, storePath + layout.packagePath(identity)).Failure?
                  && ReadFile(cleared.0, storePath + layout.nuspecPath(identity)).Failure?
                  && ReadFile(cleared.0, storePath + layout.readmePath(identity)).Failure?)
  {
  }

  class FilePackageStorageService {
    const storePath: Path
    const layout: PathLayout
    const fs: FileSystem

    ghost predicate Valid()
      reads fs
    {
      fs.Valid()
    }

    constructor (storePath: Path, layout: PathLayout, fs: FileSystem)
      ensures this.storePath == storePath && this.layout == layout && this.fs == fs
    {
      this.storePath, this.layout, this.fs := storePath, layout, fs;
    }

    /** The constructor's null check: a null store path is refused. */
    static method Create(storePath: Option<Path>, layout: PathLayout, fs: FileSystem)
      returns (r: Result<FilePackageStorageService, ArgumentNullException>)
      ensures storePath.None? <==> r.Failure?
      ensures r.Failure? ==> r.error == ArgumentNull("storePath")
      ensures r.Success? ==> r.value.storePath == storePath.value && r.value.fs == fs && r.value.layout == layout
    {
      if storePath.None? {
        return Failure(ArgumentNull("storePath"));
      }
      var service := new FilePackageStorageService(storePath.value, layout, fs);
      r := Success(service);
    }

    method SavePackageStream(package: PackageArchive, packageStream: Stream) returns (r: Outcome<StorageFault>)
      requires Valid()
      modifies fs
      ensures Valid()
      ensures (fs.State(), r) == SavePackage(old(fs.State()), storePath, layout, package, packageStream)
    {
      var identity := package.identity;
      var packagePath := storePath + layout.packagePath(identity);
      var nuspecPath := storePath + layout.nuspecPath(identity);
      var readmePath := storePath + layout.readmePath(identity);

      var made := EnsurePathExists(identity);
      if made.Fail? {
        return Fail(Io(made.error));
      }
      var written := fs.CreateNew(packagePath, CopyFromStart(packageStream));
      if written.Fail? {
        return Fail(Io(written.error));
      }
      if package.nuspec.None? {
        return Fail(EntryUnreadable);
      }
      written := fs.CreateNew(nuspecPath, package.nuspec.value);
      if written.Fail? {
        return Fail(Io(written.error));
      }
      if package.readme.None? {
        return Fail(EntryUnreadable);
      }
      written := fs.CreateNew(readmePath, package.readme.value);
      if written.Fail? {
        return Fail(Io(written.error));
      }
      r := Pass;
    }

    /** Creates `storePath/id/normalizedVersion`; when it already exists, nothing changes. */
    method EnsurePathExists(identity: PackageIdentity) returns (r: Outcome<IoError>)
      requires Valid()
      modifies fs
      ensures Valid()
      ensures (fs.State(), r) == MakeDirectory(old(fs.State()), PackageDirectory(storePath, identity))
      ensures IsDirectory(old(fs.State()), PackageDirectory(storePath, identity)) ==>
                r == Pass && fs.State() == old(fs.State())
    {
      if IsDirectory(fs.State(), PackageDirectory(storePath, identity)) {
        MakeExistingDirectoryIsNoOp(fs.State(), PackageDirectory(storePath, identity));
      }
      r := fs.CreateDirectory(PackageDirectory(storePath, identity));
    }

    function GetPackageStream(identity: PackageIdentity): (r: Result<Stream, IoError>)
      reads fs
      ensures r.Success? <==> storePath + layout.packagePath(identity) in fs.files
      ensures r.Success? ==> r.value == Stream(fs.files[storePath + layout.packagePath(identity)], 0)
    {
      GetFileStream(layout.packagePath(identity))
    }

    function GetNuspecStream(identity: PackageIdentity): (r: Result<Stream, IoError>)
      reads fs
      ensures r.Success? <==> storePath + layout.nuspecPath(identity) in fs.files
      ensures r.Success? ==> r.value == Stream(fs.files[storePath + layout.nuspecPath(identity)], 0)
    {
      GetFileStream(layout.nuspecPath(identity))
    }

    function GetReadmeStream(identity: PackageIdentity): (r: Result<Stream, IoError>)
      reads fs
      ensures r.Success? <==> storePath + layout.readmePath(identity) in fs.files
      ensures r.Success? ==> r.value == Stream(fs.files[storePath + layout.readmePath(identity)], 0)
    {
      GetFileStream(layout.readmePath(identity))
    }

    /** Opens the existing file at `storePath` joined with `path`, positioned at its start. */
    function GetFileStream(path: Path): (r: Result<Stream, IoError>)
      reads fs
      ensures r.Success? <==> storePath + path in fs.files
      ensures r.Success? ==> r.value == Stream(fs.files[storePath + path], 0)
    {
      match ReadFile(fs.State(), storePath + path)
      case Success(content) => Success(Stream(content, 0))
      case Failure(e) => Failure(e)
    }

    /**
     * Deletes the content of the directory named by `storePath` joined with
     * the readme path; any failure is caught and reported as false.
     */
    method Delete(identity: PackageIdentity) returns (result: bool)
      requires Valid()
      modifies fs
      ensures Valid()
      ensures (fs.State(), result) == Clear(old(fs.State()), storePath + layout.readmePath(identity))
    {
      var packagePath := storePath + layout.readmePath(identity);
      result := ClearDirectory(packagePath);
    }

    /** `Delete` as evidently intended: it clears the package directory. */
    method DeletePackageDirectory(identity: PackageIdentity) returns (result: bool)
      requires Valid()
      modifies fs
      ensures Valid()
      ensures (fs.State(), result) == Clear(old(fs.State()), PackageDirectory(storePath, identity))
    {
      result := ClearDirectory(PackageDirectory(storePath, identity));
    }

    /**
     * Deletes every file directly inside `dir`, then every directory directly
     * inside it with all it holds, and reports true; reports false, deleting
     * nothing, when `dir` cannot be enumerated.
     */
    method ClearDirectory(dir: Path) returns (result: bool)
      requires Valid()
      modifies fs
      ensures Valid()
      ensures (fs.State(), result) == Clear(old(fs.State()), dir)
    {
      result := false;
      var fileListing := ListFiles(fs.State(), dir);
      if fileListing.Failure? {
        return;
      }
      ghost var v0 := fs.State();
      var childFiles := fileListing.value;
      var pending := childFiles;
      while pending != {}
        invariant pending <= childFiles
        invariant fs.Valid()
        invariant fs.dirs == v0.dirs
        invariant forall p :: p in fs.files <==> p in v0.files && p !in childFiles - pending
        invariant forall p :: p in fs.files ==> fs.files[p] == v0.files[p]
        decreases pending
      {
        var f :| f in pending;
        fs.DeleteFile(f);
        pending := pending - {f};
      }

      ghost var v1 := fs.State();
      assert forall p :: p in v1.files <==> p in v0.files && p !in childFiles;
      var dirListing := ListDirectories(fs.State(), dir);
      var childDirs := dirListing.value;
      pending := childDirs;
      while pending != {}
        invariant pending <= childDirs
        invariant fs.Valid()
        invariant forall p :: p in fs.files <==> p in v1.files && !Covered(p, childDirs - pending)
        invariant forall p :: p in fs.files ==> fs.files[p] == v1.files[p]
        invariant forall p :: p in fs.dirs <==> p in v1.dirs && !Covered(p, childDirs - pending)
        decreases pending
      {
        var d :| d in pending;
        forall root | root in childDirs - pending
          ensures !(root <= d)
        {
          assert |root| == |d|;
          assert root <= d ==> root == d;
        }
        ghost var before := fs.State();
        fs.DeleteDirectory(d);
        RemoveTreeExtendsCover(v1, before, childDirs - pending, d);
        assert childDirs - (pending - {d}) == (childDirs - pending) + {d};
        pending := pending - {d};
      }

      assert childDirs == ChildDirs(v0, dir) && childFiles == ChildFiles(v0, dir);
      assert childDirs - pending == childDirs;
      ChildrenDeletedIsEmptied(v0, dir, fs.State());
      result := true;
    }
  }
}
