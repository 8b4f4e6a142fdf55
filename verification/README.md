# BaGet package registry core, modelled in Dafny

This project models the core of BaGet, a NuGet package registry: the
metadata store (`PackageService`), the file-system content store
(`FilePackageStorageService`) and the publish controller that puts the two
together (`PackagePublishController`).

- **Metadata store** (`package_service.dfy`, module `PackageServices`). The
  database context is a class holding the `Packages` table as a map keyed by
  `(Id, VersionString)`, the columns of the unique constraint. `PackageService`
  inserts rows, queries them, removes them (that is what unlisting does in
  this code), sets `Listed` and raises `Downloads`. Each mutating method says
  exactly what the new table is and keeps every row stored under its own key.
  `SaveChangesAsync` row counts are modelled as the set of rows that differ
  before and after the change. So relisting a package that is already listed
  writes nothing and reports false.
- **File system** (`file_system.dfy`, module `FileSystem`). This is the part of
  `System.IO` the content store uses. A `Volume` maps file paths to bytes and
  holds a set of directory paths. Its operations are pure functions: create a
  directory with its ancestors, create a file write-once, read, list, delete a
  file, delete a tree. The `FileSystem` class is proved against them. Every
  operation keeps the volume a well-formed tree.
- **Content store** (`file_storage.dfy`, module `PackageStorage`). Saving is
  specified by the function `SavePackage`. It makes `storePath/id/normalizedVersion`,
  then writes the archive, the nuspec and the readme as new files, in that
  order. It stops at the first failure and rolls nothing back. Lemmas prove:
  - a successful save adds exactly the three blobs and the package directory with its missing ancestors;
  - the blobs read back as written;
  - an existing archive file is refused, and a save with nothing in its way succeeds;
  - a failure at the nuspec step or the readme step leaves the earlier files in place;
  - the stream's position does not matter.

  Deletion is the two loops of `DeleteAsync`, proved to leave exactly the
  directory emptied of everything inside it.
- **Publish controller** (`publish_controller.dfy`, module `PublishControllers`).
  Upload maps indexing results to status codes. Delete removes the metadata
  row first and touches content only after that succeeded. Relist maps the
  metadata store's answer to Ok or NotFound.

Version normalisation (`ToNormalizedString`) belongs to the NuGet library. A
`NuGetVersion` carries the normalized text the library would give it, and both
stores read it through the same function `NuGet.ToNormalizedString`. The path
helpers `PackagePath`, `NuspecPath` and `ReadmePath` are defined in a file
that is not part of this model. The content store receives them as a
`PathLayout` value and assumes nothing about them. Paths are sequences of
segments, and `Path.Combine` is concatenation.

Three behaviours of the code are modelled as written:
- Unlisting removes the row instead of clearing `Listed`.
- `DeleteAsync` catches every exception and returns false instead of passing
  the fault on.
- `DeleteAsync` enumerates the readme path instead of the package directory
  (see Findings).

## Model

| member | source | states |
|---|---|---|
| `NuGet.CopyFromStart` | src/BaGet.Core/Services/FilePackageStorageService.cs:31-33 | rewinding and then copying transfers the entire stream, wherever its position was |
| `NuGet.CopyWithoutSeekLosesPrefix` | src/BaGet.Core/Services/FilePackageStorageService.cs:31-33 | without the rewind, a stream already read part-way would be stored without its head |
| `PackageServices.RemoveWritesOneRow` | src/BaGet.Core/Services/PackageService.cs:79-81 | deleting a stored row makes the save write exactly that one row |
| `PackageServices.SetListedWrites` | src/BaGet.Core/Services/PackageService.cs:101-103 | setting `Listed` writes the row exactly when the flag changes, and writes nothing when it already had that value |
| `PackageServices.PackageService.Create` | src/BaGet.Core/Services/PackageService.cs:15-18 | a null context is refused with an ArgumentNullException naming `context`; otherwise the service uses that context and is valid whenever the context keeps its unique constraint |
| `PackageServices.PackageService.Add` | src/BaGet.Core/Services/PackageService.cs:20-35 | an absent key inserts exactly this row and returns Success; a present key returns PackageAlreadyExists and changes nothing; any other save failure reaches the caller and changes nothing |
| `PackageServices.PackageService.Exists` | src/BaGet.Core/Services/PackageService.cs:37-41 | true iff some stored row has this id and the version's normalized form |
| `PackageServices.PackageService.Find` | src/BaGet.Core/Services/PackageService.cs:43-50 | exactly the stored rows with this id |
| `PackageServices.PackageService.FindVersion` | src/BaGet.Core/Services/PackageService.cs:52-56 | a stored row with this id and normalized version, or none exactly when `Exists` is false |
| `PackageServices.PackageService.Unlist` | src/BaGet.Core/Services/PackageService.cs:58-62 | unlisting is removal: the row goes, nothing else changes, the result says whether it was there |
| `PackageServices.PackageService.Relist` | src/BaGet.Core/Services/PackageService.cs:64-67 | on a present row only `Listed` becomes true, and the result is true iff it was false before; an absent row gives false and no change |
| `PackageServices.PackageService.RemovePackage` | src/BaGet.Core/Services/PackageService.cs:69-91 | absent: false and no change; present: that row is deleted, all other rows are untouched, and the save's nonzero row count makes the result true |
| `PackageServices.PackageService.TryUpdatePackage` | src/BaGet.Core/Services/PackageService.cs:93-107 | absent: false and no change; present: only that row's `Listed` is set, and the result is whether the save wrote a row |
| `PackageServices.PackageService.AddDownload` | src/BaGet.Core/Services/PackageService.cs:109-116 | the row's `Downloads` rises by exactly one and nothing else changes; a missing row ends in a null dereference with no change |
| `PackageServices.UnlistTwice` | src/BaGet.Core/Services/PackageService.cs:58-91 | a second unlist of the same identity returns false, and the identity no longer exists |
| `PackageServices.RelistTwice` | src/BaGet.Core/Services/PackageService.cs:64-107 | a second relist returns false and leaves the same table as one relist: a present row has `Listed` set and nothing else changed, and an absent row gives false with the table unchanged |
| `FileSystem.AncestorIsDirectory` | src/BaGet.Core/Services/FilePackageStorageService.cs:107-113 | in a well-formed volume every proper ancestor of a file or directory is a directory |
| `FileSystem.Ancestry` | src/BaGet.Core/Services/FilePackageStorageService.cs:111-113 | the directories `CreateDirectory` adds (see `MakeDirectory`) are non-root prefixes of the requested path |
| `FileSystem.MakeDirectory` | src/BaGet.Core/Services/FilePackageStorageService.cs:111-113 | creating a directory keeps the volume a tree and touches no file. It succeeds exactly when no non-root prefix of the path is a file. On success the directory exists and the directories added are exactly its missing ancestors, `Ancestry(p)`. A failure changes nothing |
| `FileSystem.MakeExistingDirectoryIsNoOp` | src/BaGet.Core/Services/FilePackageStorageService.cs:107-114 | ensuring a directory that already exists succeeds and changes nothing |
| `FileSystem.CreateFile` | src/BaGet.Core/Services/FilePackageStorageService.cs:29 | create-new succeeds exactly when the parent directory exists and nothing stands at the path; it never overwrites, success adds exactly the new file, and failure changes nothing |
| `FileSystem.ReadFile` | src/BaGet.Core/Services/FilePackageStorageService.cs:57-62 | models `File.Open` for read as used at these lines: succeeds exactly on an existing file and yields its bytes; a directory is refused with AccessDenied |
| `FileSystem.ListFiles` | src/BaGet.Core/Services/FilePackageStorageService.cs:82 | models `DirectoryInfo.GetFiles` as used at this line: exactly the files directly inside the directory, and a failure when it is not a directory |
| `FileSystem.ListDirectories` | src/BaGet.Core/Services/FilePackageStorageService.cs:89 | models `DirectoryInfo.GetDirectories` as used at this line: exactly the directories directly inside the directory, and a failure when it is not a directory |
| `FileSystem.RemoveFile` | src/BaGet.Core/Services/FilePackageStorageService.cs:86 | deleting a file removes only that file and keeps the volume a tree |
| `FileSystem.RemoveTree` | src/BaGet.Core/Services/FilePackageStorageService.cs:93 | a recursive directory delete removes exactly that directory's tree and keeps the volume a tree |
| `FileSystem.Emptied` | src/BaGet.Core/Services/FilePackageStorageService.cs:80-94 | emptying a directory removes exactly what lies strictly inside it, keeps the directory itself and keeps the volume a tree |
| `FileSystem.SubtreeIsChildrenAndTheirTrees` | src/BaGet.Core/Services/FilePackageStorageService.cs:80-94 | everything strictly inside a directory is a direct file or lies under a direct subdirectory, so the two enumerations reach the whole subtree |
| `FileSystem.RemoveTreeExtendsCover` | src/BaGet.Core/Services/FilePackageStorageService.cs:89-94 | each further subdirectory delete removes that subdirectory's tree as well as those removed before |
| `FileSystem.ChildrenDeletedIsEmptied` | src/BaGet.Core/Services/FilePackageStorageService.cs:80-94 | deleting the direct files and then the direct subdirectories' trees leaves exactly the emptied directory |
| `FileSystem.FileSystem.CreateDirectory` | src/BaGet.Core/Services/FilePackageStorageService.cs:113 | the file system's new state and outcome are those of `MakeDirectory` |
| `FileSystem.FileSystem.CreateNew` | src/BaGet.Core/Services/FilePackageStorageService.cs:29 | the file system's new state and outcome are those of `CreateFile` |
| `FileSystem.FileSystem.DeleteFile` | src/BaGet.Core/Services/FilePackageStorageService.cs:86 | the file system's new state is that of `RemoveFile` |
| `FileSystem.FileSystem.DeleteDirectory` | src/BaGet.Core/Services/FilePackageStorageService.cs:93 | the file system's new state is that of `RemoveTree` |
| `PackageStorage.SavePackage` | src/BaGet.Core/Services/FilePackageStorageService.cs:19-47 | saving keeps the volume a tree, never changes an existing file, and on success the package directory exists; `SaveAddsExactlyTheBlobs` gives the exact state after success |
| `PackageStorage.SaveThenRead` | src/BaGet.Core/Services/FilePackageStorageService.cs:19-62 | after a successful save, reading the archive, nuspec and readme back yields the whole stream and the reader's nuspec and readme |
| `PackageStorage.SaveRefusesExistingArchive` | src/BaGet.Core/Services/FilePackageStorageService.cs:26-29 | a file already at the archive path makes the save fail with every file unchanged |
| `PackageStorage.SaveDoesNotRollBack` | src/BaGet.Core/Services/FilePackageStorageService.cs:29-40 | when the archive is written and the nuspec step fails for any reason (the reader throws, or the file cannot be created), the save fails and the new archive stays |
| `PackageStorage.SaveReadmeStepDoesNotRollBack` | src/BaGet.Core/Services/FilePackageStorageService.cs:29-46 | when the archive and nuspec are written and the readme step fails for any reason (the reader throws, or the file cannot be created), the save fails and both earlier files stay: the readme is written last |
| `PackageStorage.SaveAddsExactlyTheBlobs` | src/BaGet.Core/Services/FilePackageStorageService.cs:19-47 | a successful save adds exactly the archive, nuspec and readme files with the stream and the reader's contents, plus the package directory and its ancestors, and nothing else |
| `PackageStorage.SaveSucceedsWhenFree` | src/BaGet.Core/Services/FilePackageStorageService.cs:19-47 | the converse of the refusals: when the reader yields both entries, no prefix of the package directory is a file, and the three blobs are distinct free names directly inside it, the save succeeds |
| `PackageStorage.SaveIgnoresStreamPosition` | src/BaGet.Core/Services/FilePackageStorageService.cs:29-34 | two streams with the same content save identically whatever their positions |
| `PackageStorage.DeleteAfterSaveFails` | src/BaGet.Core/Services/FilePackageStorageService.cs:64-104 | after a successful save, deleting as written fails and deletes nothing, because the readme path is a file |
| `PackageStorage.DeletePackageDirectoryAfterSave` | src/BaGet.Core/Services/FilePackageStorageService.cs:107-113 | after a successful save, clearing the package directory succeeds, and when the blobs lie inside it none can be read afterwards |
| `PackageStorage.FilePackageStorageService.Create` | src/BaGet.Core/Services/FilePackageStorageService.cs:14-17 | a null store path is refused with an ArgumentNullException naming `storePath` |
| `PackageStorage.FilePackageStorageService.SavePackageStream` | src/BaGet.Core/Services/FilePackageStorageService.cs:19-47 | the file system's new state and the outcome are those of `SavePackage` |
| `PackageStorage.FilePackageStorageService.EnsurePathExists` | src/BaGet.Core/Services/FilePackageStorageService.cs:107-114 | makes `storePath/id/normalizedVersion`; when it already exists the call succeeds and changes nothing |
| `PackageStorage.FilePackageStorageService.GetPackageStream` | src/BaGet.Core/Services/FilePackageStorageService.cs:49-53 | opens the archive: succeeds exactly when the file exists, and yields its bytes at position 0 |
| `PackageStorage.FilePackageStorageService.GetNuspecStream` | src/BaGet.Core/Services/FilePackageStorageService.cs:50-54 | opens the nuspec: succeeds exactly when the file exists, and yields its bytes at position 0 |
| `PackageStorage.FilePackageStorageService.GetReadmeStream` | src/BaGet.Core/Services/FilePackageStorageService.cs:51-55 | opens the readme: succeeds exactly when the file exists, and yields its bytes at position 0 |
| `PackageStorage.FilePackageStorageService.GetFileStream` | src/BaGet.Core/Services/FilePackageStorageService.cs:57-62 | opens the existing file at the store path joined with the relative path, at position 0, and fails when it is absent |
| `PackageStorage.FilePackageStorageService.Delete` | src/BaGet.Core/Services/FilePackageStorageService.cs:64-105 | clears the directory named by the readme path; it never fails outward, and the result is false with nothing changed when that path is not a directory |
| `PackageStorage.FilePackageStorageService.DeletePackageDirectory` | src/BaGet.Core/Services/FilePackageStorageService.cs:107-111 | the corrected delete: clears `storePath/id/normalizedVersion` |
| `PackageStorage.FilePackageStorageService.ClearDirectory` | src/BaGet.Core/Services/FilePackageStorageService.cs:78-97 | deletes every direct file and then every direct subdirectory with its tree, and reports true, leaving exactly the emptied directory; false with no change when the directory cannot be enumerated |
| `PublishControllers.IndexingService.Index` | src/BaGet/Controllers/PackagePublishController.cs:44 | the indexer is handed the upload, and its outcome is passed back |
| `PublishControllers.PackagePublishController.Create` | src/BaGet/Controllers/PackagePublishController.cs:19-29 | each null dependency is refused, the first one in parameter order being the one named; four non-null dependencies give a controller holding them |
| `PublishControllers.PackagePublishController.Upload` | src/BaGet/Controllers/PackagePublishController.cs:32-68 | a missing file gives 400 without calling the indexer; otherwise InvalidPackage gives 400, PackageAlreadyExists 409, Success 201, and an exception 500 |
| `PublishControllers.PackagePublishController.Delete` | src/BaGet/Controllers/PackagePublishController.cs:70-94 | an unparsable version or an absent row gives NotFound with both stores unchanged; otherwise the row is removed first and only then is content deleted, giving NoContent, or 500 with the row already gone |
| `PublishControllers.PackagePublishController.Relist` | src/BaGet/Controllers/PackagePublishController.cs:96-111 | an unparsable version gives NotFound with no change; otherwise Ok exactly when relisting wrote the row, else NotFound |

## Left out

- EF Core machinery is not modelled: the change tracker, the surrogate primary key, `DbSet` queries and `DbUpdateException` inspection. The table is a map keyed by `(Id, VersionString)`. A row count is the number of rows whose value changed. A rejected insert is not left tracked in the context.
- Cascade deletion of dependency groups is database configuration. The groups are part of the row and go with it.
- Concurrency is left out: racing inserts of the same identity, lost download increments, and deletes racing saves. Every operation runs alone.
- Case-insensitive comparison of ids depends on the database collation. Ids are compared exactly.
- Paths compare exactly, as on a case-sensitive file system. On a case-insensitive volume, `Directory.CreateDirectory` and `File.Open(…, CreateNew)` treat names differing only in case as the same entry; the model treats them as different.
- The NuGet library is left out. `NuGetVersion.TryParse` is an input to `Delete` and `Relist` (`None` for unparsable text). Normalisation is the `normalized` field of a version. The archive reader is the `PackageArchive` value it yields.
- `PackageStorage.SavePackage`: a reader that returns a null nuspec or readme stream is not modelled. The source would then create an empty file before failing. A reader failure is modelled as happening before the file is opened.
- `PackageStorage.SavePackage`: a file is created together with its content. A copy that fails after `File.Open` would leave an empty file in the source; the model cannot produce that.
- `PackageStorage.FilePackageStorageService.ClearDirectory`: deleting an enumerated file or subdirectory always succeeds. So the model cannot represent a locked file that makes the source stop part-way and return false; in the model `DeleteAsync` returns false only when the enumeration fails.
- The path helpers and path text are left out. Separators, rooted second arguments to `Path.Combine` and invalid characters are not modelled. Paths are sequences of segments.
- `PackageServices.PackageService.RemovePackage`: a failing `SaveChangesAsync` (source line 81), which would reach the caller, is not modelled; only `Add` takes a store fault.
- `PackageServices.PackageService.TryUpdatePackage`: a failing `SaveChangesAsync` (source line 103), which would reach the caller, is not modelled.
- `PackageServices.PackageService.AddDownload`: a failing `SaveChangesAsync` (source line 115), which would reach the caller, is not modelled.
- `PackageServices.PackageService.Find`: returns a set, so the order of the list the database returns is not modelled.
- `PublishControllers.PackagePublishController.Upload`: the upload is given as its bytes. An exception from `OpenReadStream` is not modelled separately; it would take the same 500 path as an indexer exception.
- Only the call to the indexer at `src/BaGet/Controllers/PackagePublishController.cs:44` is modelled, by the stand-in `IndexingService`. The indexer's own work (parsing, calling both stores) is left out, and its outcome is an input.
- Logging (`Console.Write`, `ILogger`) is left out.
- `src/BaGet/Extensions/LINQExtensions.cs` (query composition helpers) and `src/BaGet.Core/Entities/IContext.cs` (an interface with no logic) are left out; neither contains logic to state.

## Findings

| source | as written | input that shows it | evidently intended | confidence | as-written member | corrected member |
|---|---|---|---|---|---|---|
| src/BaGet.Core/Services/FilePackageStorageService.cs:70 | `DeleteAsync` enumerates `storePath` joined with `ReadmePath()`, the path where saving creates the readme file | any package saved successfully and then deleted: the enumeration of a file path throws, the catch returns false, no blob is deleted, and the controller answers 500 after the metadata row is already gone | enumerate the package directory `storePath/id/normalizedVersion` that saving creates | high (not executed) | `PackageStorage.DeleteAfterSaveFails` | `PackageStorage.DeletePackageDirectoryAfterSave` |

`PackageStorage.FilePackageStorageService.Delete` models the code as written.
`PackageStorage.DeleteAfterSaveFails` proves that, after a successful save,
`Delete` fails and leaves everything in place.
`PackageStorage.FilePackageStorageService.DeletePackageDirectory` is the
corrected operation. `PackageStorage.DeletePackageDirectoryAfterSave` proves
that it succeeds after a save. When the blobs lie inside the package
directory, none of them can be read afterwards. The controller model keeps
calling `Delete`, because it describes the controller as the repository
wires it.
