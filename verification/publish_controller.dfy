/**
 * The publish endpoints: upload through the indexer, delete across the two
 * stores, and relist. The indexer's work is not part of this model; what it
 * returns for an upload is given to `Upload` as an input.
 */
module PublishControllers {
  import opened Common
  import opened NuGet
  import opened PackageServices
  import opened FileSystem
  import opened PackageStorage

  datatype IndexingResult = InvalidPackage | PackageAlreadyExists | Success

  /** What indexing an upload came to: a result, or an exception. */
  datatype IndexingOutcome = Indexed(result: IndexingResult) | Threw

  /** The indexing service, seen from the controller: the uploads it was handed. */
  class IndexingService {
    var received: seq<Bytes>

    constructor ()
      ensures received == []
    {
      received := [];
    }

    method Index(upload: Bytes, outcome: IndexingOutcome) returns (r: IndexingOutcome)
      modifies this
      ensures received == old(received) + [upload]
      ensures r == outcome
    {
      received := received + [upload];
      r := outcome;
    }
  }

  /** The logger; what it records is not part of this model. */
  class Logger {
    constructor ()
    {
    }
  }

  datatype ActionResult =
    | Ok
    | NoContent
    | NotFound
    | StatusCode(code: int, message: string)

  const DeleteFailedMessage := "Error during delete the package from file system"

  class PackagePublishController {
    const indexer: IndexingService
    const packages: PackageService
    const storage: FilePackageStorageService
    const logger: Logger
    /** `HttpContext.Response.StatusCode`. */
    var responseStatus: int

    ghost predicate Valid()
      reads packages.context, storage.fs
    {
      packages.Valid() && storage.Valid()
    }

    constructor (indexer: IndexingService, packages: PackageService,
                 storage: FilePackageStorageService, logger: Logger)
      ensures this.indexer == indexer && this.packages == packages
      ensures this.storage == storage && this.logger == logger
    {
      this.indexer, this.packages, this.storage, this.logger := indexer, packages, storage, logger;
      responseStatus := 200;
    }

    /** The constructor's null checks: each dependency is required. */
    static method Create(indexer: IndexingService?, packages: PackageService?,
                         storage: FilePackageStorageService?, logger: Logger?)
      returns (r: Result<PackagePublishController, ArgumentNullException>)
      ensures indexer == null ==> r == Failure(ArgumentNull("indexer"))
      ensures indexer != null && packages == null ==> r == Failure(ArgumentNull("packages"))
      ensures indexer != null && packages != null && storage == null ==> r == Failure(ArgumentNull("storage"))
      ensures indexer != null && packages != null && storage != null && logger == null ==>
                r == Failure(ArgumentNull("logger"))
      ensures indexer != null && packages != null && storage != null && logger != null ==> r.Success?
      ensures r.Success? ==>
                && r.value.indexer == indexer && r.value.packages == packages
                && r.value.storage == storage && r.value.logger == logger
    {
      if indexer == null {
        return Failure(ArgumentNull("indexer"));
      }
      if packages == null {
        return Failure(ArgumentNull("packages"));
      }
      if storage == null {
        return Failure(ArgumentNull("storage"));
      }
      if logger == null {
        return Failure(ArgumentNull("logger"));
      }
      var controller := new PackagePublishController(indexer, packages, storage, logger);
      r := Result.Success(controller);
    }

    /**
     * A missing file is a bad request and never reaches the indexer;
     * otherwise the indexing result decides the status, and an exception
     * becomes a server error.
     */
    method Upload(package: Option<Bytes>, indexing: IndexingOutcome)
      modifies this, indexer
      ensures package.None? ==> responseStatus == 400 && indexer.received == old(indexer.received)
      ensures package.Some? ==> indexer.received == old(indexer.received) + [package.value]
      ensures package.Some? ==>
                responseStatus == match indexing
                                  case Threw => 500
                                  case Indexed(InvalidPackage) => 400
                                  case Indexed(PackageAlreadyExists) => 409
                                  case Indexed(Success) => 201
    {
      if package.None? {
        responseStatus := 400;
        return;
      }
      var outcome := indexer.Index(package.value, indexing);
      match outcome {
        case Threw =>
          responseStatus := 500;
        case Indexed(result) =>
          match result {
            case InvalidPackage => responseStatus := 400;
            case PackageAlreadyExists => responseStatus := 409;
            case Success => responseStatus := 201;
          }
      }
    }

    /**
     * `version` is what parsing the requested version text gave. The metadata
     * row goes first; the content is touched only once that removal
     * succeeded, and a content failure then leaves the row already gone.
     */
    method Delete(id: string, version: Option<NuGetVersion>) returns (r: ActionResult)
      requires Valid()
      modifies packages.context, storage.fs
      ensures Valid()
      ensures version.None? ==> r == NotFound && unchanged(packages.context, storage.fs)
      ensures version.Some? && PackageKey(id, ToNormalizedString(version.value)) !in old(packages.context.packages) ==>
                r == NotFound && unchanged(packages.context, storage.fs)
      ensures version.Some? && PackageKey(id, ToNormalizedString(version.value)) in old(packages.context.packages) ==>
                var key := PackageKey(id, ToNormalizedString(version.value));
                var cleared := Clear(old(storage.fs.State()),
                                     storage.storePath + storage.layout.readmePath(PackageIdentity(id, version.value)));
                && packages.context.packages == old(packages.context.packages) - {key}
                && storage.fs.State() == cleared.0
                && r == if cleared.1 then NoContent else StatusCode(500, DeleteFailedMessage)
    {
      if version.None? {
        return NotFound;
      }
      var unlisted := packages.Unlist(id, version.value);
      if unlisted {
        var identity := PackageIdentity(id, version.value);
        var deleted := storage.Delete(identity);
        if deleted {
          r := NoContent;
        } else {
          r := StatusCode(500, DeleteFailedMessage);
        }
      } else {
        r := NotFound;
      }
    }

    /** Ok exactly when the metadata store reports that relisting wrote the row. */
    method Relist(id: string, version: Option<NuGetVersion>) returns (r: ActionResult)
      requires Valid()
      modifies packages.context
      ensures Valid()
      ensures version.None? ==> r == NotFound && unchanged(packages.context)
      ensures version.Some? ==>
                var key := PackageKey(id, ToNormalizedString(version.value));
                if key in old(packages.context.packages) then
                  && packages.context.packages ==
                       old(packages.context.packages)[key := old(packages.context.packages)[key].(listed := true)]
                  && r == if old(packages.context.packages)[key].listed then NotFound else Ok
                else
                  r == NotFound && unchanged(packages.context)
    {
      if version.None? {
        return NotFound;
      }
      var relisted := packages.Relist(id, version.value);
      if relisted {
        r := Ok;
      } else {
        r := NotFound;
      }
    }
  }
}
